/** The pieces together: classification to KEM level, handshake, then the encrypted relay. */
module Gateway {
  import opened Bytes
  import opened Crypto
  import opened Exchange
  import opened Framing
  import opened Handshake
  import opened HandshakePair
  import opened Relay
  import HandshakeAgreement
  import PathMonitor
  import PathTheorems

  /**
   * From one end to the other. After a completed handshake the gateway writes a flow under the key it
   * derived. Whatever part of that flow has been written, and however much of it is still in the
   * channel, the receiver, with the key it derived and
   * reading on from where its handshake stopped, delivers exactly the messages whose frames have
   * arrived whole: in order, the first of those the gateway counted, less any it fails to open.
   */
  lemma EndToEnd(c: Primitives, i: Initiator, r: Responder, capIR: nat, capRI: nat, run: seq<State>, k: nat,
                 f: Flow, failing: set<nat>)
    requires Lawful(c) && capIR >= 1 && capRI >= 1
    requires IsRun(Pair(c, i, r, capIR, capRI), run) && k < |run|
    requires run[k].iEnd.Done? && run[k].rEnd.Done?
    requires ValidFlow(f) && PartOfOneFrame(f.part)
    requires run[k].app <= Wire(c, run[k].iEnd.key, f)
    ensures var whole := WholeFrames(Envelopes(c, run[k].iEnd.key, f.ivs, f.msgs), |run[k].app|);
      whole <= |f.msgs| && Delivered(c, run[k].rEnd.key, run[k].taken + run[k].ir, failing) == Surviving(f.msgs[..whole], failing)
    ensures run[k].app == Wire(c, run[k].iEnd.key, f) ==> Delivered(c, run[k].rEnd.key, run[k].taken + run[k].ir, {}) == f.msgs
  {
    CompletedHandshakeIsSynchronised(c, i, r, capIR, capRI, run, k);
    var key := run[k].iEnd.key;
    var wire, n := Wire(c, key, f), |run[k].app|;
    assert run[k].app == wire[..n];
    RelayDelivers(c, key, f, n, failing);
    if run[k].app == wire {
      RelayDeliversAll(c, key, f);
    }
  }

  /**
   * And every flow gets through: from any point of a completed session at which the gateway has written
   * some first part of a flow, or nothing yet, the run can be carried on until the receiver has read it
   * all and recovered every message, however long the flow is and however small the channel.
   */
  lemma FlowGetsThrough(c: Primitives, i: Initiator, r: Responder, capIR: nat, capRI: nat, run: seq<State>, f: Flow)
    returns (longer: seq<State>)
    requires Lawful(c) && capIR >= 1 && capRI >= 1
    requires IsRun(Pair(c, i, r, capIR, capRI), run)
    requires run[|run| - 1].iEnd.Done? && run[|run| - 1].rEnd.Done?
    requires ValidFlow(f) && PartOfOneFrame(f.part) && run[|run| - 1].app <= Wire(c, run[|run| - 1].iEnd.key, f)
    ensures IsRun(Pair(c, i, r, capIR, capRI), longer) && run <= longer
    ensures var s := longer[|longer| - 1];
      s.rEnd.Done? && s.taken == Wire(c, run[|run| - 1].iEnd.key, f) && Delivered(c, s.rEnd.key, s.taken, {}) == f.msgs
  {
    var u, n := Pair(c, i, r, capIR, capRI), |run| - 1;
    PairIsMatched(c, i, r, capIR, capRI);
    CompletedHandshakeIsSynchronised(c, i, r, capIR, capRI, run, n);
    longer := AppDataGetsThrough(u, run, Wire(c, run[n].iEnd.key, f));
    RelayDeliversAll(c, run[n].iEnd.key, f);
  }

  /** The session's own classification event gave it this level. */
  ghost predicate ClassifiedAs(es: seq<PathMonitor.Event>, sid: nat, level: byte) {
    exists e :: e in es && PathTheorems.Classifies(e, sid) && level == PathTheorems.Selected(e)
  }

  /**
   * A session of the gateway whose handshake both ends complete on a faithful stream runs at both ends
   * with the parameter set its classification chose, which is never below ML-KEM-768.
   */
  lemma CompletedSessionKeepsItsStrength(
      ss: seq<PathMonitor.Sys>, es: seq<PathMonitor.Event>, sid: nat,
      c: Primitives, i: Initiator, r: Responder, capIR: nat, capRI: nat, run: seq<State>, k: nat)
    requires PathMonitor.IsRun(ss, es) && sid in ss[|es|].sessions && ss[|es|].sessions[sid].level == Some(i.level)
    requires Lawful(c) && capIR >= 1 && capRI >= 1
    requires IsRun(Pair(c, i, r, capIR, capRI), run) && k < |run|
    requires run[k].iEnd.Done? && run[k].rEnd.Done?
    ensures ClassifiedAs(es, sid, i.level) && run[k].rGot != [] && run[k].rGot[0] == i.level
    ensures !Weaker(LevelToAlg(run[k].rGot[0]), Kem768)
  {
    CompletedHandshakeIsSynchronised(c, i, r, capIR, capRI, run, k);
    SessionLevelIsSelected(ss, es, sid, i.level);
  }

  /**
   * And in sizes: the ML-KEM key that such a session sent has 1568 bytes if the session found the word
   * "critical", and 1184 otherwise.
   */
  lemma CompletedSessionSendsItsKemKey(
      ss: seq<PathMonitor.Sys>, es: seq<PathMonitor.Event>, sid: nat, f: Option<string>, v: Option<string>,
      c: Primitives, i: Initiator, r: Responder, capIR: nat, capRI: nat, run: seq<State>, k: nat)
    requires PathMonitor.IsRun(ss, es) && PathMonitor.Ses(sid, PathMonitor.Classify(f, v)) in es
    requires sid in ss[|es|].sessions && ss[|es|].sessions[sid].level == Some(i.level)
    requires Lawful(c) && capIR >= 1 && capRI >= 1
    requires IsRun(Pair(c, i, r, capIR, capRI), run) && k < |run|
    requires run[k].iEnd.Done? && run[k].rEnd.Done?
    ensures var token := if f.Some? then f else v;
      var n := if token.Some? && SaysCritical(token.value) then 1568 else 1184;
      |run[k].rGot| >= 33 + n && run[k].rGot[33..33 + n] == c.kemPublic(LevelToAlg(i.level), i.kemSk)
  {
    assert es[..|es|] == es;
    PathTheorems.OnlyCriticalSessionsAreRaised(ss, es, |es|, sid, f, v);
    CompletedHandshakeIsSynchronised(c, i, r, capIR, capRI, run, k);
    SizesOfLevels(i.level);
    HelloIsValid(c, i);
    var hello, n := Hello(c, i), |c.kemPublic(LevelToAlg(i.level), i.kemSk)|;
    assert run[k].rGot[..|hello|] == hello && run[k].rGot[33..33 + n] == hello[33..];
  }

  lemma SessionLevelIsSelected(ss: seq<PathMonitor.Sys>, es: seq<PathMonitor.Event>, sid: nat, level: byte)
    requires PathMonitor.IsRun(ss, es) && sid in ss[|es|].sessions && ss[|es|].sessions[sid].level == Some(level)
    ensures ClassifiedAs(es, sid, level) && CRYPTO_FLOOR <= level <= ML_KEM_1024
  {
    var j := PathTheorems.LevelsClearTheFloor(ss, es, |es|, sid);
    assert es[j] in es;
  }

  /** The same over an arbitrary network, when the initiator demands a signature from an honest identity. */
  lemma AuthenticatedSessionKeepsItsStrength(
      ss: seq<PathMonitor.Sys>, es: seq<PathMonitor.Event>, sid: nat,
      c: Primitives, honest: set<Bytes>, ws: seq<HandshakeAgreement.World>, k: nat, id: nat) returns (rid: nat)
    requires Lawful(c) && HandshakeAgreement.IsWorldRun(c, honest, ws) && k < |ws|
    requires id in ws[k].inits && ws[k].inits[id].end.Done?
    requires ws[k].inits[id].me.auth.enabled && ws[k].inits[id].me.auth.pinned in honest
    requires PathMonitor.IsRun(ss, es) && sid in ss[|es|].sessions
    requires ss[|es|].sessions[sid].level == Some(ws[k].inits[id].me.level)
    ensures rid in ws[k].resps && HandshakeAgreement.RHasAnswer(c, ws[k].resps[rid])
    ensures HandshakeAgreement.AgreeOn(c, ws[k].inits[id], ws[k].resps[rid], ws[k].inits[id].end.key)
    ensures ClassifiedAs(es, sid, ws[k].resps[rid].got[0])
    ensures !Weaker(LevelToAlg(ws[k].resps[rid].got[0]), Kem768)
  {
    rid := HandshakeAgreement.InitiatorAgreement(c, honest, ws, k, id);
    SessionLevelIsSelected(ss, es, sid, ws[k].inits[id].me.level);
  }
}

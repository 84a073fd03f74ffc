/**
 * A handshake over faithful channels is one of the runs that HandshakeAgreement speaks of: its
 * hypotheses, ideal signatures included, are met by the sides themselves.
 */
module HandshakeEmbedding {
  import opened Bytes
  import opened Crypto
  import opened Exchange
  import opened Handshake
  import opened HandshakeAgreement
  import opened HandshakePair

  /** The two sides of a state as the only two sessions of a world. */
  function WorldOf(i: Initiator, r: Responder, s: State): World {
    World(map[0 := ISession(i, s.iGot, s.iSent, s.iEnd)], map[0 := RSession(r, s.rGot, s.rSent, s.rEnd)])
  }

  /** What the initiator has read verifies only if the responder has signed it. */
  lemma InitiatorReadsOnlySigned(c: Primitives, i: Initiator, r: Responder, u: Scripts, honest: set<Bytes>, s: State)
    requires Lawful(c) && PinsMatch(c, i, r)
    requires u.capIR >= 1 && u.capRI >= 1 && u == Pair(c, i, r, u.capIR, u.capRI)
    requires Inv(u, s)
    ensures IUnforged(c, honest, WorldOf(i, r, s), ISession(i, s.iGot, s.iSent, s.iEnd))
  {
    var w, me := WorldOf(i, r, s), ISession(i, s.iGot, s.iSent, s.iEnd);
    PairIsMatched(c, i, r, u.capIR, u.capRI);
    ScriptsFollow(u, s);
    if i.auth.enabled && IHasTranscript(me) {
      var base, n := ReplyLength(i.level), |s.iGot|;
      assert s.rSent > 0 && s.rGot == u.m1 && ResponderAccepts(c, i, r);
      ResponderSessionHasAnswer(c, i, r, s);
      var hello, reply := Hello(c, i), TheAnswer(c, i, r).reply;
      var sig := Signature(c, r.auth, hello + reply, r.sigCoins);
      HelloIsValid(c, i);
      ReplyIsValid(c, r, hello);
      assert u.m2 == reply + Prefixed(sig);
      assert s.iGot[..base] == reply;
      ReadBlockOfPrefix(i.auth, reply, sig, n);
      assert |s.iGot + s.ri| == s.rSent;
      if r.auth.enabled {
        assert RSigned(c, w.resps[0], i.auth.pinned, ITranscript(c, me));
      }
    }
  }

  lemma ResponderSessionHasAnswer(c: Primitives, i: Initiator, r: Responder, s: State)
    requires Lawful(c) && ResponderAccepts(c, i, r) && s.rGot == InitiatorFlight(c, i)
    ensures var me := RSession(r, s.rGot, s.rSent, s.rEnd);
      RHasAnswer(c, me) && RHello(me) == Hello(c, i) && RAnswer(c, me) == TheAnswer(c, i, r)
  {
    var hello := Hello(c, i);
    var sig := Signature(c, i.auth, hello, i.sigCoins);
    HelloIsValid(c, i);
    assert s.rGot == hello + Prefixed(sig);
    assert s.rGot[0] == i.level && s.rGot[..|hello|] == hello;
    ReadBlockOfPrefix(r.auth, hello, sig, |s.rGot|);
    assert s.rGot[..|s.rGot|] == s.rGot;
  }

  /** What the responder has read verifies only if the initiator has signed it. */
  lemma ResponderReadsOnlySigned(c: Primitives, i: Initiator, r: Responder, u: Scripts, honest: set<Bytes>, s: State)
    requires Lawful(c) && PinsMatch(c, i, r)
    requires u.capIR >= 1 && u.capRI >= 1 && u == Pair(c, i, r, u.capIR, u.capRI)
    requires Inv(u, s)
    ensures RUnforged(c, honest, WorldOf(i, r, s), RSession(r, s.rGot, s.rSent, s.rEnd))
  {
    var w, me := WorldOf(i, r, s), RSession(r, s.rGot, s.rSent, s.rEnd);
    PairIsMatched(c, i, r, u.capIR, u.capRI);
    ScriptsFollow(u, s);
    if r.auth.enabled && RHasHello(me) {
      var hello := Hello(c, i);
      var sig := Signature(c, i.auth, hello, i.sigCoins);
      HelloIsValid(c, i);
      assert u.m1 == hello + Prefixed(sig);
      assert s.rGot[0] == i.level && RHello(me) == hello;
      ReadBlockOfPrefix(r.auth, hello, sig, |s.rGot|);
      if i.auth.enabled {
        assert ISigned(c, w.inits[0], r.auth.pinned, hello);
      }
    }
  }

  /** A read by either side leaves what is signed as it was. */
  lemma InitiatorReadSignsNothing(c: Primitives, i: Initiator, r: Responder, s: State, s': State, pk: Bytes, m: Bytes)
    requires s' == s.(iGot := s'.iGot, ri := s'.ri)
    requires Signed(c, WorldOf(i, r, s'), pk, m)
    ensures Signed(c, WorldOf(i, r, s), pk, m)
  {
    var w, w' := WorldOf(i, r, s), WorldOf(i, r, s');
    assert w.resps == w'.resps;
    assert ISigned(c, w'.inits[0], pk, m) ==> ISigned(c, w.inits[0], pk, m);
  }

  lemma ResponderReadSignsNothing(c: Primitives, i: Initiator, r: Responder, s: State, s': State, pk: Bytes, m: Bytes)
    requires Lawful(c) && s' == s.(rGot := s'.rGot, ir := s'.ir) && s.rSent == 0
    requires Signed(c, WorldOf(i, r, s'), pk, m)
    ensures Signed(c, WorldOf(i, r, s), pk, m)
  {
    var w, w' := WorldOf(i, r, s), WorldOf(i, r, s');
    assert w.inits == w'.inits;
    assert !RSigned(c, w'.resps[0], pk, m);
  }

  lemma InitiatorReadIsItsSessions(c: Primitives, i: Initiator, r: Responder, u: Scripts, honest: set<Bytes>, s: State, k: nat)
    requires Lawful(c) && PinsMatch(c, i, r)
    requires u.capIR >= 1 && u.capRI >= 1 && u == Pair(c, i, r, u.capIR, u.capRI)
    requires Enabled(u, s, IRead(k)) && Inv(u, After(u, s, IRead(k)))
    ensures IStep(c, honest, WorldOf(i, r, s), 0, ISession(i, s.iGot + s.ri[..k], s.iSent, s.iEnd))
  {
    var s' := After(u, s, IRead(k));
    InitiatorReadsOnlySigned(c, i, r, u, honest, s');
    forall pk, t | Signed(c, WorldOf(i, r, s'), pk, t) ensures Signed(c, WorldOf(i, r, s), pk, t) {
      InitiatorReadSignsNothing(c, i, r, s, s', pk, t);
    }
  }

  lemma ReadingResponderHasWrittenNothing(u: Scripts, s: State)
    requires Matched(u) && Inv(u, s) && RNext(u, s).Recv?
    ensures s.rSent == 0
  {
    ScriptsFollow(u, s);
  }

  lemma ResponderReadIsItsSessions(c: Primitives, i: Initiator, r: Responder, u: Scripts, honest: set<Bytes>, s: State, k: nat)
    requires Lawful(c) && PinsMatch(c, i, r)
    requires u.capIR >= 1 && u.capRI >= 1 && u == Pair(c, i, r, u.capIR, u.capRI)
    requires Inv(u, s) && Enabled(u, s, RRead(k)) && Inv(u, After(u, s, RRead(k)))
    ensures RStep(c, honest, WorldOf(i, r, s), 0, RSession(r, s.rGot + s.ir[..k], s.rSent, s.rEnd))
  {
    var s' := After(u, s, RRead(k));
    ResponderReadsOnlySigned(c, i, r, u, honest, s');
    PairIsMatched(c, i, r, u.capIR, u.capRI);
    ReadingResponderHasWrittenNothing(u, s);
    forall pk, t | Signed(c, WorldOf(i, r, s'), pk, t) ensures Signed(c, WorldOf(i, r, s), pk, t) {
      ResponderReadSignsNothing(c, i, r, s, s', pk, t);
    }
  }

  lemma InitiatorMoveIsItsSessions(c: Primitives, i: Initiator, r: Responder, u: Scripts, s: State, m: Move)
    requires Enabled(u, s, m) && INext(u, s) == InitiatorNext(c, i, s.iGot, s.iSent)
    requires m.IWrite? || m.IReturn? || m.ILost? || m.IFault?
    ensures var w, w' := WorldOf(i, r, s), WorldOf(i, r, After(u, s, m));
      w'.resps == w.resps && (IWrites(c, w.inits[0], w'.inits[0]) || IEnds(c, w.inits[0], w'.inits[0]))
  {
  }

  lemma ResponderMoveIsItsSessions(c: Primitives, i: Initiator, r: Responder, u: Scripts, s: State, m: Move)
    requires Enabled(u, s, m) && RNext(u, s) == ResponderNext(c, r, s.rGot, s.rSent)
    requires m.RWrite? || m.RReturn? || m.RLost? || m.RFault?
    ensures var w, w' := WorldOf(i, r, s), WorldOf(i, r, After(u, s, m));
      w'.inits == w.inits && (RWrites(c, w.resps[0], w'.resps[0]) || REnds(c, w.resps[0], w'.resps[0]))
  {
  }

  lemma SessionStepIsAWorldStep(c: Primitives, honest: set<Bytes>, i: Initiator, r: Responder, s: State, s': State)
    requires var w, w' := WorldOf(i, r, s), WorldOf(i, r, s');
      || (w'.resps == w.resps && IStep(c, honest, w, 0, w'.inits[0]))
      || (w'.inits == w.inits && RStep(c, honest, w, 0, w'.resps[0]))
    ensures WorldStep(c, honest, WorldOf(i, r, s), WorldOf(i, r, s'))
  {
    var w, w' := WorldOf(i, r, s), WorldOf(i, r, s');
    assert w'.resps == w.resps ==> w' == w.(inits := w.inits[0 := w'.inits[0]]);
    assert w'.inits == w.inits ==> w' == w.(resps := w.resps[0 := w'.resps[0]]);
  }

  /** Each handshake move is a step of the world. */
  lemma MoveIsAWorldStep(c: Primitives, i: Initiator, r: Responder, u: Scripts, honest: set<Bytes>, s: State, m: Move)
    requires Lawful(c) && PinsMatch(c, i, r)
    requires u.capIR >= 1 && u.capRI >= 1 && u == Pair(c, i, r, u.capIR, u.capRI)
    requires Inv(u, s) && Enabled(u, s, m) && Inv(u, After(u, s, m))
    ensures WorldStep(c, honest, WorldOf(i, r, s), WorldOf(i, r, After(u, s, m)))
  {
    if m.IRead? {
      InitiatorReadIsItsSessions(c, i, r, u, honest, s, m.k);
    } else if m.RRead? {
      ResponderReadIsItsSessions(c, i, r, u, honest, s, m.k);
    } else if m.IWrite? || m.IReturn? || m.ILost? || m.IFault? {
      InitiatorMoveIsItsSessions(c, i, r, u, s, m);
    } else {
      ResponderMoveIsItsSessions(c, i, r, u, s, m);
    }
    SessionStepIsAWorldStep(c, honest, i, r, s, After(u, s, m));
  }

  /** Both sessions start. */
  lemma FirstWorlds(c: Primitives, i: Initiator, r: Responder, honest: set<Bytes>) returns (ws: seq<World>)
    ensures IsWorldRun(c, honest, ws) && ws[|ws| - 1] == WorldOf(i, r, INITIAL)
  {
    var first := World(map[0 := ISession(i, [], 0, Running)], map[]);
    var both := WorldOf(i, r, INITIAL);
    assert IStep(c, honest, EMPTY, 0, first.inits[0]) && first == EMPTY.(inits := EMPTY.inits[0 := first.inits[0]]);
    assert RStep(c, honest, first, 0, both.resps[0]) && both == first.(resps := first.resps[0 := both.resps[0]]);
    ws := [EMPTY, first, both];
  }

  /** A step of the pair is a step of the world, or moves application data and changes no session. */
  lemma StepIsAWorldStep(c: Primitives, i: Initiator, r: Responder, u: Scripts, honest: set<Bytes>, s: State, s': State)
    requires Lawful(c) && PinsMatch(c, i, r)
    requires u.capIR >= 1 && u.capRI >= 1 && u == Pair(c, i, r, u.capIR, u.capRI)
    requires Inv(u, s) && Step(u, s, s') && Inv(u, s')
    ensures WorldStep(c, honest, WorldOf(i, r, s), WorldOf(i, r, s')) || WorldOf(i, r, s') == WorldOf(i, r, s)
  {
    if m :| Enabled(u, s, m) && s' == After(u, s, m) {
      MoveIsAWorldStep(c, i, r, u, honest, s, m);
    }
  }

  lemma FrontOfARun(u: Scripts, run: seq<State>)
    requires IsRun(u, run) && |run| > 1
    ensures IsRun(u, run[..|run| - 1])
    ensures Step(u, run[|run| - 2], run[|run| - 1])
  {
    var k := |run| - 2;
    assert Step(u, run[k], run[k + 1]);
  }

  lemma LastStepIsAWorldStep(c: Primitives, i: Initiator, r: Responder, u: Scripts, honest: set<Bytes>, run: seq<State>)
    requires Lawful(c) && PinsMatch(c, i, r)
    requires u.capIR >= 1 && u.capRI >= 1 && u == Pair(c, i, r, u.capIR, u.capRI)
    requires IsRun(u, run) && |run| > 1
    ensures var w, w' := WorldOf(i, r, run[|run| - 2]), WorldOf(i, r, run[|run| - 1]);
      WorldStep(c, honest, w, w') || w' == w
  {
    PairIsMatched(c, i, r, u.capIR, u.capRI);
    FrontOfARun(u, run);
    RunKeepsInv(u, run, |run| - 2);
    RunKeepsInv(u, run, |run| - 1);
    StepIsAWorldStep(c, i, r, u, honest, run[|run| - 2], run[|run| - 1]);
  }

  /**
   * Every handshake of two sides with matching pinned keys over faithful channels is a run of the
   * world, whichever identities are called honest; the world ends as the handshake does.
   */
  lemma {:induction false} FaithfulRunIsAWorldRun(c: Primitives, i: Initiator, r: Responder, u: Scripts,
                                                  honest: set<Bytes>, run: seq<State>)
    returns (ws: seq<World>)
    requires Lawful(c) && PinsMatch(c, i, r)
    requires u.capIR >= 1 && u.capRI >= 1 && u == Pair(c, i, r, u.capIR, u.capRI)
    requires IsRun(u, run)
    ensures IsWorldRun(c, honest, ws) && ws[|ws| - 1] == WorldOf(i, r, run[|run| - 1])
    decreases |run|
  {
    if |run| == 1 {
      ws := FirstWorlds(c, i, r, honest);
    } else {
      FrontOfARun(u, run);
      ws := FaithfulRunIsAWorldRun(c, i, r, u, honest, run[..|run| - 1]);
      LastStepIsAWorldStep(c, i, r, u, honest, run);
      ws := ExtendWorldRun(c, honest, ws, WorldOf(i, r, run[|run| - 1]));
    }
  }

  lemma ExtendWorldRun(c: Primitives, honest: set<Bytes>, ws: seq<World>, w: World) returns (longer: seq<World>)
    requires IsWorldRun(c, honest, ws)
    requires WorldStep(c, honest, ws[|ws| - 1], w) || w == ws[|ws| - 1]
    ensures IsWorldRun(c, honest, longer) && longer[|longer| - 1] == w
  {
    longer := if w == ws[|ws| - 1] then ws else ws + [w];
    forall k | 0 <= k < |longer| - 1 ensures WorldStep(c, honest, longer[k], longer[k + 1]) {
      if k < |ws| - 1 {
        assert WorldStep(c, honest, ws[k], ws[k + 1]);
      }
    }
  }

  /**
   * So the agreement theorems are not about nothing: for every pair of authenticated sides that pin
   * each other's honest identities, clear the floor and are not refused by the primitives, there is a
   * world run in which both return 0.
   */
  lemma AuthenticatedRunExists(c: Primitives, i: Initiator, r: Responder, honest: set<Bytes>) returns (ws: seq<World>)
    requires Lawful(c) && PinsMatch(c, i, r) && Viable(c, i, r)
    requires i.auth.enabled && r.auth.enabled && i.auth.pinned in honest && r.auth.pinned in honest
    ensures IsWorldRun(c, honest, ws)
    ensures var w := ws[|ws| - 1];
      0 in w.inits && 0 in w.resps && w.inits[0].me == i && w.resps[0].me == r
      && w.inits[0].end.Done? && w.resps[0].end == w.inits[0].end
  {
    var u := Pair(c, i, r, 1, 1);
    var run := HandshakeRunsToTheEnd(c, i, r, 1, 1, [INITIAL]);
    HandshakeOutcome(c, i, r, 1, 1, run, |run| - 1);
    ws := FaithfulRunIsAWorldRun(c, i, r, u, honest, run);
  }

  /** Such a pair: two sides with distinct X25519 keys and ML-DSA identities of the right size. */
  lemma AuthenticatedPairExists() returns (c: Primitives, i: Initiator, r: Responder)
    ensures Lawful(c) && PinsMatch(c, i, r) && Viable(c, i, r) && i.auth.enabled && r.auth.enabled
    ensures |i.auth.pinned| == |r.auth.pinned| == SIG_PUBLIC_LEN && i.auth.pinned != r.auth.pinned
    ensures c.dhPublic(i.ecdhSk) != c.dhPublic(r.ecdhSk)
  {
    LawsAreConsistent();
    c := Toy();
    i := Initiator(SelectKem(Critical), [1], [], Auth(true, true, [1], c.sigPublic([2])), []);
    r := Responder([2], [], Auth(true, true, [2], c.sigPublic([1])), []);
    HelloIsValid(c, i);
    assert c.dhPublic([1])[0] != c.dhPublic([2])[0] && c.sigPublic([1])[0] != c.sigPublic([2])[0];
  }
}

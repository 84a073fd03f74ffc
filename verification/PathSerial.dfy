/**
 * The kernel's primary path against on_secondary, when ticks are not cut into and sessions come one
 * at a time. The monitor ignores whether the kernel accepts a switch; what that does is said exactly.
 */
module PathSerial {
  import opened Bytes
  import opened TransportPolicy
  import opened PathMonitor
  import opened PathTheorems

  predicate Resting(pc: MonitorPc) { pc.LoopTop? || pc.Sleeping? || pc.Stopped? }

  /** A session acts only between ticks, and arrives only when every other has finished. */
  predicate Serial(s: Sys, e: Event) {
    e.Ses? ==> Resting(s.m.pc) && (e.act.Arrive? ==> forall a :: a in s.sessions ==> s.sessions[a].pc == Finished)
  }

  predicate IsSerialRun(ss: seq<Sys>, es: seq<Event>) {
    IsRun(ss, es) && forall k :: 0 <= k < |es| ==> Serial(ss[k], es[k])
  }

  /** How many switch calls in a row the kernel has rejected, up to event k and since the last connect. */
  function Rejections(ss: seq<Sys>, es: seq<Event>, k: nat): nat
    requires IsRun(ss, es) && k <= |es|
  {
    if k == 0 then 0
    else
      var s, e, before := ss[k - 1], es[k - 1], Rejections(ss, es, k - 1);
      if e.Ses? then if e.act.Connect? then 0 else before
      else if !SwitchCall(s, e) then before
      else if e.move.ok then 0
      else before + 1
  }

  /** The flag, or the value the tick has already given the kernel and is about to store. */
  function PendingFlag(s: Sys): bool {
    if s.m.pc.SetFlag? then s.m.pc.value else s.onSecondary || s.m.pc.SetEarly?
  }

  /** The kernel's primary of fd is the pending address, or exactly not. */
  predicate PathIs(s: Sys, fd: int, agree: bool) {
    fd >= 0 && fd in s.open && (s.open[fd] == Preferred(PendingFlag(s)) <==> agree)
  }

  /** What one live session's locals say about the shared state. */
  predicate SessionAgrees(s: Sys, t: Session, agree: bool) {
    && (t.pc == Streaming ==> s.activeFd == t.fd)
    && (t.pc != Streaming && t.pc != Finished ==> s.activeFd == -1)
    && (t.pc == Connected || t.pc == Streaming ==> PathIs(s, t.fd, agree))
    && (t.pc == Preferring && t.first.Some? ==> t.first.value == Preferred(s.onSecondary))
    && ((t.pc == Arrived || t.pc == Classified) ==> t.first.None?)
  }

  /** Nothing changes the flag during a tick but the tick, so every switch call reverses it. */
  predicate Reverses(s: Sys) {
    match s.m.pc
    case Act => s.m.current == s.onSecondary && s.m.action == Decision(s.m)
    case SetFlag(v) => v == !s.onSecondary
    case SwitchEarly => !s.onSecondary
    case SetEarly => !s.onSecondary
    case _ => true
  }

  predicate AgreeInv(s: Sys, agree: bool) {
    && (forall a, b :: a in s.sessions && b in s.sessions && a != b ==>
          s.sessions[a].pc == Finished || s.sessions[b].pc == Finished)
    && (forall a :: a in s.sessions ==> SessionAgrees(s, s.sessions[a], agree))
    && (s.activeFd != -1 ==> PathIs(s, s.activeFd, agree))
    && ((forall a :: a in s.sessions ==> s.sessions[a].pc == Finished) ==> s.activeFd == -1)
    && (!Resting(s.m.pc) ==> s.m.fd == s.activeFd >= 0 && !s.m.resetDuring)
    && Reverses(s)
  }

  /** Whether kernel and flag agree after one event, if they did so or not before it. */
  predicate AgreeAfter(s: Sys, e: Event, agree: bool) {
    if e.Ses? then e.act.Connect? || agree else if SwitchCall(s, e) then e.move.ok || !agree else agree
  }

  lemma SessionKeepsAgreement(s: Sys, sid: nat, e: SessionEvent, agree: bool)
    requires AgreeInv(s, agree) && SessionAllowed(s, sid, e) && Serial(s, Ses(sid, e))
    ensures AgreeInv(ApplySession(s, sid, e), AgreeAfter(s, Ses(sid, e), agree))
  {
    var s', agree' := ApplySession(s, sid, e), AgreeAfter(s, Ses(sid, e), agree);
    assert PendingFlag(s) == s.onSecondary && PendingFlag(s') == s'.onSecondary;
    forall a | a in s'.sessions && a != sid ensures SessionAgrees(s', s'.sessions[a], agree') {
      assert s.sessions[a].pc == Finished;
    }
    assert SessionAgrees(s', s'.sessions[sid], agree');
  }

  lemma SwitchKeepsAgreement(s: Sys, e: MonitorEvent, agree: bool)
    requires AgreeInv(s, agree) && MonitorAllowed(s, e) && SwitchCall(s, Mon(e))
    ensures AgreeInv(ApplyMonitor(s, e), e.ok || !agree)
  {
    var s' := ApplyMonitor(s, e);
    assert PendingFlag(s) == s.onSecondary && PendingFlag(s') == !s.onSecondary;
    assert PathIs(s', s.activeFd, e.ok || !agree);
    forall a | a in s.sessions ensures SessionAgrees(s', s.sessions[a], e.ok || !agree) {
      assert SessionAgrees(s, s.sessions[a], agree);
    }
  }

  lemma MoveKeepsAgreement(s: Sys, e: MonitorEvent, agree: bool)
    requires AgreeInv(s, agree) && MonitorAllowed(s, e) && !SwitchCall(s, Mon(e))
    ensures AgreeInv(ApplyMonitor(s, e), agree)
  {
    var s' := ApplyMonitor(s, e);
    assert s'.open == s.open && PendingFlag(s') == PendingFlag(s);
    forall a | a in s.sessions ensures SessionAgrees(s', s.sessions[a], agree) {
      assert SessionAgrees(s, s.sessions[a], agree);
    }
  }

  lemma {:induction false} SerialRunAgrees(ss: seq<Sys>, es: seq<Event>, k: nat)
    requires IsSerialRun(ss, es) && k < |ss|
    ensures AgreeInv(ss[k], Rejections(ss, es, k) % 2 == 0)
  {
    if k == 0 {
    } else {
      var agree := Rejections(ss, es, k - 1) % 2 == 0;
      SerialRunAgrees(ss, es, k - 1);
      assert Serial(ss[k - 1], es[k - 1]) && StepAt(ss, es, k - 1);
      assert AgreeAfter(ss[k - 1], es[k - 1], agree) <==> Rejections(ss, es, k) % 2 == 0;
      match es[k - 1] {
        case Ses(sid, act) => SessionKeepsAgreement(ss[k - 1], sid, act, agree);
        case Mon(move) =>
          if SwitchCall(ss[k - 1], es[k - 1]) {
            SwitchKeepsAgreement(ss[k - 1], move, agree);
          } else {
            MoveKeepsAgreement(ss[k - 1], move, agree);
          }
      }
    }
  }

  /**
   * Between ticks, whatever the kernel makes of each switch: its primary for the registered association
   * is the address on_secondary names exactly when the number of calls it has rejected since it last
   * accepted one, or since the connect, is even. A second rejection undoes the harm of the first.
   */
  lemma KernelPathMatchesFlagIff(ss: seq<Sys>, es: seq<Event>, k: nat)
    requires IsSerialRun(ss, es) && k < |ss|
    requires Resting(ss[k].m.pc) && ss[k].activeFd != -1
    ensures ss[k].activeFd in ss[k].open
    ensures ss[k].open[ss[k].activeFd] == Preferred(ss[k].onSecondary) <==> Rejections(ss, es, k) % 2 == 0
  {
    SerialRunAgrees(ss, es, k);
  }

  /** Session events leave the thread where it is. */
  lemma {:induction false} ThreadStays(ss: seq<Sys>, es: seq<Event>, k: nat)
    requires IsPath(ss, es) && k < |ss| && forall j :: 0 <= j < k ==> es[j].Ses?
    ensures ss[k].m.pc == ss[0].m.pc
  {
    if k == 0 {
    } else {
      ThreadStays(ss, es, k - 1);
      assert StepAt(ss, es, k - 1);
    }
  }

  /** The kernel rejects the switch of a failover; its flag is stored all the same, and the tick ends. */
  const REJECTED: seq<Event> := [Mon(TakeAction(false)), Mon(StoreFlag), Mon(ReadEnforced(false))]

  lemma RejectedSwitch(s: Sys) returns (path: seq<Sys>)
    requires s.m.pc == Act && s.m.action == Failover && !s.onSecondary
    ensures IsPath(path, REJECTED) && path[0] == s
    ensures path[3].m.pc == LoopTop && path[3] == s.(onSecondary := true, m := path[3].m)
  {
    var s1 := ApplyMonitor(s, TakeAction(false));
    var s2 := ApplyMonitor(s1, StoreFlag);
    path := [s, s1, s2, ApplyMonitor(s2, ReadEnforced(false))];
  }

  /** A run that shows it: one rejected failover, and kernel and flag name different addresses. */
  lemma RejectedSwitchSplits() returns (ss: seq<Sys>, es: seq<Event>)
    ensures IsSerialRun(ss, es) && es == Opening(0, 5) + FAILING_TICK + REJECTED
    ensures var s := ss[16];
      s.m.pc == LoopTop && s.activeFd == 5 && s.open == map[5 := Primary] && s.onSecondary && Rejections(ss, es, 16) % 2 == 1
  {
    var front := FlowThenFailure();
    var rejected := RejectedSwitch(front[13]);
    es := Opening(0, 5) + FAILING_TICK + REJECTED;
    ss := JoinPaths(front, Opening(0, 5) + FAILING_TICK, rejected, REJECTED);
    forall k | 0 <= k < 16 ensures Serial(ss[k], es[k]) {
      if k < 7 {
        ThreadStays(ss, es, k);
      } else {
        assert es[k].Mon?;
      }
    }
    KernelPathMatchesFlagIff(ss, es, 16);
  }

  lemma {:induction false} NoneRejected(ss: seq<Sys>, es: seq<Event>, k: nat)
    requires IsRun(ss, es) && k < |ss|
    requires forall j :: 0 <= j < k && SwitchCall(ss[j], es[j]) ==> es[j].move.ok
    ensures Rejections(ss, es, k) == 0
  {
    if k == 0 {
    } else {
      NoneRejected(ss, es, k - 1);
      assert SwitchCall(ss[k - 1], es[k - 1]) ==> es[k - 1].move.ok;
    }
  }

  /** When the kernel accepts every switch, its primary is always the address on_secondary names. */
  lemma KernelPathMatchesFlag(ss: seq<Sys>, es: seq<Event>, k: nat)
    requires IsSerialRun(ss, es) && k < |ss|
    requires forall j :: 0 <= j < k && SwitchCall(ss[j], es[j]) ==> es[j].move.ok
    requires Resting(ss[k].m.pc) && ss[k].activeFd != -1
    ensures ss[k].activeFd in ss[k].open && ss[k].open[ss[k].activeFd] == Preferred(ss[k].onSecondary)
  {
    NoneRejected(ss, es, k);
    KernelPathMatchesFlagIff(ss, es, k);
  }

  /** In a serial run a tick that switches twice restores and then fails over, and keeps the flag. */
  lemma SerialDoubleSwitch(ss: seq<Sys>, es: seq<Event>, k: nat)
    requires IsSerialRun(ss, es) && k < |es| && es[k] == Mon(StoreEarly) && |ss[k].m.calls| == 2
    ensures ss[k].m.calls == [Primary, Secondary]
    ensures ss[k].m.current && ss[k + 1].onSecondary && ss[k].m.enforced
  {
    SerialRunAgrees(ss, es, k);
    SwitchesOfATick(ss, es, k);
    assert StepAt(ss, es, k);
    assert ss[k].m.calls == [Primary, Secondary];
    RestoreThenFailoverKeepsFlag(ss, es, k);
  }
}

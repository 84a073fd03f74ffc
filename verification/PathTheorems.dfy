/** What every run of the path monitor and its sessions keeps. */
module PathTheorems {
  import opened Bytes
  import opened Crypto
  import opened TransportPolicy
  import opened PathMonitor

  // ---- One tick of the monitor, over all interleavings ----

  function Decision(m: Monitor): TransportAction {
    DecideTransport(Some(m.verdict), m.pState == Active, Down(m.pState), m.sOk, m.current)
  }

  /** The switch calls that the decided action makes. */
  function ActionCalls(a: TransportAction): seq<Path> {
    if a == Failover then [Secondary] else if a == RestorePrimary then [Primary] else []
  }

  /** The switch calls of a tick: those of its action, then perhaps one early failover. */
  predicate TickCalls(m: Monitor) {
    && (m.calls == [] || m.calls == ActionCalls(Decision(m)) || m.calls == ActionCalls(Decision(m)) + [Secondary])
    && (|m.calls| == 2 ==> m.enforced && (Decision(m) == Failover ==> m.resetDuring))
  }

  /** What the thread knows at each point of its loop. */
  predicate TickInv(s: Sys) {
    var m := s.m;
    match m.pc
    case LoopTop => TickCalls(m)
    case Sleeping => TickCalls(m)
    case Stopped => TickCalls(m)
    case QueryPrimary => m.calls == []
    case QuerySecondary => m.calls == []
    case AskModels => m.calls == [] && m.pOk
    case ReadFlag => m.calls == [] && m.pOk
    case Act => m.calls == [] && m.pOk && m.action == Decision(m)
    case SetFlag(v) =>
      m.pOk && m.action == Decision(m) && m.action == (if v then Failover else RestorePrimary) && m.calls == ActionCalls(m.action)
    case Enforcing =>
      m.pOk && m.calls == ActionCalls(Decision(m)) && (Decision(m) == Failover ==> s.onSecondary || m.resetDuring)
    case SwitchEarly =>
      && m.pOk && m.enforced && m.sOk && PredictsFailure(m.net)
      && m.calls == ActionCalls(Decision(m)) && (Decision(m) == Failover ==> m.resetDuring)
    case SetEarly =>
      && m.pOk && m.enforced && m.sOk && PredictsFailure(m.net)
      && m.calls == ActionCalls(Decision(m)) + [Secondary] && (Decision(m) == Failover ==> m.resetDuring)
  }

  /** The part of a tick up to its decision. */
  predicate Early(e: MonitorEvent) {
    e.Stop? || e.TestLoop? || e.SafeFd? || e.PrimaryStatus? || e.SecondaryStatus? || e.Replies? || e.ReadPreference?
  }

  lemma EarlyMoveKeepsTickInv(s: Sys, e: MonitorEvent)
    requires TickInv(s) && MonitorAllowed(s, e) && Early(e)
    ensures TickInv(ApplyMonitor(s, e))
  {
  }

  lemma ActionKeepsTickInv(s: Sys, e: MonitorEvent)
    requires TickInv(s) && MonitorAllowed(s, e) && (e.TakeAction? || e.StoreFlag?)
    ensures TickInv(ApplyMonitor(s, e))
  {
    var s' := ApplyMonitor(s, e);
    assert Decision(s'.m) == Decision(s.m);
    if e.TakeAction? {
      assert s'.m.calls == ActionCalls(s.m.action);
    }
  }

  lemma EarlyFailoverKeepsTickInv(s: Sys, e: MonitorEvent)
    requires TickInv(s) && MonitorAllowed(s, e) && (e.ReadEnforced? || e.EarlySwitch? || e.StoreEarly?)
    ensures TickInv(ApplyMonitor(s, e))
  {
    assert Decision(ApplyMonitor(s, e).m) == Decision(s.m);
  }

  lemma SessionKeepsTickInv(s: Sys, sid: nat, e: SessionEvent)
    requires TickInv(s) && SessionAllowed(s, sid, e)
    ensures TickInv(ApplySession(s, sid, e))
  {
    var s' := ApplySession(s, sid, e);
    assert s'.m.pc == s.m.pc && s'.m.calls == s.m.calls && Decision(s'.m) == Decision(s.m);
  }

  lemma TickInvStep(s: Sys, e: Event)
    requires TickInv(s) && Allowed(s, e)
    ensures TickInv(Apply(s, e))
  {
    match e {
      case Ses(sid, act) => SessionKeepsTickInv(s, sid, act);
      case Mon(move) =>
        if Early(move) {
          EarlyMoveKeepsTickInv(s, move);
        } else if move.TakeAction? || move.StoreFlag? {
          ActionKeepsTickInv(s, move);
        } else {
          EarlyFailoverKeepsTickInv(s, move);
        }
    }
  }

  lemma {:induction false} RunKeepsTickInv(ss: seq<Sys>, es: seq<Event>, k: nat)
    requires IsRun(ss, es) && k < |ss|
    ensures TickInv(ss[k])
  {
    if k == 0 {
    } else {
      RunKeepsTickInv(ss, es, k - 1);
      assert StepAt(ss, es, k - 1);
      TickInvStep(ss[k - 1], es[k - 1]);
    }
  }

  /**
   * The switch calls of one tick, over every interleaving: none or one with enforcement off. Two need
   * enforcement, the second is the early failover, and the first is a restore, or else a failover
   * whose flag a session reset in between.
   */
  lemma SwitchesOfATick(ss: seq<Sys>, es: seq<Event>, k: nat)
    requires IsRun(ss, es) && k < |ss|
    ensures var m := ss[k].m;
      && |m.calls| <= 2
      && (|m.calls| == 2 ==> m.enforced && m.calls[1] == Secondary)
      && (|m.calls| == 2 && !m.resetDuring ==> m.calls[0] == Primary)
  {
    RunKeepsTickInv(ss, es, k);
  }

  /** A restore followed by an early failover in one tick leaves the flag as the tick found it. */
  lemma RestoreThenFailoverKeepsFlag(ss: seq<Sys>, es: seq<Event>, k: nat)
    requires IsRun(ss, es) && k < |es| && es[k] == Mon(StoreEarly) && ss[k].m.calls == [Primary, Secondary]
    ensures ss[k].m.current && ss[k + 1].onSecondary
  {
    RunKeepsTickInv(ss, es, k);
    assert ActionCalls(Decision(ss[k].m)) == [ss[k].m.calls[0]];
    assert StepAt(ss, es, k);
  }

  // ---- The cause of every change of path ----

  /** Event t belongs to the tick in progress before event k: the thread has not looked for an fd since. */
  predicate SameTick(es: seq<Event>, t: nat, k: nat) {
    t < k <= |es| && forall i :: t <= i < k ==> es[i] != Mon(SafeFd)
  }

  predicate PastPrimary(pc: MonitorPc) { pc.QuerySecondary? || PastSecondary(pc) }

  predicate PastSecondary(pc: MonitorPc) { pc.AskModels? || PastReplies(pc) }

  predicate PastReplies(pc: MonitorPc) {
    pc.ReadFlag? || pc.Act? || pc.SetFlag? || pc.Enforcing? || pc.SwitchEarly? || pc.SetEarly?
  }

  predicate PastEnforced(pc: MonitorPc) { pc.SwitchEarly? || pc.SetEarly? }

  /** A session event leaves what the thread has seen alone. */
  lemma SessionLeavesThread(s: Sys, sid: nat, e: SessionEvent)
    requires SessionAllowed(s, sid, e)
    ensures ApplySession(s, sid, e).m == s.m.(resetDuring := ApplySession(s, sid, e).m.resetDuring)
  {
  }

  /** Each observation, once made, is held until the loop comes round. */
  lemma ObservationsAreHeld(s: Sys, e: MonitorEvent)
    requires MonitorAllowed(s, e) && PastPrimary(NextMonitor(s, e).pc)
    ensures var m, m' := s.m, NextMonitor(s, e);
      && !e.SafeFd?
      && (!e.PrimaryStatus? ==> PastPrimary(m.pc) && m'.pOk == m.pOk && m'.pState == m.pState)
      && (PastSecondary(m'.pc) && !e.SecondaryStatus? ==> PastSecondary(m.pc) && m'.sOk == m.sOk)
  {
  }

  lemma RepliesAreHeld(s: Sys, e: MonitorEvent)
    requires MonitorAllowed(s, e) && PastReplies(NextMonitor(s, e).pc)
    ensures var m, m' := s.m, NextMonitor(s, e);
      && (!e.Replies? ==> PastReplies(m.pc) && m'.verdict == m.verdict && m'.net == m.net)
      && (PastEnforced(m'.pc) && !e.ReadEnforced? ==> PastEnforced(m.pc))
  {
  }

  /** After event k - 1 of a run, whatever the thread holds was seen in that event or held before it. */
  lemma SeenOrHeld(ss: seq<Sys>, es: seq<Event>, k: nat)
    requires IsRun(ss, es) && k < |ss|
    requires PastPrimary(ss[k].m.pc)
    ensures k > 0
    ensures es[k - 1] == Mon(PrimaryStatus(ss[k].m.pOk, ss[k].m.pState))
      || (PastPrimary(ss[k - 1].m.pc) && ss[k].m.pOk == ss[k - 1].m.pOk && ss[k].m.pState == ss[k - 1].m.pState)
    ensures PastSecondary(ss[k].m.pc) ==>
      (es[k - 1] == Mon(SecondaryStatus(ss[k].m.sOk)) || (PastSecondary(ss[k - 1].m.pc) && ss[k].m.sOk == ss[k - 1].m.sOk))
    ensures PastReplies(ss[k].m.pc) ==>
      (es[k - 1] == Mon(Replies(ss[k].m.verdict, ss[k].m.net))
       || (PastReplies(ss[k - 1].m.pc) && ss[k].m.verdict == ss[k - 1].m.verdict && ss[k].m.net == ss[k - 1].m.net))
    ensures PastEnforced(ss[k].m.pc) ==> es[k - 1] == Mon(ReadEnforced(true)) || PastEnforced(ss[k - 1].m.pc)
    ensures es[k - 1] != Mon(SafeFd)
  {
    assert StepAt(ss, es, k - 1);
    match es[k - 1] {
      case Ses(sid, act) => SessionLeavesThread(ss[k - 1], sid, act);
      case Mon(move) =>
        ObservationsAreHeld(ss[k - 1], move);
        if PastReplies(ss[k].m.pc) {
          RepliesAreHeld(ss[k - 1], move);
        }
    }
  }

  /** What the thread holds about the primary is what the kernel told it in this tick. */
  lemma {:induction false} SawPrimary(ss: seq<Sys>, es: seq<Event>, k: nat) returns (t: nat)
    requires IsRun(ss, es) && k < |ss| && PastPrimary(ss[k].m.pc)
    ensures SameTick(es, t, k) && es[t] == Mon(PrimaryStatus(ss[k].m.pOk, ss[k].m.pState))
  {
    SeenOrHeld(ss, es, k);
    t := k - 1;
    if es[k - 1] != Mon(PrimaryStatus(ss[k].m.pOk, ss[k].m.pState)) {
      t := SawPrimary(ss, es, k - 1);
    }
  }

  lemma {:induction false} SawSecondary(ss: seq<Sys>, es: seq<Event>, k: nat) returns (t: nat)
    requires IsRun(ss, es) && k < |ss| && PastSecondary(ss[k].m.pc)
    ensures SameTick(es, t, k) && es[t] == Mon(SecondaryStatus(ss[k].m.sOk))
  {
    SeenOrHeld(ss, es, k);
    t := k - 1;
    if es[k - 1] != Mon(SecondaryStatus(ss[k].m.sOk)) {
      t := SawSecondary(ss, es, k - 1);
    }
  }

  lemma {:induction false} SawReplies(ss: seq<Sys>, es: seq<Event>, k: nat) returns (t: nat)
    requires IsRun(ss, es) && k < |ss| && PastReplies(ss[k].m.pc)
    ensures SameTick(es, t, k) && es[t] == Mon(Replies(ss[k].m.verdict, ss[k].m.net))
  {
    SeenOrHeld(ss, es, k);
    t := k - 1;
    if es[k - 1] != Mon(Replies(ss[k].m.verdict, ss[k].m.net)) {
      t := SawReplies(ss, es, k - 1);
    }
  }

  lemma {:induction false} SawEnforced(ss: seq<Sys>, es: seq<Event>, k: nat) returns (t: nat)
    requires IsRun(ss, es) && k < |ss| && PastEnforced(ss[k].m.pc)
    ensures SameTick(es, t, k) && es[t] == Mon(ReadEnforced(true))
  {
    SeenOrHeld(ss, es, k);
    t := k - 1;
    if es[k - 1] != Mon(ReadEnforced(true)) {
      t := SawEnforced(ss, es, k - 1);
    }
  }

  /** This tick has seen the secondary available and the primary down. */
  ghost predicate SawPrimaryDown(es: seq<Event>, k: nat) {
    && (exists t: nat, p :: SameTick(es, t, k) && es[t] == Mon(PrimaryStatus(true, p)) && (p == Inactive || p == Unknown))
    && (exists t: nat :: SameTick(es, t, k) && es[t] == Mon(SecondaryStatus(true)))
  }

  /** This tick has seen the secondary available, a prediction of failure, and enforcement on. */
  ghost predicate SawPrediction(es: seq<Event>, k: nat) {
    && (exists t: nat :: SameTick(es, t, k) && es[t] == Mon(SecondaryStatus(true)))
    && (exists t: nat, v, n :: SameTick(es, t, k) && es[t] == Mon(Replies(v, n)) && (n == "UNSTABLE" || n == "POSSIBLE_PATH_FAILURE"))
    && (exists t: nat :: SameTick(es, t, k) && es[t] == Mon(ReadEnforced(true)))
  }

  /** This tick has seen the primary active and the verdict LOW. */
  ghost predicate SawClear(es: seq<Event>, k: nat) {
    && (exists t: nat :: SameTick(es, t, k) && es[t] == Mon(PrimaryStatus(true, Active)))
    && (exists t: nat, n :: SameTick(es, t, k) && es[t] == Mon(Replies("LOW", n)))
  }

  /** Every move to the secondary: the tick saw it available, and a down primary or an enforced prediction. */
  lemma CauseOfFailover(ss: seq<Sys>, es: seq<Event>, k: nat)
    requires IsRun(ss, es) && k < |es| && !ss[k].onSecondary && ss[k + 1].onSecondary
    ensures SawPrimaryDown(es, k) || SawPrediction(es, k)
  {
    RunKeepsTickInv(ss, es, k);
    assert StepAt(ss, es, k);
    var m := ss[k].m;
    var p := SawPrimary(ss, es, k);
    var s := SawSecondary(ss, es, k);
    var r := SawReplies(ss, es, k);
    WhenActionsAreTaken(Some(m.verdict), m.pState == Active, Down(m.pState), m.sOk, m.current);
    if es[k].move.StoreFlag? {
      assert SawPrimaryDown(es, k);
    } else {
      var e := SawEnforced(ss, es, k);
      PredictionsAreTwo(m.net);
    }
  }

  /** Every move back: a session consumed a reset request, or the tick saw LOW and an active primary. */
  lemma CauseOfRestore(ss: seq<Sys>, es: seq<Event>, k: nat)
    requires IsRun(ss, es) && k < |es| && ss[k].onSecondary && !ss[k + 1].onSecondary
    ensures (es[k].Ses? && IsReset(es[k].act)) || (es[k] == Mon(StoreFlag) && SawClear(es, k))
  {
    RunKeepsTickInv(ss, es, k);
    assert StepAt(ss, es, k);
    if es[k].Mon? {
      var m := ss[k].m;
      WhenActionsAreTaken(Some(m.verdict), m.pState == Active, Down(m.pState), m.sOk, m.current);
      var p := SawPrimary(ss, es, k);
      var r := SawReplies(ss, es, k);
    }
  }

  /** A reset request takes effect at once. */
  lemma ResetClears(ss: seq<Sys>, es: seq<Event>, k: nat, sid: nat)
    requires IsRun(ss, es) && k < |es| && es[k] == Ses(sid, CheckReset(true))
    ensures !ss[k + 1].onSecondary
  {
    assert StepAt(ss, es, k);
  }

  /** Failover is sticky: with no reset and no tick that sees LOW and an active primary, it stays. */
  lemma {:induction false} FailoverIsSticky(ss: seq<Sys>, es: seq<Event>, j: nat, k: nat)
    requires IsRun(ss, es) && j <= k < |ss| && ss[j].onSecondary
    requires forall t :: j <= t < k ==> !(es[t].Ses? && IsReset(es[t].act))
    requires forall t :: j <= t < k ==> !SawClear(es, t)
    ensures ss[k].onSecondary
  {
    if j == k {
    } else {
      FailoverIsSticky(ss, es, j, k - 1);
      if !ss[k - 1 + 1].onSecondary {
        CauseOfRestore(ss, es, k - 1);
      }
    }
  }

  // ---- Stopping the monitor ----

  lemma {:induction false} NeverSleepsAgain(ss: seq<Sys>, es: seq<Event>, j: nat, k: nat)
    requires IsRun(ss, es) && j <= k < |ss| && !ss[j].running && !ss[j].m.pc.Sleeping?
    ensures !ss[k].running && !ss[k].m.pc.Sleeping?
  {
    if j == k {
    } else {
      NeverSleepsAgain(ss, es, j, k - 1);
      assert StepAt(ss, es, k - 1);
    }
  }

  lemma {:induction false} StaysStopped(ss: seq<Sys>, es: seq<Event>, j: nat, k: nat)
    requires IsRun(ss, es) && j <= k < |ss| && !ss[j].running
    ensures !ss[k].running
  {
    if j == k {
    } else {
      StaysStopped(ss, es, j, k - 1);
      assert StepAt(ss, es, k - 1);
    }
  }

  /** After a stop the thread begins at most one more tick: the one it was already sleeping towards. */
  lemma StopEndsTheTicks(ss: seq<Sys>, es: seq<Event>, i: nat, a: nat, b: nat)
    requires IsRun(ss, es) && i < a <= b < |es|
    requires es[i] == Mon(Stop) && es[a] == Mon(SafeFd) && es[b] == Mon(SafeFd)
    ensures a == b
  {
    assert StepAt(ss, es, i);
    StaysStopped(ss, es, i + 1, a);
    assert StepAt(ss, es, a) && StepAt(ss, es, b);
    if a < b {
      NeverSleepsAgain(ss, es, a + 1, b);
    }
  }

  // ---- The two addresses of a new association ----

  /** Where a session got its first address from. */
  lemma {:induction false} FirstComesFrom(ss: seq<Sys>, es: seq<Event>, k: nat, sid: nat) returns (j: nat)
    requires IsRun(ss, es) && k < |ss| && sid in ss[k].sessions && ss[k].sessions[sid].first.Some?
    ensures j < k && es[j] == Ses(sid, AskPrimary) && ss[k].sessions[sid].first == Some(Preferred(ss[j].onSecondary))
  {
    assert k > 0 && StepAt(ss, es, k - 1);
    j := k - 1;
    if es[k - 1] != Ses(sid, AskPrimary) {
      j := FirstComesFrom(ss, es, k - 1, sid);
    }
  }

  lemma {:induction false} SecondComesFrom(ss: seq<Sys>, es: seq<Event>, k: nat, sid: nat) returns (j: nat)
    requires IsRun(ss, es) && k < |ss| && sid in ss[k].sessions && ss[k].sessions[sid].second.Some?
    ensures j < k && es[j] == Ses(sid, AskSecondary) && ss[k].sessions[sid].second == Some(Preferred(!ss[j].onSecondary))
  {
    assert k > 0 && StepAt(ss, es, k - 1);
    j := k - 1;
    if es[k - 1] != Ses(sid, AskSecondary) {
      j := SecondComesFrom(ss, es, k - 1, sid);
    }
  }

  /**
   * A new association is meant to span both addresses. The two are read in separate lock regions, in
   * either order, so exactly this holds: they differ if and only if the flag had the same value at
   * both reads.
   */
  lemma AssociationSpansBothPathsIff(ss: seq<Sys>, es: seq<Event>, k: nat, sid: nat) returns (p: nat, q: nat)
    requires IsRun(ss, es) && k < |es| && es[k].Ses? && es[k].sid == sid && es[k].act.Connect?
    ensures p < k && q < k && es[p] == Ses(sid, AskPrimary) && es[q] == Ses(sid, AskSecondary)
    ensures sid in ss[k].sessions
    ensures ss[k].sessions[sid].first != ss[k].sessions[sid].second <==> ss[p].onSecondary == ss[q].onSecondary
  {
    assert StepAt(ss, es, k);
    p := FirstComesFrom(ss, es, k, sid);
    q := SecondComesFrom(ss, es, k, sid);
  }

  /** A tick that finds the primary down, up to its decision. */
  const SEEING: seq<Event> := [
    Mon(TestLoop), Mon(SafeFd), Mon(PrimaryStatus(true, Inactive)), Mon(SecondaryStatus(true))]

  const DECIDING: seq<Event> := [Mon(Replies("", "")), Mon(ReadPreference)]

  const FAILING_TICK: seq<Event> := SEEING + DECIDING

  lemma SeeFailure(s: Sys) returns (path: seq<Sys>)
    requires s.m.pc == LoopTop && s.running && !s.onSecondary && s.activeFd >= 0 && s.activeFd in s.open
    ensures IsPath(path, SEEING) && path[0] == s && path[1].sessions == s.sessions && path[1].activeFd == s.activeFd
    ensures path[4].m.pc == AskModels && path[4].m.sOk && path[4].m.pState == Inactive && path[4] == s.(m := path[4].m)
    ensures path[4].m.fd == s.activeFd
  {
    var s1 := ApplyMonitor(s, TestLoop);
    var s2 := ApplyMonitor(s1, SafeFd);
    var s3 := ApplyMonitor(s2, PrimaryStatus(true, Inactive));
    path := [s, s1, s2, s3, ApplyMonitor(s3, SecondaryStatus(true))];
  }

  lemma DecideFailover(s: Sys) returns (path: seq<Sys>)
    requires s.m.pc == AskModels && s.m.sOk && s.m.pState == Inactive && !s.onSecondary
    ensures IsPath(path, DECIDING) && path[0] == s && path[2] == s.(m := path[2].m)
    ensures path[2].m.pc == Act && path[2].m.action == Failover && path[2].m.fd == s.m.fd
  {
    var s1 := ApplyMonitor(s, Replies("", ""));
    path := [s, s1, ApplyMonitor(s1, ReadPreference)];
  }

  lemma FailingTick(s: Sys) returns (path: seq<Sys>)
    requires s.m.pc == LoopTop && s.running && !s.onSecondary && s.activeFd >= 0 && s.activeFd in s.open
    ensures IsPath(path, FAILING_TICK) && path[0] == s && path[1].sessions == s.sessions && path[1].activeFd == s.activeFd
    ensures path[6] == s.(m := path[6].m)
    ensures path[6].m.pc == Act && path[6].m.action == Failover && path[6].m.fd == s.activeFd
  {
    var seen := SeeFailure(s);
    var decided := DecideFailover(seen[4]);
    path := JoinPaths(seen, SEEING, decided, DECIDING);
  }

  /** The kernel accepts the switch of a failover. */
  const SWITCH: seq<Event> := [Mon(TakeAction(true))]

  lemma SwitchNow(s: Sys) returns (path: seq<Sys>)
    requires s.m.pc == Act && s.m.action == Failover && s.m.fd in s.open
    ensures IsPath(path, SWITCH) && path[0] == s
    ensures path[1] == s.(open := s.open[s.m.fd := Secondary], m := path[1].m) && path[1].m.pc == SetFlag(true)
  {
    path := [s, ApplyMonitor(s, TakeAction(true))];
  }

  /** A second session asks for its two addresses on either side of the store of the flag, and connects. */
  const CUT_ASK: seq<Event> := [Ses(1, AskPrimary), Mon(StoreFlag), Ses(1, AskSecondary), Ses(1, Connect(6))]

  lemma AskAcrossStore(s: Sys) returns (path: seq<Sys>)
    requires At(s, 1, Preferring) && s.sessions[1].first.None? && s.sessions[1].second.None?
    requires s.m.pc == SetFlag(true) && !s.onSecondary && 6 !in s.open
    ensures IsPath(path, CUT_ASK) && path[0] == s
    ensures At(path[4], 1, Connected) && path[4].sessions[1].first == path[4].sessions[1].second == Some(Primary)
    ensures path[4].sessions[1].fd == 6 && 6 in path[4].open && path[4].open[6] == Primary && path[4].onSecondary
  {
    var s1 := ApplySession(s, 1, AskPrimary);
    var s2 := ApplyMonitor(s1, StoreFlag);
    var s3 := ApplySession(s2, 1, AskSecondary);
    path := [s, s1, s2, s3, ApplySession(s3, 1, Connect(6))];
  }

  /** The first half of both runs below: one flow, and a tick that finds its primary down. */
  lemma FlowThenFailure() returns (ss: seq<Sys>)
    ensures IsRun(ss, Opening(0, 5) + FAILING_TICK) && Registered(ss[8], 0)
    ensures var s := ss[13];
      && Registered(s, 0) && s.sessions.Keys == {0} && s.open == map[5 := Primary] && s.activeFd == 5 && !s.onSecondary
      && s.m.pc == Act && s.m.action == Failover && s.m.fd == 5
  {
    var a := OpenSession(INITIAL, 0, 5);
    var b := FailingTick(a[7]);
    ss := JoinPaths(a, Opening(0, 5), b, FAILING_TICK);
    assert ss[8] == b[1];
  }

  /** A concrete run that makes an association over the configured primary alone, just as it has failed. */
  lemma OneAddressTwice() returns (ss: seq<Sys>, es: seq<Event>)
    ensures IsRun(ss, es) && es == Opening(0, 5) + FAILING_TICK + SWITCH + Beginning(1) + CUT_ASK
    ensures var s := ss[21];
      && At(s, 1, Connected) && s.sessions[1].first == s.sessions[1].second == Some(Primary)
      && s.sessions[1].fd == 6 && 6 in s.open && s.open[6] == Primary && s.onSecondary
  {
    var front := FlowThenFailure();
    var switched := SwitchNow(front[13]);
    var begun := BeginSession(switched[1], 1);
    var asked := AskAcrossStore(begun[3]);
    var es1 := Opening(0, 5) + FAILING_TICK + SWITCH;
    var ss1 := JoinPaths(front, Opening(0, 5) + FAILING_TICK, switched, SWITCH);
    var ss2 := JoinPaths(ss1, es1, begun, Beginning(1));
    es := es1 + Beginning(1) + CUT_ASK;
    ss := JoinPaths(ss2, es1 + Beginning(1), asked, CUT_ASK);
  }

  // ---- Which association a switch call moves ----

  /** The event calls switch_primary_path. */
  predicate SwitchCall(s: Sys, e: Event) {
    e.Mon? && ((e.move.TakeAction? && Switches(s.m.action)) || e.move.EarlySwitch?)
  }

  /** Event t looked the descriptor up for the tick in progress before event k. */
  predicate LookedUp(es: seq<Event>, t: nat, k: nat) {
    t < k <= |es| && es[t] == Mon(SafeFd) && forall i :: t < i < k ==> es[i] != Mon(SafeFd)
  }

  lemma {:induction false} HeldFd(ss: seq<Sys>, es: seq<Event>, t: nat, k: nat)
    requires IsRun(ss, es) && LookedUp(es, t, k)
    ensures ss[k].m.fd == ss[t].activeFd
    ensures ss[t].activeFd < 0 ==> ss[k].m.pc.LoopTop? || ss[k].m.pc.Sleeping? || ss[k].m.pc.Stopped?
  {
    assert StepAt(ss, es, k - 1);
    if k == t + 1 {
    } else {
      HeldFd(ss, es, t, k - 1);
    }
  }

  lemma {:induction false} FinishedStays(ss: seq<Sys>, es: seq<Event>, j: nat, k: nat, a: nat)
    requires IsRun(ss, es) && j <= k < |ss| && At(ss[j], a, Finished)
    ensures At(ss[k], a, Finished)
  {
    if j == k {
    } else {
      FinishedStays(ss, es, j, k - 1, a);
      assert StepAt(ss, es, k - 1);
    }
  }

  /** The descriptor a tick acts on was that of a watched association when it was looked up. */
  lemma LookedUpWatched(ss: seq<Sys>, es: seq<Event>, t: nat, k: nat) returns (a: nat)
    requires IsRun(ss, es) && k < |es| && LookedUp(es, t, k) && SwitchCall(ss[k], es[k])
    ensures Registered(ss[t], a) && ss[t + 1].activeFd == ss[t].activeFd == ss[k].m.fd && Registered(ss[t + 1], a)
  {
    HeldFd(ss, es, t, k);
    assert StepAt(ss, es, k) && StepAt(ss, es, t);
    RunIsLive(ss, es, t);
    a :| At(ss[t], a, Streaming) && ss[t].sessions[a].fd == ss[t].activeFd;
  }

  /** Session a has the open descriptor fd. */
  predicate Holds(s: Sys, a: nat, fd: int) {
    a in s.sessions && HoldsFd(s.sessions[a]) && s.sessions[a].fd == fd
  }

  ghost predicate OpenIsHeld(s: Sys) { forall fd :: fd in s.open ==> exists a :: Holds(s, a, fd) }

  /** Whoever held a descriptor still does after an event, unless the event closes it. */
  lemma HolderKeeps(s: Sys, e: Event, a: nat, fd: int)
    requires Allowed(s, e) && Holds(s, a, fd)
    ensures e != Ses(a, CloseFd) ==> Holds(Apply(s, e), a, fd)
    ensures e == Ses(a, CloseFd) ==> At(Apply(s, e), a, Finished) && fd !in Apply(s, e).open
  {
  }

  lemma OpenStaysHeld(s: Sys, e: Event)
    requires OpenIsHeld(s) && Allowed(s, e)
    ensures OpenIsHeld(Apply(s, e))
  {
    var s' := Apply(s, e);
    forall fd | fd in s'.open ensures exists a :: Holds(s', a, fd) {
      if e.Ses? && e.act.Connect? && fd == e.act.fd != -1 {
        assert Holds(s', e.sid, fd);
      } else {
        if e.Mon? {
          MovesKeepDescriptors(s, e.move);
        }
        var a :| Holds(s, a, fd);
        HolderKeeps(s, e, a, fd);
        assert Holds(s', a, fd);
      }
    }
  }

  /** In every run each open descriptor is held by a session: the same one until it closes it. */
  lemma {:induction false} RunHoldsOpen(ss: seq<Sys>, es: seq<Event>, k: nat)
    requires IsRun(ss, es) && k < |ss|
    ensures OpenIsHeld(ss[k])
  {
    if k == 0 {
    } else {
      RunHoldsOpen(ss, es, k - 1);
      assert StepAt(ss, es, k - 1);
      OpenStaysHeld(ss[k - 1], es[k - 1]);
    }
  }

  lemma {:induction false} HeldIffNotClosed(ss: seq<Sys>, es: seq<Event>, j: nat, k: nat, a: nat, fd: int)
    requires IsRun(ss, es) && j <= k < |ss| && Holds(ss[j], a, fd)
    ensures Holds(ss[k], a, fd) <==> forall i :: j <= i < k ==> es[i] != Ses(a, CloseFd)
    ensures !Holds(ss[k], a, fd) ==> At(ss[k], a, Finished)
  {
    if j == k {
    } else {
      HeldIffNotClosed(ss, es, j, k - 1, a, fd);
      assert StepAt(ss, es, k - 1);
      if Holds(ss[k - 1], a, fd) {
        HolderKeeps(ss[k - 1], es[k - 1], a, fd);
      } else {
        FinishedStays(ss, es, k - 1, k, a);
      }
    }
  }

  /** The address a switch call asks for. */
  function Target(s: Sys, e: Event): Path
    requires SwitchCall(s, e)
  {
    if e.move.TakeAction? && s.m.action == RestorePrimary then Primary else Secondary
  }

  /**
   * Which association a switch moves. A tick looks the descriptor of session a up at event t and the
   * kernel accepts its switch at event k. The switch moves the association of exactly one session b;
   * that is a, for which the tick decided, if and only if a has not closed its association in between.
   * It does not matter which association is the watched one by then.
   */
  lemma SwitchMovesTheMeantIff(ss: seq<Sys>, es: seq<Event>, t: nat, k: nat) returns (a: nat, b: nat)
    requires IsRun(ss, es) && k < |es| && LookedUp(es, t, k) && SwitchCall(ss[k], es[k]) && es[k].move.ok
    ensures Registered(ss[t], a) && ss[k].m.fd == ss[t].sessions[a].fd
    ensures ss[k + 1].open == ss[k].open[ss[k].m.fd := Target(ss[k], es[k])]
    ensures Holds(ss[k], b, ss[k].m.fd) && forall x :: Holds(ss[k], x, ss[k].m.fd) ==> x == b
    ensures b == a <==> forall i :: t < i < k ==> es[i] != Ses(a, CloseFd)
  {
    var fd := ss[k].m.fd;
    a := LookedUpWatched(ss, es, t, k);
    assert StepAt(ss, es, k) && Holds(ss[t + 1], a, fd);
    RunHoldsOpen(ss, es, k);
    RunIsLive(ss, es, k);
    b :| Holds(ss[k], b, fd);
    HeldIffNotClosed(ss, es, t + 1, k, a, fd);
  }

  /** The session leaves. */
  const LEAVE: seq<Event> := [Ses(0, Unregister), Ses(0, CloseFd)]

  lemma Leave(s: Sys) returns (path: seq<Sys>)
    requires At(s, 0, Streaming)
    ensures IsPath(path, LEAVE) && path[0] == s && Undisturbed(s, path[2], 0)
    ensures path[2].open == s.open - {s.sessions[0].fd} && At(path[2], 0, Finished)
  {
    var s1 := ApplySession(s, 0, Unregister);
    path := [s, s1, ApplySession(s1, 0, CloseFd)];
  }

  /** The first flow leaves in the middle of the tick, and a second takes over its descriptor. */
  lemma LeaveAndReuse(s: Sys) returns (path: seq<Sys>)
    requires Registered(s, 0) && s.sessions.Keys == {0} && s.open == map[5 := Primary] && s.activeFd == 5 && !s.onSecondary
    ensures IsPath(path, LEAVE + Opening(1, 5)) && path[0] == s
    ensures path[9].m == s.m && path[9].open == map[5 := Primary]
    ensures Registered(path[9], 1) && At(path[9], 0, Finished)
  {
    var left := Leave(s);
    assert left[2].open == map[];
    var joined := OpenSession(left[2], 1, 5);
    path := JoinPaths(left, LEAVE, joined, Opening(1, 5));
  }

  /** A run in which a tick decides for one association and moves another that has its number. */
  lemma SwitchMovesAnother() returns (ss: seq<Sys>, es: seq<Event>)
    ensures IsRun(ss, es) && es == Opening(0, 5) + FAILING_TICK + (LEAVE + Opening(1, 5)) + SWITCH
    ensures LookedUp(es, 8, 22) && Registered(ss[8], 0) && Registered(ss[22], 1) && At(ss[22], 0, Finished)
    ensures ss[22].open == map[5 := Primary] && ss[23].open == map[5 := Secondary]
  {
    var front := FlowThenFailure();
    var reused := LeaveAndReuse(front[13]);
    var switched := SwitchNow(reused[9]);
    var es1 := Opening(0, 5) + FAILING_TICK + (LEAVE + Opening(1, 5));
    var ss1 := JoinPaths(front, Opening(0, 5) + FAILING_TICK, reused, LEAVE + Opening(1, 5));
    es := es1 + SWITCH;
    ss := JoinPaths(ss1, es1, switched, SWITCH);
  }

  // ---- The threat verdict does not choose the path ----

  /** The two replies are LOW together or not at all: HIGH, MEDIUM and no reply are interchangeable. */
  predicate SameVerdictClass(e: Event, e': Event) {
    e == e' || (e.Mon? && e'.Mon? && e.move.Replies? && e'.move.Replies?
                && e.move.net == e'.move.net && (e.move.verdict == "LOW" <==> e'.move.verdict == "LOW"))
  }

  predicate SamePathAction(a: TransportAction, b: TransportAction) { a == b || (!Switches(a) && !Switches(b)) }

  /** Equal threads but for the verdict and an action that touches no path. */
  predicate SameThread(m: Monitor, m': Monitor) {
    && m'.pc == m.pc && m'.fd == m.fd && m'.pOk == m.pOk && m'.pState == m.pState && m'.sOk == m.sOk
    && m'.net == m.net && m'.current == m.current && m'.enforced == m.enforced
    && m'.calls == m.calls && m'.resetDuring == m.resetDuring
    && (m.verdict == "LOW" <==> m'.verdict == "LOW")
    && SamePathAction(m.action, m'.action)
  }

  predicate SamePaths(s: Sys, s': Sys) {
    && s'.activeFd == s.activeFd && s'.onSecondary == s.onSecondary && s'.running == s.running
    && s'.open == s.open && s'.sessions == s.sessions && SameThread(s.m, s'.m)
  }

  lemma SamePathsSession(s: Sys, s': Sys, sid: nat, e: SessionEvent)
    requires SamePaths(s, s') && SessionAllowed(s, sid, e)
    ensures SessionAllowed(s', sid, e) && SamePaths(ApplySession(s, sid, e), ApplySession(s', sid, e))
  {
    assert SessionAllowed(s', sid, e);
    assert OpenAfter(s', sid, e) == OpenAfter(s, sid, e) && ActiveAfter(s', sid, e) == ActiveAfter(s, sid, e);
    assert SessionOf(s', sid) == SessionOf(s, sid);
  }

  lemma SamePathsDecide(s: Sys, s': Sys)
    requires SamePaths(s, s') && s.m.pc == ReadFlag
    ensures SamePaths(ApplyMonitor(s, ReadPreference), ApplyMonitor(s', ReadPreference))
  {
  }

  /** An action that switches is the same action in both. */
  lemma SamePathsSwitch(s: Sys, s': Sys, ok: bool)
    requires SamePaths(s, s') && MonitorAllowed(s, TakeAction(ok)) && Switches(s.m.action)
    ensures MonitorAllowed(s', TakeAction(ok))
    ensures SamePaths(ApplyMonitor(s, TakeAction(ok)), ApplyMonitor(s', TakeAction(ok)))
  {
    var e := TakeAction(ok);
    assert s'.m.action == s.m.action && s'.m.fd == s.m.fd;
    assert OpenAfterMove(s', e) == OpenAfterMove(s, e);
    assert FlagAfter(s', e) == FlagAfter(s, e);
    assert SameThread(NextMonitor(s, e), NextMonitor(s', e));
  }

  lemma SamePathsHold(s: Sys, s': Sys, ok: bool)
    requires SamePaths(s, s') && MonitorAllowed(s, TakeAction(ok)) && !Switches(s.m.action)
    ensures MonitorAllowed(s', TakeAction(ok))
    ensures SamePaths(ApplyMonitor(s, TakeAction(ok)), ApplyMonitor(s', TakeAction(ok)))
  {
    assert !ok && !Switches(s'.m.action);
  }

  lemma SamePathsMove(s: Sys, s': Sys, e: MonitorEvent)
    requires SamePaths(s, s') && MonitorAllowed(s, e) && !e.ReadPreference? && !e.Replies? && !e.TakeAction?
    ensures MonitorAllowed(s', e) && SamePaths(ApplyMonitor(s, e), ApplyMonitor(s', e))
  {
  }

  lemma SamePathsStep(s: Sys, s': Sys, e: Event, e': Event)
    requires SamePaths(s, s') && SameVerdictClass(e, e') && Allowed(s, e)
    ensures Allowed(s', e') && SamePaths(Apply(s, e), Apply(s', e'))
  {
    match e {
      case Ses(sid, act) => SamePathsSession(s, s', sid, act);
      case Mon(move) =>
        if move.ReadPreference? {
          SamePathsDecide(s, s');
        } else if move.Replies? {
          assert s'.m.pc == s.m.pc;
        } else if move.TakeAction? && Switches(s.m.action) {
          SamePathsSwitch(s, s', move.ok);
        } else if move.TakeAction? {
          SamePathsHold(s, s', move.ok);
        } else {
          SamePathsMove(s, s', move);
        }
    }
  }

  /**
   * Noninterference. Replace verdicts in a run by others of the same class, keep the schedule and the
   * environment: that is a run again, with the same flag, switch calls and kernel at every point.
   */
  lemma {:induction false} VerdictsDoNotChoosePaths(ss: seq<Sys>, es: seq<Event>, es': seq<Event>) returns (ss': seq<Sys>)
    requires IsRun(ss, es) && |es'| == |es|
    requires forall k :: 0 <= k < |es| ==> SameVerdictClass(es[k], es'[k])
    ensures IsRun(ss', es') && |ss'| == |ss|
    ensures forall k :: 0 <= k < |ss| ==> SamePaths(ss[k], ss'[k])
    ensures forall k :: 0 <= k < |ss| ==>
      ss'[k].onSecondary == ss[k].onSecondary && ss'[k].m.calls == ss[k].m.calls && ss'[k].open == ss[k].open
    decreases |es|
  {
    var n := |es|;
    if n == 0 {
      ss' := ss;
    } else {
      var ss0, es0 := ss[..n], es[..n - 1];
      forall k: nat | k < n - 1 ensures StepAt(ss0, es0, k) {
        assert StepAt(ss, es, k);
      }
      var front := VerdictsDoNotChoosePaths(ss0, es0, es'[..n - 1]);
      assert SameVerdictClass(es[n - 1], es'[n - 1]);
      assert StepAt(ss, es, n - 1);
      SamePathsStep(ss[n - 1], front[n - 1], es[n - 1], es'[n - 1]);
      ss' := front + [Apply(front[n - 1], es'[n - 1])];
      forall k: nat | k < n ensures StepAt(ss', es', k) {
        if k < n - 1 {
          assert StepAt(front, es'[..n - 1], k);
        }
      }
    }
  }

  // ---- Crypto strength depends only on classification ----

  predicate Classifies(e: Event, sid: nat) { e.Ses? && e.sid == sid && e.act.Classify? }

  /** The level that a classification event selects. */
  function Selected(e: Event): byte
    requires e.Ses? && e.act.Classify?
  {
    SelectKem(ReadDataClass(e.act.fileToken, e.act.variable))
  }

  /** A session has the level its own classification selected, and none before; it classifies once. */
  lemma {:induction false} LevelIsItsClassification(ss: seq<Sys>, es: seq<Event>, k: nat, sid: nat)
    requires IsRun(ss, es) && k < |ss|
    ensures forall j: nat :: j < k && Classifies(es[j], sid) ==>
      sid in ss[k].sessions && ss[k].sessions[sid].pc != Arrived && ss[k].sessions[sid].level == Some(Selected(es[j]))
    ensures sid in ss[k].sessions && ss[k].sessions[sid].level.Some? ==> exists j: nat :: j < k && Classifies(es[j], sid)
  {
    if k == 0 {
    } else {
      LevelIsItsClassification(ss, es, k - 1, sid);
      assert StepAt(ss, es, k - 1);
    }
  }

  /**
   * The level of a session from what it found: 2 if the token of the class file, or without one the
   * variable, is the word "critical" in any letter case, and 1 in every other case.
   */
  lemma OnlyCriticalSessionsAreRaised(ss: seq<Sys>, es: seq<Event>, k: nat, sid: nat, f: Option<string>, v: Option<string>)
    requires IsRun(ss, es) && k < |ss| && Ses(sid, Classify(f, v)) in es[..k]
    ensures var token := if f.Some? then f else v;
      sid in ss[k].sessions
      && ss[k].sessions[sid].level == Some(if token.Some? && SaysCritical(token.value) then 2 else 1)
  {
    var j: nat :| j < k && es[..k][j] == Ses(sid, Classify(f, v));
    assert Classifies(es[j], sid);
    LevelIsItsClassification(ss, es, k, sid);
    OnlyCriticalRaises(f, v);
  }

  /** In every run no session has a level under the floor. */
  lemma LevelsClearTheFloor(ss: seq<Sys>, es: seq<Event>, k: nat, sid: nat) returns (j: nat)
    requires IsRun(ss, es) && k < |ss| && sid in ss[k].sessions && ss[k].sessions[sid].level.Some?
    ensures j < k && Classifies(es[j], sid) && ss[k].sessions[sid].level == Some(Selected(es[j]))
    ensures CRYPTO_FLOOR <= ss[k].sessions[sid].level.value <= ML_KEM_1024
  {
    LevelIsItsClassification(ss, es, k, sid);
    j :| j < k && Classifies(es[j], sid);
  }

  /**
   * Two runs of the whole gateway in which a session finds the same classification, and anything at
   * all in verdicts, network states, path states, resets, other sessions and interleavings, give that
   * session the same level.
   */
  lemma StrengthDependsOnlyOnClassification(ss: seq<Sys>, es: seq<Event>, ss': seq<Sys>, es': seq<Event>, sid: nat)
    requires IsRun(ss, es) && IsRun(ss', es')
    requires forall f, v :: Ses(sid, Classify(f, v)) in es <==> Ses(sid, Classify(f, v)) in es'
    requires sid in ss[|es|].sessions && sid in ss'[|es'|].sessions
    ensures ss[|es|].sessions[sid].level == ss'[|es'|].sessions[sid].level
  {
    LevelIsItsClassification(ss, es, |es|, sid);
    LevelIsItsClassification(ss', es', |es'|, sid);
    if ss[|es|].sessions[sid].level.Some? {
      SameClassification(es, es', sid);
    } else if ss'[|es'|].sessions[sid].level.Some? {
      SameClassification(es', es, sid);
    }
  }

  lemma SameClassification(es: seq<Event>, es': seq<Event>, sid: nat)
    requires forall f, v :: Ses(sid, Classify(f, v)) in es <==> Ses(sid, Classify(f, v)) in es'
    requires exists j: nat :: j < |es| && Classifies(es[j], sid)
    ensures exists j: nat, j': nat :: j < |es| && j' < |es'| && Classifies(es[j], sid) && es'[j'] == es[j]
  {
    var j: nat :| j < |es| && Classifies(es[j], sid);
    assert es[j] == Ses(sid, Classify(es[j].act.fileToken, es[j].act.variable));
    assert es[j] in es';
  }
}

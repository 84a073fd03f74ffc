/**
 * path_monitor.c and its callers as code: the shared statics, their lock regions, the kernel, the
 * session threads, and one turn of the monitor's loop with sessions running between its steps. Every
 * step is proved to be a step of the machine in PathMonitor, so its theorems are about this code.
 */
module PathMonitorCode {
  import opened Bytes
  import opened Crypto
  import opened TransportPolicy
  import opened PathMonitor

  /** What the kernel, the two models and the environment answer during one tick. */
  datatype Answers = Answers(pOk: bool, pState: PathState, sOk: bool, verdict: string, net: string,
                             switchOk: bool, enforced: bool, earlyOk: bool)

  /** The event the thread produces next; a kernel call on a closed descriptor fails. */
  function NextMove(s: Sys, o: Answers): MonitorEvent {
    var open := s.m.fd in s.open;
    match s.m.pc
    case LoopTop => TestLoop
    case Stopped => Stop
    case Sleeping => SafeFd
    case QueryPrimary => PrimaryStatus(o.pOk && open, o.pState)
    case QuerySecondary => SecondaryStatus(o.sOk && open)
    case AskModels => Replies(o.verdict, o.net)
    case ReadFlag => ReadPreference
    case Act => TakeAction(o.switchOk && open && Switches(s.m.action))
    case SetFlag(_) => StoreFlag
    case Enforcing => ReadEnforced(o.enforced)
    case SwitchEarly => EarlySwitch(o.earlyOk && open)
    case SetEarly => StoreEarly
  }

  function TickRank(pc: MonitorPc): nat {
    match pc
    case LoopTop => 0
    case Stopped => 0
    case SetEarly => 1
    case SwitchEarly => 2
    case Enforcing => 3
    case SetFlag(_) => 4
    case Act => 5
    case ReadFlag => 6
    case AskModels => 7
    case QuerySecondary => 8
    case QueryPrimary => 9
    case Sleeping => 10
  }

  lemma NextMoveIsAllowed(s: Sys, o: Answers)
    ensures MonitorAllowed(s, NextMove(s, o))
    ensures TickRank(s.m.pc) > 0 ==> TickRank(NextMonitor(s, NextMove(s, o)).pc) < TickRank(s.m.pc)
  {
  }

  /** What the other threads do before a step of the monitor, by the rank of the point it is at. */
  type Others = nat -> seq<Event>

  ghost predicate Quiet(others: Others) { forall n :: others(n) == [] }

  /** An event of a session thread, or the stop of the monitor by the main thread. */
  predicate Outside(e: Event) { e.Ses? || e.move.Stop? }

  /** The events of other threads, in order, each if it can happen. */
  function Meanwhile(s: Sys, acts: seq<Event>): (r: Sys)
    ensures r.m == s.m.(resetDuring := r.m.resetDuring)
    decreases |acts|
  {
    if acts == [] then s
    else
      var e := acts[0];
      Meanwhile(if Outside(e) && Allowed(s, e) then Apply(s, e) else s, acts[1..])
  }

  /** The machine's own tick: its events, with these answers and these interruptions, until the loop comes round. */
  function Drive(s: Sys, o: Answers, others: Others): Sys
    decreases TickRank(s.m.pc)
  {
    if TickRank(s.m.pc) == 0 then s
    else
      var t := Meanwhile(s, others(TickRank(s.m.pc)));
      NextMoveIsAllowed(t, o);
      Drive(ApplyMonitor(t, NextMove(t, o)), o, others)
  }

  const TOP_RANK: nat := 11

  /** One turn of the loop from its test on. */
  function Turned(s: Sys, o: Answers, others: Others): Sys {
    Drive(ApplyMonitor(Meanwhile(s, others(TOP_RANK)), TestLoop), o, others)
  }

  /** One event further along the same tick. */
  lemma DriveOn(s: Sys, o: Answers, others: Others) returns (s': Sys)
    requires TickRank(s.m.pc) > 0
    ensures var t := Meanwhile(s, others(TickRank(s.m.pc)));
      s' == ApplyMonitor(t, NextMove(t, o)) && Drive(s, o, others) == Drive(s', o, others)
  {
    var t := Meanwhile(s, others(TickRank(s.m.pc)));
    NextMoveIsAllowed(t, o);
    s' := ApplyMonitor(t, NextMove(t, o));
  }

  // ---- A turn is a path of the machine ----

  lemma {:induction false} MeanwhileIsAPath(s: Sys, acts: seq<Event>) returns (ss: seq<Sys>, es: seq<Event>)
    ensures IsPath(ss, es) && ss[0] == s && ss[|es|] == Meanwhile(s, acts)
    ensures forall e :: e in es ==> Outside(e)
    decreases |acts|
  {
    if acts == [] {
      ss, es := [s], [];
    } else {
      var e := acts[0];
      if Outside(e) && Allowed(s, e) {
        var s' := Apply(s, e);
        var tail, rest := MeanwhileIsAPath(s', acts[1..]);
        ss := JoinPaths([s, s'], [e], tail, rest);
        es := [e] + rest;
      } else {
        ss, es := MeanwhileIsAPath(s, acts[1..]);
      }
    }
  }

  /** Other threads, and then one event of the monitor's. */
  lemma StepIsAPath(s: Sys, acts: seq<Event>, move: MonitorEvent) returns (ss: seq<Sys>, es: seq<Event>)
    requires MonitorAllowed(Meanwhile(s, acts), move)
    ensures IsPath(ss, es) && ss[0] == s && ss[|es|] == ApplyMonitor(Meanwhile(s, acts), move)
  {
    var before, bs := MeanwhileIsAPath(s, acts);
    var t := before[|bs|];
    ss := JoinPaths(before, bs, [t, ApplyMonitor(t, move)], [Mon(move)]);
    es := bs + [Mon(move)];
  }

  lemma {:induction false} DriveIsAPath(s: Sys, o: Answers, others: Others) returns (ss: seq<Sys>, es: seq<Event>)
    ensures IsPath(ss, es) && ss[0] == s && ss[|es|] == Drive(s, o, others)
    decreases TickRank(s.m.pc)
  {
    if TickRank(s.m.pc) == 0 {
      ss, es := [s], [];
    } else {
      var acts := others(TickRank(s.m.pc));
      var t := Meanwhile(s, acts);
      NextMoveIsAllowed(t, o);
      var first, fs := StepIsAPath(s, acts, NextMove(t, o));
      var tail, rest := DriveIsAPath(first[|fs|], o, others);
      ss := JoinPaths(first, fs, tail, rest);
      es := fs + rest;
    }
  }

  /** So a run followed by a turn of the loop, however it is cut into, is a run. */
  lemma TurnExtendsRun(ss: seq<Sys>, es: seq<Event>, o: Answers, others: Others) returns (ss': seq<Sys>, es': seq<Event>)
    requires IsRun(ss, es) && ss[|es|].m.pc == LoopTop
    ensures IsRun(ss', es') && ss <= ss' && es <= es' && ss'[|es'|] == Turned(ss[|es|], o, others)
  {
    var test, ts := StepIsAPath(ss[|es|], others(TOP_RANK), TestLoop);
    var tick, rest := DriveIsAPath(test[|ts|], o, others);
    var front := JoinPaths(ss, es, test, ts);
    ss' := JoinPaths(front, es + ts, tick, rest);
    es' := es + ts + rest;
  }

  // ---- The tick in closed form ----

  /** What a tick changes, and the switch calls it makes. */
  datatype Outcome = Outcome(onSecondary: bool, open: map<int, Path>, calls: seq<Path>)

  function OutcomeOf(s: Sys): Outcome { Outcome(s.onSecondary, s.open, s.m.calls) }

  /** What the kernel makes of a switch of fd to p. */
  function AfterSwitch(open: map<int, Path>, fd: int, p: Path, accepted: bool): map<int, Path> {
    if accepted && fd in open then open[fd := p] else open
  }

  /** A kernel switch, accepted or not, and then the flag. */
  function Switched(b: Outcome, fd: int, p: Path, accepted: bool): Outcome {
    Outcome(p == Secondary, AfterSwitch(b.open, fd, p, accepted), b.calls + [p])
  }

  function Enforced(b: Outcome, fd: int, sOk: bool, o: Answers): Outcome {
    if o.enforced && !b.onSecondary && sOk && PredictsFailure(o.net) then Switched(b, fd, Secondary, o.earlyOk) else b
  }

  function Acted(b: Outcome, fd: int, action: TransportAction, o: Answers): Outcome {
    if action == Failover then Switched(b, fd, Secondary, o.switchOk)
    else if action == RestorePrimary then Switched(b, fd, Primary, o.switchOk)
    else b
  }

  function Ticked(activeFd: int, onSecondary: bool, open: map<int, Path>, o: Answers): Outcome {
    var b := Outcome(onSecondary, open, []);
    if activeFd < 0 || !o.pOk || activeFd !in open then b
    else
      var action := DecideTransport(Some(o.verdict), o.pState == Active, Down(o.pState), o.sOk, onSecondary);
      Enforced(Acted(b, activeFd, action, o), activeFd, o.sOk, o)
  }

  lemma DriveFromSetEarly(s: Sys, o: Answers, others: Others)
    requires Quiet(others) && s.m.pc == SetEarly
    ensures OutcomeOf(Drive(s, o, others)) == OutcomeOf(s).(onSecondary := true)
  {
    var s1 := DriveOn(s, o, others);
  }

  lemma DriveFromEarly(s: Sys, o: Answers, others: Others)
    requires Quiet(others) && s.m.pc == SwitchEarly
    ensures OutcomeOf(Drive(s, o, others)) == Switched(OutcomeOf(s), s.m.fd, Secondary, o.earlyOk)
  {
    var s1 := DriveOn(s, o, others);
    DriveFromSetEarly(s1, o, others);
  }

  lemma DriveFromEnforcing(s: Sys, o: Answers, others: Others)
    requires Quiet(others) && s.m.pc == Enforcing && s.m.net == o.net
    ensures OutcomeOf(Drive(s, o, others)) == Enforced(OutcomeOf(s), s.m.fd, s.m.sOk, o)
  {
    var s1 := DriveOn(s, o, others);
    if s1.m.pc == SwitchEarly {
      DriveFromEarly(s1, o, others);
    }
  }

  lemma KernelMove(s: Sys, o: Answers)
    requires s.m.pc == Act && Switches(s.m.action)
    ensures var p := if s.m.action == Failover then Secondary else Primary;
      var b := Switched(OutcomeOf(s), s.m.fd, p, o.switchOk);
      var s' := ApplyMonitor(s, NextMove(s, o));
      && s'.open == b.open && s'.m == s.m.(calls := b.calls, pc := SetFlag(p == Secondary))
      && b == Acted(OutcomeOf(s), s.m.fd, s.m.action, o)
  {
  }

  /** The kernel call of an action that switches; the flag is still to be stored. */
  lemma DriveThroughKernel(s: Sys, o: Answers, others: Others) returns (s': Sys)
    requires Quiet(others) && s.m.pc == Act && Switches(s.m.action)
    ensures Drive(s, o, others) == Drive(s', o, others) && s'.m.pc == SetFlag(s.m.action == Failover)
    ensures s'.open == Acted(OutcomeOf(s), s.m.fd, s.m.action, o).open
    ensures s'.m.calls == Acted(OutcomeOf(s), s.m.fd, s.m.action, o).calls
    ensures s'.m.fd == s.m.fd && s'.m.sOk == s.m.sOk && s'.m.net == s.m.net
  {
    KernelMove(s, o);
    s' := DriveOn(s, o, others);
  }

  lemma DriveThroughStore(s: Sys, o: Answers, others: Others) returns (s': Sys)
    requires Quiet(others) && s.m.pc.SetFlag?
    ensures Drive(s, o, others) == Drive(s', o, others) && s' == s.(onSecondary := s.m.pc.value, m := s.m.(pc := Enforcing))
  {
    s' := DriveOn(s, o, others);
  }

  lemma DriveFromAct(s: Sys, o: Answers, others: Others)
    requires Quiet(others) && s.m.pc == Act && s.m.net == o.net
    ensures OutcomeOf(Drive(s, o, others)) == Enforced(Acted(OutcomeOf(s), s.m.fd, s.m.action, o), s.m.fd, s.m.sOk, o)
  {
    if Switches(s.m.action) {
      var s1 := DriveThroughKernel(s, o, others);
      var s2 := DriveThroughStore(s1, o, others);
      DriveFromEnforcing(s2, o, others);
    } else {
      var s1 := DriveOn(s, o, others);
      DriveFromEnforcing(s1, o, others);
    }
  }

  lemma DriveFromModels(s: Sys, o: Answers, others: Others)
    requires Quiet(others) && s.m.pc == AskModels && s.m.calls == []
    ensures var action := DecideTransport(Some(o.verdict), s.m.pState == Active, Down(s.m.pState), s.m.sOk, s.onSecondary);
      OutcomeOf(Drive(s, o, others)) == Enforced(Acted(OutcomeOf(s), s.m.fd, action, o), s.m.fd, s.m.sOk, o)
  {
    var s1 := DriveOn(s, o, others);
    var s2 := DriveOn(s1, o, others);
    DriveFromAct(s2, o, others);
  }

  lemma DriveFromQueries(s: Sys, o: Answers, others: Others)
    requires Quiet(others) && s.m.pc == QueryPrimary && s.m.fd == s.activeFd >= 0 && s.m.calls == []
    ensures OutcomeOf(Drive(s, o, others)) == Ticked(s.activeFd, s.onSecondary, s.open, o)
  {
    var s1 := DriveOn(s, o, others);
    var s2 := DriveOn(s1, o, others);
    if s2.m.pc == AskModels {
      assert s.activeFd in s.open;
      DriveFromModels(s2, o, others);
    }
  }

  /** The machine's uninterrupted tick, in closed form. */
  lemma DriveIsTicked(s: Sys, o: Answers, others: Others)
    requires Quiet(others) && s.m.pc == Sleeping
    ensures OutcomeOf(Drive(s, o, others)) == Ticked(s.activeFd, s.onSecondary, s.open, o)
  {
    var s1 := DriveOn(s, o, others);
    if s.activeFd >= 0 {
      DriveFromQueries(s1, o, others);
    }
  }

  /**
   * What a turn of the loop does that nothing cuts into, for every answer: it fails over from a primary
   * that is inactive or in a state the stack does not name, restores an active one on LOW, and then, if
   * enforced, fails over on the two predictions. Nothing else touches the flag, the kernel or the calls.
   */
  lemma UncutTurn(s: Sys, o: Answers, others: Others)
    requires Quiet(others) && s.m.pc == LoopTop && s.running
    ensures var watched := s.activeFd >= 0 && s.activeFd in s.open && o.pOk;
      var down := o.pState == Inactive || o.pState == Unknown;
      var fails := watched && !s.onSecondary && o.sOk && down;
      var restores := watched && s.onSecondary && o.verdict == "LOW" && o.pState == Active;
      var flag := fails || (s.onSecondary && !restores);
      var early := watched && o.enforced && !flag && o.sOk && (o.net == "UNSTABLE" || o.net == "POSSIBLE_PATH_FAILURE");
      var s' := Turned(s, o, others);
      && s'.onSecondary == (flag || early)
      && s'.m.calls == (if fails then [Secondary] else if restores then [Primary] else []) + (if early then [Secondary] else [])
      && s'.open == (if early && o.earlyOk then s.open[s.activeFd := Secondary]
                     else if fails && o.switchOk then s.open[s.activeFd := Secondary]
                     else if restores && o.switchOk then s.open[s.activeFd := Primary]
                     else s.open)
  {
    assert Meanwhile(s, others(TOP_RANK)) == s;
    var s1 := ApplyMonitor(s, TestLoop);
    DriveIsTicked(s1, o, others);
    PredictionsAreTwo(o.net);
    TickedIs(s.activeFd, s.onSecondary, s.open, o);
  }

  lemma TickedIs(fd: int, onSecondary: bool, open: map<int, Path>, o: Answers)
    ensures var watched := fd >= 0 && fd in open && o.pOk;
      var fails := watched && !onSecondary && o.sOk && (o.pState == Inactive || o.pState == Unknown);
      var restores := watched && onSecondary && o.verdict == "LOW" && o.pState == Active;
      var flag := fails || (onSecondary && !restores);
      var early := watched && o.enforced && !flag && o.sOk && PredictsFailure(o.net);
      var b := Ticked(fd, onSecondary, open, o);
      && b.onSecondary == (flag || early)
      && b.calls == (if fails then [Secondary] else if restores then [Primary] else []) + (if early then [Secondary] else [])
      && b.open == (if early && o.earlyOk then open[fd := Secondary]
                    else if fails && o.switchOk then open[fd := Secondary]
                    else if restores && o.switchOk then open[fd := Primary]
                    else open)
  {
  }

  // ---- Single steps, for the code ----

  lemma StoreOn(s: Sys, o: Answers, others: Others) returns (s': Sys)
    requires s.m.pc.SetFlag?
    ensures var t := Meanwhile(s, others(TickRank(s.m.pc)));
      s' == t.(onSecondary := s.m.pc.value, m := t.m.(pc := Enforcing))
    ensures Drive(s, o, others) == Drive(s', o, others)
  {
    s' := DriveOn(s, o, others);
  }

  lemma StoreEarlyOn(s: Sys, o: Answers, others: Others) returns (s': Sys)
    requires s.m.pc == SetEarly
    ensures var t := Meanwhile(s, others(TickRank(SetEarly)));
      s' == t.(onSecondary := true, m := t.m.(pc := LoopTop))
    ensures Drive(s, o, others) == s'
  {
    s' := DriveOn(s, o, others);
  }

  lemma SwitchOn(s: Sys, o: Answers, others: Others) returns (s': Sys)
    requires s.m.pc == Act && Switches(s.m.action)
    ensures var t, p := Meanwhile(s, others(TickRank(Act))), if s.m.action == Failover then Secondary else Primary;
      s' == t.(open := AfterSwitch(t.open, s.m.fd, p, o.switchOk),
        m := t.m.(calls := s.m.calls + [p], pc := SetFlag(p == Secondary)))
    ensures Drive(s, o, others) == Drive(s', o, others)
  {
    s' := DriveOn(s, o, others);
  }

  lemma SwitchEarlyOn(s: Sys, o: Answers, others: Others) returns (s': Sys)
    requires s.m.pc == SwitchEarly
    ensures var t := Meanwhile(s, others(TickRank(SwitchEarly)));
      s' == t.(open := AfterSwitch(t.open, s.m.fd, Secondary, o.earlyOk),
        m := t.m.(calls := s.m.calls + [Secondary], pc := SetEarly))
    ensures Drive(s, o, others) == Drive(s', o, others)
  {
    s' := DriveOn(s, o, others);
  }

  // ---- The code ----

  class Kernel {
    var open: map<int, Path>

    constructor ()
      ensures open == map[]
    {
      open := map[];
    }

    /** sctp_connectx: the first address becomes the primary. */
    method Connect(fd: int, first: Path)
      modifies this
      ensures open == old(open)[fd := first]
    {
      open := open[fd := first];
    }

    method Close(fd: int)
      modifies this
      ensures open == old(open) - {fd}
    {
      open := open - {fd};
    }

    /** switch_primary_path: SCTP_PRIMARY_ADDR on fd. */
    method SwitchPrimaryPath(fd: int, p: Path, accepted: bool) returns (rc: int)
      modifies this
      ensures rc == if accepted && fd in old(open) then 0 else -1
      ensures open == AfterSwitch(old(open), fd, p, accepted)
    {
      if !accepted || fd !in open {
        return -1;
      }
      open := open[fd := p];
      return 0;
    }
  }

  /** The statics of path_monitor.c; each method is one lock region. */
  class PathMonitorState {
    var activeFd: int
    var onSecondary: bool
    var running: bool

    constructor ()
      ensures activeFd == -1 && !onSecondary && !running
    {
      activeFd, onSecondary, running := -1, false, false;
    }

    method Start()
      modifies this`running
      ensures running
    {
      running := true;
    }

    method Stop()
      modifies this`running
      ensures !running
    {
      running := false;
    }

    method Register(fd: int)
      modifies this`activeFd
      ensures activeFd == fd
    {
      activeFd := fd;
    }

    method Unregister()
      modifies this`activeFd
      ensures activeFd == -1
    {
      activeFd := -1;
    }

    method PreferredPrimary() returns (p: Path)
      ensures p == Preferred(onSecondary)
    {
      p := if onSecondary then Secondary else Primary;
    }

    method PreferredSecondary() returns (p: Path)
      ensures p == Preferred(!onSecondary)
    {
      p := if onSecondary then Primary else Secondary;
    }

    method ResetPreference()
      modifies this`onSecondary
      ensures !onSecondary
    {
      onSecondary := false;
    }

    method Store(value: bool)
      modifies this`onSecondary
      ensures onSecondary == value
    {
      onSecondary := value;
    }
  }

  /** The gateway process: what its threads share, and the locals of the session threads. */
  class Process {
    const monitor: PathMonitorState
    const kernel: Kernel
    var sessions: map<nat, Session>

    constructor ()
      ensures View(IDLE) == INITIAL && fresh(monitor) && fresh(kernel)
    {
      monitor := new PathMonitorState();
      kernel := new Kernel();
      sessions := map[];
      new;
      monitor.Start();
    }

    /** The state of the machine, given the locals of the monitor thread. */
    function View(m: Monitor): Sys
      reads this, monitor, kernel
    {
      Sys(monitor.activeFd, monitor.onSecondary, monitor.running, kernel.open, sessions, m)
    }

    /** One lock region or kernel call of handle_client: exactly the machine's event. */
    method SessionStep(sid: nat, e: SessionEvent, ghost m: Monitor)
      requires SessionAllowed(View(m), sid, e)
      modifies this, monitor, kernel
      ensures View(m.(resetDuring := m.resetDuring || IsReset(e))) == ApplySession(old(View(m)), sid, e)
    {
      var t := if sid in sessions then sessions[sid] else NEW_SESSION;
      match e {
        case Arrive =>
        case Classify(fileToken, variable) =>
          var level := SelectKem(ReadDataClass(fileToken, variable));
          t := t.(pc := Classified, level := Some(level));
        case CheckReset(requested) =>
          if requested {
            monitor.ResetPreference();
          }
          t := t.(pc := Preferring);
        case AskPrimary =>
          var p := monitor.PreferredPrimary();
          t := t.(first := Some(p));
        case AskSecondary =>
          var p := monitor.PreferredSecondary();
          t := t.(second := Some(p));
        case Connect(fd) =>
          if fd == -1 {
            t := t.(pc := Finished);
          } else {
            kernel.Connect(fd, t.first.value);
            t := t.(pc := Connected, fd := fd);
          }
        case Register =>
          monitor.Register(t.fd);
          t := t.(pc := Streaming);
        case Unregister =>
          monitor.Unregister();
          t := t.(pc := Closing);
        case CloseFd =>
          kernel.Close(t.fd);
          t := t.(pc := Finished);
      }
      sessions := sessions[sid := t];
    }

    /** The other threads run. */
    method Yield(acts: seq<Event>, ghost m: Monitor) returns (ghost m': Monitor)
      modifies this, monitor, kernel
      ensures View(m') == Meanwhile(old(View(m)), acts)
    {
      m' := m;
      var i := 0;
      while i < |acts|
        invariant i <= |acts|
        invariant Meanwhile(View(m'), acts[i..]) == Meanwhile(old(View(m)), acts)
      {
        var e := acts[i];
        assert acts[i..][1..] == acts[i + 1..];
        if Outside(e) && Allowed(View(IDLE), e) {
          assert Allowed(View(m'), e);
          m' := Take(e, m');
        }
        i := i + 1;
      }
    }

    method Take(e: Event, ghost m: Monitor) returns (ghost m': Monitor)
      requires Outside(e) && Allowed(View(m), e)
      modifies this, monitor, kernel
      ensures View(m') == Apply(old(View(m)), e)
    {
      match e {
        case Ses(sid, act) =>
          SessionStep(sid, act, m);
          m' := m.(resetDuring := m.resetDuring || IsReset(act));
        case Mon(_) =>
          monitor.Stop();
          m' := m;
      }
    }

    /** safe_fd. */
    method SafeFd(o: Answers, others: Others, ghost m: Monitor) returns (fd: int, ghost m': Monitor)
      requires m.pc == Sleeping
      modifies this, monitor, kernel
      ensures Drive(View(m'), o, others) == Drive(old(View(m)), o, others)
      ensures m'.pc == (if fd < 0 then LoopTop else QueryPrimary) && m'.fd == fd && m'.calls == []
    {
      ghost var next := DriveOn(View(m), o, others);
      ghost var t := Yield(others(TickRank(Sleeping)), m);
      fd := monitor.activeFd;
      m' := next.m;
      assert View(m') == next;
    }

    /** get_path_status of the primary; a query on a closed descriptor fails. */
    method QueryFirst(fd: int, o: Answers, others: Others, ghost m: Monitor) returns (pOk: bool, ghost m': Monitor)
      requires m.pc == QueryPrimary && m.fd == fd && m.calls == []
      modifies this, monitor, kernel
      ensures Drive(View(m'), o, others) == Drive(old(View(m)), o, others)
      ensures m'.pc == QuerySecondary && m'.fd == fd && m'.calls == [] && m'.pOk == pOk && m'.pState == o.pState
    {
      ghost var next := DriveOn(View(m), o, others);
      ghost var t := Yield(others(TickRank(QueryPrimary)), m);
      pOk := o.pOk && fd in kernel.open;
      m' := next.m;
      assert View(m') == next;
    }

    method QuerySecond(fd: int, o: Answers, others: Others, ghost m: Monitor) returns (sOk: bool, ghost m': Monitor)
      requires m.pc == QuerySecondary && m.fd == fd && m.calls == []
      modifies this, monitor, kernel
      ensures Drive(View(m'), o, others) == Drive(old(View(m)), o, others)
      ensures m'.pc == (if m.pOk then AskModels else LoopTop) && m'.fd == fd && m'.calls == []
      ensures m'.pState == m.pState && m'.sOk == sOk
    {
      ghost var next := DriveOn(View(m), o, others);
      ghost var t := Yield(others(TickRank(QuerySecondary)), m);
      sOk := o.sOk && fd in kernel.open;
      m' := next.m;
      assert View(m') == next;
    }

    /** query_ai and query_netcond. */
    method Ask(o: Answers, others: Others, ghost m: Monitor) returns (verdict: string, net: string, ghost m': Monitor)
      requires m.pc == AskModels && m.calls == []
      modifies this, monitor, kernel
      ensures Drive(View(m'), o, others) == Drive(old(View(m)), o, others)
      ensures m' == m.(pc := ReadFlag, verdict := verdict, net := net, resetDuring := m'.resetDuring)
      ensures verdict == o.verdict && net == o.net
    {
      ghost var next := DriveOn(View(m), o, others);
      ghost var t := Yield(others(TickRank(AskModels)), m);
      verdict, net := o.verdict, o.net;
      m' := next.m;
      assert View(m') == next;
    }

    /** The lock region that reads the flag. */
    method ReadOnSecondary(o: Answers, others: Others, ghost m: Monitor) returns (currentlySecondary: bool, ghost m': Monitor)
      requires m.pc == ReadFlag && m.calls == []
      modifies this, monitor, kernel
      ensures Drive(View(m'), o, others) == Drive(old(View(m)), o, others)
      ensures m'.pc == Act && m'.fd == m.fd && m'.calls == [] && m'.sOk == m.sOk && m'.net == m.net
      ensures m'.action == DecideTransport(Some(m.verdict), m.pState == Active, Down(m.pState), m.sOk, currentlySecondary)
    {
      ghost var next := DriveOn(View(m), o, others);
      ghost var t := Yield(others(TickRank(ReadFlag)), m);
      currentlySecondary := monitor.onSecondary;
      m' := next.m;
      assert View(m') == next;
    }

    /** The kernel call of the decided action; its result is ignored. */
    method SwitchPath(fd: int, p: Path, o: Answers, others: Others, ghost m: Monitor) returns (ghost m': Monitor)
      requires m.pc == Act && m.fd == fd && m.action == (if p == Secondary then Failover else RestorePrimary)
      modifies this, monitor, kernel
      ensures Drive(View(m'), o, others) == Drive(old(View(m)), o, others)
      ensures m'.pc == SetFlag(p == Secondary) && m'.fd == fd && m'.calls == m.calls + [p] && m'.sOk == m.sOk && m'.net == m.net
    {
      ghost var next := SwitchOn(View(m), o, others);
      ghost var t := Yield(others(TickRank(Act)), m);
      var rc := kernel.SwitchPrimaryPath(fd, p, o.switchOk);
      m' := next.m;
      assert View(m') == next;
    }

    /** The lock region that stores the flag, whatever the switch returned. */
    method StorePath(p: Path, o: Answers, others: Others, ghost m: Monitor) returns (ghost m': Monitor)
      requires m.pc == SetFlag(p == Secondary)
      modifies this, monitor, kernel
      ensures Drive(View(m'), o, others) == Drive(old(View(m)), o, others)
      ensures m'.pc == Enforcing && m'.fd == m.fd && m'.calls == m.calls && m'.sOk == m.sOk && m'.net == m.net
    {
      ghost var next := StoreOn(View(m), o, others);
      ghost var t := Yield(others(TickRank(SetFlag(p == Secondary))), m);
      monitor.Store(p == Secondary);
      m' := next.m;
      assert View(m') == next;
    }

    /** An action that touches no path. */
    method HoldPath(o: Answers, others: Others, ghost m: Monitor) returns (ghost m': Monitor)
      requires m.pc == Act && !Switches(m.action)
      modifies this, monitor, kernel
      ensures Drive(View(m'), o, others) == Drive(old(View(m)), o, others)
      ensures m'.pc == Enforcing && m'.fd == m.fd && m'.calls == m.calls && m'.sOk == m.sOk && m'.net == m.net
    {
      ghost var next := DriveOn(View(m), o, others);
      ghost var t := Yield(others(TickRank(Act)), m);
      m' := next.m;
      assert View(m') == next;
    }

    /** The switch on the decided action. */
    method TakeDecided(fd: int, action: TransportAction, o: Answers, others: Others, ghost m: Monitor)
      returns (calls: seq<Path>, ghost m': Monitor)
      requires m.pc == Act && m.fd == fd && m.action == action && m.calls == []
      modifies this, monitor, kernel
      ensures Drive(View(m'), o, others) == Drive(old(View(m)), o, others)
      ensures m'.pc == Enforcing && m'.fd == fd && m'.calls == calls && m'.sOk == m.sOk && m'.net == m.net
    {
      match action {
        case Failover =>
          m' := SwitchPath(fd, Secondary, o, others, m);
          m' := StorePath(Secondary, o, others, m');
          calls := [Secondary];
        case RestorePrimary =>
          m' := SwitchPath(fd, Primary, o, others, m);
          m' := StorePath(Primary, o, others, m');
          calls := [Primary];
        case _ =>
          m' := HoldPath(o, others, m);
          calls := [];
      }
    }

    /** The kernel call of the early failover. */
    method SwitchPathEarly(fd: int, o: Answers, others: Others, ghost m: Monitor) returns (ghost m': Monitor)
      requires m.pc == SwitchEarly && m.fd == fd
      modifies this, monitor, kernel
      ensures Drive(View(m'), o, others) == Drive(old(View(m)), o, others)
      ensures m'.pc == SetEarly && m'.calls == m.calls + [Secondary]
    {
      ghost var next := SwitchEarlyOn(View(m), o, others);
      ghost var t := Yield(others(TickRank(SwitchEarly)), m);
      var rc := kernel.SwitchPrimaryPath(fd, Secondary, o.earlyOk);
      m' := next.m;
      assert View(m') == next;
    }

    method StorePathEarly(o: Answers, others: Others, ghost m: Monitor) returns (ghost m': Monitor)
      requires m.pc == SetEarly
      modifies this, monitor, kernel
      ensures View(m') == Drive(old(View(m)), o, others) && m'.calls == m.calls && m'.pc == LoopTop
    {
      ghost var next := StoreEarlyOn(View(m), o, others);
      ghost var t := Yield(others(TickRank(SetEarly)), m);
      monitor.Store(true);
      m' := next.m;
      assert View(m') == next;
    }

    /** The proactive failover of an enforced monitor. */
    method FailOverEarly(fd: int, sOk: bool, netPolicy: NetPolicy, before: seq<Path>, o: Answers, others: Others, ghost m: Monitor)
      returns (calls: seq<Path>, ghost m': Monitor)
      requires m.pc == Enforcing && m.fd == fd && m.sOk == sOk && m.calls == before
      requires m.net == o.net && netPolicy == ReplyPolicy(o.net)
      modifies this, monitor, kernel
      ensures View(m') == Drive(old(View(m)), o, others) && m'.calls == calls && m'.pc == LoopTop
    {
      calls := before;
      ghost var next := DriveOn(View(m), o, others);
      ghost var t := Yield(others(TickRank(Enforcing)), m);
      m' := next.m;
      assert View(m') == next;
      if o.enforced {
        var onSec := monitor.onSecondary;
        if !onSec && sOk && (netPolicy == NetFailover || netPolicy == PreferBackup) {
          m' := SwitchPathEarly(fd, o, others, m');
          m' := StorePathEarly(o, others, m');
          calls := calls + [Secondary];
        }
      }
    }

    /**
     * One turn of monitor_loop, with any session threads between its steps: exactly the machine's.
     * `calls` are the switch calls it makes, whether or not the kernel accepts them.
     */
    method Turn(o: Answers, others: Others, ghost m: Monitor) returns (calls: seq<Path>, ghost m': Monitor)
      requires m.pc == LoopTop
      modifies this, monitor, kernel
      ensures View(m') == Turned(old(View(m)), o, others)
      ensures calls == if m'.pc == Stopped then [] else m'.calls
    {
      calls := [];
      m' := Yield(others(TOP_RANK), m);
      if !monitor.running {
        m' := m'.(pc := Stopped);
        return;
      }
      m' := m'.(pc := Sleeping);
      calls, m' := AfterSleep(o, others, m');
    }

    method AfterSleep(o: Answers, others: Others, ghost m: Monitor) returns (calls: seq<Path>, ghost m': Monitor)
      requires m.pc == Sleeping
      modifies this, monitor, kernel
      ensures View(m') == Drive(old(View(m)), o, others) && m'.calls == calls && m'.pc == LoopTop
    {
      calls := [];
      var fd;
      fd, m' := SafeFd(o, others, m);
      if fd < 0 {
        return;
      }
      var pOk, sOk, verdict, net, currentlySecondary;
      pOk, m' := QueryFirst(fd, o, others, m');
      sOk, m' := QuerySecond(fd, o, others, m');
      if !pOk {
        return;
      }
      verdict, net, m' := Ask(o, others, m');
      var netPolicy := NetStateToPolicy(Some(if net != "" then net else "STABLE"));
      currentlySecondary, m' := ReadOnSecondary(o, others, m');
      var primaryDown := o.pState == Inactive || o.pState == Unknown;
      var action := DecideTransport(Some(verdict), o.pState == Active, primaryDown, sOk, currentlySecondary);
      calls, m' := TakeDecided(fd, action, o, others, m');
      calls, m' := FailOverEarly(fd, sOk, netPolicy, calls, o, others, m');
    }
  }
}

/**
 * The path monitor thread and any number of session threads. Each lock region and each kernel call
 * is one event; what the kernel, the models and the environment answer is part of the event.
 */
module PathMonitor {
  import opened Bytes
  import opened Crypto
  import opened TransportPolicy

  datatype Path = Primary | Secondary

  /** The address that on_secondary names. */
  function Preferred(onSecondary: bool): Path { if onSecondary then Secondary else Primary }

  // ---- State ----

  datatype SessionPc = Arrived | Classified | Preferring | Connected | Streaming | Closing | Finished

  /** One handle_client thread; `first` and `second` are the results of the two preferred_* calls. */
  datatype Session = Session(pc: SessionPc, level: Option<byte>, first: Option<Path>, second: Option<Path>, fd: int)

  datatype MonitorPc = LoopTop | Sleeping | QueryPrimary | QuerySecondary | AskModels | ReadFlag | Act
                     | SetFlag(value: bool) | Enforcing | SwitchEarly | SetEarly | Stopped

  /** The locals of monitor_loop, with the switch calls of the tick and whether a reset cut into it. */
  datatype Monitor = Monitor(
    pc: MonitorPc, fd: int, pOk: bool, pState: PathState, sOk: bool,
    verdict: string, net: string, current: bool, action: TransportAction, enforced: bool,
    calls: seq<Path>, resetDuring: bool)

  /** `open` maps each open association to its kernel primary address. */
  datatype Sys = Sys(activeFd: int, onSecondary: bool, running: bool,
                     open: map<int, Path>, sessions: map<nat, Session>, m: Monitor)

  const IDLE: Monitor :=
    Monitor(LoopTop, -1, false, Unknown, false, "", "", false, Normal, false, [], false)

  const INITIAL: Sys := Sys(-1, false, true, map[], map[], IDLE)

  // ---- Session events ----

  datatype SessionEvent =
    | Arrive
    | Classify(fileToken: Option<string>, variable: Option<string>)
    | CheckReset(requested: bool)
    | AskPrimary
    | AskSecondary
    | Connect(fd: int)
    | Register
    | Unregister
    | CloseFd

  predicate At(s: Sys, sid: nat, pc: SessionPc) { sid in s.sessions && s.sessions[sid].pc == pc }

  predicate SessionAllowed(s: Sys, sid: nat, e: SessionEvent) {
    match e
    case Arrive => sid !in s.sessions
    case Classify(_, _) => At(s, sid, Arrived)
    case CheckReset(_) => At(s, sid, Classified)
    case AskPrimary => At(s, sid, Preferring) && s.sessions[sid].first.None?
    case AskSecondary => At(s, sid, Preferring) && s.sessions[sid].second.None?
    case Connect(fd) => At(s, sid, Preferring) && s.sessions[sid].first.Some? && s.sessions[sid].second.Some?
                        && (fd == -1 || (fd >= 0 && fd !in s.open))
    case Register => At(s, sid, Connected)
    case Unregister => At(s, sid, Streaming)
    case CloseFd => At(s, sid, Closing)
  }

  const NEW_SESSION: Session := Session(Arrived, None, None, None, -1)

  /** The session's own state after one of its events, given the flag it may read. */
  function NextSession(t: Session, onSecondary: bool, e: SessionEvent): Session {
    match e
    case Arrive => NEW_SESSION
    case Classify(f, v) => t.(pc := Classified, level := Some(SelectKem(ReadDataClass(f, v))))
    case CheckReset(_) => t.(pc := Preferring)
    case AskPrimary => t.(first := Some(Preferred(onSecondary)))
    case AskSecondary => t.(second := Some(Preferred(!onSecondary)))
    case Connect(fd) => if fd == -1 then t.(pc := Finished) else t.(pc := Connected, fd := fd)
    case Register => t.(pc := Streaming)
    case Unregister => t.(pc := Closing)
    case CloseFd => t.(pc := Finished)
  }

  /** The session as the map has it, or a new one. */
  function SessionOf(s: Sys, sid: nat): Session { if sid in s.sessions then s.sessions[sid] else NEW_SESSION }

  function OpenAfter(s: Sys, sid: nat, e: SessionEvent): map<int, Path>
    requires SessionAllowed(s, sid, e)
  {
    if e.Connect? && e.fd != -1 then s.open[e.fd := s.sessions[sid].first.value]
    else if e.CloseFd? then s.open - {s.sessions[sid].fd}
    else s.open
  }

  function ActiveAfter(s: Sys, sid: nat, e: SessionEvent): int {
    if e.Register? then SessionOf(s, sid).fd else if e.Unregister? then -1 else s.activeFd
  }

  predicate IsReset(e: SessionEvent) { e.CheckReset? && e.requested }

  function ApplySession(s: Sys, sid: nat, e: SessionEvent): Sys
    requires SessionAllowed(s, sid, e)
  {
    Sys(ActiveAfter(s, sid, e), s.onSecondary && !IsReset(e), s.running, OpenAfter(s, sid, e),
        s.sessions[sid := NextSession(SessionOf(s, sid), s.onSecondary, e)],
        s.m.(resetDuring := s.m.resetDuring || IsReset(e)))
  }

  // ---- Monitor events ----

  datatype MonitorEvent =
    | Stop
    | TestLoop
    | SafeFd
    | PrimaryStatus(ok: bool, state: PathState)
    | SecondaryStatus(ok: bool)
    | Replies(verdict: string, net: string)
    | ReadPreference
    | TakeAction(ok: bool)
    | StoreFlag
    | ReadEnforced(on: bool)
    | EarlySwitch(ok: bool)
    | StoreEarly

  /** The action of the tick calls switch_primary_path. */
  predicate Switches(a: TransportAction) { a == Failover || a == RestorePrimary }

  predicate MonitorAllowed(s: Sys, e: MonitorEvent) {
    match e
    case Stop => true
    case TestLoop => s.m.pc == LoopTop
    case SafeFd => s.m.pc == Sleeping
    case PrimaryStatus(ok, _) => s.m.pc == QueryPrimary && (ok ==> s.m.fd in s.open)
    case SecondaryStatus(ok) => s.m.pc == QuerySecondary && (ok ==> s.m.fd in s.open)
    case Replies(_, _) => s.m.pc == AskModels
    case ReadPreference => s.m.pc == ReadFlag
    case TakeAction(ok) => s.m.pc == Act && (ok ==> Switches(s.m.action) && s.m.fd in s.open)
    case StoreFlag => s.m.pc.SetFlag?
    case ReadEnforced(_) => s.m.pc == Enforcing
    case EarlySwitch(ok) => s.m.pc == SwitchEarly && (ok ==> s.m.fd in s.open)
    case StoreEarly => s.m.pc == SetEarly
  }

  /** The thread's own state after one of its events, given the shared state it may read. */
  function NextMonitor(s: Sys, e: MonitorEvent): Monitor {
    var m := s.m;
    match e
    case Stop => m
    case TestLoop => m.(pc := if s.running then Sleeping else Stopped)
    case SafeFd => m.(fd := s.activeFd, pc := if s.activeFd < 0 then LoopTop else QueryPrimary,
                      calls := [], resetDuring := false, enforced := false)
    case PrimaryStatus(ok, p) => m.(pOk := ok, pState := p, pc := QuerySecondary)
    case SecondaryStatus(ok) => m.(sOk := ok, pc := if m.pOk then AskModels else LoopTop)
    case Replies(verdict, net) => m.(verdict := verdict, net := net, pc := ReadFlag)
    case ReadPreference =>
      m.(current := s.onSecondary, pc := Act,
         action := DecideTransport(Some(m.verdict), m.pState == Active, Down(m.pState), m.sOk, s.onSecondary))
    case TakeAction(_) =>
      if m.action == Failover then m.(calls := m.calls + [Secondary], pc := SetFlag(true))
      else if m.action == RestorePrimary then m.(calls := m.calls + [Primary], pc := SetFlag(false))
      else m.(pc := Enforcing)
    case StoreFlag => m.(pc := Enforcing)
    case ReadEnforced(on) =>
      m.(enforced := on,
         pc := if on && !s.onSecondary && m.sOk && PredictsFailure(m.net) then SwitchEarly else LoopTop)
    case EarlySwitch(_) => m.(calls := m.calls + [Secondary], pc := SetEarly)
    case StoreEarly => m.(pc := LoopTop)
  }

  function FlagAfter(s: Sys, e: MonitorEvent): bool {
    if e.StoreFlag? && s.m.pc.SetFlag? then s.m.pc.value else s.onSecondary || e.StoreEarly?
  }

  /** switch_primary_path takes effect if the kernel accepts it; the caller ignores its result. */
  function OpenAfterMove(s: Sys, e: MonitorEvent): map<int, Path> {
    if e.TakeAction? && e.ok then s.open[s.m.fd := if s.m.action == Failover then Secondary else Primary]
    else if e.EarlySwitch? && e.ok then s.open[s.m.fd := Secondary]
    else s.open
  }

  function ApplyMonitor(s: Sys, e: MonitorEvent): Sys {
    Sys(s.activeFd, FlagAfter(s, e), s.running && !e.Stop?, OpenAfterMove(s, e), s.sessions, NextMonitor(s, e))
  }

  // ---- Runs ----

  datatype Event = Ses(sid: nat, act: SessionEvent) | Mon(move: MonitorEvent)

  predicate Allowed(s: Sys, e: Event) {
    match e
    case Ses(sid, act) => SessionAllowed(s, sid, act)
    case Mon(move) => MonitorAllowed(s, move)
  }

  function Apply(s: Sys, e: Event): Sys
    requires Allowed(s, e)
  {
    match e
    case Ses(sid, act) => ApplySession(s, sid, act)
    case Mon(move) => ApplyMonitor(s, move)
  }

  /** Event k is allowed where it happens and leads to the next state. */
  predicate StepAt(ss: seq<Sys>, es: seq<Event>, k: nat)
    requires k < |es| < |ss|
  {
    Allowed(ss[k], es[k]) && ss[k + 1] == Apply(ss[k], es[k])
  }

  /** ss are the states and es the events between them. */
  predicate IsPath(ss: seq<Sys>, es: seq<Event>) {
    |ss| == |es| + 1 && forall k: nat :: k < |es| ==> StepAt(ss, es, k)
  }

  /** A path from the initial state on. */
  predicate IsRun(ss: seq<Sys>, es: seq<Event>) { IsPath(ss, es) && ss[0] == INITIAL }

  /** One path after another. */
  lemma JoinPaths(ss: seq<Sys>, es: seq<Event>, ss': seq<Sys>, es': seq<Event>) returns (all: seq<Sys>)
    requires IsPath(ss, es) && IsPath(ss', es') && ss[|es|] == ss'[0]
    ensures IsPath(all, es + es') && all == ss + ss'[1..] && all[|es| + |es'|] == ss'[|es'|]
  {
    all := ss + ss'[1..];
    forall k: nat | k < |es| + |es'| ensures StepAt(all, es + es', k) {
      if k < |es| {
        assert StepAt(ss, es, k);
      } else {
        assert StepAt(ss', es', k - |es|);
      }
    }
  }

  // ---- The registered descriptor is always live ----

  predicate HoldsFd(t: Session) { t.pc == Connected || t.pc == Streaming || t.pc == Closing }

  ghost predicate FdsAreOwned(s: Sys) {
    && (forall a :: a in s.sessions && HoldsFd(s.sessions[a]) ==> s.sessions[a].fd >= 0 && s.sessions[a].fd in s.open)
    && (forall a, b :: a in s.sessions && b in s.sessions && a != b ==>
          HoldsFd(s.sessions[a]) && HoldsFd(s.sessions[b]) ==> s.sessions[a].fd != s.sessions[b].fd)
  }

  /** active_fd is -1 or the descriptor of a session between its register and its unregister. */
  ghost predicate ActiveFdIsLive(s: Sys) {
    s.activeFd == -1 || exists a :: At(s, a, Streaming) && s.sessions[a].fd == s.activeFd
  }

  /** A session holds a descriptor after an event only by connecting or by having held it before. */
  lemma HoldingComesFrom(s: Sys, sid: nat, e: SessionEvent)
    requires FdsAreOwned(s) && SessionAllowed(s, sid, e)
    ensures var t' := ApplySession(s, sid, e).sessions[sid];
      HoldsFd(t') ==>
        if e.Connect? then t'.fd == e.fd && e.fd !in s.open && e.fd >= 0
        else sid in s.sessions && HoldsFd(s.sessions[sid]) && t'.fd == s.sessions[sid].fd && !e.CloseFd?
  {
  }

  lemma SessionKeepsFdsOwned(s: Sys, sid: nat, e: SessionEvent)
    requires FdsAreOwned(s) && SessionAllowed(s, sid, e)
    ensures FdsAreOwned(ApplySession(s, sid, e))
  {
    HoldingComesFrom(s, sid, e);
    var s' := ApplySession(s, sid, e);
    assert forall a :: a in s'.sessions && a != sid ==> a in s.sessions && s'.sessions[a] == s.sessions[a];
    forall a | a in s'.sessions && HoldsFd(s'.sessions[a]) ensures s'.sessions[a].fd >= 0 && s'.sessions[a].fd in s'.open {
    }
  }

  lemma FdsStayOwned(s: Sys, e: Event)
    requires FdsAreOwned(s) && Allowed(s, e)
    ensures FdsAreOwned(Apply(s, e))
  {
    match e {
      case Ses(sid, act) => SessionKeepsFdsOwned(s, sid, act);
      case Mon(move) => MovesKeepDescriptors(s, move);
    }
  }

  /** The monitor never opens or closes a descriptor: it switches only one that is open. */
  lemma MovesKeepDescriptors(s: Sys, e: MonitorEvent)
    requires MonitorAllowed(s, e)
    ensures OpenAfterMove(s, e).Keys == s.open.Keys
  {
  }

  lemma LiveStep(s: Sys, e: Event)
    requires ActiveFdIsLive(s) && Allowed(s, e)
    ensures ActiveFdIsLive(Apply(s, e))
  {
    var s' := Apply(s, e);
    if s'.activeFd != -1 {
      if e.Ses? && e.act.Register? {
        assert At(s', e.sid, Streaming);
      } else {
        var a :| At(s, a, Streaming) && s.sessions[a].fd == s.activeFd;
        assert At(s', a, Streaming);
      }
    }
  }

  lemma {:induction false} RunIsLive(ss: seq<Sys>, es: seq<Event>, k: nat)
    requires IsRun(ss, es) && k < |ss|
    ensures FdsAreOwned(ss[k]) && ActiveFdIsLive(ss[k])
  {
    if k == 0 {
    } else {
      RunIsLive(ss, es, k - 1);
      assert StepAt(ss, es, k - 1);
      LiveStep(ss[k - 1], es[k - 1]);
      FdsStayOwned(ss[k - 1], es[k - 1]);
    }
  }

  /** Over every interleaving: active_fd is -1 or an open descriptor of a registered session. */
  lemma RegisteredFdIsNeverClosed(ss: seq<Sys>, es: seq<Event>, k: nat)
    requires IsRun(ss, es) && k < |ss| && ss[k].activeFd != -1
    ensures ss[k].activeFd in ss[k].open
    ensures exists a :: At(ss[k], a, Streaming) && ss[k].sessions[a].fd == ss[k].activeFd
  {
    RunIsLive(ss, es, k);
  }

  /** A register or an unregister by some session. */
  predicate Touches(e: Event) { e.Ses? && (e.act.Register? || e.act.Unregister?) }

  /** Session a is the one the monitor watches. */
  predicate Registered(s: Sys, a: nat) { At(s, a, Streaming) && s.sessions[a].fd == s.activeFd }

  lemma {:induction false} UntouchedSince(ss: seq<Sys>, es: seq<Event>, j: nat, k: nat)
    requires IsRun(ss, es) && j <= k < |ss|
    requires forall t :: j <= t < k ==> !Touches(es[t])
    ensures ss[k].activeFd == ss[j].activeFd
    ensures forall a :: At(ss[j], a, Streaming) ==> a in ss[k].sessions && ss[k].sessions[a] == ss[j].sessions[a]
  {
    if j == k {
    } else {
      UntouchedSince(ss, es, j, k - 1);
      assert StepAt(ss, es, k - 1) && !Touches(es[k - 1]);
    }
  }

  function Rank(pc: SessionPc): nat {
    match pc
    case Arrived => 0
    case Classified => 1
    case Preferring => 2
    case Connected => 3
    case Streaming => 4
    case Closing => 5
    case Finished => 6
  }

  lemma SessionsOnlyAdvance(s: Sys, e: Event, sid: nat)
    requires Allowed(s, e) && sid in s.sessions
    ensures var t, t' := s.sessions[sid], Apply(s, e).sessions[sid];
      && Rank(t.pc) <= Rank(t'.pc)
      && (Rank(t.pc) >= Rank(Streaming) ==> t'.fd == t.fd)
      && (t.pc == t'.pc == Streaming ==> t' == t && e != Ses(sid, Register) && e != Ses(sid, Unregister))
  {
  }

  /** A session that is still streaming has stood still since it registered. */
  lemma {:induction false} StreamingSince(ss: seq<Sys>, es: seq<Event>, j: nat, k: nat, sid: nat)
    requires IsRun(ss, es) && j <= k < |ss| && At(ss[j], sid, Streaming)
    ensures sid in ss[k].sessions && Rank(ss[k].sessions[sid].pc) >= Rank(Streaming)
    ensures ss[k].sessions[sid].fd == ss[j].sessions[sid].fd
    ensures At(ss[k], sid, Streaming) ==>
      forall t :: j <= t <= k ==> At(ss[t], sid, Streaming) && ss[t].sessions[sid] == ss[j].sessions[sid]
    ensures At(ss[k], sid, Streaming) ==>
      forall t :: j <= t < k ==> es[t] != Ses(sid, Register) && es[t] != Ses(sid, Unregister)
  {
    if j == k {
    } else {
      StreamingSince(ss, es, j, k - 1, sid);
      assert StepAt(ss, es, k - 1);
      SessionsOnlyAdvance(ss[k - 1], es[k - 1], sid);
    }
  }

  lemma LastTouch(es: seq<Event>, j: nat, k: nat) returns (t: nat)
    requires k <= |es| && exists t :: j <= t < k && Touches(es[t])
    ensures j <= t < k && Touches(es[t])
    ensures forall i :: t < i < k ==> !Touches(es[i])
  {
    t := k - 1;
    while !Touches(es[t])
      invariant j <= t < k
      invariant exists i :: j <= i <= t && Touches(es[i])
      invariant forall i :: t < i < k ==> !Touches(es[i])
      decreases t
    {
      t := t - 1;
    }
  }

  /** A watched session stays the watched one exactly as long as no session registers or unregisters. */
  lemma RegisteredIffUntouched(ss: seq<Sys>, es: seq<Event>, j: nat, k: nat, a: nat)
    requires IsRun(ss, es) && j <= k < |ss| && Registered(ss[j], a)
    ensures Registered(ss[k], a) <==> forall t :: j <= t < k ==> !Touches(es[t])
  {
    if forall t :: j <= t < k ==> !Touches(es[t]) {
      UntouchedSince(ss, es, j, k);
    } else if At(ss[k], a, Streaming) {
      StreamingSince(ss, es, j, k, a);
      var t := LastTouch(es, j, k);
      UntouchedSince(ss, es, t + 1, k);
      RunIsLive(ss, es, t + 1);
      assert StepAt(ss, es, t) && At(ss[t + 1], a, Streaming);
      assert ss[t + 1].sessions[a].fd >= 0;
      if es[t].act.Register? {
        assert HoldsFd(ss[t + 1].sessions[es[t].sid]) && es[t].sid != a;
      }
    }
  }

  /**
   * The comment at the register call says that the association stays registered for the whole flow.
   * Exactly when that is so: a streaming session is the monitored one if and only if no session has
   * registered or unregistered since it registered.
   */
  lemma StaysRegisteredIff(ss: seq<Sys>, es: seq<Event>, j: nat, k: nat, sid: nat)
    requires IsRun(ss, es) && j < k < |ss| && es[j] == Ses(sid, Register) && At(ss[k], sid, Streaming)
    ensures ss[k].activeFd == ss[k].sessions[sid].fd <==> forall t :: j < t < k ==> !Touches(es[t])
  {
    assert StepAt(ss, es, j);
    RegisteredIffUntouched(ss, es, j + 1, k, sid);
  }

  // ---- A session from its arrival until it is registered, with no class set and no reset asked for ----

  function Beginning(sid: nat): seq<Event> {
    [Ses(sid, Arrive), Ses(sid, Classify(None, None)), Ses(sid, CheckReset(false))]
  }

  function Asking(sid: nat): seq<Event> { [Ses(sid, AskPrimary), Ses(sid, AskSecondary)] }

  function Joining(sid: nat, fd: int): seq<Event> { [Ses(sid, Connect(fd)), Ses(sid, Register)] }

  function Opening(sid: nat, fd: int): seq<Event> { Beginning(sid) + Asking(sid) + Joining(sid, fd) }

  /** The session's events so far leave alone all that is not its own. */
  predicate Undisturbed(s: Sys, s': Sys, sid: nat) {
    && s'.m == s.m && s'.running == s.running && s'.onSecondary == s.onSecondary
    && s'.sessions.Keys == s.sessions.Keys + {sid}
    && forall a :: a in s.sessions && a != sid ==> a in s'.sessions && s'.sessions[a] == s.sessions[a]
  }

  lemma BeginSession(s: Sys, sid: nat) returns (path: seq<Sys>)
    requires sid !in s.sessions
    ensures IsPath(path, Beginning(sid)) && path[0] == s && Undisturbed(s, path[3], sid)
    ensures path[3].open == s.open && path[3].activeFd == s.activeFd
    ensures At(path[3], sid, Preferring) && path[3].sessions[sid].first.None? && path[3].sessions[sid].second.None?
  {
    var s1 := ApplySession(s, sid, Arrive);
    var s2 := ApplySession(s1, sid, Classify(None, None));
    path := [s, s1, s2, ApplySession(s2, sid, CheckReset(false))];
  }

  lemma AskBoth(s: Sys, sid: nat) returns (path: seq<Sys>)
    requires At(s, sid, Preferring) && s.sessions[sid].first.None? && s.sessions[sid].second.None?
    ensures IsPath(path, Asking(sid)) && path[0] == s && Undisturbed(s, path[2], sid)
    ensures path[2].open == s.open && path[2].activeFd == s.activeFd
    ensures At(path[2], sid, Preferring)
    ensures path[2].sessions[sid].first == Some(Preferred(s.onSecondary)) && path[2].sessions[sid].second.Some?
  {
    var s1 := ApplySession(s, sid, AskPrimary);
    path := [s, s1, ApplySession(s1, sid, AskSecondary)];
  }

  lemma JoinUp(s: Sys, sid: nat, fd: int) returns (path: seq<Sys>)
    requires At(s, sid, Preferring) && s.sessions[sid].first.Some? && s.sessions[sid].second.Some?
    requires fd >= 0 && fd !in s.open
    ensures IsPath(path, Joining(sid, fd)) && path[0] == s && Undisturbed(s, path[2], sid)
    ensures path[2].open == s.open[fd := s.sessions[sid].first.value] && path[2].activeFd == fd
    ensures Registered(path[2], sid)
  {
    var s1 := ApplySession(s, sid, Connect(fd));
    path := [s, s1, ApplySession(s1, sid, Register)];
  }

  /** The states a new session passes through if nothing else happens meanwhile. */
  lemma OpenSession(s: Sys, sid: nat, fd: int) returns (path: seq<Sys>)
    requires sid !in s.sessions && fd >= 0 && fd !in s.open
    ensures IsPath(path, Opening(sid, fd)) && path[0] == s && Undisturbed(s, path[7], sid)
    ensures path[7].open == s.open[fd := Preferred(s.onSecondary)] && path[7].activeFd == fd
    ensures Registered(path[7], sid)
  {
    var begun := BeginSession(s, sid);
    var asked := AskBoth(begun[3], sid);
    var joined := JoinUp(asked[2], sid, fd);
    var front := JoinPaths(begun, Beginning(sid), asked, Asking(sid));
    path := JoinPaths(front, Beginning(sid) + Asking(sid), joined, Joining(sid, fd));
  }

  /** A concrete run in which a flow does not stay registered: a second flow opens while it streams. */
  lemma SecondFlowTakesTheMonitor() returns (ss: seq<Sys>, es: seq<Event>)
    ensures IsRun(ss, es) && es == Opening(0, 5) + Opening(1, 6)
    ensures At(ss[14], 0, Streaming) && ss[14].sessions[0].fd == 5 && ss[14].activeFd == 6
  {
    var first := OpenSession(INITIAL, 0, 5);
    var second := OpenSession(first[7], 1, 6);
    es := Opening(0, 5) + Opening(1, 6);
    ss := JoinPaths(first, Opening(0, 5), second, Opening(1, 6));
  }
}

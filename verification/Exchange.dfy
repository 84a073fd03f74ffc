/**
 * Two scripts joined by two bounded, faithful byte channels. Every read and write moves an
 * arbitrary number of bytes; either side may fail on its own at any moment; a side that fails
 * closes the connection; once a side has returned its caller goes on to write, or read, application
 * data.
 *
 * The scripts are parameters: the theorems hold for any two that agree on the flights m1 and m2.
 */
module Exchange {
  import opened Bytes

  /** The next thing a script does: read up to n bytes, write from data, give up, or return a key. */
  datatype Action = Recv(n: nat) | Send(data: Bytes) | Abort | Return(key: Bytes)

  /**
   * iNext and rNext map the bytes read and the number written so far to the next action. m1 and
   * m2 are the full flights; rOk and iOk say which sides accept, and then `key` is the result.
   */
  datatype Scripts = Scripts(
    iNext: (Bytes, nat) -> Action, rNext: (Bytes, nat) -> Action,
    m1: Bytes, m2: Bytes, rOk: bool, iOk: bool, key: Bytes,
    capIR: nat, capRI: nat)

  /** `data` is a non-empty piece of `flight` starting at offset `sent`. */
  predicate Piece(a: Action, flight: Bytes, sent: nat) {
    && a.Send? && a.data != []
    && sent + |a.data| <= |flight| && a.data == flight[sent..sent + |a.data|]
  }

  /** The initiator writes all of m1, then reads m2 and never past its end, then decides. */
  predicate InitiatorFollows(u: Scripts, k: nat, sent: nat)
    requires k <= |u.m2|
  {
    var a := u.iNext(u.m2[..k], sent);
    if sent < |u.m1| then Piece(a, u.m1, sent)
    else if !u.rOk then a.Recv? && a.n >= 1
    else if k < |u.m2| then a.Recv? && 1 <= a.n <= |u.m2| - k
    else a == if u.iOk then Return(u.key) else Abort
  }

  /** The responder reads m1 and never past its end, may refuse early, then writes all of m2. */
  predicate ResponderFollows(u: Scripts, k: nat, sent: nat)
    requires k <= |u.m1|
  {
    var a := u.rNext(u.m1[..k], sent);
    if k < |u.m1| then (a.Recv? && 1 <= a.n <= |u.m1| - k) || (a.Abort? && !u.rOk)
    else if !u.rOk then a.Abort?
    else if sent < |u.m2| then Piece(a, u.m2, sent)
    else a == Return(u.key)
  }

  ghost predicate Matched(u: Scripts) {
    && u.capIR >= 1 && u.capRI >= 1
    && (u.iOk ==> u.rOk) && (u.rOk <==> u.m2 != [])
    && (forall k: nat, sent: nat :: k <= |u.m2| ==> InitiatorFollows(u, k, sent))
    && (forall k: nat, sent: nat :: k <= |u.m1| ==> ResponderFollows(u, k, sent))
  }

  // ---- The composed system ----

  datatype Status = Running | Done(key: Bytes) | Failed

  datatype State = State(
    iGot: Bytes, iSent: nat, iEnd: Status,
    rGot: Bytes, rSent: nat, rEnd: Status,
    ir: Bytes, ri: Bytes,      // bytes in flight in each direction
    app: Bytes,                // what the initiator's caller has written after its script returned
    taken: Bytes,              // what the responder's caller has read after its script returned
    faulted: bool)             // some side failed for a reason of its own

  const INITIAL: State := State([], 0, Running, [], 0, Running, [], [], [], [], false)

  function INext(u: Scripts, s: State): Action { u.iNext(s.iGot, s.iSent) }

  function RNext(u: Scripts, s: State): Action { u.rNext(s.rGot, s.rSent) }

  /** A script that is about to read or write, and so may have to wait or lose its peer. */
  predicate DoesIo(a: Action) { a.Send? || a.Recv? }

  /** One step of one side; k is how many bytes the system call moves. */
  datatype Move = IWrite(k: nat) | IRead(k: nat) | IReturn | ILost | IFault
                | RWrite(k: nat) | RRead(k: nat) | RReturn | RLost | RFault

  function Close(a: Action): Status { if a.Return? then Done(a.key) else Failed }

  predicate Enabled(u: Scripts, s: State, m: Move) {
    var a, b := INext(u, s), RNext(u, s);
    match m
    case IWrite(k) => s.iEnd.Running? && a.Send? && 1 <= k <= |a.data| && |s.ir| + k <= u.capIR
    case IRead(k) => s.iEnd.Running? && a.Recv? && 1 <= k <= a.n && k <= |s.ri|
    case IReturn => s.iEnd.Running? && !DoesIo(a)
    case ILost => s.iEnd.Running? && DoesIo(a) && s.rEnd.Failed?
    case IFault => s.iEnd.Running?
    case RWrite(k) => s.rEnd.Running? && b.Send? && 1 <= k <= |b.data| && |s.ri| + k <= u.capRI
    case RRead(k) => s.rEnd.Running? && b.Recv? && 1 <= k <= b.n && k <= |s.ir|
    case RReturn => s.rEnd.Running? && !DoesIo(b)
    case RLost => s.rEnd.Running? && DoesIo(b) && s.iEnd.Failed?
    case RFault => s.rEnd.Running?
  }

  function After(u: Scripts, s: State, m: Move): State
    requires Enabled(u, s, m)
  {
    match m
    case IWrite(k) => s.(iSent := s.iSent + k, ir := s.ir + INext(u, s).data[..k])
    case IRead(k) => s.(iGot := s.iGot + s.ri[..k], ri := s.ri[k..])
    case IReturn => s.(iEnd := Close(INext(u, s)))
    case ILost => s.(iEnd := Failed)
    case IFault => s.(iEnd := Failed, faulted := true)
    case RWrite(k) => s.(rSent := s.rSent + k, ri := s.ri + RNext(u, s).data[..k])
    case RRead(k) => s.(rGot := s.rGot + s.ir[..k], ir := s.ir[k..])
    case RReturn => s.(rEnd := Close(RNext(u, s)))
    case RLost => s.(rEnd := Failed)
    case RFault => s.(rEnd := Failed, faulted := true)
  }

  /** The initiator's caller streams frames as soon as its own script has returned. */
  ghost predicate AppWrite(u: Scripts, s: State, s': State) {
    && s.iEnd.Done?
    && exists data: Bytes :: |s.ir| + |data| <= u.capIR && s' == s.(ir := s.ir + data, app := s.app + data)
  }

  /** The responder's caller reads on as soon as its own script has returned. */
  ghost predicate AppRead(s: State, s': State) {
    && s.rEnd.Done?
    && exists n: nat :: n <= |s.ir| && s' == s.(ir := s.ir[n..], taken := s.taken + s.ir[..n])
  }

  ghost predicate AppStep(u: Scripts, s: State, s': State) { AppWrite(u, s, s') || AppRead(s, s') }

  ghost predicate Step(u: Scripts, s: State, s': State) {
    (exists m :: Enabled(u, s, m) && s' == After(u, s, m)) || AppStep(u, s, s')
  }

  ghost predicate IsRun(u: Scripts, run: seq<State>) {
    && run != [] && run[0] == INITIAL
    && forall k :: 0 <= k < |run| - 1 ==> Step(u, run[k], run[k + 1])
  }

  // ---- The invariant ----

  /** Each channel holds exactly what one side has written and the other has not yet read. */
  ghost predicate Faithful(u: Scripts, s: State) {
    && s.iSent <= |u.m1| && s.rSent <= |u.m2|
    && |s.rGot| <= s.iSent
    && s.rGot + (s.taken + s.ir) == u.m1[..s.iSent] + s.app
    && s.iGot + s.ri == u.m2[..s.rSent]
    && (s.app != [] ==> s.iEnd.Done?) && (s.taken != [] ==> s.rEnd.Done?)
    && (s.rSent > 0 ==> s.rGot == u.m1)
    && (s.iGot != [] ==> s.iSent == |u.m1|)
    && |s.ir| <= u.capIR && |s.ri| <= u.capRI
  }

  /** How a side that has returned got there. */
  ghost predicate Accounted(u: Scripts, s: State) {
    var a, b := INext(u, s), RNext(u, s);
    && (s.iEnd.Done? ==> a == Return(s.iEnd.key))
    && (s.rEnd.Done? ==> b == Return(s.rEnd.key))
    && (!s.faulted && s.rEnd.Failed? ==> b.Abort? || (s.iEnd.Failed? && DoesIo(b)))
    && (!s.faulted && (s.iEnd.Failed? || s.rEnd.Failed?) ==> a.Abort? || b.Abort?)
  }

  ghost predicate Inv(u: Scripts, s: State) { Faithful(u, s) && Accounted(u, s) }

  /** What the two scripts do next, given that both have read only what the other wrote. */
  lemma ScriptsFollow(u: Scripts, s: State)
    requires Matched(u) && Faithful(u, s)
    ensures |s.rGot| <= |u.m1| && s.rGot == u.m1[..|s.rGot|]
    ensures |s.iGot| <= |u.m2| && s.iGot == u.m2[..|s.iGot|]
    ensures InitiatorFollows(u, |s.iGot|, s.iSent) && ResponderFollows(u, |s.rGot|, s.rSent)
  {
    assert (s.rGot + (s.taken + s.ir))[..|s.rGot|] == s.rGot;
    assert (u.m1[..s.iSent] + s.app)[..|s.rGot|] == u.m1[..|s.rGot|];
    assert (s.iGot + s.ri)[..|s.iGot|] == s.iGot;
    assert u.m2[..s.rSent][..|s.iGot|] == u.m2[..|s.iGot|];
  }

  lemma InitiatorWriteKeepsInv(u: Scripts, s: State, k: nat)
    requires Matched(u) && Inv(u, s) && Enabled(u, s, IWrite(k))
    ensures Inv(u, After(u, s, IWrite(k)))
  {
    ScriptsFollow(u, s);
    var s' := After(u, s, IWrite(k));
    var data := INext(u, s).data[..k];
    assert u.m1[..s.iSent] + data == u.m1[..s'.iSent];
    assert s'.rGot + (s'.taken + s'.ir) == (s.rGot + (s.taken + s.ir)) + data;
    assert s.app == [] && s.iGot == [];
    assert InitiatorFollows(u, 0, s'.iSent);
  }

  lemma InitiatorReadKeepsInv(u: Scripts, s: State, k: nat)
    requires Matched(u) && Inv(u, s) && Enabled(u, s, IRead(k))
    ensures Inv(u, After(u, s, IRead(k)))
  {
    ScriptsFollow(u, s);
    var s' := After(u, s, IRead(k));
    assert s'.iGot + s'.ri == s.iGot + s.ri;
  }

  lemma ResponderWriteKeepsInv(u: Scripts, s: State, k: nat)
    requires Matched(u) && Inv(u, s) && Enabled(u, s, RWrite(k))
    ensures Inv(u, After(u, s, RWrite(k)))
  {
    ScriptsFollow(u, s);
    var s' := After(u, s, RWrite(k));
    var data := RNext(u, s).data[..k];
    assert u.m2[..s.rSent] + data == u.m2[..s'.rSent];
    assert s'.iGot + s'.ri == (s.iGot + s.ri) + data;
  }

  lemma ResponderReadKeepsInv(u: Scripts, s: State, k: nat)
    requires Matched(u) && Inv(u, s) && Enabled(u, s, RRead(k))
    ensures Inv(u, After(u, s, RRead(k)))
  {
    ScriptsFollow(u, s);
    if s.app != [] {
      InitiatorDoneMeansAllRead(u, s);
      assert false;
    }
    var s' := After(u, s, RRead(k));
    assert s'.rGot + (s'.taken + s'.ir) == s.rGot + (s.taken + s.ir);
    assert |s'.rGot| <= |s'.rGot + (s'.taken + s'.ir)| == s.iSent;
  }

  /** Once the initiator has returned a key the responder has read m1, and no more. */
  lemma InitiatorDoneMeansAllRead(u: Scripts, s: State)
    requires Matched(u) && Inv(u, s) && s.iEnd.Done?
    ensures s.iSent == |u.m1| && s.rGot == u.m1 && s.taken + s.ir == s.app
    ensures s.rSent == |u.m2| && s.iGot == u.m2 && s.ri == []
    ensures u.iOk && s.iEnd == Done(u.key)
  {
    ScriptsFollow(u, s);
    assert |s.iGot + s.ri| == s.rSent;
    assert s.iGot == u.m2;
    ResponderHasReadAll(u, s);
  }

  /** Once the responder has returned, the next byte it will see is the first application byte. */
  lemma ResponderDoneMeansAllRead(u: Scripts, s: State)
    requires Matched(u) && Inv(u, s) && s.rEnd.Done?
    ensures s.iSent == |u.m1| && s.rGot == u.m1 && s.taken + s.ir == s.app
    ensures s.rSent == |u.m2| && u.rOk && s.rEnd == Done(u.key)
  {
    ScriptsFollow(u, s);
    ResponderHasReadAll(u, s);
  }

  lemma ResponderHasReadAll(u: Scripts, s: State)
    requires Matched(u) && Faithful(u, s)
    requires s.iSent == |u.m1| && (s.rSent > 0 || s.rGot == u.m1)
    ensures s.rGot == u.m1 && s.taken + s.ir == s.app
  {
    assert (s.rGot + (s.taken + s.ir))[|u.m1|..] == s.taken + s.ir;
    assert (u.m1[..s.iSent] + s.app)[|u.m1|..] == s.app;
  }

  lemma EndKeepsInv(u: Scripts, s: State, m: Move)
    requires Matched(u) && Inv(u, s) && Enabled(u, s, m)
    requires !m.IWrite? && !m.IRead? && !m.RWrite? && !m.RRead?
    ensures Inv(u, After(u, s, m))
  {
  }

  lemma AppWriteKeepsInv(u: Scripts, s: State, s': State)
    requires Matched(u) && Inv(u, s) && AppWrite(u, s, s')
    ensures Inv(u, s')
  {
    var data: Bytes :| |s.ir| + |data| <= u.capIR && s' == s.(ir := s.ir + data, app := s.app + data);
    assert s'.rGot + (s'.taken + s'.ir) == (s.rGot + (s.taken + s.ir)) + data;
    assert u.m1[..s.iSent] + s'.app == (u.m1[..s.iSent] + s.app) + data;
  }

  lemma AppReadKeepsInv(u: Scripts, s: State, s': State)
    requires Matched(u) && Inv(u, s) && AppRead(s, s')
    ensures Inv(u, s')
  {
    assert s'.taken + s'.ir == s.taken + s.ir;
  }

  lemma StepKeepsInv(u: Scripts, s: State, s': State)
    requires Matched(u) && Inv(u, s) && Step(u, s, s')
    ensures Inv(u, s')
  {
    if m :| Enabled(u, s, m) && s' == After(u, s, m) {
      match m {
        case IWrite(k) => InitiatorWriteKeepsInv(u, s, k);
        case IRead(k) => InitiatorReadKeepsInv(u, s, k);
        case RWrite(k) => ResponderWriteKeepsInv(u, s, k);
        case RRead(k) => ResponderReadKeepsInv(u, s, k);
        case _ => EndKeepsInv(u, s, m);
      }
    } else if AppWrite(u, s, s') {
      AppWriteKeepsInv(u, s, s');
    } else {
      AppReadKeepsInv(u, s, s');
    }
  }

  lemma {:induction false} RunKeepsInv(u: Scripts, run: seq<State>, k: nat)
    requires Matched(u) && IsRun(u, run) && k < |run|
    ensures Inv(u, run[k])
  {
    if k == 0 {
      assert u.m1[..0] + [] == [];
    } else {
      RunKeepsInv(u, run, k - 1);
      StepKeepsInv(u, run[k - 1], run[k - 1 + 1]);
    }
  }

  // ---- Theorems over every run ----

  /** A move the system makes by itself: no side fails for a reason of its own. */
  predicate FaultFree(m: Move) { !m.IFault? && !m.RFault? }

  /**
   * Deadlock freedom. Whatever the channel sizes, the chunking and the failures so far, as long as
   * one side has not returned some side has a fault-free move.
   */
  lemma NoDeadlock(u: Scripts, run: seq<State>, k: nat) returns (m: Move)
    requires Matched(u) && IsRun(u, run) && k < |run|
    requires run[k].iEnd.Running? || run[k].rEnd.Running?
    ensures FaultFree(m) && Enabled(u, run[k], m)
  {
    var s := run[k];
    RunKeepsInv(u, run, k);
    ScriptsFollow(u, s);
    if s.iEnd.Done? { InitiatorDoneMeansAllRead(u, s); }
    if s.rEnd.Done? { ResponderDoneMeansAllRead(u, s); }
    var a, b := INext(u, s), RNext(u, s);
    if s.iEnd.Running? && !DoesIo(a) {
      m := IReturn;
    } else if s.rEnd.Running? && !DoesIo(b) {
      m := RReturn;
    } else if s.iEnd.Running? && s.rEnd.Failed? {
      m := ILost;
    } else if s.rEnd.Running? && s.iEnd.Failed? {
      m := RLost;
    } else if s.iEnd.Running? && a.Send? {
      m := if |s.ir| < u.capIR then IWrite(1) else RRead(1);
    } else {
      m := if |s.ri| > 0 then IRead(1) else if b.Send? then RWrite(1) else RRead(1);
      assert |s.iGot + s.ri| == s.rSent;
      assert |s.rGot + (s.taken + s.ir)| == |u.m1|;
    }
  }

  /** Bytes still to be written and read, plus one for each side that has not returned. */
  function Remaining(u: Scripts, s: State): int {
    (|u.m1| - s.iSent) + (|u.m1| - |s.rGot|) + (|u.m2| - s.rSent) + (|u.m2| - |s.iGot|)
    + (if s.iEnd.Running? then 1 else 0) + (if s.rEnd.Running? then 1 else 0)
  }

  lemma MovesUseUpRemaining(u: Scripts, s: State, m: Move)
    requires Enabled(u, s, m)
    ensures Remaining(u, After(u, s, m)) < Remaining(u, s)
  {
  }

  lemma StepsUseUpRemaining(u: Scripts, s: State, s': State)
    requires Step(u, s, s')
    ensures if AppStep(u, s, s') then Remaining(u, s') == Remaining(u, s) else Remaining(u, s') < Remaining(u, s)
  {
    if !AppStep(u, s, s') {
      var m :| Enabled(u, s, m) && s' == After(u, s, m);
      MovesUseUpRemaining(u, s, m);
    }
  }

  /** How many of the first k steps of the run are moves of the two scripts. */
  ghost function MoveCount(u: Scripts, run: seq<State>, k: nat): nat
    requires k < |run|
  {
    if k == 0 then 0 else MoveCount(u, run, k - 1) + if AppStep(u, run[k - 1], run[k]) then 0 else 1
  }

  /** Termination: no run makes more moves than there are bytes to write and read, plus two. */
  lemma {:induction false} Terminates(u: Scripts, run: seq<State>, k: nat)
    requires Matched(u) && IsRun(u, run) && k < |run|
    ensures MoveCount(u, run, k) + Remaining(u, run[k]) <= 2 * |u.m1| + 2 * |u.m2| + 2
    ensures MoveCount(u, run, k) <= 2 * |u.m1| + 2 * |u.m2| + 2
  {
    RunKeepsInv(u, run, k);
    ScriptsFollow(u, run[k]);
    if k == 0 {
    } else {
      Terminates(u, run, k - 1);
      StepsUseUpRemaining(u, run[k - 1], run[k - 1 + 1]);
    }
  }

  lemma OneStepOn(u: Scripts, run: seq<State>, s: State) returns (next: seq<State>)
    requires IsRun(u, run) && Step(u, run[|run| - 1], s)
    ensures next == run + [s] && IsRun(u, next)
  {
    next := run + [s];
    forall k | 0 <= k < |next| - 1 ensures Step(u, next[k], next[k + 1]) {
      if k < |run| - 1 {
        assert Step(u, run[k], run[k + 1]);
      }
    }
  }

  /** Every run can be carried on without a fault to the point where both sides have returned. */
  lemma {:induction false} RunsToTheEnd(u: Scripts, run: seq<State>) returns (longer: seq<State>)
    requires Matched(u) && IsRun(u, run)
    ensures IsRun(u, longer) && run <= longer
    ensures var s := longer[|longer| - 1];
      !s.iEnd.Running? && !s.rEnd.Running? && s.faulted == run[|run| - 1].faulted
    decreases Remaining(u, run[|run| - 1])
  {
    var n := |run| - 1;
    var s := run[n];
    RunKeepsInv(u, run, n);
    ScriptsFollow(u, s);
    if !s.iEnd.Running? && !s.rEnd.Running? {
      longer := run;
    } else {
      var m := NoDeadlock(u, run, n);
      MovesUseUpRemaining(u, s, m);
      var next := OneStepOn(u, run, After(u, s, m));
      longer := RunsToTheEnd(u, next);
    }
  }

  /**
   * The outcome. In a run without faults in which both sides have returned, each result is decided
   * by acceptance alone: never by channel sizes, chunking or the order of the steps.
   */
  lemma Outcome(u: Scripts, run: seq<State>, k: nat)
    requires Matched(u) && IsRun(u, run) && k < |run|
    requires !run[k].iEnd.Running? && !run[k].rEnd.Running? && !run[k].faulted
    ensures run[k].rEnd == if u.rOk then Done(u.key) else Failed
    ensures run[k].iEnd == if u.iOk then Done(u.key) else Failed
  {
    var s := run[k];
    RunKeepsInv(u, run, k);
    ScriptsFollow(u, s);
    if s.rEnd.Done? { ResponderDoneMeansAllRead(u, s); }
    if s.iEnd.Done? { InitiatorDoneMeansAllRead(u, s); }
  }

  /** Stream synchronisation: when both have returned a key, neither has read a byte of what follows. */
  lemma StreamsAreSynchronised(u: Scripts, run: seq<State>, k: nat)
    requires Matched(u) && IsRun(u, run) && k < |run|
    ensures run[k].rEnd.Done? ==> run[k].rGot == u.m1 && run[k].taken + run[k].ir == run[k].app
    ensures run[k].iEnd.Done? ==> run[k].iGot == u.m2 && run[k].ri == []
    ensures run[k].iEnd.Done? ==> run[k].rGot == u.m1 && run[k].rSent == |u.m2|
  {
    RunKeepsInv(u, run, k);
    if run[k].rEnd.Done? { ResponderDoneMeansAllRead(u, run[k]); }
    if run[k].iEnd.Done? { InitiatorDoneMeansAllRead(u, run[k]); }
  }

  lemma TakeAll(u: Scripts, run: seq<State>) returns (next: seq<State>)
    requires Matched(u) && IsRun(u, run) && run[|run| - 1].rEnd.Done?
    ensures IsRun(u, next) && run <= next
    ensures var s, s' := run[|run| - 1], next[|next| - 1];
      s' == s.(ir := [], taken := s.taken + s.ir)
  {
    var s := run[|run| - 1];
    var n := |s.ir|;
    assert s.ir[..n] == s.ir && s.ir[n..] == [];
    var s' := s.(ir := s.ir[n..], taken := s.taken + s.ir[..n]);
    assert AppRead(s, s');
    next := OneStepOn(u, run, s');
  }

  lemma WriteOne(u: Scripts, run: seq<State>, b: byte) returns (next: seq<State>)
    requires Matched(u) && IsRun(u, run) && run[|run| - 1].iEnd.Done? && run[|run| - 1].ir == []
    ensures IsRun(u, next) && run <= next
    ensures var s, s' := run[|run| - 1], next[|next| - 1];
      s' == s.(ir := [b], app := s.app + [b])
  {
    var s := run[|run| - 1];
    var data: Bytes := [b];
    assert |s.ir| + |data| <= u.capIR && s.ir + data == data;
    var s' := s.(ir := s.ir + data, app := s.app + data);
    assert AppWrite(u, s, s');
    next := OneStepOn(u, run, s');
  }

  /** Once both have returned, any application data at all can be carried through, whatever the channel's size. */
  lemma {:induction false} AppDataGetsThrough(u: Scripts, run: seq<State>, data: Bytes) returns (longer: seq<State>)
    requires Matched(u) && IsRun(u, run)
    requires var s := run[|run| - 1]; s.iEnd.Done? && s.rEnd.Done? && s.app <= data
    ensures IsRun(u, longer) && run <= longer
    ensures var s, s' := run[|run| - 1], longer[|longer| - 1];
      s'.app == data == s'.taken && s'.ir == [] && s'.iEnd == s.iEnd && s'.rEnd == s.rEnd
    decreases |data| - |run[|run| - 1].app|
  {
    var n := |run[|run| - 1].app|;
    var next := TakeAll(u, run);
    if n == |data| {
      longer := next;
      RunKeepsInv(u, longer, |longer| - 1);
      ResponderDoneMeansAllRead(u, longer[|longer| - 1]);
    } else {
      next := WriteOne(u, next, data[n]);
      longer := AppDataGetsThrough(u, next, data);
    }
  }
}

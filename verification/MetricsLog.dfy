/** The metrics that all sessions share, and who recorded what in them. */
module MetricsLog {
  import opened Metrics

  /** One call of record_send_result or record_packet. */
  datatype Record = Outcome(success: int) | Arrival(packet: Packet)

  function SendOutcomes(rs: seq<Record>): seq<int> {
    if rs == [] then []
    else SendOutcomes(rs[..|rs| - 1]) + match rs[|rs| - 1] case Outcome(x) => [x] case Arrival(_) => []
  }

  function Arrivals(rs: seq<Record>): seq<Packet> {
    if rs == [] then []
    else Arrivals(rs[..|rs| - 1]) + match rs[|rs| - 1] case Outcome(_) => [] case Arrival(p) => [p]
  }

  lemma {:induction false} OutcomesConcat(a: seq<Record>, b: seq<Record>)
    ensures SendOutcomes(a + b) == SendOutcomes(a) + SendOutcomes(b)
    ensures Arrivals(a + b) == Arrivals(a) + Arrivals(b)
  {
    if b == [] {
      assert a + b == a;
    } else {
      var n := |b| - 1;
      assert (a + b)[..|a| + n] == a + b[..n];
      OutcomesConcat(a, b[..n]);
    }
  }

  lemma OneMoreRecord(rs: seq<Record>, r: Record)
    ensures SendOutcomes(rs + [r]) == if r.Outcome? then SendOutcomes(rs) + [r.success] else SendOutcomes(rs)
    ensures Arrivals(rs + [r]) == if r.Arrival? then Arrivals(rs) + [r.packet] else Arrivals(rs)
  {
    assert (rs + [r])[..|rs|] == rs;
  }

  // ---- The records of one session among those of the others ----

  datatype Entry = Entry(mine: bool, record: Record)

  /** All that was recorded, whoever did. */
  function Records(trace: seq<Entry>): (r: seq<Record>)
    ensures |r| == |trace|
  {
    seq(|trace|, k requires 0 <= k < |trace| => trace[k].record)
  }

  /** What one side recorded, in order: the session itself, or the others. */
  function By(mine: bool, trace: seq<Entry>): seq<Record> {
    if trace == [] then []
    else
      var front, e := By(mine, trace[..|trace| - 1]), trace[|trace| - 1];
      if e.mine == mine then front + [e.record] else front
  }

  function Mine(trace: seq<Entry>): seq<Record> { By(true, trace) }

  function Theirs(trace: seq<Entry>): seq<Record> { By(false, trace) }

  /** A stretch in which only others recorded. */
  function ByOthers(rs: seq<Record>): (trace: seq<Entry>)
    ensures |trace| == |rs|
  {
    seq(|rs|, k requires 0 <= k < |rs| => Entry(false, rs[k]))
  }

  lemma {:induction false} ByConcat(mine: bool, a: seq<Entry>, b: seq<Entry>)
    ensures By(mine, a + b) == By(mine, a) + By(mine, b)
  {
    if b == [] {
      assert a + b == a;
    } else {
      var n := |b| - 1;
      assert (a + b)[..|a| + n] == a + b[..n];
      ByConcat(mine, a, b[..n]);
    }
  }

  lemma {:induction false} OnlyOthers(rs: seq<Record>)
    ensures Mine(ByOthers(rs)) == [] && Theirs(ByOthers(rs)) == rs && Records(ByOthers(rs)) == rs
  {
    if rs == [] {
    } else {
      var n := |rs| - 1;
      OnlyOthers(rs[..n]);
      assert ByOthers(rs)[..n] == ByOthers(rs[..n]);
    }
  }

  /** A stretch of other sessions' records, and then one of this session's own. */
  function Stretch(rs: seq<Record>, own: Record): seq<Entry> { ByOthers(rs) + [Entry(true, own)] }

  lemma AfterStretch(trace: seq<Entry>, rs: seq<Record>, own: Record)
    ensures var t := trace + Stretch(rs, own);
      && Mine(t) == Mine(trace) + [own] && Theirs(t) == Theirs(trace) + rs
      && Records(t) == Records(trace) + rs + [own]
  {
    var last := [Entry(true, own)];
    assert last[..0] == [];
    OnlyOthers(rs);
    ByConcat(true, ByOthers(rs), last);
    ByConcat(false, ByOthers(rs), last);
    ByConcat(true, trace, Stretch(rs, own));
    ByConcat(false, trace, Stretch(rs, own));
    assert Records(trace + Stretch(rs, own)) == Records(trace) + Records(ByOthers(rs)) + [own];
  }

  lemma AfterOthers(trace: seq<Entry>, rs: seq<Record>)
    ensures var t := trace + ByOthers(rs);
      Mine(t) == Mine(trace) && Theirs(t) == Theirs(trace) + rs && Records(t) == Records(trace) + rs
  {
    OnlyOthers(rs);
    ByConcat(true, trace, ByOthers(rs));
    ByConcat(false, trace, ByOthers(rs));
    assert Records(trace + ByOthers(rs)) == Records(trace) + Records(ByOthers(rs));
  }

  lemma {:induction false} NoOthers(trace: seq<Entry>)
    requires Theirs(trace) == []
    ensures Records(trace) == Mine(trace)
  {
    if trace == [] {
    } else {
      var n := |trace| - 1;
      NoOthers(trace[..n]);
      assert Records(trace) == Records(trace[..n]) + [trace[n].record];
    }
  }

  // ---- Failures among mixed records ----

  lemma {:induction false} FailuresConcat(a: seq<int>, b: seq<int>)
    ensures Failures(a + b) == Failures(a) + Failures(b)
  {
    if b == [] {
      assert a + b == a;
    } else {
      var n := |b| - 1;
      assert (a + b)[..|a| + n] == a + b[..n];
      FailuresConcat(a, b[..n]);
    }
  }

  /** The failures in a stretch are this session's and the others'. */
  lemma {:induction false} FailuresOfBoth(trace: seq<Entry>)
    ensures Failures(SendOutcomes(Records(trace))) ==
      Failures(SendOutcomes(Mine(trace))) + Failures(SendOutcomes(Theirs(trace)))
  {
    if trace == [] {
    } else {
      var n := |trace| - 1;
      var front, e := trace[..n], trace[n];
      FailuresOfBoth(front);
      assert Records(trace) == Records(front) + [e.record];
      OutcomesConcat(Records(front), [e.record]);
      OutcomesConcat(By(e.mine, front), [e.record]);
      FailuresConcat(SendOutcomes(Records(front)), SendOutcomes([e.record]));
      FailuresConcat(SendOutcomes(By(e.mine, front)), SendOutcomes([e.record]));
    }
  }

  // ---- The shared rings ----

  class SharedMetrics {
    const loss: LossWindow
    const window: FlowWindow
    ghost var log: seq<Record>   // every record of every session, in the order of the locks

    ghost function Footprint(): set<object> { {this, loss, loss.buf, window, window.ts, window.sz} }

    ghost predicate Valid()
      reads Footprint()
    {
      && loss.buf != window.sz && loss.Valid() && window.Valid()
      && loss.outcomes == SendOutcomes(log) && window.arrivals == Arrivals(log)
    }

    constructor ()
      ensures Valid() && log == [] && fresh(Footprint())
    {
      loss := new LossWindow();
      window := new FlowWindow();
      log := [];
    }

    method RecordOutcome(success: int)
      requires Valid()
      modifies Footprint()
      ensures Valid() && log == old(log) + [Outcome(success)]
    {
      OneMoreRecord(log, Outcome(success));
      loss.RecordSendResult(success);
      log := log + [Outcome(success)];
    }

    method RecordArrival(p: Packet)
      requires Valid()
      modifies Footprint()
      ensures Valid() && log == old(log) + [Arrival(p)]
    {
      OneMoreRecord(log, Arrival(p));
      window.RecordPacket(p.t, p.size);
      log := log + [Arrival(p)];
    }

    method Record(r: Record)
      requires Valid()
      modifies Footprint()
      ensures Valid() && log == old(log) + [r]
    {
      match r {
        case Outcome(success) => RecordOutcome(success);
        case Arrival(packet) => RecordArrival(packet);
      }
    }

    /** Other sessions record. */
    method Yield(rs: seq<Record>)
      requires Valid()
      modifies Footprint()
      ensures Valid() && log == old(log) + rs
    {
      var i := 0;
      while i < |rs|
        invariant i <= |rs| && Valid() && log == old(log) + rs[..i]
      {
        Record(rs[i]);
        i := i + 1;
      }
    }

    method GetPacketLossPct() returns (pct: real)
      requires Valid()
      ensures pct == LossPct(SendOutcomes(log))
    {
      pct := loss.GetPacketLossPct();
    }
  }
}

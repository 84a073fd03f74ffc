/** parseSessions of the log parser, over lines already classified by its patterns. */
module LogParser {
  import opened Bytes

  /** A line by the first pattern that finds a match in it. */
  datatype LogLine =
    | SessionId(id: nat)
    | BytesReceived(bytes: nat)
    | AiDecision(decision: string)
    | KyberLevel(level: string)
    | Latency(ms: real)
    | Processing(ms: real)
    | Throughput(bps: real)
    | Other

  datatype ParsedSession = ParsedSession(sessionId: int, bytes: int, aiDecision: string, kyberLevel: string,
                                         latencyMs: real, processingMs: real, throughputBps: real)

  // ---- The reference: one record per header, each field from the last line that sets it ----

  /** The position after the last session header; 0 if there is none. */
  function AfterLastHeader(lines: seq<LogLine>): (n: nat)
    ensures n <= |lines|
    ensures n > 0 ==> lines[n - 1].SessionId?
    ensures forall k :: n <= k < |lines| ==> !lines[k].SessionId?
  {
    if lines == [] then 0
    else if lines[|lines| - 1].SessionId? then |lines|
    else AfterLastHeader(lines[..|lines| - 1])
  }

  /** What one line that is not a header does to the record being collected. */
  function Update(r: ParsedSession, x: LogLine): ParsedSession {
    match x
    case BytesReceived(n) => r.(bytes := n)
    case AiDecision(d) => r.(aiDecision := d)
    case KyberLevel(k) => r.(kyberLevel := k)
    case Latency(v) => r.(latencyMs := v)
    case Processing(v) => r.(processingMs := v)
    case Throughput(v) => r.(throughputBps := v)
    case SessionId(_) => r
    case Other => r
  }

  function EmptyRecord(id: int): ParsedSession { ParsedSession(id, 0, "UNKNOWN", "UNKNOWN", 0.0, 0.0, 0.0) }

  function RecordOf(id: int, body: seq<LogLine>): ParsedSession {
    if body == [] then EmptyRecord(id) else Update(RecordOf(id, body[..|body| - 1]), body[|body| - 1])
  }

  predicate IsSegment(seg: seq<LogLine>) {
    seg != [] && seg[0].SessionId? && forall k :: 0 < k < |seg| ==> !seg[k].SessionId?
  }

  /** Cut the lines at their headers; what comes before the first header belongs to no session. */
  function Segments(lines: seq<LogLine>): (segs: seq<seq<LogLine>>)
    ensures forall k :: 0 <= k < |segs| ==> IsSegment(segs[k])
    decreases |lines|
  {
    var n := AfterLastHeader(lines);
    if n == 0 then [] else Segments(lines[..n - 1]) + [lines[n - 1..]]
  }

  function Records(segs: seq<seq<LogLine>>): (r: seq<ParsedSession>)
    requires forall k :: 0 <= k < |segs| ==> IsSegment(segs[k])
    ensures |r| == |segs|
  {
    if segs == [] then []
    else
      var seg := segs[|segs| - 1];
      assert IsSegment(seg);
      Records(segs[..|segs| - 1]) + [RecordOf(seg[0].id, seg[1..])]
  }

  /** One record per segment. */
  function Sessions(lines: seq<LogLine>): seq<ParsedSession> { Records(Segments(lines)) }

  function Headers(lines: seq<LogLine>): nat {
    if lines == [] then 0 else Headers(lines[..|lines| - 1]) + if lines[|lines| - 1].SessionId? then 1 else 0
  }

  // ---- The fold ----

  /** What the loop holds after a line: the finished records and the seven locals. */
  datatype Locals = Locals(done: seq<ParsedSession>, current: ParsedSession)

  const START: Locals := Locals([], EmptyRecord(-1))

  function Flush(s: Locals): seq<ParsedSession> {
    if s.current.sessionId >= 0 then s.done + [s.current] else s.done
  }

  /** The loop's locals after all the lines, in terms of the reference. */
  function LocalsAfter(lines: seq<LogLine>): (s: Locals) {
    if lines == [] then START
    else
      var s, x := LocalsAfter(lines[..|lines| - 1]), lines[|lines| - 1];
      if x.SessionId? then Locals(Flush(s), EmptyRecord(x.id)) else s.(current := Update(s.current, x))
  }

  method ParseSessions(lines: seq<LogLine>) returns (result: seq<ParsedSession>)
    ensures result == Sessions(lines)
  {
    result := [];
    var sessionId: int := -1;
    var bytes: int := 0;
    var aiDecision, kyberLevel := "UNKNOWN", "UNKNOWN";
    var latencyMs, processingMs, throughput := 0.0, 0.0, 0.0;
    for i := 0 to |lines|
      invariant LocalsAfter(lines[..i])
        == Locals(result, ParsedSession(sessionId, bytes, aiDecision, kyberLevel, latencyMs, processingMs, throughput))
    {
      assert lines[..i + 1][..i] == lines[..i];
      match lines[i] {
        case SessionId(id) =>
          if sessionId >= 0 {
            result := result + [ParsedSession(sessionId, bytes, aiDecision, kyberLevel, latencyMs, processingMs, throughput)];
          }
          sessionId := id;
          bytes := 0;
          aiDecision, kyberLevel := "UNKNOWN", "UNKNOWN";
          latencyMs, processingMs, throughput := 0.0, 0.0, 0.0;
        case BytesReceived(n) => bytes := n;
        case AiDecision(d) => aiDecision := d;
        case KyberLevel(k) => kyberLevel := k;
        case Latency(r) => latencyMs := r;
        case Processing(r) => processingMs := r;
        case Throughput(r) => throughput := r;
        case Other =>
      }
    }
    assert lines[..|lines|] == lines;
    FoldIsSessions(lines);
    if sessionId >= 0 {
      result := result + [ParsedSession(sessionId, bytes, aiDecision, kyberLevel, latencyMs, processingMs, throughput)];
    }
  }

  // ---- Fold equals segmentation ----

  /** The current record is that of the lines since the last header, the finished ones of those before it. */
  predicate Meaning(lines: seq<LogLine>, s: Locals) {
    var n := AfterLastHeader(lines);
    if n == 0 then s.current.sessionId == -1 && s.done == []
    else s.current == RecordOf(lines[n - 1].id, lines[n..]) && s.done == Sessions(lines[..n - 1])
  }

  lemma RecordExtends(id: int, body: seq<LogLine>, x: LogLine)
    ensures RecordOf(id, body + [x]) == Update(RecordOf(id, body), x)
  {
    assert (body + [x])[..|body|] == body;
  }

  lemma LastHeaderKept(front: seq<LogLine>, x: LogLine)
    requires !x.SessionId?
    ensures AfterLastHeader(front + [x]) == AfterLastHeader(front)
  {
    assert (front + [x])[..|front|] == front;
  }

  lemma MeaningExtends(front: seq<LogLine>, x: LogLine, s: Locals)
    requires Meaning(front, s) && !x.SessionId?
    ensures Meaning(front + [x], s.(current := Update(s.current, x)))
  {
    var lines, n := front + [x], AfterLastHeader(front);
    LastHeaderKept(front, x);
    if n > 0 {
      assert lines[..n - 1] == front[..n - 1] && lines[n - 1] == front[n - 1];
      assert lines[n..] == front[n..] + [x];
      RecordExtends(front[n - 1].id, front[n..], x);
    } else {
      UpdateKeepsId(s.current, x);
    }
  }

  lemma UpdateKeepsId(r: ParsedSession, x: LogLine)
    ensures Update(r, x).sessionId == r.sessionId
  {
  }

  lemma {:induction false} FoldMeaning(lines: seq<LogLine>)
    ensures Meaning(lines, LocalsAfter(lines))
  {
    if lines == [] {
    } else {
      var front, x := lines[..|lines| - 1], lines[|lines| - 1];
      assert lines == front + [x];
      FoldMeaning(front);
      if x.SessionId? {
        assert lines[|lines|..] == [];
        FlushIsSessions(front);
      } else {
        MeaningExtends(front, x, LocalsAfter(front));
      }
    }
  }

  lemma FlushIsSessions(lines: seq<LogLine>)
    requires Meaning(lines, LocalsAfter(lines))
    ensures Flush(LocalsAfter(lines)) == Sessions(lines)
  {
    var n := AfterLastHeader(lines);
    if n > 0 {
      RecordKeepsId(lines[n - 1].id, lines[n..]);
      assert lines[n - 1..][1..] == lines[n..];
      assert Segments(lines)[..|Segments(lines)| - 1] == Segments(lines[..n - 1]);
    }
  }

  lemma {:induction false} RecordKeepsId(id: int, body: seq<LogLine>)
    ensures RecordOf(id, body).sessionId == id
  {
    if body == [] {
    } else {
      RecordKeepsId(id, body[..|body| - 1]);
    }
  }

  lemma FoldIsSessions(lines: seq<LogLine>)
    ensures Flush(LocalsAfter(lines)) == Sessions(lines)
  {
    FoldMeaning(lines);
    FlushIsSessions(lines);
  }

  lemma {:induction false} LastHeaderConcat(a: seq<LogLine>, b: seq<LogLine>)
    requires b != [] && b[0].SessionId?
    ensures AfterLastHeader(b) > 0 && AfterLastHeader(a + b) == |a| + AfterLastHeader(b)
  {
    var front := b[..|b| - 1];
    assert (a + b)[..|a + b| - 1] == a + front;
    if front != [] && !b[|b| - 1].SessionId? {
      LastHeaderConcat(a, front);
    }
  }

  /** The last segment of a log in two parts is that of the second part. */
  lemma LastSegmentConcat(a: seq<LogLine>, b: seq<LogLine>)
    requires b != [] && b[0].SessionId?
    ensures var n := AfterLastHeader(b);
      n > 0 && Segments(a + b) == Segments(a + b[..n - 1]) + [b[n - 1..]]
  {
    LastHeaderConcat(a, b);
    var s, n := a + b, AfterLastHeader(b);
    var m := AfterLastHeader(s);
    assert s[..m - 1] == a + b[..n - 1];
    assert s[m - 1..] == b[n - 1..];
  }

  lemma {:induction false} SegmentsConcat(a: seq<LogLine>, b: seq<LogLine>)
    requires b != [] && b[0].SessionId?
    ensures Segments(a + b) == Segments(a) + Segments(b)
    decreases |b|
  {
    LastSegmentConcat(a, b);
    var n := AfterLastHeader(b);
    var front, last := b[..n - 1], b[n - 1..];
    if front == [] {
      assert a + front == a;
    } else {
      SegmentsConcat(a, front);
    }
    assert Segments(a + front) == Segments(a) + Segments(front);
    Regroup(Segments(a + b), Segments(a + front), Segments(a), Segments(front), Segments(b), last);
  }

  lemma Regroup<T>(whole: seq<T>, front: seq<T>, a: seq<T>, f: seq<T>, b: seq<T>, last: T)
    requires whole == front + [last] && front == a + f && b == f + [last]
    ensures whole == a + b
  {
  }

  lemma {:induction false} RecordsConcat(a: seq<seq<LogLine>>, b: seq<seq<LogLine>>)
    requires forall k :: 0 <= k < |a| ==> IsSegment(a[k])
    requires forall k :: 0 <= k < |b| ==> IsSegment(b[k])
    ensures Records(a + b) == Records(a) + Records(b)
  {
    if b == [] {
      assert a + b == a;
    } else {
      assert (a + b)[..|a + b| - 1] == a + b[..|b| - 1];
      RecordsConcat(a, b[..|b| - 1]);
    }
  }

  /** A second log that starts with a header does not change what the first one says. */
  lemma SessionsConcat(a: seq<LogLine>, b: seq<LogLine>)
    requires b != [] && b[0].SessionId?
    ensures Sessions(a + b) == Sessions(a) + Sessions(b)
  {
    SegmentsConcat(a, b);
    RecordsConcat(Segments(a), Segments(b));
  }

  /** One record per header. */
  lemma {:induction false} OneRecordPerHeader(lines: seq<LogLine>)
    ensures |Sessions(lines)| == Headers(lines)
  {
    if lines == [] {
    } else {
      var front := lines[..|lines| - 1];
      OneRecordPerHeader(front);
      var n := AfterLastHeader(front);
      assert n > 0 ==> lines[..n - 1] == front[..n - 1];
    }
  }

  // ---- The last match wins ----

  /** `value` is what the last line of the body that sets the field gives it, or the default if none does. */
  ghost predicate LastOf<T>(body: seq<LogLine>, sets: LogLine -> Option<T>, value: T, default: T) {
    && (forall j :: 0 <= j < |body| && sets(body[j]).Some? && (forall i :: j < i < |body| ==> sets(body[i]).None?) ==>
          value == sets(body[j]).value)
    && ((forall j :: 0 <= j < |body| ==> sets(body[j]).None?) ==> value == default)
  }

  lemma LastOfMore<T>(body: seq<LogLine>, x: LogLine, sets: LogLine -> Option<T>, value: T, default: T)
    requires LastOf(body, sets, value, default)
    ensures LastOf(body + [x], sets, if sets(x).Some? then sets(x).value else value, default)
  {
    var more := body + [x];
    assert more[|body|] == x && forall j :: 0 <= j < |body| ==> more[j] == body[j];
    if sets(x).None? && forall j :: 0 <= j < |more| ==> sets(more[j]).None? {
      forall j | 0 <= j < |body| ensures sets(body[j]).None? {
        assert more[j] == body[j];
      }
    }
    forall j | 0 <= j < |more| && sets(more[j]).Some? && (forall i :: j < i < |more| ==> sets(more[i]).None?)
      ensures (if sets(x).Some? then sets(x).value else value) == sets(more[j]).value
    {
      if j < |body| {
        assert sets(more[|body|]).None?;
        forall i | j < i < |body| ensures sets(body[i]).None? {
          assert more[i] == body[i];
        }
      }
    }
  }

  /** Field by field: what a record shows of the lines after its header. */
  ghost predicate ShowsBytes(r: ParsedSession, body: seq<LogLine>) {
    LastOf(body, (x: LogLine) => if x.BytesReceived? then Some(x.bytes as int) else None, r.bytes, 0)
  }

  ghost predicate ShowsDecision(r: ParsedSession, body: seq<LogLine>) {
    LastOf(body, (x: LogLine) => if x.AiDecision? then Some(x.decision) else None, r.aiDecision, "UNKNOWN")
  }

  ghost predicate ShowsLevel(r: ParsedSession, body: seq<LogLine>) {
    LastOf(body, (x: LogLine) => if x.KyberLevel? then Some(x.level) else None, r.kyberLevel, "UNKNOWN")
  }

  ghost predicate ShowsLatency(r: ParsedSession, body: seq<LogLine>) {
    LastOf(body, (x: LogLine) => if x.Latency? then Some(x.ms) else None, r.latencyMs, 0.0)
  }

  ghost predicate ShowsProcessing(r: ParsedSession, body: seq<LogLine>) {
    LastOf(body, (x: LogLine) => if x.Processing? then Some(x.ms) else None, r.processingMs, 0.0)
  }

  ghost predicate ShowsThroughput(r: ParsedSession, body: seq<LogLine>) {
    LastOf(body, (x: LogLine) => if x.Throughput? then Some(x.bps) else None, r.throughputBps, 0.0)
  }

  lemma BytesAfterMore(r: ParsedSession, body: seq<LogLine>, x: LogLine)
    requires ShowsBytes(r, body)
    ensures ShowsBytes(Update(r, x), body + [x])
  {
    LastOfMore(body, x, (x: LogLine) => if x.BytesReceived? then Some(x.bytes as int) else None, r.bytes, 0);
  }

  lemma DecisionAfterMore(r: ParsedSession, body: seq<LogLine>, x: LogLine)
    requires ShowsDecision(r, body)
    ensures ShowsDecision(Update(r, x), body + [x])
  {
    LastOfMore(body, x, (x: LogLine) => if x.AiDecision? then Some(x.decision) else None, r.aiDecision, "UNKNOWN");
  }

  lemma LevelAfterMore(r: ParsedSession, body: seq<LogLine>, x: LogLine)
    requires ShowsLevel(r, body)
    ensures ShowsLevel(Update(r, x), body + [x])
  {
    LastOfMore(body, x, (x: LogLine) => if x.KyberLevel? then Some(x.level) else None, r.kyberLevel, "UNKNOWN");
  }

  lemma LatencyAfterMore(r: ParsedSession, body: seq<LogLine>, x: LogLine)
    requires ShowsLatency(r, body)
    ensures ShowsLatency(Update(r, x), body + [x])
  {
    LastOfMore(body, x, (x: LogLine) => if x.Latency? then Some(x.ms) else None, r.latencyMs, 0.0);
  }

  lemma ProcessingAfterMore(r: ParsedSession, body: seq<LogLine>, x: LogLine)
    requires ShowsProcessing(r, body)
    ensures ShowsProcessing(Update(r, x), body + [x])
  {
    LastOfMore(body, x, (x: LogLine) => if x.Processing? then Some(x.ms) else None, r.processingMs, 0.0);
  }

  lemma ThroughputAfterMore(r: ParsedSession, body: seq<LogLine>, x: LogLine)
    requires ShowsThroughput(r, body)
    ensures ShowsThroughput(Update(r, x), body + [x])
  {
    LastOfMore(body, x, (x: LogLine) => if x.Throughput? then Some(x.bps) else None, r.throughputBps, 0.0);
  }

  ghost predicate ShowsAll(r: ParsedSession, body: seq<LogLine>) {
    && ShowsBytes(r, body) && ShowsDecision(r, body) && ShowsLevel(r, body)
    && ShowsLatency(r, body) && ShowsProcessing(r, body) && ShowsThroughput(r, body)
  }

  lemma MoreShown(r: ParsedSession, body: seq<LogLine>, x: LogLine)
    requires ShowsAll(r, body)
    ensures ShowsAll(Update(r, x), body + [x])
  {
    BytesAfterMore(r, body, x);
    DecisionAfterMore(r, body, x);
    LevelAfterMore(r, body, x);
    LatencyAfterMore(r, body, x);
    ProcessingAfterMore(r, body, x);
    ThroughputAfterMore(r, body, x);
  }

  lemma {:induction false} RecordShows(id: int, body: seq<LogLine>)
    ensures ShowsAll(RecordOf(id, body), body)
  {
    if body == [] {
    } else {
      var front, x := body[..|body| - 1], body[|body| - 1];
      assert body == front + [x];
      RecordShows(id, front);
      MoreShown(RecordOf(id, front), front, x);
    }
  }

  lemma {:induction false} RecordsAt(segs: seq<seq<LogLine>>, k: nat)
    requires forall k :: 0 <= k < |segs| ==> IsSegment(segs[k])
    requires k < |segs|
    ensures IsSegment(segs[k]) && Records(segs)[k] == RecordOf(segs[k][0].id, segs[k][1..])
  {
    if k == |segs| - 1 {
    } else {
      RecordsAt(segs[..|segs| - 1], k);
    }
  }

  /**
   * Record k of the result, field by field: the identifier of the k-th header, and for each other field
   * the last line of its kind in the segment of that header, or the default.
   */
  lemma LastMatchWins(lines: seq<LogLine>, k: nat)
    requires k < |Segments(lines)|
    ensures |Sessions(lines)| == |Segments(lines)| && IsSegment(Segments(lines)[k])
    ensures var r, seg := Sessions(lines)[k], Segments(lines)[k];
      r.sessionId == seg[0].id && ShowsAll(r, seg[1..])
  {
    var seg := Segments(lines)[k];
    RecordsAt(Segments(lines), k);
    RecordKeepsId(seg[0].id, seg[1..]);
    RecordShows(seg[0].id, seg[1..]);
  }

  function Flatten(segs: seq<seq<LogLine>>): seq<LogLine> {
    if segs == [] then [] else Flatten(segs[..|segs| - 1]) + segs[|segs| - 1]
  }

  lemma Rejoin<T>(a: seq<T>, b: seq<T>, c: seq<T>, whole: seq<T>)
    requires |c| <= |whole| && whole[..|whole| - |c|] == a + b && whole[|whole| - |c|..] == c
    ensures whole == a + (b + c)
  {
  }

  /** The segments are the whole log but for the lines before its first header. */
  lemma {:induction false} SegmentsAreTheLog(lines: seq<LogLine>) returns (before: seq<LogLine>)
    ensures lines == before + Flatten(Segments(lines)) && forall j :: 0 <= j < |before| ==> !before[j].SessionId?
    decreases |lines|
  {
    var n := AfterLastHeader(lines);
    if n == 0 {
      before := lines;
      assert lines + [] == lines;
    } else {
      before := SegmentsAreTheLog(lines[..n - 1]);
      var segs := Segments(lines);
      assert segs[..|segs| - 1] == Segments(lines[..n - 1]);
      Rejoin(before, Flatten(Segments(lines[..n - 1])), lines[n - 1..], lines);
    }
  }
}

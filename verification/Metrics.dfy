/** Ring-buffer statistics and the bandwidth average, against their simple definitions. */
module Metrics {

  const FEATURE_WINDOW: nat := 256
  const LOSS_WINDOW: nat := 100

  /** The last n items, or all of them if there are fewer. */
  function Last<T>(s: seq<T>, n: nat): (r: seq<T>)
    ensures |r| == (if |s| < n then |s| else n)
  {
    if |s| < n then s else s[|s| - n..]
  }

  lemma LastIs<T>(s: seq<T>, n: nat)
    ensures Last(s, n) == s[(if |s| < n then 0 else |s| - n)..]
  {
  }

  /** The slot of item number j of a ring. */
  function Slot(j: nat, size: nat): (k: nat)
    requires size > 0
    ensures k < size
  {
    j % size
  }

  lemma SlotOfItem256(total: nat, count: nat, i: nat)
    requires count <= total && i < count <= 256
    ensures (total % 256 - count + i + 256) % 256 == (total - count + i) % 256
  {
  }

  lemma SlotOfItem100(total: nat, count: nat, i: nat)
    requires count <= total && i < count <= 100
    ensures (total % 100 - count + i + 100) % 100 == (total - count + i) % 100
  {
  }

  /** The index arithmetic of the code: the i-th oldest of `count` live items is item total - count + i. */
  lemma SlotOfItem(total: nat, count: nat, i: nat, size: nat)
    requires size == FEATURE_WINDOW || size == LOSS_WINDOW
    requires count <= total && count <= size && i < count
    ensures (Slot(total, size) - count + i + size) % size == Slot(total - count + i, size)
  {
    if size == FEATURE_WINDOW {
      SlotOfItem256(total, count, i);
    } else {
      SlotOfItem100(total, count, i);
    }
  }

  /** The ring indices of the oldest and the newest item. */
  lemma RingEnds(head: nat, count: nat, start: nat, last: nat)
    requires head < FEATURE_WINDOW && 1 <= count <= FEATURE_WINDOW
    requires start == (head - count + FEATURE_WINDOW) % FEATURE_WINDOW
    requires last == (head - 1 + FEATURE_WINDOW) % FEATURE_WINDOW
    ensures (start + 0) % FEATURE_WINDOW == start && (start + (count - 1)) % FEATURE_WINDOW == last
  {
  }

  /** Items less than a whole turn apart are in different slots. */
  lemma SlotsDiffer(a: nat, b: nat, size: nat)
    requires size == FEATURE_WINDOW || size == LOSS_WINDOW
    requires a < b < a + size
    ensures Slot(a, size) != Slot(b, size)
  {
  }

  lemma NextSlot(total: nat, size: nat)
    requires size == FEATURE_WINDOW || size == LOSS_WINDOW
    ensures (Slot(total, size) + 1) % size == Slot(total + 1, size)
  {
  }

  // ---- Sums ----

  function Sum(s: seq<real>): real {
    if s == [] then 0.0 else Sum(s[..|s| - 1]) + s[|s| - 1]
  }

  function Square(x: real): real { x * x }

  function SumOfSquares(s: seq<real>): real {
    if s == [] then 0.0 else SumOfSquares(s[..|s| - 1]) + Square(s[|s| - 1])
  }

  function SumOfSquaredDeviations(s: seq<real>, m: real): real {
    if s == [] then 0.0
    else SumOfSquaredDeviations(s[..|s| - 1], m) + Square(s[|s| - 1] - m)
  }

  /** q is a divided by n. */
  predicate IsQuotient(q: real, a: real, n: real) { q * n == a }

  ghost predicate IsMean(m: real, s: seq<real>) { IsQuotient(m, Sum(s), |s| as real) }

  /** v is the variance of s by its definition: the mean squared deviation from the mean m. */
  ghost predicate IsVariance(v: real, s: seq<real>, m: real) {
    IsMean(m, s) && IsQuotient(v, SumOfSquaredDeviations(s, m), |s| as real)
  }

  /** The textbook expansion of n squared deviations from m whose sum is d. */
  predicate Expanded(n: real, m: real, sum: real, q: real, d: real) {
    d == q - 2.0 * m * sum + n * m * m
  }

  lemma {:induction false} DeviationsExpand(s: seq<real>, m: real)
    ensures Expanded(|s| as real, m, Sum(s), SumOfSquares(s), SumOfSquaredDeviations(s, m))
  {
    if s == [] {
    } else {
      var t, x := s[..|s| - 1], s[|s| - 1];
      DeviationsExpand(t, m);
      ExpandOne(|t| as real, m, Sum(t), SumOfSquares(t), SumOfSquaredDeviations(t, m), x,
                |s| as real, Sum(s), SumOfSquares(s), SumOfSquaredDeviations(s, m));
    }
  }

  lemma ExpandOne(n0: real, m: real, sum0: real, q0: real, d0: real, x: real, n: real, sum: real, q: real, d: real)
    requires Expanded(n0, m, sum0, q0, d0)
    requires n == n0 + 1.0 && sum == sum0 + x && q == q0 + Square(x) && d == d0 + Square(x - m)
    ensures Expanded(n, m, sum, q, d)
  {
    assert Square(x - m) == Square(x) - 2.0 * m * x + m * m;
    assert 2.0 * m * sum == 2.0 * m * sum0 + 2.0 * m * x;
    assert n0 * m * m == n * m * m - m * m;
  }

  lemma {:induction false} DeviationsAreNonNegative(s: seq<real>, m: real)
    ensures SumOfSquaredDeviations(s, m) >= 0.0
  {
    if s == [] {
    } else {
      DeviationsAreNonNegative(s[..|s| - 1], m);
      SquareIsNonNegative(s[|s| - 1] - m);
    }
  }

  lemma SquareIsNonNegative(x: real)
    ensures Square(x) >= 0.0
  {
    if x < 0.0 {
      assert (-x) * (-x) > 0.0;
    }
  }

  lemma Cancel(a: real, b: real, n: real)
    requires n != 0.0 && a * n == b * n
    ensures a == b
  {
    assert (a - b) * n == 0.0;
  }

  /** Division, known by its law alone. */
  method Divide(a: real, n: real) returns (q: real)
    requires n != 0.0
    ensures IsQuotient(q, a, n)
  {
    q := a / n;
  }

  lemma OnePassArithmetic(q: real, sum: real, d: real, n: real, m: real, r: real)
    requires IsQuotient(m, sum, n) && IsQuotient(r, q, n)
    requires Expanded(n, m, sum, q, d)
    ensures IsQuotient(r - Square(m), d, n)
  {
    var mm := m * m;
    assert m * sum == mm * n && n * m * m == mm * n;
    assert (r - mm) * n == r * n - mm * n;
  }

  lemma SignOfQuotient(v: real, d: real, n: real)
    requires n > 0.0 && d >= 0.0 && IsQuotient(v, d, n)
    ensures v >= 0.0
  {
  }

  /**
   * The one-pass formula, mean of squares less square of mean, is the variance, so it is already
   * non-negative: the clamp that follows it does nothing.
   */
  lemma OnePassVariance(s: seq<real>, m: real, r: real, v: real)
    requires s != [] && IsMean(m, s) && IsQuotient(r, SumOfSquares(s), |s| as real)
    requires v == r - Square(m)
    ensures IsVariance(v, s, m) && v >= 0.0
  {
    var n, sum, q, d := |s| as real, Sum(s), SumOfSquares(s), SumOfSquaredDeviations(s, m);
    DeviationsExpand(s, m);
    OnePassArithmetic(q, sum, d, n, m, r);
    DeviationsAreNonNegative(s, m);
    SignOfQuotient(v, d, n);
  }

  // ---- The sliding window of packets ----

  datatype Packet = Packet(t: real, size: int)

  datatype Features = Features(iatMean: real, iatStd: real, pktRate: real, byteRate: real,
                               meanPktSize: real, flowDuration: real)

  const NO_FEATURES: Features := Features(0.0, 0.0, 0.0, 0.0, 0.0, 0.0)

  function Gaps(w: seq<Packet>): (g: seq<real>)
    ensures |g| == if w == [] then 0 else |w| - 1
  {
    if w == [] then [] else seq(|w| - 1, k requires 0 <= k < |w| - 1 => w[k + 1].t - w[k].t)
  }

  function TotalBytes(w: seq<Packet>): int {
    if w == [] then 0 else TotalBytes(w[..|w| - 1]) + w[|w| - 1].size
  }

  /** A square root, known by its law. */
  ghost predicate IsSqrt(sqrt: real -> real) {
    forall v :: v >= 0.0 ==> sqrt(v) >= 0.0 && Square(sqrt(v)) == v
  }

  /** The six features by their definitions: times in microseconds, rates per second. */
  ghost predicate AreFeatures(f: Features, w: seq<Packet>) {
    if |w| < 2 then f == NO_FEATURES
    else
      && f.flowDuration == Span(w)
      && f.iatStd >= 0.0 && HasSpread(f.iatStd, Gaps(w), f.iatMean)
      && IsQuotient(f.meanPktSize, TotalBytes(w) as real, |w| as real)
      && IsRate(f.pktRate, |w| as real, Span(w))
      && IsRate(f.byteRate, TotalBytes(w) as real, Span(w))
  }

  /** m is the mean of s and the square of deviation its variance. */
  ghost predicate HasSpread(deviation: real, s: seq<real>, m: real) { IsVariance(Square(deviation), s, m) }

  /** Microseconds from the oldest to the newest packet; negative if the clock readings are out of order. */
  function Span(w: seq<Packet>): real
    requires w != []
  {
    w[|w| - 1].t - w[0].t
  }

  /** `rate` per second makes `amount` over the span, given in microseconds; zero if that is not positive. */
  predicate IsRate(rate: real, amount: real, spanUs: real) {
    if spanUs > 0.0 then IsQuotient(rate, amount, spanUs / 1000000.0) else rate == 0.0
  }

  lemma {:induction false} GapsTelescope(w: seq<Packet>, n: nat)
    requires n < |w|
    ensures Sum(Gaps(w)[..n]) == w[n].t - w[0].t
  {
    if n == 0 {
    } else {
      assert Gaps(w)[..n][..n - 1] == Gaps(w)[..n - 1];
      GapsTelescope(w, n - 1);
    }
  }

  /** The sums are sums: nothing of nothing, one item's own value, and additive. */
  lemma {:induction false} SumsAreSums(a: seq<real>, b: seq<real>, x: real, m: real)
    ensures Sum([]) == 0.0 && Sum([x]) == x && Sum(a + b) == Sum(a) + Sum(b)
    ensures SumOfSquaredDeviations([], m) == 0.0 && SumOfSquaredDeviations([x], m) == (x - m) * (x - m)
    ensures SumOfSquaredDeviations(a + b, m) == SumOfSquaredDeviations(a, m) + SumOfSquaredDeviations(b, m)
  {
    assert [x][..0] == [];
    if b == [] {
      assert a + b == a;
    } else {
      var n := |b| - 1;
      assert (a + b)[..|a| + n] == a + b[..n];
      SumsAreSums(a, b[..n], x, m);
    }
  }

  lemma {:induction false} BytesAreSummed(a: seq<Packet>, b: seq<Packet>, p: Packet)
    ensures TotalBytes([]) == 0 && TotalBytes([p]) == p.size && TotalBytes(a + b) == TotalBytes(a) + TotalBytes(b)
  {
    assert [p][..0] == [];
    if b == [] {
      assert a + b == a;
    } else {
      var n := |b| - 1;
      assert (a + b)[..|a| + n] == a + b[..n];
      BytesAreSummed(a, b[..n], p);
    }
  }

  /** The differences of neighbouring time stamps. */
  lemma GapsAre(w: seq<Packet>, k: nat)
    requires k + 1 < |w|
    ensures |Gaps(w)| == |w| - 1 && Gaps(w)[k] == w[k + 1].t - w[k].t
  {
  }

  /** An amount in a span of microseconds, per second. */
  lemma RateIs(rate: real, amount: real, span: real)
    requires IsRate(rate, amount, span)
    ensures if span > 0.0 then IsQuotient(rate, 1000000.0 * amount, span) else rate == 0.0
  {
    if span > 0.0 {
      var s := span / 1000000.0;
      assert rate * s == amount && span == s * 1000000.0;
      assert rate * span == rate * s * 1000000.0;
    }
  }

  lemma MeanGap(f: Features, w: seq<Packet>)
    requires AreFeatures(f, w) && |w| >= 2
    ensures f.flowDuration == Span(w) && IsQuotient(f.iatMean, Span(w), (|w| - 1) as real)
  {
    MeanGapTimesGapsIsSpan(f, w);
  }

  lemma FewPackets(f: Features, arrivals: seq<Packet>)
    requires AreFeatures(f, Last(arrivals, FEATURE_WINDOW)) && |arrivals| < 2
    ensures f == Features(0.0, 0.0, 0.0, 0.0, 0.0, 0.0)
  {
  }

  /**
   * The six features in plain terms, over all the packets ever recorded: `w` are the last 256 of them,
   * or as many as there are, and `span` the microseconds between the first and the last of those.
   */
  lemma FeaturesInPlainTerms(f: Features, arrivals: seq<Packet>, n: nat, w: seq<Packet>, span: real)
    requires AreFeatures(f, Last(arrivals, FEATURE_WINDOW)) && |arrivals| >= 2
    requires n == (if |arrivals| < 256 then |arrivals| else 256) && w == arrivals[|arrivals| - n..]
    requires span == arrivals[|arrivals| - 1].t - arrivals[|arrivals| - n].t
    ensures f.flowDuration == span && IsQuotient(f.iatMean, span, (n - 1) as real)
    ensures f.iatStd >= 0.0 && IsQuotient(Square(f.iatStd), SumOfSquaredDeviations(Gaps(w), f.iatMean), (n - 1) as real)
    ensures IsQuotient(f.meanPktSize, TotalBytes(w) as real, n as real)
    ensures if span > 0.0 then
        IsQuotient(f.pktRate, 1000000.0 * n as real, span) && IsQuotient(f.byteRate, 1000000.0 * TotalBytes(w) as real, span)
      else f.pktRate == 0.0 && f.byteRate == 0.0
  {
    LastIs(arrivals, FEATURE_WINDOW);
    assert Last(arrivals, FEATURE_WINDOW) == w && Span(w) == span;
    MeanGap(f, w);
    assert HasSpread(f.iatStd, Gaps(w), f.iatMean);
    RateIs(f.pktRate, n as real, span);
    RateIs(f.byteRate, TotalBytes(w) as real, span);
  }

  /** The mean gap times the number of gaps is the span of the window, the sum of the gaps. */
  lemma MeanGapTimesGapsIsSpan(f: Features, w: seq<Packet>)
    requires AreFeatures(f, w) && |w| >= 2
    ensures f.flowDuration == Sum(Gaps(w)) == f.iatMean * |Gaps(w)| as real
  {
    var g := Gaps(w);
    GapsTelescope(w, |g|);
    assert g[..|g|] == g;
  }

  /** Bytes go with packets: byte rate is packet rate times mean packet size. */
  lemma ByteRateIsPacketRateTimesSize(f: Features, w: seq<Packet>)
    requires AreFeatures(f, w)
    ensures IsQuotient(f.pktRate, f.byteRate, f.meanPktSize)
  {
    if |w| < 2 {
      assert f == NO_FEATURES;
    } else {
      var n, b, span := |w| as real, TotalBytes(w) as real, Span(w);
      assert IsRate(f.pktRate, n, span) && IsRate(f.byteRate, b, span) && IsQuotient(f.meanPktSize, b, n);
      RatesMultiply(f.byteRate, f.pktRate, f.meanPktSize, n, b, span);
    }
  }

  lemma RatesMultiply(byteRate: real, pktRate: real, size: real, n: real, b: real, span: real)
    requires IsRate(pktRate, n, span) && IsRate(byteRate, b, span) && IsQuotient(size, b, n)
    ensures IsQuotient(pktRate, byteRate, size)
  {
    var s := span / 1000000.0;
    if span > 0.0 {
      assert (pktRate * size) * s == size * (pktRate * s);
      Cancel(byteRate, pktRate * size, s);
    }
  }

  class FlowWindow {
    const ts: array<real>
    const sz: array<int>
    var head: nat
    var count: nat
    ghost var arrivals: seq<Packet>   // every packet ever recorded

    ghost predicate Valid()
      reads this, ts, sz
    {
      && ts.Length == sz.Length == FEATURE_WINDOW
      && count == (if |arrivals| < FEATURE_WINDOW then |arrivals| else FEATURE_WINDOW)
      && head == Slot(|arrivals|, FEATURE_WINDOW)
      && forall j :: |arrivals| - count <= j < |arrivals| ==>
           Packet(ts[Slot(j, FEATURE_WINDOW)], sz[Slot(j, FEATURE_WINDOW)]) == arrivals[j]
    }

    /** The live slots, oldest first, as the index arithmetic of the code visits them. */
    ghost function Window(): seq<Packet>
      requires Valid()
      reads this, ts, sz
    {
      seq(count, i requires 0 <= i < count && Valid() reads this, ts, sz =>
        var k := (head - count + i + FEATURE_WINDOW) % FEATURE_WINDOW;
        Packet(ts[k], sz[k]))
    }

    lemma WindowIsLast()
      requires Valid()
      ensures Window() == Last(arrivals, FEATURE_WINDOW)
    {
      forall i | 0 <= i < count ensures Window()[i] == arrivals[|arrivals| - count + i] {
        SlotOfItem(|arrivals|, count, i, FEATURE_WINDOW);
      }
    }

    constructor ()
      ensures Valid() && arrivals == [] && fresh(ts) && fresh(sz)
    {
      ts := new real[FEATURE_WINDOW](_ => 0.0);
      sz := new int[FEATURE_WINDOW](_ => 0);
      head, count, arrivals := 0, 0, [];
    }

    method RecordPacket(t: real, size: int)
      requires Valid()
      modifies this, ts, sz
      ensures Valid() && arrivals == old(arrivals) + [Packet(t, size)]
    {
      NextSlot(|arrivals|, FEATURE_WINDOW);
      ts[head] := t;
      sz[head] := size;
      head := (head + 1) % FEATURE_WINDOW;
      if count < FEATURE_WINDOW {
        count := count + 1;
      }
      arrivals := arrivals + [Packet(t, size)];
      forall j | |arrivals| - count <= j < |arrivals|
        ensures Packet(ts[Slot(j, FEATURE_WINDOW)], sz[Slot(j, FEATURE_WINDOW)]) == arrivals[j]
      {
        if j < |arrivals| - 1 {
          SlotsDiffer(j, |arrivals| - 1, FEATURE_WINDOW);
        }
      }
    }

    /** The slot of the i-th oldest packet of the window, counted from the oldest. */
    lemma SlotHolds(start: nat, i: nat, k: nat)
      requires Valid() && i < count
      requires start == (head - count + FEATURE_WINDOW) % FEATURE_WINDOW && k == (start + i) % FEATURE_WINDOW
      ensures Packet(ts[k], sz[k]) == Last(arrivals, FEATURE_WINDOW)[i]
    {
      assert k == (head - count + i + FEATURE_WINDOW) % FEATURE_WINDOW;
      SlotOfItem(|arrivals|, count, i, FEATURE_WINDOW);
    }

    /** The loop over the ring: both sums of the gaps, and the bytes. */
    method Accumulate(start: nat, firstTs: real) returns (sumIat: real, sumIat2: real, totalBytes: int)
      requires Valid() && count >= 1
      requires start == (head - count + FEATURE_WINDOW) % FEATURE_WINDOW
      requires firstTs == Last(arrivals, FEATURE_WINDOW)[0].t
      ensures var w := Last(arrivals, FEATURE_WINDOW);
        sumIat == Sum(Gaps(w)) && sumIat2 == SumOfSquares(Gaps(w)) && totalBytes == TotalBytes(w)
    {
      ghost var w := Last(arrivals, FEATURE_WINDOW);
      sumIat, sumIat2, totalBytes := 0.0, 0.0, 0;
      var prev := firstTs;
      var i := 0;
      while i < count
        invariant 0 <= i <= count
        invariant prev == w[if i > 0 then i - 1 else 0].t
        invariant sumIat == Sum(Gaps(w[..i])) && sumIat2 == SumOfSquares(Gaps(w[..i]))
        invariant totalBytes == TotalBytes(w[..i])
      {
        var idx := (start + i) % FEATURE_WINDOW;
        SlotHolds(start, i, idx);
        totalBytes := totalBytes + sz[idx];
        BytesExtend(w, i);
        if i > 0 {
          var gap := ts[idx] - prev;
          GapsExtend(w, i, gap);
          sumIat := sumIat + gap;
          sumIat2 := sumIat2 + Square(gap);
          prev := ts[idx];
        }
        i := i + 1;
      }
      assert w[..count] == w;
    }

    /** The oldest slot, and the newest as the code finds it. */
    lemma EndSlots(start: nat, last: nat)
      requires Valid() && count >= 1
      requires start == (head - count + FEATURE_WINDOW) % FEATURE_WINDOW
      requires last == (head - 1 + FEATURE_WINDOW) % FEATURE_WINDOW
      ensures ts[start] == Last(arrivals, FEATURE_WINDOW)[0].t
      ensures ts[last] == Last(arrivals, FEATURE_WINDOW)[count - 1].t
    {
      RingEnds(head, count, start, last);
      SlotHolds(start, 0, start);
      SlotHolds(start, count - 1, last);
    }

    method GetWindowFeatures(sqrt: real -> real) returns (f: Features)
      requires Valid() && IsSqrt(sqrt)
      ensures AreFeatures(f, Last(arrivals, FEATURE_WINDOW))
    {
      var n := count;
      if n < 2 {
        return NO_FEATURES;
      }
      var start := (head - n + FEATURE_WINDOW) % FEATURE_WINDOW;
      var last := (head - 1 + FEATURE_WINDOW) % FEATURE_WINDOW;
      EndSlots(start, last);
      var firstTs := ts[start];
      var lastTs := ts[last];
      var spanUs := lastTs - firstTs;
      var sumIat, sumIat2, totalBytes := Accumulate(start, firstTs);
      ghost var w := Last(arrivals, FEATURE_WINDOW);
      assert |w| == n && spanUs == Span(w);
      f := Finish(sqrt, n, totalBytes, sumIat, sumIat2, spanUs, w);
    }
  }

  lemma BytesExtend(w: seq<Packet>, i: nat)
    requires i < |w|
    ensures TotalBytes(w[..i + 1]) == TotalBytes(w[..i]) + w[i].size
    ensures i == 0 ==> Gaps(w[..i + 1]) == []
  {
    assert w[..i + 1][..i] == w[..i];
  }

  /** What one more packet adds to the two sums of gaps. */
  lemma GapsExtend(w: seq<Packet>, i: nat, gap: real)
    requires 0 < i < |w| && gap == w[i].t - w[i - 1].t
    ensures Sum(Gaps(w[..i + 1])) == Sum(Gaps(w[..i])) + gap
    ensures SumOfSquares(Gaps(w[..i + 1])) == SumOfSquares(Gaps(w[..i])) + Square(gap)
  {
    assert Gaps(w[..i + 1])[..i - 1] == Gaps(w[..i]);
    assert Gaps(w[..i + 1])[i - 1] == gap;
  }

  /** Mean and deviation of the gaps, from their two sums. */
  method Spread(sqrt: real -> real, sumIat: real, sumIat2: real, ghost g: seq<real>, gaps: real)
    returns (mean: real, deviation: real)
    requires IsSqrt(sqrt) && g != [] && gaps == |g| as real
    requires sumIat == Sum(g) && sumIat2 == SumOfSquares(g)
    ensures deviation >= 0.0 && HasSpread(deviation, g, mean)
  {
    mean := Divide(sumIat, gaps);
    var meanSquare := Divide(sumIat2, gaps);
    var variance := meanSquare - Square(mean);
    OnePassVariance(g, mean, meanSquare, variance);
    if variance < 0.0 {
      variance := 0.0;
    }
    deviation := sqrt(variance);
  }

  method Rate(amount: real, spanUs: real) returns (rate: real)
    ensures IsRate(rate, amount, spanUs)
  {
    var spanS := spanUs / 1000000.0;
    rate := 0.0;
    if spanS > 0.0 {
      rate := Divide(amount, spanS);
    }
  }

  /** The arithmetic after the lock is released. */
  method Finish(sqrt: real -> real, n: nat, totalBytes: int, sumIat: real, sumIat2: real, spanUs: real, ghost w: seq<Packet>)
    returns (f: Features)
    requires IsSqrt(sqrt) && n == |w| >= 2
    requires totalBytes == TotalBytes(w) && spanUs == Span(w)
    requires sumIat == Sum(Gaps(w)) && sumIat2 == SumOfSquares(Gaps(w))
    ensures AreFeatures(f, w)
  {
    var iatMean, iatStd := Spread(sqrt, sumIat, sumIat2, Gaps(w), (n - 1) as real);
    var pktRate := Rate(n as real, spanUs);
    var byteRate := Rate(totalBytes as real, spanUs);
    var meanPktSize := Divide(totalBytes as real, n as real);
    f := Features(iatMean, iatStd, pktRate, byteRate, meanPktSize, spanUs);
  }

  // ---- The loss window ----

  function Failures(s: seq<int>): nat {
    if s == [] then 0 else Failures(s[..|s| - 1]) + if s[|s| - 1] == 0 then 1 else 0
  }

  /** The percentage of failures among the last LOSS_WINDOW outcomes. */
  function LossPct(outcomes: seq<int>): real {
    var w := Last(outcomes, LOSS_WINDOW);
    if w == [] then 0.0 else Failures(w) as real / |w| as real * 100.0
  }

  lemma {:induction false} FailuresBound(s: seq<int>)
    ensures Failures(s) <= |s|
  {
    if s == [] {
    } else {
      FailuresBound(s[..|s| - 1]);
    }
  }

  lemma {:induction false} FailuresFront(s: seq<int>)
    requires s != []
    ensures Failures(s) == Failures(s[1..]) + if s[0] == 0 then 1 else 0
  {
    if |s| == 1 {
    } else {
      var t := s[..|s| - 1];
      FailuresFront(t);
      assert s[1..][..|s| - 2] == t[1..];
    }
  }

  lemma FractionIsAtMostOne(a: real, n: real)
    requires 0.0 <= a <= n && n > 0.0
    ensures 0.0 <= a / n <= 1.0
  {
  }

  /** The places from a up to b at which a failure was recorded. */
  function FailedPlaces(s: seq<int>, a: nat, b: nat): set<nat>
    requires b <= |s|
  {
    set k: nat | a <= k < b && s[k] == 0
  }

  lemma {:induction false} FailuresByPlace(s: seq<int>, a: nat, b: nat)
    requires a <= b <= |s|
    ensures Failures(s[a..b]) == |FailedPlaces(s, a, b)|
  {
    if a == b {
      assert FailedPlaces(s, a, b) == {};
    } else {
      FailuresByPlace(s, a, b - 1);
      assert s[a..b][..b - 1 - a] == s[a..b - 1];
      var front := FailedPlaces(s, a, b - 1);
      assert FailedPlaces(s, a, b) == if s[b - 1] == 0 then front + {b - 1} else front;
    }
  }

  /** The percentage times the number of outcomes in the window is a hundred times the failures in it. */
  lemma LossCountsFailures(outcomes: seq<int>)
    ensures outcomes == [] ==> LossPct(outcomes) == 0.0
    ensures outcomes != [] ==>
      var n := if |outcomes| < 100 then |outcomes| else 100;
      LossPct(outcomes) * n as real == 100.0 * |FailedPlaces(outcomes, |outcomes| - n, |outcomes|)| as real
  {
    if outcomes == [] {
    } else {
      var n := if |outcomes| < 100 then |outcomes| else 100;
      LastIs(outcomes, LOSS_WINDOW);
      assert Last(outcomes, LOSS_WINDOW) == outcomes[|outcomes| - n..|outcomes|];
      FailuresByPlace(outcomes, |outcomes| - n, |outcomes|);
      QuotientTimes(Failures(Last(outcomes, LOSS_WINDOW)) as real, n as real);
    }
  }

  lemma QuotientTimes(a: real, n: real)
    requires n > 0.0
    ensures a / n * 100.0 * n == 100.0 * a
  {
    var q := a / n;
    assert q * n == a;
    assert q * 100.0 * n == 100.0 * (q * n);
  }

  lemma LossIsAPercentage(outcomes: seq<int>)
    ensures 0.0 <= LossPct(outcomes) <= 100.0
  {
    var w := Last(outcomes, LOSS_WINDOW);
    FailuresBound(w);
    if w != [] {
      FractionIsAtMostOne(Failures(w) as real, |w| as real);
    }
  }

  /** Once the window is full, one more outcome moves the percentage by at most one point. */
  lemma LossMovesByAtMostOne(outcomes: seq<int>, x: int)
    requires |outcomes| >= LOSS_WINDOW
    ensures -1.0 <= LossPct(outcomes + [x]) - LossPct(outcomes) <= 1.0
  {
    var w, w' := Last(outcomes, LOSS_WINDOW), Last(outcomes + [x], LOSS_WINDOW);
    assert w' == w[1..] + [x];
    FailuresFront(w);
    assert w'[..LOSS_WINDOW - 1] == w[1..];
  }

  class LossWindow {
    const buf: array<int>
    var head: nat
    var filled: nat
    ghost var outcomes: seq<int>   // every outcome ever recorded

    ghost predicate Valid()
      reads this, buf
    {
      && buf.Length == LOSS_WINDOW
      && filled == (if |outcomes| < LOSS_WINDOW then |outcomes| else LOSS_WINDOW)
      && head == Slot(|outcomes|, LOSS_WINDOW)
      && forall j :: |outcomes| - filled <= j < |outcomes| ==> buf[Slot(j, LOSS_WINDOW)] == outcomes[j]
    }

    constructor ()
      ensures Valid() && outcomes == [] && fresh(buf)
    {
      buf := new int[LOSS_WINDOW](_ => 0);
      head, filled, outcomes := 0, 0, [];
    }

    method RecordSendResult(success: int)
      requires Valid()
      modifies this, buf
      ensures Valid() && outcomes == old(outcomes) + [success]
    {
      NextSlot(|outcomes|, LOSS_WINDOW);
      buf[head] := success;
      head := (head + 1) % LOSS_WINDOW;
      if filled < LOSS_WINDOW {
        filled := filled + 1;
      }
      outcomes := outcomes + [success];
      forall j | |outcomes| - filled <= j < |outcomes|
        ensures buf[Slot(j, LOSS_WINDOW)] == outcomes[j]
      {
        if j < |outcomes| - 1 {
          SlotsDiffer(j, |outcomes| - 1, LOSS_WINDOW);
        }
      }
    }

    method GetPacketLossPct() returns (pct: real)
      requires Valid()
      ensures pct == LossPct(outcomes)
      ensures outcomes == [] ==> pct == 0.0
      ensures outcomes != [] ==>
        var n := if |outcomes| < 100 then |outcomes| else 100;
        pct * n as real == 100.0 * |FailedPlaces(outcomes, |outcomes| - n, |outcomes|)| as real
    {
      pct := Percentage();
      LossCountsFailures(outcomes);
    }

    method Percentage() returns (pct: real)
      requires Valid()
      ensures pct == LossPct(outcomes)
    {
      if filled == 0 {
        return 0.0;
      }
      ghost var w := Last(outcomes, LOSS_WINDOW);
      var failures := 0;
      var i := 0;
      while i < filled
        invariant 0 <= i <= filled
        invariant failures == Failures(w[..i])
      {
        var idx := (head - filled + i + LOSS_WINDOW) % LOSS_WINDOW;
        SlotOfItem(|outcomes|, filled, i, LOSS_WINDOW);
        assert buf[idx] == w[i];
        assert w[..i + 1][..i] == w[..i];
        if buf[idx] == 0 {
          failures := failures + 1;
        }
        i := i + 1;
      }
      assert w[..filled] == w;
      pct := failures as real / filled as real * 100.0;
    }
  }

  // ---- The bandwidth average ----

  const REF_BANDWIDTH_BPS: real := 1000000.0
  const EMA_ALPHA: real := 0.3

  function Pow(x: real, n: nat): real { if n == 0 then 1.0 else x * Pow(x, n - 1) }

  /** The first k terms of the closed form: sample j of n weighs 0.3 * 0.7^(n-1-j). */
  function WeightedSum(samples: seq<real>, k: nat): real
    requires k <= |samples|
  {
    if k == 0 then 0.0
    else WeightedSum(samples, k - 1) + EMA_ALPHA * Pow(1.0 - EMA_ALPHA, |samples| - k) * samples[k - 1]
  }

  function ClosedForm(samples: seq<real>): real { WeightedSum(samples, |samples|) }

  lemma {:induction false} WeightedSumShifts(samples: seq<real>, x: real, k: nat)
    requires k <= |samples|
    ensures WeightedSum(samples + [x], k) == (1.0 - EMA_ALPHA) * WeightedSum(samples, k)
  {
    if k == 0 {
    } else {
      WeightedSumShifts(samples, x, k - 1);
      var p := Pow(1.0 - EMA_ALPHA, |samples| - k);
      assert Pow(1.0 - EMA_ALPHA, |samples| + 1 - k) == (1.0 - EMA_ALPHA) * p;
      assert (samples + [x])[k - 1] == samples[k - 1];
    }
  }

  /** One more sample, in the closed form, is one step of the recurrence. */
  lemma ClosedFormStep(samples: seq<real>, x: real)
    ensures ClosedForm(samples + [x]) == EMA_ALPHA * x + (1.0 - EMA_ALPHA) * ClosedForm(samples)
  {
    WeightedSumShifts(samples, x, |samples|);
  }

  /** The weights of n samples sum to 1 - 0.7^n: the average of n equal samples shows it. */
  lemma {:induction false} WeightsSum(n: nat)
    ensures ClosedForm(seq(n, _ => 1.0)) == 1.0 - Pow(0.7, n)
  {
    if n == 0 {
    } else {
      WeightsSum(n - 1);
      assert seq(n, _ => 1.0) == seq(n - 1, _ => 1.0) + [1.0];
      ClosedFormStep(seq(n - 1, _ => 1.0), 1.0);
    }
  }

  /** The average stays between any bounds on the samples that include zero. */
  lemma {:induction false} AverageIsBounded(samples: seq<real>, lo: real, hi: real)
    requires lo <= 0.0 <= hi
    requires forall k :: 0 <= k < |samples| ==> lo <= samples[k] <= hi
    ensures lo <= ClosedForm(samples) <= hi
  {
    if samples == [] {
    } else {
      var t := samples[..|samples| - 1];
      AverageIsBounded(t, lo, hi);
      ClosedFormStep(t, samples[|samples| - 1]);
      assert samples == t + [samples[|samples| - 1]];
    }
  }

  function UtilisationPct(ema: real): (pct: real)
    ensures pct <= 100.0
    ensures if ema <= 1000000.0 then pct * 1000000.0 == 100.0 * ema else pct == 100.0
    ensures 0.0 <= pct <==> 0.0 <= ema
  {
    var pct := ema / REF_BANDWIDTH_BPS * 100.0;
    if pct > 100.0 then 100.0 else pct
  }

  class BandwidthEma {
    var ema: real
    ghost var samples: seq<real>   // bytes per second of every accepted update

    ghost predicate Valid()
      reads this
    {
      ema == ClosedForm(samples)
    }

    constructor ()
      ensures Valid() && samples == []
    {
      ema, samples := 0.0, [];
    }

    method Update(bytes: int, elapsedMs: real)
      requires Valid()
      modifies this
      ensures Valid()
      ensures samples == if elapsedMs <= 0.0 then old(samples) else old(samples) + [bytes as real / (elapsedMs / 1000.0)]
    {
      if elapsedMs <= 0.0 {
        return;
      }
      var bps := bytes as real / (elapsedMs / 1000.0);
      ClosedFormStep(samples, bps);
      ema := EMA_ALPHA * bps + (1.0 - EMA_ALPHA) * ema;
      samples := samples + [bps];
    }

    method UtilPct() returns (pct: real)
      requires Valid()
      ensures pct == UtilisationPct(ClosedForm(samples))
    {
      pct := ema / REF_BANDWIDTH_BPS * 100.0;
      if pct > 100.0 {
        pct := 100.0;
      }
    }
  }

  /** The end of handle_client: the cast, and 1 ms for an elapsed time that is not positive. */
  method EndFlow(average: BandwidthEma, f: FlowEnd)
    requires average.Valid()
    modifies average
    ensures average.Valid() && average.samples == old(average.samples) + [FlowSample(f)]
  {
    average.Update(ToInt32(f.bytes), if f.wallMs > 0.0 then f.wallMs else 1.0);
  }

  /** With no negative sample the utilisation is a percentage. */
  lemma UtilisationIsAPercentage(samples: seq<real>)
    requires forall k :: 0 <= k < |samples| ==> samples[k] >= 0.0
    ensures 0.0 <= UtilisationPct(ClosedForm(samples)) <= 100.0
  {
    var hi := UpperBound(samples);
    AverageIsBounded(samples, 0.0, hi);
  }

  function UpperBound(samples: seq<real>): (hi: real)
    ensures hi >= 0.0
    ensures forall k :: 0 <= k < |samples| ==> samples[k] <= hi
  {
    if samples == [] then 0.0
    else
      var h := UpperBound(samples[..|samples| - 1]);
      if samples[|samples| - 1] > h then samples[|samples| - 1] else h
  }

  /** The cast of a flow's byte count to a 32-bit int, where the caller feeds the average. */
  function ToInt32(n: int): int {
    (n + 0x8000_0000) % 0x1_0000_0000 - 0x8000_0000
  }

  /** The 32-bit number congruent to n. */
  lemma ToInt32Is(n: int)
    ensures -0x8000_0000 <= ToInt32(n) < 0x8000_0000 && (n - ToInt32(n)) % 0x1_0000_0000 == 0
  {
  }

  /** What a flow of handle_client ends with. */
  datatype FlowEnd = FlowEnd(bytes: nat, wallMs: real)

  /** The elapsed time the caller passes: never zero or less. */
  function Elapsed(f: FlowEnd): (ms: real)
    ensures ms > 0.0
  {
    if f.wallMs > 0.0 then f.wallMs else 1.0
  }

  /** The sample that a flow's end makes of the average. */
  function FlowSample(f: FlowEnd): real { ToInt32(f.bytes) as real / (Elapsed(f) / 1000.0) }

  function FlowSamples(flows: seq<FlowEnd>): (r: seq<real>)
    ensures |r| == |flows| && forall k :: 0 <= k < |r| ==> r[k] == FlowSample(flows[k])
  {
    seq(|flows|, k requires 0 <= k < |flows| => FlowSample(flows[k]))
  }

  lemma SignOfProduct(x: real, y: real)
    requires y > 0.0
    ensures x * y >= 0.0 <==> x >= 0.0
  {
  }

  lemma SampleTimesElapsed(f: FlowEnd)
    ensures FlowSample(f) * Elapsed(f) == 1000.0 * ToInt32(f.bytes) as real
  {
    var s := Elapsed(f) / 1000.0;
    assert FlowSample(f) * s == ToInt32(f.bytes) as real;
    assert FlowSample(f) * Elapsed(f) == FlowSample(f) * s * 1000.0;
  }

  /**
   * The utilisation need not be a percentage, because of the cast. Whatever came before, the end of a
   * flow leaves it non-negative exactly when its cast byte count does not outweigh the average so far.
   */
  lemma FlowUtilisationIff(prior: seq<real>, f: FlowEnd)
    ensures UtilisationPct(ClosedForm(prior + [FlowSample(f)])) >= 0.0 <==>
      300.0 * ToInt32(f.bytes) as real + 0.7 * ClosedForm(prior) * Elapsed(f) >= 0.0
  {
    var x, e, w := FlowSample(f), ClosedForm(prior), Elapsed(f);
    ClosedFormStep(prior, x);
    SampleTimesElapsed(f);
    SignOfProduct(EMA_ALPHA * x + (1.0 - EMA_ALPHA) * e, w);
    assert (0.3 * x + 0.7 * e) * w == 0.3 * (x * w) + 0.7 * e * w;
  }

  /** When every flow's byte count, modulo 2^32, is below 2^31, the utilisation is a percentage throughout. */
  lemma FlowsWithinIntAreAPercentage(flows: seq<FlowEnd>)
    requires forall k :: 0 <= k < |flows| ==> flows[k].bytes % 0x1_0000_0000 < 0x8000_0000
    ensures 0.0 <= UtilisationPct(ClosedForm(FlowSamples(flows))) <= 100.0
  {
    forall k | 0 <= k < |flows| ensures FlowSample(flows[k]) >= 0.0 {
      SampleIsNonNegative(flows[k]);
    }
    UtilisationIsAPercentage(FlowSamples(flows));
  }

  lemma SampleIsNonNegative(f: FlowEnd)
    requires f.bytes % 0x1_0000_0000 < 0x8000_0000
    ensures FlowSample(f) >= 0.0
  {
    assert ToInt32(f.bytes) >= 0;
    SampleTimesElapsed(f);
    SignOfProduct(FlowSample(f), Elapsed(f));
  }

  /** An input that shows it: a first flow of 2^31 bytes leaves a negative utilisation. */
  lemma NegativeUtilisation(wallMs: real)
    ensures UtilisationPct(ClosedForm([FlowSample(FlowEnd(0x8000_0000, wallMs))])) < 0.0
  {
    var f := FlowEnd(0x8000_0000, wallMs);
    FlowUtilisationIff([], f);
    assert [] + [FlowSample(f)] == [FlowSample(f)];
    assert ClosedForm([]) == 0.0;
  }
}

/** The metric line that the C gateway prints and the Python side parses, validates and clips. */
module MetricLine {
  import opened Bytes
  import opened Text

  const FEATURE_COUNT: nat := 6
  const LINE_BUFFER: nat := 256

  // ---- Printing ----

  predicate IsDigit(ch: char) { '0' <= ch <= '9' }

  function DigitChar(d: nat): (ch: char)
    requires d < 10
    ensures IsDigit(ch)
  {
    '0' + d as char
  }

  function DigitValue(ch: char): nat
    requires IsDigit(ch)
  {
    (ch - '0') as nat
  }

  /** The shortest decimal digits of n. */
  function Digits(n: nat): (s: string)
    ensures s != [] && forall k :: 0 <= k < |s| ==> IsDigit(s[k])
  {
    if n < 10 then [DigitChar(n)] else Digits(n / 10) + [DigitChar(n % 10)]
  }

  /** The nearest whole number to x, the even one of two equally near. */
  function Nearest(x: real): (n: nat)
    requires x >= 0.0
    ensures -0.5 <= n as real - x <= 0.5
    ensures x == x.Floor as real ==> n == x.Floor
    ensures x - x.Floor as real == 0.5 ==> n % 2 == 0
  {
    var f := x.Floor;
    var rest := x - f as real;
    if rest < 0.5 || (rest == 0.5 && f % 2 == 0) then f else f + 1
  }

  function Abs(v: real): (r: real)
    ensures r >= 0.0
  {
    if v < 0.0 then -v else v
  }

  /** The hundredths that `%.2f` shows of v. */
  function Hundredths(v: real): nat { Nearest(100.0 * Abs(v)) }

  /** The number that `%.2f` shows for v. */
  function Rounded(v: real): real {
    var r := Hundredths(v) as real / 100.0;
    if v < 0.0 then -r else r
  }

  /** So many whole hundredths, as decimal digits. */
  function PrintHundredths(h: nat): string {
    Digits(h / 100) + "." + [DigitChar(h / 10 % 10), DigitChar(h % 10)]
  }

  /** `%.2f`; a negative value keeps its sign even where it shows as zero. */
  function Print(v: real): string {
    (if v < 0.0 then "-" else "") + PrintHundredths(Hundredths(v))
  }

  predicate IsWhole(x: real) { x == x.Floor as real }

  lemma WholeOfEitherSign(x: real)
    ensures IsWhole(-x) <==> IsWhole(x)
  {
    var f, g := x.Floor, (-x).Floor;
    if IsWhole(x) {
      assert -x == (-f) as real;
    }
    if IsWhole(-x) {
      assert x == (-g) as real;
    }
  }

  lemma NearestIsExact(x: real)
    requires x >= 0.0
    ensures Nearest(x) as real == x <==> IsWhole(x)
  {
  }

  /** What is lost: at most half a hundredth, and nothing exactly when v is whole hundredths. */
  lemma RoundedIsNear(v: real)
    ensures -0.005 <= Rounded(v) - v <= 0.005
    ensures Rounded(v) == v <==> IsWhole(100.0 * v)
  {
    var x, n := 100.0 * Abs(v), Hundredths(v);
    NearestIsExact(x);
    WholeOfEitherSign(x);
    assert x == if v < 0.0 then -(100.0 * v) else 100.0 * v;
    assert Rounded(v) == v <==> n as real == x;
  }

  function PrintAll(values: seq<real>): (fields: seq<string>)
    ensures |fields| == |values|
  {
    if values == [] then [] else [Print(values[0])] + PrintAll(values[1..])
  }

  function Line(values: seq<real>): string { Join(",", PrintAll(values)) }

  /** What snprintf leaves in a buffer of `size` bytes, without the terminating zero. */
  function Written(line: string, size: nat): string
    requires size > 0
  {
    line[..Min(|line|, size - 1)]
  }

  function Pow10(n: nat): (p: nat)
    ensures p >= 1
  {
    if n == 0 then 1 else 10 * Pow10(n - 1)
  }

  lemma {:induction false} DigitsLength(n: nat, k: nat)
    requires k > 0
    ensures |Digits(n)| <= k <==> n < Pow10(k)
  {
    if k == 1 {
      assert Pow10(1) == 10 * Pow10(0);
    } else if n >= 10 {
      DigitsLength(n / 10, k - 1);
    }
  }

  const FIELD_WIDTH: nat := 41

  /** v shows at most 38 digits before the point, 37 after a minus sign. */
  predicate Fits(v: real) { -(Pow10(37) as real) < Rounded(v) < Pow10(38) as real }

  predicate AllFit(values: seq<real>) { forall i :: 0 <= i < |values| ==> Fits(values[i]) }

  lemma FieldLength(v: real)
    requires Fits(v)
    ensures |Print(v)| <= FIELD_WIDTH
  {
    var h, k := Hundredths(v), if v < 0.0 then 37 else 38;
    assert h as real < 100.0 * Pow10(k) as real;
    DigitsLength(h / 100, k);
  }

  lemma OneMore(n: nat, w: nat)
    ensures (n + 1) * w == n * w + w
  {
  }

  lemma {:induction false} LineLength(values: seq<real>)
    requires values != [] && AllFit(values)
    ensures |Line(values)| + 1 <= |values| * (FIELD_WIDTH + 1)
  {
    FieldLength(values[0]);
    assert PrintAll(values)[1..] == PrintAll(values[1..]);
    if |values| == 1 {
    } else {
      LineLength(values[1..]);
      OneMore(|values| - 1, FIELD_WIDTH + 1);
    }
  }

  /** Six such values fit the buffer, terminator included: the line is written whole. */
  lemma LineFitsBuffer(values: seq<real>)
    requires |values| == FEATURE_COUNT && AllFit(values)
    ensures |Line(values)| < 256
    ensures Written(Line(values), LINE_BUFFER) == Line(values)
  {
    LineLength(values);
  }

  // ---- Parsing ----

  /** The value of a string of digits. */
  function Number(s: string): nat
    requires forall k :: 0 <= k < |s| ==> IsDigit(s[k])
  {
    if s == "" then 0 else 10 * Number(s[..|s| - 1]) + DigitValue(s[|s| - 1])
  }

  /** Digits, a point, two digits. */
  predicate IsUnsigned(s: string) {
    && |s| >= 4 && s[|s| - 3] == '.'
    && forall k :: 0 <= k < |s| && k != |s| - 3 ==> IsDigit(s[k])
  }

  /** The same, perhaps after a minus sign. */
  predicate IsPlain(s: string) { IsUnsigned(s) || (s != "" && s[0] == '-' && IsUnsigned(s[1..])) }

  function UnsignedValue(s: string): real
    requires IsUnsigned(s)
  {
    var n := |s|;
    Number(s[..n - 3]) as real + (10 * DigitValue(s[n - 2]) + DigitValue(s[n - 1])) as real / 100.0
  }

  function PlainValue(s: string): real
    requires IsPlain(s)
  {
    if s[0] == '-' then -UnsignedValue(s[1..]) else UnsignedValue(s)
  }

  /** Python's float(): whatever else it accepts, a plain decimal is read as its value. */
  ghost predicate ReadsDecimals(toFloat: string -> Option<real>) {
    forall s :: IsPlain(s) ==> toFloat(s) == Some(PlainValue(s))
  }

  lemma FloatOfAnExample(toFloat: string -> Option<real>)
    requires ReadsDecimals(toFloat)
    ensures toFloat("12.34") == Some(12.34) && toFloat("-0.05") == Some(-0.05)
  {
    assert "12.34"[..2] == "12" && "12"[..1] == "1" && "1"[..0] == "";
    assert "-0.05"[1..] == "0.05" && "0.05"[..1] == "0" && "0"[..0] == "";
    assert Number("12") == 12 && Number("0") == 0;
    assert IsPlain("12.34") && IsPlain("-0.05");
  }

  /** str.split(","): never empty. */
  function Split(s: string): (fields: seq<string>)
    ensures fields != []
  {
    if s == "" then [""]
    else
      var rest := Split(s[1..]);
      if s[0] == ',' then [""] + rest else [[s[0]] + rest[0]] + rest[1..]
  }

  function ToFloats(toFloat: string -> Option<real>, fields: seq<string>): Option<seq<real>> {
    if fields == [] then Some([])
    else
      var head, tail := toFloat(fields[0]), ToFloats(toFloat, fields[1..]);
      if head.None? || tail.None? then None else Some([head.value] + tail.value)
  }

  /** parse_csv; None is its ValueError, from a bad field or a wrong count. */
  function ParseCsv(toFloat: string -> Option<real>, line: string): Option<seq<real>> {
    var parts := ToFloats(toFloat, Split(Strip(line)));
    if parts.None? || |parts.value| != FEATURE_COUNT then None else parts
  }

  lemma {:induction false} NumberOfDigits(n: nat)
    ensures Number(Digits(n)) == n
  {
    if n >= 10 {
      NumberOfDigits(n / 10);
      assert Digits(n)[..|Digits(n)| - 1] == Digits(n / 10);
    } else {
      assert Digits(n)[..0] == "";
    }
  }

  /** The last two places of the printed number are its hundredths, after the point. */
  lemma PrintedPlaces(h: nat)
    ensures var s := PrintHundredths(h);
      s[|s| - 3] == '.' && DigitValue(s[|s| - 2]) == h / 10 % 10 && DigitValue(s[|s| - 1]) == h % 10
  {
    assert |PrintHundredths(h)| >= 3;
  }

  lemma PrintedHundredths(h: nat)
    ensures IsUnsigned(PrintHundredths(h)) && UnsignedValue(PrintHundredths(h)) == h as real / 100.0
  {
    var s := PrintHundredths(h);
    assert s[..|s| - 3] == Digits(h / 100);
    NumberOfDigits(h / 100);
    assert h == 100 * (h / 100) + 10 * (h / 10 % 10) + h % 10;
  }

  lemma PrintedValue(v: real)
    ensures IsPlain(Print(v)) && PlainValue(Print(v)) == Rounded(v)
    ensures NoComma(Print(v)) && !IsSpace(Print(v)[0]) && IsDigit(Print(v)[|Print(v)| - 1])
  {
    PrintedHundredths(Hundredths(v));
    if v < 0.0 {
      assert Print(v)[1..] == PrintHundredths(Hundredths(v));
    } else {
      assert Print(v) == PrintHundredths(Hundredths(v));
      assert IsDigit(Print(v)[0]);
    }
  }

  /** The digits of n: the k-th from the right is its k-th decimal place, and no zero leads. */
  lemma {:induction false} DigitsAre(n: nat, k: nat)
    requires k < |Digits(n)|
    ensures DigitValue(Digits(n)[|Digits(n)| - 1 - k]) == n / Pow10(k) % 10
    ensures n >= 10 ==> Digits(n)[0] != '0'
  {
    if n < 10 {
    } else {
      if k > 0 {
        DigitsAre(n / 10, k - 1);
        DivideTwice(n, Pow10(k - 1));
      }
      if n / 10 >= 10 {
        DigitsAre(n / 10, 0);
      }
    }
  }

  lemma DivideTwice(n: nat, p: nat)
    requires p > 0
    ensures n / 10 / p == n / (10 * p)
  {
    var q := n / (10 * p);
    var r := n - 10 * p * q;
    assert n == 10 * (p * q) + r && 0 <= r < 10 * p;
    assert n / 10 == p * q + r / 10 && 0 <= r / 10 < p;
    QuotientIs(p * q + r / 10, p, q, r / 10);
  }

  lemma QuotientIs(a: nat, p: nat, q: nat, r: nat)
    requires p > 0 && a == p * q + r && r < p
    ensures a / p == q
  {
    var d, m := a / p, a % p;
    assert p * d + m == p * q + r;
    if d < q {
      Grows(p, d + 1, q);
    } else if q < d {
      Grows(p, q + 1, d);
    }
  }

  lemma Grows(p: nat, a: nat, b: nat)
    requires a <= b
    ensures p * a <= p * b
  {
  }

  predicate NoComma(s: string) { forall k :: 0 <= k < |s| ==> s[k] != ',' }

  lemma {:induction false} SplitOfField(f: string, rest: string)
    requires NoComma(f)
    ensures Split(f) == [f]
    ensures Split(f + "," + rest) == [f] + Split(rest)
  {
    var s := f + "," + rest;
    if f == "" {
      assert s[1..] == rest;
    } else {
      SplitOfField(f[1..], rest);
      assert s[1..] == f[1..] + "," + rest;
      assert [f[0]] + f[1..] == f;
    }
  }

  lemma {:induction false} SplitOfJoin(fields: seq<string>)
    requires fields != [] && forall k :: 0 <= k < |fields| ==> NoComma(fields[k])
    ensures Split(Join(",", fields)) == fields
  {
    var rest := fields[1..];
    SplitOfField(fields[0], Join(",", rest));
    assert [fields[0]] + rest == fields;
    if |fields| == 1 {
    } else {
      assert forall k :: 0 <= k < |rest| ==> rest[k] == fields[k + 1];
      SplitOfJoin(rest);
    }
  }

  /** A longer first field. */
  lemma JoinLonger(ch: char, fields: seq<string>)
    requires fields != []
    ensures Join(",", [[ch] + fields[0]] + fields[1..]) == [ch] + Join(",", fields)
  {
    var more := [[ch] + fields[0]] + fields[1..];
    assert more[1..] == fields[1..];
    var tail := Join(",", fields[1..]);
    assert [ch] + fields[0] + "," + tail == [ch] + (fields[0] + "," + tail);
  }

  /** Splitting is the inverse of joining: no field has a comma, and the commas put back give the line. */
  lemma {:induction false} SplitIsInverse(s: string)
    ensures Join(",", Split(s)) == s && forall k :: 0 <= k < |Split(s)| ==> NoComma(Split(s)[k])
  {
    if s == "" {
    } else {
      var rest := Split(s[1..]);
      SplitIsInverse(s[1..]);
      if s[0] == ',' {
        assert ([""] + rest)[1..] == rest;
      } else {
        var first := [s[0]] + rest[0];
        assert Split(s) == [first] + rest[1..];
        JoinLonger(s[0], rest);
      }
    }
  }

  lemma {:induction false} FloatsAre(toFloat: string -> Option<real>, fields: seq<string>)
    ensures ToFloats(toFloat, fields).Some? <==> forall k :: 0 <= k < |fields| ==> toFloat(fields[k]).Some?
    ensures ToFloats(toFloat, fields).Some? ==>
      var r := ToFloats(toFloat, fields).value;
      |r| == |fields| && forall k :: 0 <= k < |fields| ==> toFloat(fields[k]) == Some(r[k])
  {
    if fields == [] {
    } else {
      FloatsAre(toFloat, fields[1..]);
      assert forall k :: 0 < k < |fields| ==> fields[k] == fields[1..][k - 1];
      if forall k :: 0 <= k < |fields| ==> toFloat(fields[k]).Some? {
        forall k | 0 <= k < |fields| - 1 ensures toFloat(fields[1..][k]).Some? {
          assert fields[1..][k] == fields[k + 1];
        }
      }
    }
  }

  /** parse_csv accepts a line exactly when it has six fields and each is a number, and gives these in order. */
  lemma ParsesIff(toFloat: string -> Option<real>, line: string)
    ensures var fields, p := Split(Strip(line)), ParseCsv(toFloat, line);
      && (p.Some? <==> |fields| == 6 && forall k :: 0 <= k < |fields| ==> toFloat(fields[k]).Some?)
      && (p.Some? ==> |p.value| == 6 && forall k :: 0 <= k < 6 ==> toFloat(fields[k]) == Some(p.value[k]))
  {
    FloatsAre(toFloat, Split(Strip(line)));
  }

  lemma {:induction false} PrintedFields(values: seq<real>)
    ensures forall k :: 0 <= k < |values| ==> PrintAll(values)[k] == Print(values[k])
  {
    if values == [] {
    } else {
      PrintedFields(values[1..]);
    }
  }

  function RoundedAll(values: seq<real>): (r: seq<real>)
    ensures |r| == |values| && forall k :: 0 <= k < |r| ==> r[k] == Rounded(values[k])
  {
    if values == [] then [] else [Rounded(values[0])] + RoundedAll(values[1..])
  }

  lemma {:induction false} FloatsOfPrinted(toFloat: string -> Option<real>, values: seq<real>)
    requires ReadsDecimals(toFloat)
    ensures ToFloats(toFloat, PrintAll(values)) == Some(RoundedAll(values))
  {
    if values == [] {
    } else {
      PrintedValue(values[0]);
      FloatsOfPrinted(toFloat, values[1..]);
      assert PrintAll(values)[1..] == PrintAll(values[1..]);
    }
  }

  lemma {:induction false} LineEnds(values: seq<real>)
    requires values != []
    ensures Line(values) != "" && !IsSpace(Line(values)[0]) && IsDigit(Line(values)[|Line(values)| - 1])
  {
    PrintedValue(values[0]);
    if |values| == 1 {
    } else {
      LineEnds(values[1..]);
      assert PrintAll(values)[1..] == PrintAll(values[1..]);
    }
  }

  /**
   * The round trip, for values of either sign: the Python side reads, in the same order, the six
   * numbers the line shows; RoundedIsNear says how far those are from the values.
   */
  lemma LineRoundTrip(toFloat: string -> Option<real>, values: seq<real>)
    requires ReadsDecimals(toFloat)
    requires |values| == FEATURE_COUNT && AllFit(values)
    ensures ParseCsv(toFloat, Written(Line(values), LINE_BUFFER)) == Some(RoundedAll(values))
  {
    LineFitsBuffer(values);
    LineEnds(values);
    assert Strip(Line(values)) == Line(values);
    PrintedFields(values);
    forall k | 0 <= k < |values| ensures NoComma(PrintAll(values)[k]) {
      PrintedValue(values[k]);
    }
    SplitOfJoin(PrintAll(values));
    FloatsOfPrinted(toFloat, values);
  }

  // ---- Validation and clipping ----

  /** The documented range of each feature; every lower bound is zero. */
  const UPPER: seq<real> := [120000000.0, 85000000.0, 4000000.0, 2100000000.0, 4000.0, 120000000.0]

  predicate InRange(i: nat, v: real)
    requires i < FEATURE_COUNT
  {
    0.0 <= v <= UPPER[i]
  }

  function Clamp(i: nat, v: real): (r: real)
    requires i < FEATURE_COUNT
    ensures InRange(i, r) && (InRange(i, v) <==> r == v)
    ensures !InRange(i, v) ==> r == 0.0 || r == UPPER[i]
  {
    var raised := if v < 0.0 then 0.0 else v;
    if UPPER[i] < raised then UPPER[i] else raised
  }

  /** The positions of the features that validate warns about; zip stops at the shorter list. */
  function Warnings(values: seq<real>, n: nat): (w: seq<nat>)
    requires n <= |values| && n <= FEATURE_COUNT
    ensures forall i: nat :: i in w <==> i < n && !InRange(i, values[i])
  {
    if n == 0 then []
    else
      var w := Warnings(values, n - 1);
      if InRange(n - 1, values[n - 1]) then w else w + [n - 1]
  }

  /** The warnings come in the order of the features, each once. */
  lemma {:induction false} WarningsAreOrdered(values: seq<real>, n: nat)
    requires n <= |values| && n <= FEATURE_COUNT
    ensures forall k :: 0 <= k < |Warnings(values, n)| ==> Warnings(values, n)[k] < n
    ensures forall j, k :: 0 <= j < k < |Warnings(values, n)| ==> Warnings(values, n)[j] < Warnings(values, n)[k]
  {
    if n == 0 {
    } else {
      WarningsAreOrdered(values, n - 1);
    }
  }

  method Validate(values: seq<real>) returns (warnings: seq<nat>)
    ensures warnings == Warnings(values, Min(|values|, FEATURE_COUNT))
    ensures forall j, k :: 0 <= j < k < |warnings| ==> warnings[j] < warnings[k]
  {
    WarningsAreOrdered(values, Min(|values|, FEATURE_COUNT));
    warnings := [];
    var i := 0;
    while i < |values| && i < FEATURE_COUNT
      invariant i <= |values| && i <= FEATURE_COUNT
      invariant warnings == Warnings(values, i)
    {
      var v := values[i];
      if v < 0.0 || v > UPPER[i] {
        warnings := warnings + [i];
      }
      i := i + 1;
    }
  }

  method Clip(values: seq<real>) returns (clipped: seq<real>)
    ensures |clipped| == Min(|values|, FEATURE_COUNT)
    ensures forall i :: 0 <= i < |clipped| ==> clipped[i] == Clamp(i, values[i])
  {
    clipped := [];
    var i := 0;
    while i < |values| && i < FEATURE_COUNT
      invariant i <= |values| && i <= FEATURE_COUNT && |clipped| == i
      invariant forall j :: 0 <= j < i ==> clipped[j] == Clamp(j, values[j])
    {
      var v := values[i];
      var raised := if v >= 0.0 then v else 0.0;
      clipped := clipped + [if raised <= UPPER[i] then raised else UPPER[i]];
      i := i + 1;
    }
  }

  lemma {:induction false} NoWarnings(values: seq<real>, n: nat)
    requires n <= |values| && n <= FEATURE_COUNT
    ensures Warnings(values, n) == [] <==> forall i: nat :: i < n ==> InRange(i, values[i])
  {
    if n == 0 {
    } else {
      NoWarnings(values, n - 1);
    }
  }

  /** On six values: nothing to warn about exactly when clipping changes nothing; clipped values pass. */
  lemma ValidateMeetsClip(values: seq<real>, clipped: seq<real>)
    requires |values| == |clipped| == FEATURE_COUNT
    requires forall i :: 0 <= i < FEATURE_COUNT ==> clipped[i] == Clamp(i, values[i])
    ensures Warnings(values, FEATURE_COUNT) == [] <==> clipped == values
    ensures Warnings(clipped, FEATURE_COUNT) == []
  {
    NoWarnings(values, FEATURE_COUNT);
    NoWarnings(clipped, FEATURE_COUNT);
    assert forall i: nat :: i < FEATURE_COUNT ==> (InRange(i, values[i]) <==> clipped[i] == values[i]);
  }

  lemma NearestIsMonotone(x: real, n: nat)
    requires 0.0 <= x <= n as real
    ensures Nearest(x) <= n
  {
  }

  lemma RoundedStaysWithin(v: real, whole: nat)
    requires 0.0 <= v <= whole as real
    ensures 0.0 <= Rounded(v) <= whole as real
  {
    NearestIsMonotone(100.0 * v, 100 * whole);
  }

  lemma UpperIsWhole(i: nat) returns (whole: nat)
    requires i < FEATURE_COUNT
    ensures UPPER[i] == whole as real
  {
    whole := if i == 1 then 85000000
      else if i == 2 then 4000000
      else if i == 3 then 2100000000
      else if i == 4 then 4000
      else 120000000;
  }

  /** Features in range on the C side raise no warning on the Python side, for all the rounding between. */
  lemma InRangeStaysInRange(values: seq<real>)
    requires |values| == FEATURE_COUNT && forall i: nat :: i < FEATURE_COUNT ==> InRange(i, values[i])
    ensures Warnings(RoundedAll(values), FEATURE_COUNT) == []
  {
    forall i: nat | i < FEATURE_COUNT ensures InRange(i, Rounded(values[i])) {
      var whole := UpperIsWhole(i);
      assert InRange(i, values[i]);
      RoundedStaysWithin(values[i], whole);
    }
    NoWarnings(RoundedAll(values), FEATURE_COUNT);
  }
}

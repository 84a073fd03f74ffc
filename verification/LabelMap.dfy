/** Label normalisation and the map from labels to severities. */
module LabelMap {
  import opened Bytes
  import opened Text

  datatype Severity = Low | Medium | High

  predicate IsAscii(ch: char) { ch as int <= 0x7f }

  /** re.sub(r"[^\x00-\x7f]", " ", s) */
  function ToAscii(s: string): (r: string)
    ensures |r| == |s|
  {
    seq(|s|, k requires 0 <= k < |s| => if IsAscii(s[k]) then s[k] else ' ')
  }

  /** re.sub(r"\s+", " ", s): one blank for each run, put where the run ends. */
  function Collapse(s: string): string {
    if s == "" then ""
    else if !IsSpace(s[0]) then [s[0]] + Collapse(s[1..])
    else if |s| > 1 && IsSpace(s[1]) then Collapse(s[1..])
    else " " + Collapse(s[1..])
  }

  function Normalize(raw: string): string {
    Strip(Collapse(ToAscii(raw)))
  }

  // ---- The reference: words joined by single blanks ----

  function WordLength(s: string): (n: nat)
    ensures n <= |s|
    ensures forall k :: 0 <= k < n ==> !IsSpace(s[k])
    ensures n < |s| ==> IsSpace(s[n])
  {
    if s == "" || IsSpace(s[0]) then 0 else 1 + WordLength(s[1..])
  }

  predicate IsWord(w: string) { w != "" && forall k :: 0 <= k < |w| ==> !IsSpace(w[k]) }

  /** The maximal runs of characters that are not spaces. */
  function Words(s: string): (ws: seq<string>)
    ensures forall k :: 0 <= k < |ws| ==> IsWord(ws[k])
    decreases |s|
  {
    if s == "" then []
    else if IsSpace(s[0]) then Words(s[1..])
    else [s[..WordLength(s)]] + Words(s[WordLength(s)..])
  }

  /** A blank if there are words and the string starts, or ends, with a space. */
  function Lead(s: string): string { if s != "" && IsSpace(s[0]) then " " else "" }

  function Trail(s: string): string { if s != "" && IsSpace(s[|s| - 1]) then " " else "" }

  lemma {:induction false} CollapseWord(w: string, rest: string)
    requires forall k :: 0 <= k < |w| ==> !IsSpace(w[k])
    ensures Collapse(w + rest) == w + Collapse(rest)
  {
    if w == "" {
      assert w + rest == rest;
    } else {
      assert (w + rest)[1..] == w[1..] + rest;
      CollapseWord(w[1..], rest);
    }
  }

  lemma {:induction false} NoWordsOnlySpaces(s: string)
    requires Words(s) == []
    ensures forall k :: 0 <= k < |s| ==> IsSpace(s[k])
  {
    if s == "" {
    } else {
      NoWordsOnlySpaces(s[1..]);
    }
  }

  /** A string that begins with a word, in terms of what follows the word. */
  lemma WordFirst(w: string, rest: string)
    requires IsWord(w) && (rest == "" || IsSpace(rest[0]))
    ensures Words(w + rest) == [w] + Words(rest)
    ensures Lead(w + rest) == ""
    ensures Words(rest) == [] ==> Trail(w + rest) == Lead(rest)
    ensures Words(rest) != [] ==> Trail(w + rest) == Trail(rest) && Lead(rest) == " "
  {
    WordLengthIs(w, rest);
    assert (w + rest)[..|w|] == w && (w + rest)[|w|..] == rest;
    if Words(rest) == [] {
      NoWordsOnlySpaces(rest);
    }
  }

  /** The words, single blanks between them, and at most one blank at each end. */
  function Shape(s: string): string {
    if Words(s) == [] then Lead(s) else Lead(s) + Join(" ", Words(s)) + Trail(s)
  }

  lemma Regroup(w: string, j: string, e: string)
    ensures "" + (w + " " + j) + e == w + (" " + j + e)
    ensures "" + w + e == w + e
  {
  }

  lemma ShapeOfWord(w: string, rest: string)
    requires IsWord(w) && (rest == "" || IsSpace(rest[0]))
    ensures Shape(w + rest) == w + Shape(rest)
  {
    WordFirst(w, rest);
    JoinCons(w, Words(rest));
    Regroup(w, Join(" ", Words(rest)), Trail(w + rest));
  }

  lemma ShapeOfSpace(s: string)
    requires s != "" && IsSpace(s[0])
    ensures Shape(s) == if |s| > 1 && IsSpace(s[1]) then Shape(s[1..]) else " " + Shape(s[1..])
  {
    var t := s[1..];
    assert Words(s) == Words(t) && Lead(s) == " ";
    if t != "" {
      assert Trail(t) == Trail(s);
      if !IsSpace(t[0]) {
        assert Lead(t) == "" && Words(t) != [];
        PutBlankFirst(Join(" ", Words(t)), Trail(t));
      }
    }
  }

  lemma PutBlankFirst(j: string, e: string)
    ensures " " + ("" + j + e) == " " + j + e
  {
  }

  lemma {:induction false} CollapseShape(s: string)
    ensures Collapse(s) == Shape(s)
    decreases |s|
  {
    if s == "" {
    } else if IsSpace(s[0]) {
      ShapeOfSpace(s);
      CollapseShape(s[1..]);
    } else {
      var w, rest := s[..WordLength(s)], s[WordLength(s)..];
      assert s == w + rest;
      ShapeOfWord(w, rest);
      CollapseWord(w, rest);
      CollapseShape(rest);
    }
  }

  lemma JoinCons(w: string, ws: seq<string>)
    ensures Join(" ", [w] + ws) == if ws == [] then w else w + " " + Join(" ", ws)
  {
    assert ([w] + ws)[1..] == ws;
  }

  lemma {:induction false} JoinEnds(ws: seq<string>)
    requires ws != [] && forall k :: 0 <= k < |ws| ==> IsWord(ws[k])
    ensures Join(" ", ws) != "" && !IsSpace(Join(" ", ws)[0]) && !IsSpace(Join(" ", ws)[|Join(" ", ws)| - 1])
  {
    if |ws| == 1 {
    } else {
      JoinEnds(ws[1..]);
    }
  }

  predicate Blank(s: string) { s == "" || s == " " }

  lemma StripBlanks(lead: string, j: string, trail: string)
    requires Blank(lead) && Blank(trail)
    requires j != "" && !IsSpace(j[0]) && !IsSpace(j[|j| - 1])
    ensures StripRight(StripLeft(lead + j + trail)) == j
  {
    var r := j + trail;
    assert lead + j + trail == lead + r;
    StripLeftBlank(lead, r);
    StripRightBlank(j, trail);
  }

  lemma StripLeftBlank(lead: string, r: string)
    requires Blank(lead) && r != "" && !IsSpace(r[0])
    ensures StripLeft(lead + r) == r
  {
    if lead == "" {
      assert lead + r == r;
    } else {
      assert (lead + r)[1..] == r;
    }
  }

  lemma StripRightBlank(j: string, trail: string)
    requires Blank(trail) && j != "" && !IsSpace(j[|j| - 1])
    ensures StripRight(j + trail) == j
  {
    if trail == "" {
      assert j + trail == j;
    } else {
      assert (j + trail)[..|j + trail| - 1] == j;
    }
  }

  /** The two substitutions and the strip compute exactly the words of the ASCII text, single-spaced. */
  lemma NormalizeIsJoinedWords(raw: string)
    ensures Normalize(raw) == Join(" ", Words(ToAscii(raw)))
  {
    var s := ToAscii(raw);
    CollapseShape(s);
    if Words(s) != [] {
      JoinEnds(Words(s));
      StripBlanks(Lead(s), Join(" ", Words(s)), Trail(s));
    } else if s != "" {
      NoWordsOnlySpaces(s);
      assert Collapse(s) == " " && " "[1..] == "";
    }
  }

  lemma {:induction false} WordsOfJoin(ws: seq<string>)
    requires forall k :: 0 <= k < |ws| ==> IsWord(ws[k])
    ensures Words(Join(" ", ws)) == ws
  {
    if ws == [] {
    } else {
      var w := ws[0];
      if |ws| == 1 {
        WordLengthIs(w, "");
        assert w + "" == w && w[..|w|] == w && w[|w|..] == "";
      } else {
        var rest := " " + Join(" ", ws[1..]);
        assert Join(" ", ws) == w + rest;
        WordLengthIs(w, rest);
        assert (w + rest)[..|w|] == w && (w + rest)[|w|..] == rest;
        assert rest[1..] == Join(" ", ws[1..]);
        WordsOfJoin(ws[1..]);
      }
    }
  }

  lemma {:induction false} WordLengthIs(w: string, rest: string)
    requires forall k :: 0 <= k < |w| ==> !IsSpace(w[k])
    requires rest == "" || IsSpace(rest[0])
    ensures WordLength(w + rest) == |w|
  {
    if w == "" {
      assert w + rest == rest;
    } else {
      assert (w + rest)[1..] == w[1..] + rest;
      WordLengthIs(w[1..], rest);
    }
  }

  predicate AllAscii(s: string) { forall k :: 0 <= k < |s| ==> IsAscii(s[k]) }

  lemma {:induction false} WordsStayAscii(s: string)
    requires AllAscii(s)
    ensures forall k :: 0 <= k < |Words(s)| ==> AllAscii(Words(s)[k])
    decreases |s|
  {
    if s == "" {
    } else {
      if IsSpace(s[0]) {
        WordsStayAscii(s[1..]);
      } else {
        WordsStayAscii(s[WordLength(s)..]);
      }
    }
  }

  lemma {:induction false} JoinStaysAscii(ws: seq<string>)
    requires forall k :: 0 <= k < |ws| ==> AllAscii(ws[k])
    ensures AllAscii(Join(" ", ws))
  {
    if |ws| <= 1 {
    } else {
      JoinStaysAscii(ws[1..]);
    }
  }

  /** Normalising twice is normalising once. */
  lemma NormalizeIsIdempotent(raw: string)
    ensures Normalize(Normalize(raw)) == Normalize(raw)
  {
    var ws := Words(ToAscii(raw));
    NormalizeIsJoinedWords(raw);
    NormalizeIsJoinedWords(Join(" ", ws));
    WordsStayAscii(ToAscii(raw));
    JoinStaysAscii(ws);
    assert ToAscii(Join(" ", ws)) == Join(" ", ws);
    WordsOfJoin(ws);
  }

  // ---- Which characters survive ----

  /** By code point: ASCII, and neither a blank nor one of the control characters that count as space. */
  predicate IsVisible(ch: char) {
    var n := ch as int;
    n <= 8 || 14 <= n <= 27 || 33 <= n <= 127
  }

  function Visible(s: string): string {
    if s == "" then "" else (if IsVisible(s[0]) then [s[0]] else "") + Visible(s[1..])
  }

  lemma {:induction false} VisibleConcat(a: string, b: string)
    ensures Visible(a + b) == Visible(a) + Visible(b)
  {
    if a == "" {
      assert a + b == b;
    } else {
      assert (a + b)[1..] == a[1..] + b;
      VisibleConcat(a[1..], b);
      Associate(if IsVisible(a[0]) then [a[0]] else "", Visible(a[1..]), Visible(b));
    }
  }

  lemma Associate(a: string, b: string, d: string)
    ensures a + b + d == a + (b + d)
  {
  }

  lemma {:induction false} VisibleAscii(s: string)
    ensures Visible(ToAscii(s)) == Visible(s)
  {
    if s == "" {
    } else {
      assert ToAscii(s)[1..] == ToAscii(s[1..]);
      VisibleAscii(s[1..]);
    }
  }

  lemma {:induction false} VisibleWords(s: string)
    ensures Visible(Join(" ", Words(s))) == Visible(s)
    decreases |s|
  {
    if s == "" {
    } else if IsSpace(s[0]) {
      VisibleWords(s[1..]);
    } else {
      var w, rest := s[..WordLength(s)], s[WordLength(s)..];
      assert s == w + rest;
      VisibleWords(rest);
      VisibleConcat(w, rest);
      JoinCons(w, Words(rest));
      if Words(rest) == [] {
        assert Visible(rest) == "";
      } else {
        var tail := Join(" ", Words(rest));
        Associate(w, " ", tail);
        VisibleConcat(w, " " + tail);
        assert (" " + tail)[1..] == tail;
      }
    }
  }

  /** A string in which blanks only stand alone and between visible characters. */
  predicate IsSingleSpaced(s: string) {
    && (forall k :: 0 <= k < |s| ==> s[k] == ' ' || IsVisible(s[k]))
    && (forall k :: 0 <= k < |s| && s[k] == ' ' ==> 0 < k < |s| - 1 && s[k + 1] != ' ')
  }

  lemma OneMoreWord(w: string, tail: string)
    requires IsWord(w) && AllAscii(w) && IsSingleSpaced(tail) && tail != "" && tail[0] != ' '
    ensures IsSingleSpaced(w + " " + tail)
  {
    var s, n := w + " " + tail, |w|;
    forall k | 0 <= k < n ensures s[k] != ' ' && IsVisible(s[k]) {
      assert !IsSpace(w[k]) && IsAscii(w[k]);
    }
    assert forall k :: n < k < |s| ==> s[k] == tail[k - n - 1];
    assert s[n + 1] == tail[0];
  }

  lemma {:induction false} JoinIsSingleSpaced(ws: seq<string>)
    requires forall k :: 0 <= k < |ws| ==> IsWord(ws[k]) && AllAscii(ws[k])
    ensures IsSingleSpaced(Join(" ", ws))
  {
    if |ws| == 0 {
    } else if |ws| == 1 {
      forall k | 0 <= k < |ws[0]| ensures IsVisible(ws[0][k]) && ws[0][k] != ' ' {
        assert !IsSpace(ws[0][k]) && IsAscii(ws[0][k]);
      }
    } else {
      JoinIsSingleSpaced(ws[1..]);
      JoinEnds(ws[1..]);
      OneMoreWord(ws[0], Join(" ", ws[1..]));
    }
  }

  /**
   * Normalisation by code points: the visible characters survive, all of them and in order, and
   * between them stand single blanks only.
   */
  lemma VisibleCharactersSurvive(raw: string)
    ensures Visible(Normalize(raw)) == Visible(raw) && IsSingleSpaced(Normalize(raw))
  {
    var s := ToAscii(raw);
    NormalizeIsJoinedWords(raw);
    VisibleWords(s);
    VisibleAscii(raw);
    WordsStayAscii(s);
    JoinIsSingleSpaced(Words(s));
  }

  // ---- Severity ----

  const HIGH_LABELS: set<string> := {"DoS Hulk", "DoS GoldenEye", "DoS slowloris", "DoS Slowhttptest", "DDoS"}
  const MEDIUM_LABELS: set<string> := {"FTP-Patator", "SSH-Patator", "PortScan", "Bot", "Infiltration", "Heartbleed",
    "Web Attack Brute Force", "Web Attack XSS", "Web Attack Sql Injection"}
  const LOW_LABELS: set<string> := {"Benign"}

  /** to_severity; None is its ValueError. */
  function ToSeverity(raw: string): Option<Severity> {
    var norm := Normalize(raw);
    if norm in HIGH_LABELS then Some(High)
    else if norm in MEDIUM_LABELS then Some(Medium)
    else if norm in LOW_LABELS then Some(Low)
    else None
  }

  /** No label is in two buckets, so the order in which the table is filled does not matter. */
  lemma BucketsAreDisjoint()
    ensures HIGH_LABELS !! MEDIUM_LABELS !! LOW_LABELS
  {
  }

  /**
   * Only the words of a label matter to its severity, not mojibake or spacing: the severity is the one
   * that lists the words joined by blanks, and no label has two.
   */
  lemma SeverityOfWords(raw: string)
    ensures var l := Join(" ", Words(ToAscii(raw)));
      && (ToSeverity(raw) == Some(High) <==>
            l == "DoS Hulk" || l == "DoS GoldenEye" || l == "DoS slowloris" || l == "DoS Slowhttptest" || l == "DDoS")
      && (ToSeverity(raw) == Some(Medium) <==>
            || l == "FTP-Patator" || l == "SSH-Patator" || l == "PortScan" || l == "Bot"
            || l == "Infiltration" || l == "Heartbleed" || l == "Web Attack Brute Force"
            || l == "Web Attack XSS" || l == "Web Attack Sql Injection")
      && (ToSeverity(raw) == Some(Low) <==> l == "Benign")
  {
    NormalizeIsJoinedWords(raw);
    BucketsAreDisjoint();
  }

  /** So labels with the same words have the same severity, or are refused alike. */
  lemma SameWordsSameSeverity(a: string, b: string)
    requires Words(ToAscii(a)) == Words(ToAscii(b))
    ensures ToSeverity(a) == ToSeverity(b)
  {
    NormalizeIsJoinedWords(a);
    NormalizeIsJoinedWords(b);
  }
}

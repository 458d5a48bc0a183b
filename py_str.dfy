/** The pieces of Python's `str` that the scraper relies on: `isspace`,
    `strip`, `split("\n\n")`, `join`, `replace(' ', '_')` and `str(n)` for a
    natural number. `isspace` is a table of code points; the others are
    defined once here and characterised by lemmas about their results. */
module PyStr {

  /** Python's `str.isspace()` for a single code point: the characters
      `str.strip()` with no argument removes. */
  predicate IsSpace(c: char) {
    ('\t' <= c && c <= '\r')              // \t \n \v \f \r
    || ('\U{1C}' <= c && c <= '\U{1F}')   // file, group, record, unit separators
    || c == ' ' || c == '\U{85}' || c == '\U{A0}' || c == '\U{1680}'
    || ('\U{2000}' <= c && c <= '\U{200A}')
    || c == '\U{2028}' || c == '\U{2029}' || c == '\U{202F}' || c == '\U{205F}'
    || c == '\U{3000}'
  }

  predicate AllSpace(s: string) {
    forall i :: 0 <= i < |s| ==> IsSpace(s[i])
  }

  /** Neither the first nor the last character is whitespace. */
  predicate IsStripped(s: string) {
    |s| > 0 ==> !IsSpace(s[0]) && !IsSpace(s[|s| - 1])
  }

  /** True when `s` nowhere holds the two-character boundary "\n\n". */
  predicate NoBlankLine(s: string) {
    forall i :: 0 <= i < |s| - 1 ==> !(s[i] == '\n' && s[i + 1] == '\n')
  }

  /** An infix of a string without the boundary has none either. */
  lemma NoBlankLineInfix(s: string, i: nat, j: nat)
    requires i <= j <= |s| && NoBlankLine(s)
    ensures NoBlankLine(s[i..j])
  {
    var t := s[i..j];
    forall k | 0 <= k < |t| - 1 ensures !(t[k] == '\n' && t[k + 1] == '\n') {
      assert t[k] == s[i + k] && t[k + 1] == s[i + k + 1];
    }
  }

  // ---------------------------------------------------------------------
  // strip

  /** `s.lstrip()`: drops the longest all-whitespace prefix. */
  function LStrip(s: string): (r: string)
    ensures |r| <= |s| && r == s[|s| - |r|..]
    ensures AllSpace(s[..|s| - |r|])
    ensures |r| > 0 ==> !IsSpace(r[0])
    decreases |s|
  {
    if |s| > 0 && IsSpace(s[0]) then LStrip(s[1..]) else s
  }

  /** `s.rstrip()`: drops the longest all-whitespace suffix. */
  function RStrip(s: string): (r: string)
    ensures |r| <= |s| && r == s[..|r|]
    ensures AllSpace(s[|r|..])
    ensures |r| > 0 ==> !IsSpace(r[|r| - 1])
    decreases |s|
  {
    if |s| > 0 && IsSpace(s[|s| - 1]) then RStrip(s[..|s| - 1]) else s
  }

  /** `s.strip()`. */
  function Strip(s: string): (r: string)
    ensures IsStripped(r)
    ensures |r| <= |s|
  {
    RStrip(LStrip(s))
  }

  lemma {:induction false} LStripAt(s: string, i: nat)
    requires i <= |s| && AllSpace(s[..i])
    requires i == |s| || !IsSpace(s[i])
    ensures LStrip(s) == s[i..]
    decreases i
  {
    if i > 0 {
      assert IsSpace(s[..i][0]);
      assert s[1..][..i - 1] == s[..i][1..];
      LStripAt(s[1..], i - 1);
      assert s[1..][i - 1..] == s[i..];
    }
  }

  lemma {:induction false} RStripAt(s: string, j: nat)
    requires j <= |s| && AllSpace(s[j..])
    requires j == 0 || !IsSpace(s[j - 1])
    ensures RStrip(s) == s[..j]
    decreases |s| - j
  {
    if j < |s| {
      assert IsSpace(s[j..][|s| - j - 1]);
      var t := s[..|s| - 1];
      assert t[j..] == s[j..][..|s| - 1 - j];
      RStripAt(t, j);
      assert t[..j] == s[..j];
    } else {
      assert s[..j] == s;
    }
  }

  lemma AllSpaceConcat(a: string, b: string)
    ensures AllSpace(a + b) <==> AllSpace(a) && AllSpace(b)
  {
    var ab := a + b;
    if AllSpace(ab) {
      forall k | 0 <= k < |a| ensures IsSpace(a[k]) { assert ab[k] == a[k]; }
      forall k | 0 <= k < |b| ensures IsSpace(b[k]) { assert ab[|a| + k] == b[k]; }
    }
    if AllSpace(a) && AllSpace(b) {
      forall k | 0 <= k < |ab| ensures IsSpace(ab[k]) {
        if k < |a| { assert ab[k] == a[k]; } else { assert ab[k] == b[k - |a|]; }
      }
    }
  }

  lemma SuffixSlices(s: string, i: nat, k: nat)
    requires i + k <= |s|
    ensures s[i..][..k] == s[i..i + k] && s[i..][k..] == s[i + k..]
  {
  }

  /** A string of whitespace strips to nothing. */
  lemma StripAllSpace(s: string)
    requires AllSpace(s)
    ensures Strip(s) == ""
  {
    assert s[..|s|] == s;
    LStripAt(s, |s|);
  }

  /** A non-empty stripped infix with whitespace around it is what strip
      returns. */
  lemma StripNonEmptyInfix(s: string, i: nat, j: nat)
    requires i < j <= |s|
    requires AllSpace(s[..i]) && AllSpace(s[j..])
    requires !IsSpace(s[i]) && !IsSpace(s[j - 1])
    ensures Strip(s) == s[i..j]
  {
    LStripAt(s, i);
    RStripSuffixAt(s, i, j);
    assert Strip(s) == RStrip(s[i..]);
  }

  /** Right-stripping a suffix `s[i..]` stops at `j` when `s[j..]` is
      whitespace and `s[j - 1]` is not. */
  lemma RStripSuffixAt(s: string, i: nat, j: nat)
    requires i < j <= |s|
    requires AllSpace(s[j..]) && !IsSpace(s[j - 1])
    ensures RStrip(s[i..]) == s[i..j]
  {
    var t, m := s[i..], j - i;
    SuffixSlices(s, i, m);
    assert t[m - 1] == s[j - 1];
    RStripAt(t, m);
  }

  /** `Strip(s)` is the unique infix `s[i..j]` that is itself stripped and
      is surrounded by whitespace only: this pins `strip()` down without
      reference to how it is computed. */
  lemma StripUnique(s: string, i: nat, j: nat)
    requires i <= j <= |s|
    requires AllSpace(s[..i]) && AllSpace(s[j..]) && IsStripped(s[i..j])
    ensures Strip(s) == s[i..j]
  {
    if i < j {
      assert s[i] == s[i..j][0] && s[j - 1] == s[i..j][j - i - 1];
      StripNonEmptyInfix(s, i, j);
    } else {
      assert s == s[..i] + s[j..];
      AllSpaceConcat(s[..i], s[j..]);
      StripAllSpace(s);
    }
  }

  /** The converse of StripUnique: the result is such an infix. */
  lemma StripInfix(s: string) returns (i: nat)
    ensures i + |Strip(s)| <= |s|
    ensures Strip(s) == s[i..i + |Strip(s)|]
    ensures AllSpace(s[..i]) && AllSpace(s[i + |Strip(s)|..])
  {
    var l := LStrip(s);
    i := |s| - |l|;
    assert AllSpace(s[..i]) && l == s[i..];
    RStripOfSuffix(s, i);
    assert Strip(s) == RStrip(s[i..]);
  }

  /** Right-stripping a suffix `s[i..]` leaves an infix of `s` followed by
      whitespace only. */
  lemma RStripOfSuffix(s: string, i: nat)
    requires i <= |s|
    ensures i + |RStrip(s[i..])| <= |s|
    ensures RStrip(s[i..]) == s[i..i + |RStrip(s[i..])|]
    ensures AllSpace(s[i + |RStrip(s[i..])|..])
  {
    var l := s[i..];
    var r := RStrip(l);
    assert AllSpace(l[|r|..]) && r == l[..|r|];
    SuffixSlices(s, i, |r|);
  }

  /** Stripping a string that is already stripped changes nothing. */
  lemma StripStripped(s: string)
    requires IsStripped(s)
    ensures Strip(s) == s
  {
    assert s[..0] == [] && s[|s|..] == [];
    assert s[0..|s|] == s;
    StripUnique(s, 0, |s|);
  }

  /** `s.strip()` is empty exactly when `s` is all whitespace. */
  lemma StripEmptyIff(s: string)
    ensures Strip(s) == "" <==> AllSpace(s)
  {
    if AllSpace(s) {
      assert s[..|s|] == s && s[|s|..] == [];
      StripUnique(s, |s|, |s|);
    }
    if Strip(s) == "" {
      var i := StripInfix(s);
      assert s == s[..i] + s[i..];
      assert forall k :: 0 <= k < |s| ==> IsSpace(s[k]) by {
        forall k | 0 <= k < |s| ensures IsSpace(s[k]) {
          if k < i { assert s[..i][k] == s[k]; } else { assert s[i..][k - i] == s[k]; }
        }
      }
    }
  }

  /** A strip never creates a blank line: its result is an infix. */
  lemma StripKeepsNoBlankLine(s: string)
    requires NoBlankLine(s)
    ensures NoBlankLine(Strip(s))
  {
    var i := StripInfix(s);
    NoBlankLineInfix(s, i, i + |Strip(s)|);
  }

  // ---------------------------------------------------------------------
  // join

  /** `sep.join(parts)`. */
  function Join(sep: string, parts: seq<string>): (r: string)
    decreases |parts|
  {
    if |parts| == 0 then ""
    else if |parts| == 1 then parts[0]
    else parts[0] + sep + Join(sep, parts[1..])
  }

  /** No pieces join to the empty string. */
  lemma JoinNone(sep: string)
    ensures Join(sep, []) == ""
  {
  }

  /** A single piece joins to itself, with no separator. */
  lemma JoinOne(sep: string, x: string)
    ensures Join(sep, [x]) == x
  {
  }

  /** With a whitespace separator, the join is all whitespace exactly when
      every piece is. */
  lemma {:induction false} JoinAllSpace(sep: string, parts: seq<string>)
    requires AllSpace(sep)
    ensures AllSpace(Join(sep, parts)) <==> forall k :: 0 <= k < |parts| ==> AllSpace(parts[k])
    decreases |parts|
  {
    if |parts| > 1 {
      var rest := parts[1..];
      JoinAllSpace(sep, rest);
      var p, j := parts[0], Join(sep, rest);
      assert Join(sep, parts) == (p + sep) + j;
      AllSpaceConcat(p + sep, j);
      AllSpaceConcat(p, sep);
      assert forall k :: 0 <= k < |rest| ==> rest[k] == parts[k + 1];
      if !AllSpace(Join(sep, parts)) {
        assert !AllSpace(p) || exists k :: 0 <= k < |rest| && !AllSpace(rest[k]);
      }
    }
  }

  /** Joining one more piece on the right. */
  lemma {:induction false} JoinAppend(sep: string, parts: seq<string>, x: string)
    requires parts != []
    ensures Join(sep, parts + [x]) == Join(sep, parts) + sep + x
    decreases |parts|
  {
    var ps := parts + [x];
    if |parts| == 1 {
      assert ps[1..] == [x];
    } else {
      assert ps[1..] == parts[1..] + [x];
      JoinAppend(sep, parts[1..], x);
    }
  }

  /** The join starts with the first piece and ends with the last one. */
  lemma {:induction false} JoinEnds(sep: string, parts: seq<string>)
    requires parts != []
    ensures parts[0] <= Join(sep, parts)
    ensures |parts[|parts| - 1]| <= |Join(sep, parts)|
    ensures Join(sep, parts)[|Join(sep, parts)| - |parts[|parts| - 1]|..] == parts[|parts| - 1]
    decreases |parts|
  {
    if |parts| > 1 {
      JoinEnds(sep, parts[1..]);
      var j := Join(sep, parts[1..]);
      var whole := parts[0] + sep + j;
      assert whole[..|parts[0]|] == parts[0];
      assert whole[|whole| - |j|..] == j;
    }
  }

  /** Non-empty stripped pieces give a non-empty stripped join. */
  lemma JoinStripped(sep: string, parts: seq<string>)
    requires parts != []
    requires forall k :: 0 <= k < |parts| ==> parts[k] != "" && IsStripped(parts[k])
    ensures Join(sep, parts) != "" && IsStripped(Join(sep, parts))
  {
    JoinEnds(sep, parts);
    var j, first, last := Join(sep, parts), parts[0], parts[|parts| - 1];
    assert j[0] == first[0];
    assert j[|j| - 1] == j[|j| - |last|..][|last| - 1] == last[|last| - 1];
  }

  /** Clean pieces joined with a single "\n" hold no blank line: a piece
      neither starts nor ends with whitespace, so no two newlines meet. */
  lemma {:induction false} JoinNewlineNoBlankLine(parts: seq<string>)
    requires forall k :: 0 <= k < |parts| ==> parts[k] != "" && IsStripped(parts[k]) && NoBlankLine(parts[k])
    ensures NoBlankLine(Join("\n", parts))
    decreases |parts|
  {
    if |parts| > 1 {
      var rest := parts[1..];
      JoinNewlineNoBlankLine(rest);
      JoinEnds("\n", rest);
      var p, j := parts[0], Join("\n", rest);
      var whole := p + "\n" + j;
      assert IsSpace('\n');
      assert j[0] == rest[0][0] == parts[1][0];
      forall k | 0 <= k < |whole| - 1 ensures !(whole[k] == '\n' && whole[k + 1] == '\n') {
        if k < |p| - 1 {
          assert whole[k] == p[k] && whole[k + 1] == p[k + 1];
        } else if k == |p| - 1 {
          assert whole[k] == p[|p| - 1];
        } else if k == |p| {
          assert whole[k + 1] == j[0];
        } else {
          assert whole[k] == j[k - |p| - 1] && whole[k + 1] == j[k - |p|];
        }
      }
    }
  }

  // ---------------------------------------------------------------------
  // split("\n\n")

  /** `s.split("\n\n")`: scans left to right and cuts at each
      non-overlapping occurrence of the boundary, so `""` gives `[""]` and
      `"a\n\n\nb"` gives `["a", "\nb"]`. */
  function SplitBlankLines(s: string): (r: seq<string>)
    ensures |r| >= 1
    ensures |r| == 1 ==> r[0] == s
    ensures |r| > 1 ==> r[0] + "\n\n" <= s
    decreases |s|
  {
    if |s| == 0 then [""]
    else if |s| >= 2 && s[0] == '\n' && s[1] == '\n' then [""] + SplitBlankLines(s[2..])
    else
      var t := SplitBlankLines(s[1..]);
      [[s[0]] + t[0]] + t[1..]
  }

  /** What the pieces of a left-to-right split look like: at least one
      piece, no piece holds the boundary, and no piece but the last ends in
      '\n' (else the boundary would have been found one character sooner). */
  predicate SplitPieces(parts: seq<string>) {
    |parts| >= 1
    && (forall k :: 0 <= k < |parts| ==> NoBlankLine(parts[k]))
    && (forall k :: 0 <= k < |parts| - 1 ==> parts[k] == "" || parts[k][|parts[k]| - 1] != '\n')
  }

  lemma ConsAssoc(c: char, x: string, j: string)
    ensures ([c] + x) + "\n\n" + j == [c] + (x + "\n\n" + j)
  {
  }

  lemma JoinConsFirst(c: char, t: seq<string>)
    requires |t| >= 1
    ensures Join("\n\n", [[c] + t[0]] + t[1..]) == [c] + Join("\n\n", t)
  {
    var u := [[c] + t[0]] + t[1..];
    if |t| == 1 {
      assert u == [[c] + t[0]];
    } else {
      var j := Join("\n\n", t[1..]);
      assert u[0] == [c] + t[0] && u[1..] == t[1..];
      assert Join("\n\n", u) == ([c] + t[0]) + "\n\n" + j;
      ConsAssoc(c, t[0], j);
    }
  }

  /** Joining the pieces gives the input back. */
  lemma {:induction false} JoinSplit(s: string)
    ensures Join("\n\n", SplitBlankLines(s)) == s
    decreases |s|
  {
    if |s| == 0 {
    } else if |s| >= 2 && s[0] == '\n' && s[1] == '\n' {
      JoinSplit(s[2..]);
      var t := SplitBlankLines(s[2..]);
      assert ([""] + t)[1..] == t;
      assert s == "\n\n" + s[2..];
    } else {
      JoinSplit(s[1..]);
      JoinConsFirst(s[0], SplitBlankLines(s[1..]));
      assert s == [s[0]] + s[1..];
    }
  }

  /** Prepending a character keeps a string free of the boundary unless the
      character and the string's first character are both '\n'. */
  lemma NoBlankLineCons(c: char, t: string)
    requires NoBlankLine(t)
    requires !(c == '\n' && |t| > 0 && t[0] == '\n')
    ensures NoBlankLine([c] + t)
  {
    var h := [c] + t;
    forall k | 0 <= k < |h| - 1 ensures !(h[k] == '\n' && h[k + 1] == '\n') {
      if k > 0 { assert h[k] == t[k - 1] && h[k + 1] == t[k]; }
    }
  }

  /** An empty first piece keeps the shape. */
  lemma SplitPiecesBlank(t: seq<string>)
    requires SplitPieces(t)
    ensures SplitPieces([""] + t)
  {
    var r := [""] + t;
    assert forall k :: 1 <= k < |r| ==> r[k] == t[k - 1];
  }

  /** A character put in front of the first piece keeps the shape, unless
      it completes a boundary with what follows it. */
  lemma SplitPiecesCons(c: char, t: seq<string>)
    requires SplitPieces(t)
    requires c == '\n' ==> if t[0] == "" then |t| == 1 else t[0][0] != '\n'
    ensures SplitPieces([[c] + t[0]] + t[1..])
  {
    var h := [c] + t[0];
    var r := [h] + t[1..];
    assert forall k :: 1 <= k < |r| ==> r[k] == t[k];
    NoBlankLineCons(c, t[0]);
    if |r| > 1 && t[0] != "" {
      assert h[|h| - 1] == t[0][|t[0]| - 1];
    }
  }

  /** The pieces of any split have the shape SplitPieces describes. */
  lemma {:induction false} SplitShape(s: string)
    ensures SplitPieces(SplitBlankLines(s))
    decreases |s|
  {
    if |s| == 0 {
    } else if |s| >= 2 && s[0] == '\n' && s[1] == '\n' {
      SplitShape(s[2..]);
      SplitPiecesBlank(SplitBlankLines(s[2..]));
    } else {
      SplitShape(s[1..]);
      var t := SplitBlankLines(s[1..]);
      // the first piece of s[1..] starts s[1..]
      assert t[0] <= s[1..] by {
        if |t| > 1 { assert t[0] <= t[0] + "\n\n"; }
      }
      assert |t| > 1 ==> t[0] + "\n\n" <= s[1..];
      assert t[0] != "" ==> t[0][0] == s[1];
      SplitPiecesCons(s[0], t);
    }
  }

  /** A string without the boundary is split into itself alone. */
  lemma {:induction false} SplitNoBlankLine(a: string)
    requires NoBlankLine(a)
    ensures SplitBlankLines(a) == [a]
    decreases |a|
  {
    if |a| > 0 {
      NoBlankLineInfix(a, 1, |a|);
      assert a[1..|a|] == a[1..];
      SplitNoBlankLine(a[1..]);
      assert [a[0]] + a[1..] == a;
    }
  }

  /** A leading piece followed by the boundary is cut off as the first piece. */
  lemma {:induction false} SplitAfterPiece(a: string, rest: string)
    requires NoBlankLine(a)
    requires a == "" || a[|a| - 1] != '\n'
    ensures SplitBlankLines(a + "\n\n" + rest) == [a] + SplitBlankLines(rest)
    decreases |a|
  {
    var s := a + "\n\n" + rest;
    if |a| == 0 {
      assert s == "\n\n" + rest;
      assert s[2..] == rest;
    } else {
      assert s[0] == a[0];
      if |a| >= 2 {
        assert s[1] == a[1];
      } else {
        assert s[1] == '\n' && a[0] == a[|a| - 1];
      }
      var a' := a[1..];
      NoBlankLineInfix(a, 1, |a|);
      assert a[1..|a|] == a';
      assert a' == "" || a'[|a'| - 1] == a[|a| - 1];
      assert s[1..] == a' + "\n\n" + rest;
      SplitAfterPiece(a', rest);
      assert [a[0]] + a' == a;
    }
  }

  /** Splitting a join of well-shaped pieces gives the pieces back: together
      with JoinSplit and SplitShape, the split is the one and only
      decomposition of a string into pieces of that shape. */
  lemma {:induction false} SplitJoin(parts: seq<string>)
    requires SplitPieces(parts)
    ensures SplitBlankLines(Join("\n\n", parts)) == parts
    decreases |parts|
  {
    if |parts| == 1 {
      SplitNoBlankLine(parts[0]);
    } else {
      var rest := parts[1..];
      assert SplitPieces(rest) by {
        assert forall k :: 0 <= k < |rest| ==> rest[k] == parts[k + 1];
      }
      SplitJoin(rest);
      SplitAfterPiece(parts[0], Join("\n\n", rest));
      assert [parts[0]] + rest == parts;
    }
  }

  // ---------------------------------------------------------------------
  // replace(' ', '_')

  /** `s.replace(' ', '_')`: every U+0020 becomes an underscore, everything
      else (tabs included) stays where it was. */
  function ReplaceSpaces(s: string): (r: string)
    ensures |r| == |s|
    ensures forall i :: 0 <= i < |s| ==> r[i] == Underscored(s[i])
    decreases |s|
  {
    if |s| == 0 then "" else [Underscored(s[0])] + ReplaceSpaces(s[1..])
  }

  /** One character of `replace(' ', '_')`. */
  function Underscored(c: char): char {
    if c == ' ' then '_' else c
  }

  // ---------------------------------------------------------------------
  // str(n)

  function DigitChar(d: nat): (c: char)
    requires d < 10
    ensures '0' <= c <= '9' && c as int - '0' as int == d
  {
    (d + '0' as int) as char
  }

  /** `str(n)` for a natural number: decimal digits, no leading zero. */
  function Decimal(n: nat): (r: string)
    ensures |r| >= 1
    ensures forall i :: 0 <= i < |r| ==> '0' <= r[i] <= '9'
    ensures n < 10 ==> |r| == 1
    ensures n >= 10 ==> |r| >= 2
    ensures |r| >= 2 ==> r[0] != '0'
    decreases n
  {
    if n < 10 then [DigitChar(n)] else Decimal(n / 10) + [DigitChar(n % 10)]
  }

  /** The value of a string of decimal digits, the inverse of Decimal. */
  function DecimalValue(s: string): nat
    requires forall i :: 0 <= i < |s| ==> '0' <= s[i] <= '9'
    decreases |s|
  {
    if |s| == 0 then 0
    else DecimalValue(s[..|s| - 1]) * 10 + (s[|s| - 1] as int - '0' as int)
  }

  lemma {:induction false} DecimalRoundTrip(n: nat)
    ensures DecimalValue(Decimal(n)) == n
    decreases n
  {
    if n >= 10 {
      DecimalRoundTrip(n / 10);
      var d := Decimal(n);
      assert d[..|d| - 1] == Decimal(n / 10);
    }
  }

  /** Different numbers print differently. */
  lemma DecimalInjective(m: nat, n: nat)
    requires Decimal(m) == Decimal(n)
    ensures m == n
  {
    DecimalRoundTrip(m);
    DecimalRoundTrip(n);
  }
}

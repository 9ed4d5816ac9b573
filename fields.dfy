/**
 * The field grammar (`ArgFragment::parse`): classification of one `{...}`
 * token by the four anchored patterns FIELD_SINGLE, FIELD_NAMED,
 * FIELD_RANGE and FIELD_SPLIT_RANGE, tried in that order, written here as
 * hand-coded recognisers.
 */
module Fields {
  import opened Wrappers
  import opened Text
  import opened Contexts

  /** `ArgFragment`: literal text, or a field referring to captured text. */
  datatype Fragment =
    | Literal(text: string)
    | NamedGroup(name: string)
    | RangeGroup(range: Range, sep: Option<string>)
    | SplitRangeGroup(range: Range)

  predicate Braced(tok: string)
  {
    |tok| >= 2 && tok[0] == '{' && tok[|tok| - 1] == '}'
  }

  /** The text between the braces. */
  function Interior(tok: string): string
    requires Braced(tok)
  {
    tok[1..|tok| - 1]
  }

  predicate AllSpace(s: string)
  {
    forall i :: 0 <= i < |s| ==> IsSpace(s[i])
  }

  predicate IsWord(s: string)
  {
    forall i :: 0 <= i < |s| ==> IsWordChar(s[i])
  }

  /** `-?\d+` */
  predicate IsNumeral(s: string)
  {
    |s| > 0 && if s[0] == '-' then |s| > 1 && AllDigits(s[1..]) else AllDigits(s)
  }

  /** `-?\d*` */
  predicate IsBoundText(s: string)
  {
    if |s| > 0 && s[0] == '-' then AllDigits(s[1..]) else AllDigits(s)
  }

  function LeadingSpaces(s: string): (n: nat)
    ensures n <= |s|
    ensures forall k :: 0 <= k < n ==> IsSpace(s[k])
    ensures n == |s| || !IsSpace(s[n])
  {
    if |s| > 0 && IsSpace(s[0]) then 1 + LeadingSpaces(s[1..]) else 0
  }

  function TrailingSpaces(s: string): (n: nat)
    ensures n <= |s|
    ensures forall k :: |s| - n <= k < |s| ==> IsSpace(s[k])
    ensures n == |s| || !IsSpace(s[|s| - 1 - n])
  {
    if |s| > 0 && IsSpace(s[|s| - 1]) then 1 + TrailingSpaces(s[..|s| - 1]) else 0
  }

  /** The text without its leading and trailing `[[:space:]]*`. */
  function Trim(s: string): string
  {
    var rest := s[LeadingSpaces(s)..];
    rest[..|rest| - TrailingSpaces(rest)]
  }

  function DigitRun(s: string): (n: nat)
    ensures n <= |s| && AllDigits(s[..n])
    ensures n == |s| || !IsDigit(s[n])
  {
    if |s| > 0 && IsDigit(s[0]) then
      assert s[..1 + DigitRun(s[1..])] == [s[0]] + s[1..][..DigitRun(s[1..])];
      1 + DigitRun(s[1..])
    else 0
  }

  /** Length of the longest prefix matching `-?\d*`. */
  function BoundLen(s: string): (n: nat)
    ensures n <= |s| && IsBoundText(s[..n])
  {
    if |s| > 0 && s[0] == '-' then
      assert s[..1 + DigitRun(s[1..])][1..] == s[1..][..DigitRun(s[1..])];
      1 + DigitRun(s[1..])
    else DigitRun(s)
  }

  /** `tok` is a brace, optional `[[:space:]]*`, the text `t`, optional `[[:space:]]*` and a brace. */
  ghost predicate PaddedField(tok: string, t: string)
  {
    exists w1, w2 :: AllSpace(w1) && AllSpace(w2) && tok == "{" + w1 + t + w2 + "}"
  }

  /** FIELD_SINGLE `^\{[[:space:]]*(?P<num>-?\d+)[[:space:]]*\}$`: the `num` capture. */
  function MatchSingle(tok: string): (r: Option<string>)
    ensures r.Some? ==> IsNumeral(r.value) && PaddedField(tok, r.value)
  {
    if Braced(tok) && IsNumeral(Trim(Interior(tok))) then
      BracedTrim(tok);
      Some(Trim(Interior(tok)))
    else None
  }

  /** FIELD_NAMED `^\{[[:space:]]*(?P<name>[[:word:]]*)[[:space:]]*\}$`: the `name` capture. */
  function MatchNamed(tok: string): (r: Option<string>)
    ensures r.Some? ==> IsWord(r.value) && PaddedField(tok, r.value)
  {
    if Braced(tok) && IsWord(Trim(Interior(tok))) then
      BracedTrim(tok);
      Some(Trim(Interior(tok)))
    else None
  }

  /** A braced token is its interior in braces. */
  lemma BracedSplit(tok: string)
    requires Braced(tok)
    ensures tok == "{" + Interior(tok) + "}"
  {
  }

  /** The trimmed interior of a braced token is padded by spaces inside the braces. */
  lemma BracedTrim(tok: string)
    requires Braced(tok)
    ensures PaddedField(tok, Trim(Interior(tok)))
  {
    var s := Interior(tok);
    var w1, w2 := TrimSplit(s);
    BracedSplit(tok);
    Rebrace(s, w1, Trim(s), w2);
    PaddedWitness(tok, w1, Trim(s), w2);
  }

  lemma Rebrace(s: string, a: string, b: string, c: string)
    requires s == a + b + c
    ensures "{" + s + "}" == "{" + a + b + c + "}"
  {
  }

  lemma PaddedWitness(tok: string, w1: string, t: string, w2: string)
    requires AllSpace(w1) && AllSpace(w2) && tok == "{" + w1 + t + w2 + "}"
    ensures PaddedField(tok, t)
  {
  }

  /** Trimming removes a run of spaces at each end and nothing else. */
  lemma TrimSplit(s: string) returns (w1: string, w2: string)
    ensures AllSpace(w1) && AllSpace(w2) && s == w1 + Trim(s) + w2
  {
    var a := LeadingSpaces(s);
    var rest := s[a..];
    var b := TrailingSpaces(rest);
    w1, w2 := s[..a], rest[|rest| - b..];
    LeadingRunSpaces(s);
    TrailingRunSpaces(rest);
    SplitAt(s, a);
    SplitAt(rest, |rest| - b);
    Associate(w1, Trim(s), w2);
  }

  lemma SplitAt(s: string, n: nat)
    requires n <= |s|
    ensures s == s[..n] + s[n..]
  {
  }

  lemma Associate(a: string, b: string, c: string)
    ensures a + (b + c) == a + b + c
  {
  }

  lemma LeadingRunSpaces(s: string)
    ensures AllSpace(s[..LeadingSpaces(s)])
  {
    var w := s[..LeadingSpaces(s)];
    forall k | 0 <= k < |w|
      ensures IsSpace(w[k])
    {
      assert w[k] == s[k];
    }
  }

  lemma TrailingRunSpaces(s: string)
    ensures AllSpace(s[|s| - TrailingSpaces(s)..])
  {
    var n := TrailingSpaces(s);
    var w := s[|s| - n..];
    forall k | 0 <= k < |w|
      ensures IsSpace(w[k])
    {
      assert w[k] == s[|s| - n + k];
    }
  }

  /** The captures of FIELD_RANGE. */
  datatype RangeCaptures = RangeCaptures(left: string, right: string, sep: Option<string>)

  /**
   * FIELD_RANGE `^\{(?P<left>-?\d*)?\.\.(?P<right>-?\d*)?(?::(?P<sep>.*))?\}$`:
   * both bounds are maximal runs of `-?\d*` (`.` never matches a digit or
   * `-`), and the separator runs to the closing brace and holds no line feed.
   */
  function MatchRange(tok: string): (r: Option<RangeCaptures>)
    ensures r.Some? ==> IsBoundText(r.value.left) && IsBoundText(r.value.right)
    ensures r.Some? && r.value.sep.Some? ==> '\n' !in r.value.sep.value
    ensures r.Some? ==> tok == "{" + r.value.left + ".." + r.value.right + SepSuffix(r.value.sep) + "}"
  {
    if !Braced(tok) then None
    else
      var x := Interior(tok);
      var k := BoundLen(x);
      if !(k + 2 <= |x| && x[k..k + 2] == "..") then None
      else
        var y := x[k + 2..];
        var m := BoundLen(y);
        var z := y[m..];
        if z == "" || (z[0] == ':' && '\n' !in z[1..]) then
          RangeCapturesSound(tok, k, m);
          Some(RangeCaptures(x[..k], y[..m], if z == "" then None else Some(z[1..])))
        else None
  }

  /** The captures of a two-dot range are bound texts, and with the dots and the separator they make up the token. */
  lemma RangeCapturesSound(tok: string, k: nat, m: nat)
    requires Braced(tok) && k == BoundLen(Interior(tok))
    requires k + 2 <= |Interior(tok)| && Interior(tok)[k..k + 2] == ".."
    requires m == BoundLen(Interior(tok)[k + 2..])
    requires var z := Interior(tok)[k + 2..][m..]; z == "" || (z[0] == ':' && '\n' !in z[1..])
    ensures var x := Interior(tok); var y := x[k + 2..]; var z := y[m..];
      var caps := RangeCaptures(x[..k], y[..m], if z == "" then None else Some(z[1..]));
      && IsBoundText(caps.left) && IsBoundText(caps.right)
      && (caps.sep.Some? ==> '\n' !in caps.sep.value)
      && tok == "{" + caps.left + ".." + caps.right + SepSuffix(caps.sep) + "}"
  {
    var x := Interior(tok);
    var y := x[k + 2..];
    var z := y[m..];
    RangeInterior(x, k, m);
    SepSuffixOf(z);
    BracedSplit(tok);
    Rebrace4(x, x[..k], "..", y[..m], z);
  }

  lemma RangeInterior(x: string, k: nat, m: nat)
    requires k + 2 <= |x| && x[k..k + 2] == ".." && m <= |x[k + 2..]|
    ensures x == x[..k] + ".." + x[k + 2..][..m] + x[k + 2..][m..]
  {
    var y := x[k + 2..];
    assert x == x[..k] + x[k..k + 2] + y;
    assert y == y[..m] + y[m..];
  }

  lemma SepSuffixOf(z: string)
    requires z == "" || z[0] == ':'
    ensures SepSuffix(if z == "" then None else Some(z[1..])) == z
  {
  }

  lemma Rebrace4(s: string, a: string, b: string, c: string, d: string)
    requires s == a + b + c + d
    ensures "{" + s + "}" == "{" + a + b + c + d + "}"
  {
  }

  /** FIELD_SPLIT_RANGE `^\{(?P<left>-?\d*)?\.\.\.(?P<right>-?\d*)?\}$`: the two bounds. */
  function MatchSplitRange(tok: string): (r: Option<(string, string)>)
    ensures r.Some? ==> IsBoundText(r.value.0) && IsBoundText(r.value.1)
    ensures r.Some? ==> tok == "{" + r.value.0 + "..." + r.value.1 + "}"
  {
    if !Braced(tok) then None
    else
      var x := Interior(tok);
      var k := BoundLen(x);
      if k + 3 <= |x| && x[k..k + 3] == "..." && IsBoundText(x[k + 3..]) then
        SplitReassembles(tok, k);
        Some((x[..k], x[k + 3..]))
      else None
  }

  lemma SplitReassembles(tok: string, k: nat)
    requires Braced(tok) && k + 3 <= |Interior(tok)| && Interior(tok)[k..k + 3] == "..."
    ensures var x := Interior(tok); tok == "{" + x[..k] + "..." + x[k + 3..] + "}"
  {
    var x := Interior(tok);
    SplitAt(x, k);
    SplitAt(x[k..], 3);
    assert x[k..][..3] == x[k..k + 3] && x[k..][3..] == x[k + 3..];
    Associate(x[..k], "...", x[k + 3..]);
    BracedSplit(tok);
    Rebrace(x, x[..k], "...", x[k + 3..]);
  }

  /** A left bound whose text is empty or not an `i32` is 1. */
  function LeftBound(text: string): int
  {
    ParseI32(text).GetOr(1)
  }

  /** A right bound whose text is empty or not an `i32` is -1. */
  function RightBound(text: string): int
  {
    ParseI32(text).GetOr(-1)
  }

  /** The tokens `parse` classifies without panicking: a FIELD_SINGLE number must fit in an `i32`. */
  predicate Parsable(tok: string)
  {
    MatchSingle(tok).Some? ==> ParseI32(MatchSingle(tok).value).Some?
  }

  /**
   * `ArgFragment::parse`: a number, else a name, else a two-dot range with
   * an optional separator, else a three-dot split range, else the token as
   * literal text. The regex engine reports an optional group that matched
   * the empty text as present, so both bounds are always present and a
   * range field is always `Both`: the other arms of the source's match on the
   * two bounds cannot be reached.
   */
  function Parse(tok: string): (r: Fragment)
    requires Parsable(tok)
    ensures r.Literal? <==>
      MatchSingle(tok).None? && MatchNamed(tok).None? && MatchRange(tok).None? && MatchSplitRange(tok).None?
    ensures r.Literal? ==> r.text == tok
  {
    match MatchSingle(tok)
    case Some(num) => RangeGroup(Single(ParseI32(num).value), None)
    case None =>
      match MatchNamed(tok)
      case Some(name) => NamedGroup(name)
      case None =>
        match MatchRange(tok)
        case Some(caps) => RangeGroup(Both(LeftBound(caps.left), RightBound(caps.right)), caps.sep)
        case None =>
          match MatchSplitRange(tok)
          case Some((left, right)) => SplitRangeGroup(Both(LeftBound(left), RightBound(right)))
          case None => Literal(tok)
  }

  /** The text of an optional separator: nothing, or a colon and the separator. */
  function SepSuffix(sep: Option<string>): string
  {
    match sep
    case None => ""
    case Some(s) => ":" + s
  }

  lemma InteriorOf(x: string)
    ensures Braced("{" + x + "}") && Interior("{" + x + "}") == x
  {
  }

  lemma {:induction false} LeadingSpacesPad(w: string, t: string)
    requires AllSpace(w)
    ensures LeadingSpaces(w + t) == |w| + LeadingSpaces(t)
  {
    if |w| > 0 {
      assert (w + t)[1..] == w[1..] + t;
      LeadingSpacesPad(w[1..], t);
    } else {
      assert w + t == t;
    }
  }

  lemma {:induction false} TrailingSpacesPad(t: string, w: string)
    requires AllSpace(w)
    ensures TrailingSpaces(t + w) == |w| + TrailingSpaces(t)
  {
    if |w| > 0 {
      assert (t + w)[..|t + w| - 1] == t + w[..|w| - 1];
      TrailingSpacesPad(t, w[..|w| - 1]);
    } else {
      assert t + w == t;
    }
  }

  /** Trimming removes exactly the padding around text that neither starts nor ends with a space. */
  lemma TrimPadded(w1: string, x: string, w2: string)
    requires AllSpace(w1) && AllSpace(w2)
    requires |x| > 0 ==> !IsSpace(x[0]) && !IsSpace(x[|x| - 1])
    ensures Trim(w1 + x + w2) == x
  {
    assert w1 + x + w2 == w1 + (x + w2);
    LeadingSpacesPad(w1, x + w2);
    var rest := (w1 + x + w2)[LeadingSpaces(w1 + x + w2)..];
    if |x| > 0 {
      assert LeadingSpaces(x + w2) == 0;
      assert rest == x + w2;
      TrailingSpacesPad(x, w2);
      assert TrailingSpaces(x) == 0;
      assert rest[..|rest| - |w2|] == x;
    } else {
      assert x + w2 == w2 + "";
      LeadingSpacesPad(w2, "");
      assert rest == [];
    }
  }

  /** A character that is not a space stays in the trimmed text. */
  lemma TrimKeeps(s: string, i: nat)
    requires i < |s| && !IsSpace(s[i])
    ensures exists j :: 0 <= j < |Trim(s)| && Trim(s)[j] == s[i]
  {
    var a := LeadingSpaces(s);
    var rest := s[a..];
    var b := TrailingSpaces(rest);
    assert a <= i;
    assert rest[i - a] == s[i];
    assert i - a < |rest| - b;
    assert Trim(s)[i - a] == s[i];
  }

  /** A dot in a field's text rules out FIELD_SINGLE and FIELD_NAMED. */
  lemma DotIsNeitherNumberNorName(tok: string, i: nat)
    requires Braced(tok) && i < |Interior(tok)| && Interior(tok)[i] == '.'
    ensures MatchSingle(tok).None? && MatchNamed(tok).None?
  {
    var t := Trim(Interior(tok));
    TrimKeeps(Interior(tok), i);
    var j :| 0 <= j < |t| && t[j] == '.';
    assert !IsWordChar(t[j]);
    if j == 0 {
      assert t[0] != '-' && !IsDigit(t[0]);
    } else {
      assert t[1..][j - 1] == '.';
    }
  }

  lemma {:induction false} DigitRunPrefix(d: string, t: string)
    requires AllDigits(d) && (|t| == 0 || !IsDigit(t[0]))
    ensures DigitRun(d + t) == |d|
  {
    if |d| > 0 {
      assert (d + t)[1..] == d[1..] + t;
      DigitRunPrefix(d[1..], t);
    } else {
      assert d + t == t;
    }
  }

  /** The maximal `-?\d*` prefix of a bound followed by text starting with neither a digit nor `-` is the bound. */
  lemma BoundLenPrefix(b: string, t: string)
    requires IsBoundText(b)
    requires |t| == 0 || !(IsDigit(t[0]) || t[0] == '-')
    ensures BoundLen(b + t) == |b|
  {
    if |b| > 0 && b[0] == '-' {
      assert (b + t)[1..] == b[1..] + t;
      DigitRunPrefix(b[1..], t);
    } else {
      DigitRunPrefix(b, t);
    }
  }

  /** A numeral starts with a sign or a digit and ends with a digit, so neither end is a space. */
  lemma NumeralUnpadded(t: string)
    requires IsNumeral(t)
    ensures !IsSpace(t[0]) && !IsSpace(t[|t| - 1])
  {
    if t[0] == '-' {
      assert t[|t| - 1] == t[1..][|t| - 2];
    }
  }

  lemma SingleFieldMatches(w1: string, t: string, w2: string)
    requires AllSpace(w1) && AllSpace(w2) && IsNumeral(t)
    ensures MatchSingle("{" + w1 + t + w2 + "}") == Some(t)
  {
    var x := w1 + t + w2;
    assert "{" + w1 + t + w2 + "}" == "{" + x + "}";
    InteriorOf(x);
    NumeralUnpadded(t);
    TrimPadded(w1, t, w2);
  }

  /**
   * A numeral, optionally padded with spaces, is a single index with the
   * value `str::parse` gives it: `{ 3 }` is `Single(3)` even though it is
   * also a valid name, `{007}` is `Single(7)`; a numeral that is not an
   * `i32` makes `parse` panic.
   */
  lemma ParseSingleField(w1: string, t: string, w2: string)
    requires AllSpace(w1) && AllSpace(w2) && IsNumeral(t)
    ensures MatchSingle("{" + w1 + t + w2 + "}") == Some(t)
    ensures Parsable("{" + w1 + t + w2 + "}") <==> ParseI32(t).Some?
    ensures ParseI32(t).Some? ==> Parse("{" + w1 + t + w2 + "}") == RangeGroup(Single(ParseI32(t).value), None)
  {
    SingleFieldMatches(w1, t, w2);
  }

  lemma NamedFieldMatches(w1: string, name: string, w2: string)
    requires AllSpace(w1) && AllSpace(w2) && IsWord(name)
    requires name == "" || !AllDigits(name)
    ensures MatchSingle("{" + w1 + name + w2 + "}").None?
    ensures MatchNamed("{" + w1 + name + w2 + "}") == Some(name)
  {
    var x := w1 + name + w2;
    assert "{" + w1 + name + w2 + "}" == "{" + x + "}";
    InteriorOf(x);
    if |name| > 0 {
      assert IsWordChar(name[0]) && IsWordChar(name[|name| - 1]);
      assert name[0] != '-';
    }
    TrimPadded(w1, name, w2);
  }

  /** A name of word characters that is not a number, optionally padded with spaces, is a named group. */
  lemma ParseNamedField(w1: string, name: string, w2: string)
    requires AllSpace(w1) && AllSpace(w2) && IsWord(name)
    requires name == "" || !AllDigits(name)
    ensures Parsable("{" + w1 + name + w2 + "}")
    ensures Parse("{" + w1 + name + w2 + "}") == NamedGroup(name)
  {
    NamedFieldMatches(w1, name, w2);
  }

  lemma RangeTextSplits(lt: string, rt: string, st: string)
    requires IsBoundText(lt) && IsBoundText(rt)
    requires st == "" || st[0] == ':'
    ensures var x := lt + ".." + rt + st;
      BoundLen(x) == |lt| && x[..|lt|] == lt && x[|lt|..|lt| + 2] == ".." && x[|lt| + 2..] == rt + st
    ensures BoundLen(rt + st) == |rt| && (rt + st)[..|rt|] == rt && (rt + st)[|rt|..] == st
  {
    var x := lt + ".." + rt + st;
    var tail := ".." + (rt + st);
    assert x == lt + tail;
    BoundSplit(lt, tail);
    assert tail[..2] == ".." && tail[2..] == rt + st;
    assert x[|lt|..|lt| + 2] == tail[..2] && x[|lt| + 2..] == tail[2..];
    BoundSplit(rt, st);
  }

  /** A bound followed by text that cannot extend it is the maximal bound prefix. */
  lemma BoundSplit(b: string, t: string)
    requires IsBoundText(b)
    requires |t| == 0 || !(IsDigit(t[0]) || t[0] == '-')
    ensures BoundLen(b + t) == |b| && (b + t)[..|b|] == b && (b + t)[|b|..] == t
  {
    BoundLenPrefix(b, t);
  }

  lemma RangeTextMatches(lt: string, rt: string, sep: Option<string>)
    requires IsBoundText(lt) && IsBoundText(rt)
    requires sep.Some? ==> '\n' !in sep.value
    ensures MatchRange("{" + lt + ".." + rt + SepSuffix(sep) + "}") == Some(RangeCaptures(lt, rt, sep))
  {
    var st := SepSuffix(sep);
    var x := lt + ".." + rt + st;
    assert "{" + lt + ".." + rt + st + "}" == "{" + x + "}";
    InteriorOf(x);
    RangeTextSplits(lt, rt, st);
    if sep.Some? {
      assert st[1..] == sep.value;
    }
  }

  lemma RangeFieldMatches(lt: string, rt: string, sep: Option<string>)
    requires IsBoundText(lt) && IsBoundText(rt)
    requires sep.Some? ==> '\n' !in sep.value
    ensures MatchSingle("{" + lt + ".." + rt + SepSuffix(sep) + "}").None?
    ensures MatchNamed("{" + lt + ".." + rt + SepSuffix(sep) + "}").None?
    ensures MatchRange("{" + lt + ".." + rt + SepSuffix(sep) + "}") == Some(RangeCaptures(lt, rt, sep))
  {
    RangeNotNumberNorName(lt, rt, SepSuffix(sep));
    RangeTextMatches(lt, rt, sep);
  }

  lemma RangeNotNumberNorName(lt: string, rt: string, st: string)
    ensures MatchSingle("{" + lt + ".." + rt + st + "}").None?
    ensures MatchNamed("{" + lt + ".." + rt + st + "}").None?
  {
    var x := lt + ".." + rt + st;
    assert "{" + lt + ".." + rt + st + "}" == "{" + x + "}";
    InteriorOf(x);
    assert x[|lt|] == '.';
    DotIsNeitherNumberNorName("{" + x + "}", |lt|);
  }

  /**
   * `{l..r}` and `{l..r:sep}`: a two-dot range. A bound whose text is
   * empty or not an `i32` (`{..3}`, `{-..}`, `{99999999999..}`) falls back
   * to 1 on the left and -1 on the right.
   */
  lemma ParseRangeField(lt: string, rt: string, sep: Option<string>)
    requires IsBoundText(lt) && IsBoundText(rt)
    requires sep.Some? ==> '\n' !in sep.value
    ensures Parsable("{" + lt + ".." + rt + SepSuffix(sep) + "}")
    ensures Parse("{" + lt + ".." + rt + SepSuffix(sep) + "}") ==
      RangeGroup(Both(ParseI32(lt).GetOr(1), ParseI32(rt).GetOr(-1)), sep)
  {
    RangeFieldMatches(lt, rt, sep);
  }

  lemma SplitTextMatches(lt: string, rt: string)
    requires IsBoundText(lt) && IsBoundText(rt)
    ensures MatchRange("{" + lt + "..." + rt + "}").None?
    ensures MatchSplitRange("{" + lt + "..." + rt + "}") == Some((lt, rt))
  {
    SplitTextNotRange(lt, rt);
    SplitTextSplitRange(lt, rt);
  }

  /** The interior of `{l...r}` splits at the end of the left bound, before the three dots. */
  lemma SplitTextSplits(lt: string, rt: string)
    requires IsBoundText(lt) && IsBoundText(rt)
    ensures var x := lt + "..." + rt;
      BoundLen(x) == |lt| && x[..|lt|] == lt && x[|lt|..|lt| + 3] == "..." && x[|lt| + 3..] == rt
  {
    var x := lt + "..." + rt;
    assert x == lt + ("..." + rt);
    BoundLenPrefix(lt, "..." + rt);
  }

  lemma SplitTextNotRange(lt: string, rt: string)
    requires IsBoundText(lt) && IsBoundText(rt)
    ensures MatchRange("{" + lt + "..." + rt + "}").None?
  {
    var x := lt + "..." + rt;
    assert "{" + lt + "..." + rt + "}" == "{" + x + "}";
    SplitTextSplits(lt, rt);
    ThreeDotsNotRange(x);
  }

  /** An interior whose first bound is followed by three dots is not a two-dot range. */
  lemma ThreeDotsNotRange(x: string)
    requires BoundLen(x) + 3 <= |x| && x[BoundLen(x)..BoundLen(x) + 3] == "..."
    ensures MatchRange("{" + x + "}").None?
  {
    InteriorOf(x);
    var k := BoundLen(x);
    var dots := x[k..k + 3];
    assert dots[0] == x[k] && dots[1] == x[k + 1] && dots[2] == x[k + 2];
    assert x[k..k + 2] == "..";
    var y := x[k + 2..];
    assert y[0] == x[k + 2] == '.';
    DotStartsNoBound(y);
    assert y[0..] == y;
  }

  lemma DotStartsNoBound(y: string)
    requires |y| > 0 && y[0] == '.'
    ensures BoundLen(y) == 0
  {
    assert y == [] + y;
    BoundLenPrefix([], y);
  }

  lemma SplitTextSplitRange(lt: string, rt: string)
    requires IsBoundText(lt) && IsBoundText(rt)
    ensures MatchSplitRange("{" + lt + "..." + rt + "}") == Some((lt, rt))
  {
    var x := lt + "..." + rt;
    assert "{" + lt + "..." + rt + "}" == "{" + x + "}";
    InteriorOf(x);
    SplitTextSplits(lt, rt);
  }

  lemma SplitRangeFieldMatches(lt: string, rt: string)
    requires IsBoundText(lt) && IsBoundText(rt)
    ensures MatchSingle("{" + lt + "..." + rt + "}").None?
    ensures MatchNamed("{" + lt + "..." + rt + "}").None?
    ensures MatchRange("{" + lt + "..." + rt + "}").None?
    ensures MatchSplitRange("{" + lt + "..." + rt + "}") == Some((lt, rt))
  {
    SplitNotNumberNorName(lt, rt);
    SplitTextMatches(lt, rt);
  }

  lemma SplitNotNumberNorName(lt: string, rt: string)
    ensures MatchSingle("{" + lt + "..." + rt + "}").None?
    ensures MatchNamed("{" + lt + "..." + rt + "}").None?
  {
    var x := lt + "..." + rt;
    assert "{" + lt + "..." + rt + "}" == "{" + x + "}";
    InteriorOf(x);
    assert x[|lt|] == '.';
    DotIsNeitherNumberNorName("{" + x + "}", |lt|);
  }

  /** `{l...r}`: a three-dot split range with the same fallbacks for bounds that are empty or not an `i32`. */
  lemma ParseSplitRangeField(lt: string, rt: string)
    requires IsBoundText(lt) && IsBoundText(rt)
    ensures Parsable("{" + lt + "..." + rt + "}")
    ensures Parse("{" + lt + "..." + rt + "}") == SplitRangeGroup(Both(ParseI32(lt).GetOr(1), ParseI32(rt).GetOr(-1)))
  {
    SplitRangeFieldMatches(lt, rt);
  }

  /** No token is both a two-dot range and a three-dot split range. */
  lemma RangeSplitExclusive(tok: string)
    ensures !(MatchRange(tok).Some? && MatchSplitRange(tok).Some?)
  {
    if Braced(tok) && MatchSplitRange(tok).Some? {
      var x := Interior(tok);
      BracedSplit(tok);
      ThreeDotsNotRange(x);
    }
  }

}

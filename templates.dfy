/**
 * Template compilation (`ArgTemplate::from`): an argument is cut at every
 * occurrence of CMD_REGEX into literal text and field tokens. The pattern
 * `\{[[:space:]]*[^{}]*[[:space:]]*\}` accepts exactly the texts of the form
 * `\{[^{}]*\}`, found leftmost-first and without overlap.
 */
module Templates {
  import opened Wrappers
  import opened Text
  import opened Fields

  /** None of `s[a..b]` is a brace. */
  predicate NoBrace(s: string, a: nat, b: nat)
    requires a <= b <= |s|
  {
    forall k :: a <= k < b ==> s[k] != '{' && s[k] != '}'
  }

  /** `s[p..e]` is a match of `\{[^{}]*\}`. */
  predicate IsTokenAt(s: string, p: nat, e: nat)
  {
    p + 2 <= e <= |s| && s[p] == '{' && s[e - 1] == '}' && NoBrace(s, p + 1, e - 1)
  }

  /** The end of the token whose opening brace is just before `j`: the first brace from `j` on must close it. */
  function CloseFrom(s: string, j: nat): (r: Option<nat>)
    requires j <= |s|
    ensures r.Some? ==> j < r.value <= |s| && s[r.value - 1] == '}' && NoBrace(s, j, r.value - 1)
    ensures r.None? ==> forall k :: j <= k < |s| && s[k] == '}' ==> !NoBrace(s, j, k)
    decreases |s| - j
  {
    if j == |s| then None
    else if s[j] == '}' then Some(j + 1)
    else if s[j] == '{' then None
    else CloseFrom(s, j + 1)
  }

  /** The leftmost token starting at or after `from`, as a start and an end index. */
  function FindToken(s: string, from: nat): (r: Option<(nat, nat)>)
    requires from <= |s|
    ensures r.Some? ==> from <= r.value.0 && IsTokenAt(s, r.value.0, r.value.1)
    ensures r.Some? ==> forall p, e :: from <= p < r.value.0 ==> !IsTokenAt(s, p, e)
    ensures r.None? ==> forall p, e :: from <= p ==> !IsTokenAt(s, p, e)
    decreases |s| - from
  {
    if from == |s| then None
    else if s[from] == '{' && CloseFrom(s, from + 1).Some? then Some((from, CloseFrom(s, from + 1).value))
    else FindToken(s, from + 1)
  }

  /** The scan from `last` on: literal text, token, literal text, ..., literal text. */
  function PiecesFrom(s: string, last: nat): (r: seq<string>)
    requires last <= |s|
    ensures |r| % 2 == 1
    decreases |s| - last
  {
    match FindToken(s, last)
    case None => [s[last..]]
    case Some((p, e)) => [s[last..p], s[p..e]] + PiecesFrom(s, e)
  }

  function Pieces(s: string): seq<string>
  {
    PiecesFrom(s, 0)
  }

  /** Every token of the argument is one `parse` accepts without panicking. */
  predicate Compilable(arg: string)
  {
    var pieces := Pieces(arg);
    forall i :: 0 <= i < |pieces| && i % 2 == 1 ==> Parsable(pieces[i])
  }

  /** Piece `i` as a fragment: literal text at even positions, a parsed token at odd ones. */
  function FragmentOf(piece: string, i: nat): Fragment
    requires i % 2 == 1 ==> Parsable(piece)
  {
    if i % 2 == 0 then Literal(piece) else Parse(piece)
  }

  /** The fragments of an argument. */
  function Compiled(arg: string): (r: seq<Fragment>)
    requires Compilable(arg)
  {
    var pieces := Pieces(arg);
    seq(|pieces|, i requires 0 <= i < |pieces| => FragmentOf(pieces[i], i))
  }

  /** `ArgTemplate`: the compiled form of one argument. */
  datatype ArgTemplate = ArgTemplate(fragments: seq<Fragment>)

  /** `ArgTemplate::from`: one literal before each token, the parsed token, then the rest of the argument. */
  method Compile(arg: string) returns (t: ArgTemplate)
    requires Compilable(arg)
    ensures t.fragments == Compiled(arg)
  {
    var fragments: seq<Fragment> := [];
    var last: nat := 0;
    var next := FindToken(arg, 0);
    ghost var done: seq<string> := [];
    ghost var rounds: nat := 0;
    while next.Some?
      invariant last <= |arg| && next == FindToken(arg, last)
      invariant ScanState(arg, last, done, fragments, rounds)
      decreases |arg| - last
    {
      var (p, e) := next.value;
      ScanAdvance(arg, last, done, fragments, rounds);
      var literal, token := arg[last..p], arg[p..e];
      var fragment := Parse(token);
      fragments := fragments + [Literal(literal), fragment];
      done := done + [literal, token];
      rounds := rounds + 1;
      last := e;
      next := FindToken(arg, last);
    }
    ScanFinish(arg, last, done, fragments, rounds);
    fragments := fragments + [Literal(arg[last..])];
    t := ArgTemplate(fragments);
  }

  /** After some rounds of the scan: `done` holds the pieces so far and `fragments` their compiled form. */
  ghost predicate ScanState(arg: string, last: nat, done: seq<string>, fragments: seq<Fragment>, rounds: nat)
  {
    Compilable(arg) && last <= |arg| && done + PiecesFrom(arg, last) == Pieces(arg) &&
    |fragments| == |done| == 2 * rounds &&
    forall i :: 0 <= i < |done| ==> i < |Pieces(arg)| && fragments[i] == FragmentOf(Pieces(arg)[i], i)
  }

  lemma ScanAdvance(arg: string, last: nat, done: seq<string>, fragments: seq<Fragment>, rounds: nat)
    requires ScanState(arg, last, done, fragments, rounds) && FindToken(arg, last).Some?
    ensures var (p, e) := FindToken(arg, last).value;
      Parsable(arg[p..e]) &&
      ScanState(arg, e, done + [arg[last..p], arg[p..e]], fragments + [Literal(arg[last..p]), Parse(arg[p..e])], rounds + 1)
  {
    var (p, e) := FindToken(arg, last).value;
    var pieces := Pieces(arg);
    ScanStep(arg, last, done);
    Parity(rounds);
    PieceParsable(arg, 2 * rounds + 1);
    var literal, token := arg[last..p], arg[p..e];
    assert FragmentOf(pieces[|done|], |done|) == Literal(literal);
    assert FragmentOf(pieces[|done| + 1], |done| + 1) == Parse(token);
    var done', fragments' := done + [literal, token], fragments + [Literal(literal), Parse(token)];
    assert done' + PiecesFrom(arg, e) == pieces;
    assert |fragments'| == |done'| == 2 * (rounds + 1);
    forall i | 0 <= i < |done'|
      ensures i < |pieces| && fragments'[i] == FragmentOf(pieces[i], i)
    {
      if i < |done| {
        assert fragments'[i] == fragments[i] == FragmentOf(pieces[i], i);
      } else if i == |done| {
        assert fragments'[i] == Literal(literal) == FragmentOf(pieces[|done|], |done|);
      } else {
        assert i == |done| + 1;
        assert fragments'[i] == Parse(token) == FragmentOf(pieces[|done| + 1], |done| + 1);
      }
    }
  }

  lemma ScanFinish(arg: string, last: nat, done: seq<string>, fragments: seq<Fragment>, rounds: nat)
    requires ScanState(arg, last, done, fragments, rounds) && FindToken(arg, last).None?
    ensures fragments + [Literal(arg[last..])] == Compiled(arg)
  {
    var pieces, rest := Pieces(arg), arg[last..];
    assert PiecesFrom(arg, last) == [rest];
    assert pieces == done + [rest];
    Parity(rounds);
    var fragments' := fragments + [Literal(rest)];
    forall i | 0 <= i < |fragments'|
      ensures fragments'[i] == FragmentOf(pieces[i], i)
    {
      if i < |fragments| {
        assert fragments'[i] == fragments[i] == FragmentOf(pieces[i], i);
      } else {
        assert pieces[i] == rest && i == 2 * rounds;
      }
    }
    CompiledEquals(arg, fragments');
  }

  /** One round of the scan: the next two pieces are the literal before the next token and the token. */
  lemma ScanStep(arg: string, last: nat, done: seq<string>)
    requires last <= |arg| && FindToken(arg, last).Some?
    requires done + PiecesFrom(arg, last) == Pieces(arg)
    ensures var (p, e) := FindToken(arg, last).value;
      |done| + 1 < |Pieces(arg)| && Pieces(arg)[|done|] == arg[last..p] && Pieces(arg)[|done| + 1] == arg[p..e] &&
      done + [arg[last..p], arg[p..e]] + PiecesFrom(arg, e) == Pieces(arg)
  {
    var (p, e) := FindToken(arg, last).value;
    assert PiecesFrom(arg, last) == [arg[last..p], arg[p..e]] + PiecesFrom(arg, e);
  }

  lemma CompiledEquals(arg: string, fragments: seq<Fragment>)
    requires Compilable(arg) && |fragments| == |Pieces(arg)|
    requires forall i :: 0 <= i < |fragments| ==> fragments[i] == FragmentOf(Pieces(arg)[i], i)
    ensures fragments == Compiled(arg)
  {
  }

  lemma Parity(k: nat)
    ensures (2 * k) % 2 == 0 && (2 * k + 1) % 2 == 1
  {
  }

  lemma PieceParsable(arg: string, i: nat)
    requires Compilable(arg) && i < |Pieces(arg)| && i % 2 == 1
    ensures Parsable(Pieces(arg)[i])
  {
  }

  /** The pieces put back together are the scanned text. */
  lemma {:induction false} PiecesFromConcat(s: string, last: nat)
    requires last <= |s|
    ensures Concat(PiecesFrom(s, last)) == s[last..]
    decreases |s| - last
  {
    match FindToken(s, last)
    case None =>
      assert Concat([s[last..]]) == s[last..] + Concat([]);
    case Some((p, e)) =>
      PiecesFromConcat(s, e);
      ConcatAppend([s[last..p], s[p..e]], PiecesFrom(s, e));
      ConcatPair(s[last..p], s[p..e]);
      SliceThree(s, last, p, e);
  }

  lemma ConcatPair(a: string, b: string)
    ensures Concat([a, b]) == a + b
  {
    assert [a, b][1..] == [b];
    assert Concat([b]) == b + Concat([]);
  }

  lemma SliceThree(s: string, a: nat, b: nat, c: nat)
    requires a <= b <= c <= |s|
    ensures s[a..] == s[a..b] + s[b..c] + s[c..]
  {
  }

  /** Odd pieces are tokens; even pieces hold no token, which is what makes each token the leftmost one. */
  predicate TokenText(t: string)
  {
    IsTokenAt(t, 0, |t|)
  }

  predicate TokenFree(t: string)
  {
    forall p, e :: 0 <= p < e <= |t| ==> !IsTokenAt(t, p, e)
  }

  lemma TokenInSlice(s: string, a: nat, b: nat, p: nat, e: nat)
    requires a <= b <= |s|
    ensures IsTokenAt(s[a..b], p, e) ==> IsTokenAt(s, a + p, a + e)
  {
    var t := s[a..b];
    if IsTokenAt(t, p, e) {
      forall k | a + p + 1 <= k < a + e - 1
        ensures s[k] != '{' && s[k] != '}'
      {
        assert s[k] == t[k - a];
      }
    }
  }

  lemma TokenSlice(s: string, p: nat, e: nat)
    requires IsTokenAt(s, p, e)
    ensures TokenText(s[p..e])
  {
    var t := s[p..e];
    forall k | 1 <= k < |t| - 1
      ensures t[k] != '{' && t[k] != '}'
    {
      assert t[k] == s[p + k];
    }
  }

  lemma {:induction false} PiecesFromShape(s: string, last: nat)
    requires last <= |s|
    ensures forall i :: 0 <= i < |PiecesFrom(s, last)| && i % 2 == 1 ==> TokenText(PiecesFrom(s, last)[i])
    ensures forall i :: 0 <= i < |PiecesFrom(s, last)| && i % 2 == 0 ==> TokenFree(PiecesFrom(s, last)[i])
    decreases |s| - last
  {
    var r := PiecesFrom(s, last);
    match FindToken(s, last)
    case None =>
      forall p: nat, e: nat ensures !IsTokenAt(s[last..], p, e) {
        TokenInSlice(s, last, |s|, p, e);
      }
    case Some((p0, e0)) =>
      PiecesFromShape(s, e0);
      TokenSlice(s, p0, e0);
      forall p: nat, e: nat ensures !IsTokenAt(s[last..p0], p, e) {
        TokenInSlice(s, last, p0, p, e);
      }
      var rest := PiecesFrom(s, e0);
      assert r == [s[last..p0], s[p0..e0]] + rest;
      forall i | 0 <= i < |r|
        ensures i % 2 == 1 ==> TokenText(r[i])
        ensures i % 2 == 0 ==> TokenFree(r[i])
      {
        if i >= 2 {
          assert r[i] == rest[i - 2];
          ShiftParity(i);
        } else if i == 1 {
          Parity(0);
        } else {
          Parity(0);
        }
      }
  }

  lemma ShiftParity(i: nat)
    requires i >= 2
    ensures (i - 2) % 2 == i % 2
  {
  }

  /**
   * The compiled argument alternates literal text and fields, starting and
   * ending with literal text; each field is the parse of a token, and
   * putting the literal texts and token texts back together gives the
   * argument.
   */
  lemma CompiledShape(arg: string)
    requires Compilable(arg)
    ensures |Compiled(arg)| % 2 == 1 && |Compiled(arg)| == |Pieces(arg)|
    ensures Concat(Pieces(arg)) == arg
    ensures forall i :: 0 <= i < |Pieces(arg)| && i % 2 == 0 ==>
      Compiled(arg)[i] == Literal(Pieces(arg)[i]) && TokenFree(Pieces(arg)[i])
    ensures forall i :: 0 <= i < |Pieces(arg)| && i % 2 == 1 ==>
      TokenText(Pieces(arg)[i]) && Compiled(arg)[i] == Parse(Pieces(arg)[i])
  {
    PiecesFromConcat(arg, 0);
    PiecesFromShape(arg, 0);
  }

  /** An argument without a token compiles to the argument as one literal. */
  lemma TokenFreeCompiles(arg: string)
    requires TokenFree(arg)
    ensures Compilable(arg) && Compiled(arg) == [Literal(arg)]
  {
    TokenFreeNoToken(arg);
    assert PiecesFrom(arg, 0) == [arg[0..]];
    assert arg[0..] == arg;
    var pieces := Pieces(arg);
    assert pieces == [arg];
    Parity(0);
    assert FragmentOf(pieces[0], 0) == Literal(arg);
    CompiledEquals(arg, [Literal(arg)]);
  }

  lemma TokenFreeNoToken(arg: string)
    requires TokenFree(arg)
    ensures FindToken(arg, 0).None?
  {
    var r := FindToken(arg, 0);
    assert r.Some? ==> IsTokenAt(arg, r.value.0, r.value.1);
  }
}

/**
 * The range algebra: the five shapes of index reference, negative-index
 * translation, and the two resolvers of the per-line capture context
 * (`get_by_range`, joining, and `get_by_split_range`, not joining).
 */
module Contexts {
  import opened Wrappers
  import opened Text

  /** `Range`: one index, both bounds, only a right bound, only a left bound, or no bound. */
  datatype Range = Single(n: int) | Both(left: int, right: int) | LeftInf(right: int) | RightInf(left: int) | Inf

  /**
   * `RegexContext`: group names (with "" and "0" for the whole line) to
   * their text, every captured group of the line in order, and the
   * separator used when a range has none of its own.
   */
  datatype Context = Context(names: map<string, string>, groups: seq<string>, defaultSep: string)

  /** `HashMap::get(..).cloned()`. */
  function Lookup(m: map<string, string>, key: string): (r: Option<string>)
    ensures r.Some? <==> key in m
    ensures r.Some? ==> r.value == m[key]
  {
    if key in m then Some(m[key]) else None
  }

  /**
   * `translate_neg_index` for a context with `len` groups: a negative index
   * counts from the end (-1 is the last group) and anything before the first
   * group becomes 0; a non-negative index is kept.
   */
  function TranslateNegIndex(len: nat, idx: int): (r: nat)
    ensures idx >= 0 ==> r == idx
    ensures idx < 0 && idx + len >= 0 ==> 1 <= r <= len && len - r == -idx - 1
    ensures idx + len < 0 ==> r == 0
  {
    var i := if idx < 0 then idx + len + 1 else idx;
    if i < 0 then 0 else i
  }

  lemma NegativeIndexRoundTrip(len: nat)
    ensures TranslateNegIndex(len, -1) == len
    ensures len > 0 ==> TranslateNegIndex(len, -(len as int)) == 1
    ensures TranslateNegIndex(len, -(len as int) - 1) == 0
  {
  }

  /**
   * The ranges whose resolution does not slice out of bounds in a context of
   * `len` groups: the source panics on the others.
   */
  predicate Sliceable(len: nat, range: Range)
  {
    match range
    case Both(left, right) =>
      var l, r := TranslateNegIndex(len, left), TranslateNegIndex(len, right);
      if l == 0 then true
      else if r > len then l <= len + 1
      else if l == r then true
      else l <= r + 1
    case RightInf(left) => TranslateNegIndex(len, left) <= len + 1
    case _ => true
  }

  /** How many degradation steps a range may still take. */
  function Rank(range: Range): nat
  {
    match range
    case Both(_, _) => 2
    case LeftInf(_) => 1
    case RightInf(_) => 1
    case _ => 0
  }

  /** `get_by_name`. */
  function GetByName(ctx: Context, name: string): (r: Option<string>)
    ensures r.Some? <==> name in ctx.names
    ensures r.Some? ==> r.value == ctx.names[name]
  {
    Lookup(ctx.names, name)
  }

  /**
   * `get_by_range`: the text a range addresses, its groups joined with
   * `sep` or the default separator. Bounded ranges degrade to simpler shapes
   * at the boundaries.
   */
  function GetByRange(ctx: Context, range: Range, sep: Option<string>): (r: Option<string>)
    requires Sliceable(|ctx.groups|, range)
    ensures r.None? ==> range.Single?
    decreases Rank(range)
  {
    var len := |ctx.groups|;
    var s := sep.GetOr(ctx.defaultSep);
    match range
    case Single(num) =>
      var n := TranslateNegIndex(len, num);
      if n == 0 then Lookup(ctx.names, "")
      else if n > len then None
      else Some(ctx.groups[n - 1])
    case Both(left, right) =>
      var l, r := TranslateNegIndex(len, left), TranslateNegIndex(len, right);
      if l == 0 then GetByRange(ctx, LeftInf(r), sep)
      else if r > len then GetByRange(ctx, RightInf(l), sep)
      else if l == r then GetByRange(ctx, Single(l), sep)
      else Some(Join(ctx.groups[l - 1..r], s))
    case LeftInf(right) =>
      var r := TranslateNegIndex(len, right);
      if r > len then GetByRange(ctx, Inf, sep)
      else Some(Join(ctx.groups[..r], s))
    case RightInf(left) =>
      var l := TranslateNegIndex(len, left);
      if l == 0 then GetByRange(ctx, Inf, sep)
      else Some(Join(ctx.groups[l - 1..], s))
    case Inf => Some(Join(ctx.groups, s))
  }

  /**
   * `get_by_split_range`: the groups a range addresses, one string each,
   * through the same degradation cascade as `GetByRange`.
   */
  function GetBySplitRange(ctx: Context, range: Range): (r: seq<string>)
    requires Sliceable(|ctx.groups|, range)
    ensures forall x :: x in r ==> x in ctx.groups || ("" in ctx.names && x == ctx.names[""])
    decreases Rank(range)
  {
    var len := |ctx.groups|;
    match range
    case Single(num) =>
      var n := TranslateNegIndex(len, num);
      if n == 0 then (if "" in ctx.names then [ctx.names[""]] else [])
      else if n > len then []
      else [ctx.groups[n - 1]]
    case Both(left, right) =>
      var l, r := TranslateNegIndex(len, left), TranslateNegIndex(len, right);
      if l == 0 then GetBySplitRange(ctx, LeftInf(r))
      else if r > len then GetBySplitRange(ctx, RightInf(l))
      else if l == r then GetBySplitRange(ctx, Single(l))
      else ctx.groups[l - 1..r]
    case LeftInf(right) =>
      var r := TranslateNegIndex(len, right);
      if r > len then GetBySplitRange(ctx, Inf)
      else ctx.groups[..r]
    case RightInf(left) =>
      var l := TranslateNegIndex(len, left);
      if l == 0 then GetBySplitRange(ctx, Inf)
      else ctx.groups[l - 1..]
    case Inf => ctx.groups
  }

  /**
   * What a range addresses, in closed form: the whole line, no group at
   * all, or the groups `lo` (inclusive) to `hi` (exclusive), 0-based.
   */
  datatype Span = WholeLine | NoGroup | Groups(lo: int, hi: int)

  /** The 0-based start of the groups from a 1-based left bound (0 counts as 1). */
  function Lo(len: nat, left: int): int
  {
    var l := TranslateNegIndex(len, left);
    if l == 0 then 0 else l - 1
  }

  /** The 0-based end of the groups up to a 1-based right bound, capped at the last group. */
  function Hi(len: nat, right: int): int
  {
    var r := TranslateNegIndex(len, right);
    if r > len then len else r
  }

  /**
   * Reference definition of range addressing without the degradation
   * cascade: a missing left bound is the first group, a missing right bound
   * the last one.
   */
  function SpanOf(len: nat, range: Range): Span
  {
    match range
    case Single(num) =>
      var n := TranslateNegIndex(len, num);
      if n == 0 then WholeLine else if n > len then NoGroup else Groups(n - 1, n)
    case Both(left, right) => Groups(Lo(len, left), Hi(len, right))
    case LeftInf(right) => Groups(0, Hi(len, right))
    case RightInf(left) => Groups(Lo(len, left), len)
    case Inf => Groups(0, len)
  }

  /** Resolution panics exactly when the closed form names an inverted slice. */
  lemma SliceableIffSpanOrdered(len: nat, range: Range)
    ensures Sliceable(len, range) <==> (SpanOf(len, range).Groups? ==> SpanOf(len, range).lo <= SpanOf(len, range).hi)
  {
  }

  /** The split resolver yields exactly the groups of the closed-form span. */
  lemma SplitRangeIsSpan(ctx: Context, range: Range)
    requires Sliceable(|ctx.groups|, range)
    ensures var sp := SpanOf(|ctx.groups|, range);
      && (sp.WholeLine? ==> GetBySplitRange(ctx, range) == (if "" in ctx.names then [ctx.names[""]] else []))
      && (sp.NoGroup? ==> GetBySplitRange(ctx, range) == [])
      && (sp.Groups? ==> 0 <= sp.lo <= sp.hi <= |ctx.groups| && GetBySplitRange(ctx, range) == ctx.groups[sp.lo..sp.hi])
  {
    match range
    case Single(_) =>
    case Both(left, right) => SplitBothIsSpan(ctx, left, right);
    case LeftInf(right) => SplitLeftInfIsSpan(ctx, right);
    case RightInf(left) => SplitRightInfIsSpan(ctx, left);
    case Inf => SplitInfIsSpan(ctx);
  }

  lemma SplitInfIsSpan(ctx: Context)
    ensures GetBySplitRange(ctx, Inf) == ctx.groups[0..|ctx.groups|]
  {
    assert ctx.groups[0..|ctx.groups|] == ctx.groups;
  }

  lemma SplitLeftInfIsSpan(ctx: Context, right: int)
    ensures var hi := Hi(|ctx.groups|, right);
      0 <= hi <= |ctx.groups| && GetBySplitRange(ctx, LeftInf(right)) == ctx.groups[0..hi]
  {
    if TranslateNegIndex(|ctx.groups|, right) > |ctx.groups| {
      SplitInfIsSpan(ctx);
    }
  }

  lemma SplitRightInfIsSpan(ctx: Context, left: int)
    requires Sliceable(|ctx.groups|, RightInf(left))
    ensures var lo := Lo(|ctx.groups|, left);
      0 <= lo <= |ctx.groups| && GetBySplitRange(ctx, RightInf(left)) == ctx.groups[lo..|ctx.groups|]
  {
    if TranslateNegIndex(|ctx.groups|, left) == 0 {
      SplitInfIsSpan(ctx);
    }
  }

  lemma SplitBothIsSpan(ctx: Context, left: int, right: int)
    requires Sliceable(|ctx.groups|, Both(left, right))
    ensures var lo, hi := Lo(|ctx.groups|, left), Hi(|ctx.groups|, right);
      0 <= lo <= hi <= |ctx.groups| && GetBySplitRange(ctx, Both(left, right)) == ctx.groups[lo..hi]
  {
    var len := |ctx.groups|;
    var l, r := TranslateNegIndex(len, left), TranslateNegIndex(len, right);
    if l == 0 {
      assert Hi(len, r) == Hi(len, right);
      SplitLeftInfIsSpan(ctx, r);
    } else if r > len {
      assert Lo(len, l) == Lo(len, left);
      SplitRightInfIsSpan(ctx, l);
    } else if l == r {
      assert GetBySplitRange(ctx, Both(left, right)) == GetBySplitRange(ctx, Single(l)) == [ctx.groups[l - 1]];
    }
  }

  /**
   * Join/split consistency: a range resolves to nothing exactly for a single
   * index past the last group, or for index 0 when the whole line is not
   * recorded; otherwise it resolves to its split resolution joined with the
   * separator in force.
   */
  lemma {:induction false} JoinSplitConsistent(ctx: Context, range: Range, sep: Option<string>)
    requires Sliceable(|ctx.groups|, range)
    ensures GetByRange(ctx, range, sep) ==
      if range.Single? && (var n := TranslateNegIndex(|ctx.groups|, range.n); n > |ctx.groups| || (n == 0 && "" !in ctx.names))
      then None
      else Some(Join(GetBySplitRange(ctx, range), sep.GetOr(ctx.defaultSep)))
    decreases Rank(range)
  {
    var len := |ctx.groups|;
    match range
    case Single(_) =>
    case Both(left, right) =>
      var l, r := TranslateNegIndex(len, left), TranslateNegIndex(len, right);
      if l == 0 {
        JoinSplitConsistent(ctx, LeftInf(r), sep);
      } else if r > len {
        JoinSplitConsistent(ctx, RightInf(l), sep);
      } else if l == r {
        JoinSplitConsistent(ctx, Single(l), sep);
      }
    case LeftInf(right) =>
      if TranslateNegIndex(len, right) > len {
        JoinSplitConsistent(ctx, Inf, sep);
      }
    case RightInf(left) =>
      if TranslateNegIndex(len, left) == 0 {
        JoinSplitConsistent(ctx, Inf, sep);
      }
    case Inf =>
  }

  /** The joining resolver yields the groups of the closed-form span, joined. */
  lemma RangeIsSpan(ctx: Context, range: Range, sep: Option<string>)
    requires Sliceable(|ctx.groups|, range)
    ensures var sp := SpanOf(|ctx.groups|, range);
      && (sp.WholeLine? ==> GetByRange(ctx, range, sep) == Lookup(ctx.names, ""))
      && (sp.NoGroup? ==> GetByRange(ctx, range, sep) == None)
      && (sp.Groups? ==>
            && 0 <= sp.lo <= sp.hi <= |ctx.groups|
            && GetByRange(ctx, range, sep) == Some(Join(ctx.groups[sp.lo..sp.hi], sep.GetOr(ctx.defaultSep))))
  {
    JoinSplitConsistent(ctx, range, sep);
    SplitRangeIsSpan(ctx, range);
  }

  /** `{..}`, `{1..}` and `{..-1}` all address every group of the line. */
  lemma WholeRangesAddressAllGroups(ctx: Context, sep: Option<string>)
    ensures GetBySplitRange(ctx, Inf) == ctx.groups
    ensures GetBySplitRange(ctx, RightInf(1)) == ctx.groups
    ensures GetBySplitRange(ctx, LeftInf(-1)) == ctx.groups
    ensures GetByRange(ctx, RightInf(1), sep) == GetByRange(ctx, Inf, sep)
    ensures GetByRange(ctx, LeftInf(-1), sep) == GetByRange(ctx, Inf, sep)
  {
    var len := |ctx.groups|;
    assert ctx.groups[0..] == ctx.groups;
    assert ctx.groups[..len] == ctx.groups;
  }

  /**
   * A bound of 1 on the left, or -1 on the right, is the same as no bound:
   * both forms of an open range resolve alike.
   */
  lemma OpenBoundsAgree(ctx: Context, left: int, right: int, sep: Option<string>)
    requires Sliceable(|ctx.groups|, RightInf(left))
    ensures Sliceable(|ctx.groups|, Both(1, right)) && Sliceable(|ctx.groups|, Both(left, -1)) && Sliceable(|ctx.groups|, Both(1, -1))
    ensures GetByRange(ctx, Both(1, right), sep) == GetByRange(ctx, LeftInf(right), sep)
    ensures GetBySplitRange(ctx, Both(1, right)) == GetBySplitRange(ctx, LeftInf(right))
    ensures GetByRange(ctx, Both(left, -1), sep) == GetByRange(ctx, RightInf(left), sep)
    ensures GetBySplitRange(ctx, Both(left, -1)) == GetBySplitRange(ctx, RightInf(left))
    ensures GetByRange(ctx, Both(1, -1), sep) == GetByRange(ctx, Inf, sep)
    ensures GetBySplitRange(ctx, Both(1, -1)) == GetBySplitRange(ctx, Inf)
  {
    var len := |ctx.groups|;
    SliceableIffSpanOrdered(len, Both(1, right));
    SliceableIffSpanOrdered(len, Both(left, -1));
    SliceableIffSpanOrdered(len, RightInf(left));
    RangeIsSpan(ctx, Both(1, right), sep);
    RangeIsSpan(ctx, LeftInf(right), sep);
    RangeIsSpan(ctx, Both(left, -1), sep);
    RangeIsSpan(ctx, RightInf(left), sep);
    RangeIsSpan(ctx, Both(1, -1), sep);
    RangeIsSpan(ctx, Inf, sep);
    SplitRangeIsSpan(ctx, Both(1, right));
    SplitRangeIsSpan(ctx, LeftInf(right));
    SplitRangeIsSpan(ctx, Both(left, -1));
    SplitRangeIsSpan(ctx, RightInf(left));
    SplitRangeIsSpan(ctx, Both(1, -1));
    SplitRangeIsSpan(ctx, Inf);
  }

  /**
   * `{l..l}` collapses to `{l}` only strictly inside the groups: at index 0
   * it is the empty text (not the whole line), one past the end it is the
   * empty text (not nothing), and further out it slices out of bounds.
   */
  lemma BothCollapse(ctx: Context, i: int, sep: Option<string>)
    ensures var len, n := |ctx.groups|, TranslateNegIndex(|ctx.groups|, i);
      && (Sliceable(len, Both(i, i)) <==> n <= len + 1)
      && (1 <= n <= len ==>
            GetByRange(ctx, Both(i, i), sep) == GetByRange(ctx, Single(i), sep) &&
            GetBySplitRange(ctx, Both(i, i)) == GetBySplitRange(ctx, Single(i)))
      && (n == 0 ==> GetByRange(ctx, Both(i, i), sep) == Some("") && GetBySplitRange(ctx, Both(i, i)) == [])
      && (n == len + 1 ==> GetByRange(ctx, Both(i, i), sep) == Some("") && GetByRange(ctx, Single(i), sep) == None)
  {
    var len, n := |ctx.groups|, TranslateNegIndex(|ctx.groups|, i);
    SliceableIffSpanOrdered(len, Both(i, i));
    if n <= len + 1 {
      RangeIsSpan(ctx, Both(i, i), sep);
      RangeIsSpan(ctx, Single(i), sep);
      SplitRangeIsSpan(ctx, Both(i, i));
      SplitRangeIsSpan(ctx, Single(i));
    }
  }
}

/**
 * Grouping fragments into combinations (`group_combinations`) and
 * expanding them against a context (`combine_with_context`,
 * `ArgTemplate::apply_context`). A run of literal, named and range
 * fragments is joined into one output string; a split range fragment
 * becomes as many output strings as the fields it addresses.
 */
module Combinations {
  import opened Wrappers
  import opened Text
  import opened Contexts
  import opened Fields

  /** `Join`: one part of a joined output string. */
  datatype JoinItem =
    | LiteralItem(text: string)
    | NamedItem(name: string)
    | RangeItem(range: Range, sep: Option<string>)

  /** `Combination`: parts joined into one string, or a split range. */
  datatype Combination = Join(items: seq<JoinItem>) | Split(range: Range)

  /** The join part a fragment other than a split range becomes. */
  function ItemOf(f: Fragment): JoinItem
    requires !f.SplitRangeGroup?
  {
    match f
    case Literal(s) => LiteralItem(s)
    case NamedGroup(s) => NamedItem(s)
    case RangeGroup(r, s) => RangeItem(r, s)
  }

  /**
   * One step of the fold: a split range is appended; anything else extends
   * a trailing `Join`, and otherwise opens a new one, except that an empty
   * literal with no open `Join` is dropped.
   */
  function Step(acc: seq<Combination>, f: Fragment): seq<Combination>
  {
    if f.SplitRangeGroup? then acc + [Split(f.range)]
    else if |acc| > 0 && acc[|acc| - 1].Join? then acc[..|acc| - 1] + [Join(acc[|acc| - 1].items + [ItemOf(f)])]
    else if f == Literal("") then acc
    else acc + [Join([ItemOf(f)])]
  }

  /** The combinations of a fragment list: the fold of `Step` from the empty list. */
  function Grouped(frags: seq<Fragment>): seq<Combination>
  {
    if |frags| == 0 then [] else Step(Grouped(frags[..|frags| - 1]), frags[|frags| - 1])
  }

  /** `group_combinations`: pop the last combination, match it with the next fragment, append what results. */
  method GroupCombinations(frags: seq<Fragment>) returns (acc: seq<Combination>)
    ensures acc == Grouped(frags)
  {
    acc := [];
    for i := 0 to |frags|
      invariant acc == Grouped(frags[..i])
    {
      assert frags[..i + 1][..i] == frags[..i];
      var e := frags[i];
      var tail: seq<Combination>;
      if |acc| == 0 {
        match e
        case Literal(s) =>
          tail := if s == "" then [] else [Join([LiteralItem(s)])];
        case NamedGroup(s) =>
          tail := [Join([NamedItem(s)])];
        case RangeGroup(r, s) =>
          tail := [Join([RangeItem(r, s)])];
        case SplitRangeGroup(r) =>
          tail := [Split(r)];
      } else {
        var last := acc[|acc| - 1];
        acc := acc[..|acc| - 1];
        match (last, e)
        case (_, SplitRangeGroup(r)) =>
          tail := [last, Split(r)];
        case (Join(joins), Literal(s)) =>
          tail := [Join(joins + [LiteralItem(s)])];
        case (Join(joins), NamedGroup(s)) =>
          tail := [Join(joins + [NamedItem(s)])];
        case (Join(joins), RangeGroup(r, s)) =>
          tail := [Join(joins + [RangeItem(r, s)])];
        case (_, Literal(s)) =>
          tail := if s == "" then [last] else [last, Join([LiteralItem(s)])];
        case (_, NamedGroup(s)) =>
          tail := [last, Join([NamedItem(s)])];
        case (_, RangeGroup(r, s)) =>
          tail := [last, Join([RangeItem(r, s)])];
      }
      acc := acc + tail;
    }
    assert frags[..|frags|] == frags;
  }

  predicate NoAdjacentJoins(g: seq<Combination>)
  {
    forall i :: 0 <= i < |g| - 1 ==> !(g[i].Join? && g[i + 1].Join?)
  }

  predicate NoEmptyJoin(g: seq<Combination>)
  {
    forall i :: 0 <= i < |g| ==> g[i].Join? ==> |g[i].items| > 0
  }

  /** Grouping never leaves two `Join`s side by side and never an empty `Join`. */
  lemma {:induction false} GroupedWellFormed(frags: seq<Fragment>)
    ensures NoAdjacentJoins(Grouped(frags)) && NoEmptyJoin(Grouped(frags))
  {
    if |frags| > 0 {
      GroupedWellFormed(frags[..|frags| - 1]);
    }
  }

  /** The ranges of the split combinations, in order. */
  function SplitRanges(g: seq<Combination>): seq<Range>
  {
    if |g| == 0 then []
    else SplitRanges(g[..|g| - 1]) + (if g[|g| - 1].Split? then [g[|g| - 1].range] else [])
  }

  /** The ranges of the split range fragments, in order. */
  function SplitFragmentRanges(frags: seq<Fragment>): seq<Range>
  {
    if |frags| == 0 then []
    else SplitFragmentRanges(frags[..|frags| - 1]) + (if frags[|frags| - 1].SplitRangeGroup? then [frags[|frags| - 1].range] else [])
  }

  lemma SplitRangesAppend(a: seq<Combination>, b: seq<Combination>)
    requires |b| <= 2 && forall i :: 0 <= i < |b| ==> b[i].Join?
    ensures SplitRanges(a + b) == SplitRanges(a)
  {
    if |b| == 1 {
      assert (a + b)[..|a + b| - 1] == a;
    } else if |b| == 2 {
      assert (a + b)[..|a + b| - 1] == a + b[..1];
      assert (a + b[..1])[..|a|] == a;
    } else {
      assert a + b == a;
    }
  }

  /** Every split range fragment becomes exactly one `Split`, in the original order. */
  lemma {:induction false} SplitsPreserved(frags: seq<Fragment>)
    ensures SplitRanges(Grouped(frags)) == SplitFragmentRanges(frags)
  {
    if |frags| > 0 {
      var init, f := frags[..|frags| - 1], frags[|frags| - 1];
      var acc := Grouped(init);
      SplitsPreserved(init);
      if f.SplitRangeGroup? {
        assert (acc + [Split(f.range)])[..|acc|] == acc;
      } else if |acc| > 0 && acc[|acc| - 1].Join? {
        var front := acc[..|acc| - 1];
        assert acc == front + [acc[|acc| - 1]];
        SplitRangesAppend(front, [acc[|acc| - 1]]);
        SplitRangesAppend(front, [Join(acc[|acc| - 1].items + [ItemOf(f)])]);
      } else if f != Literal("") {
        SplitRangesAppend(acc, [Join([ItemOf(f)])]);
      }
    }
  }

  /** A combination list flattened: every join part, and every split range, in order. */
  datatype Unit = Part(item: JoinItem) | SplitUnit(range: Range)

  function UnitsOf(c: Combination): seq<Unit>
  {
    match c
    case Join(items) => seq(|items|, i requires 0 <= i < |items| => Part(items[i]))
    case Split(r) => [SplitUnit(r)]
  }

  function Layout(g: seq<Combination>): seq<Unit>
  {
    if |g| == 0 then [] else Layout(g[..|g| - 1]) + UnitsOf(g[|g| - 1])
  }

  function UnitOf(f: Fragment): Unit
  {
    if f.SplitRangeGroup? then SplitUnit(f.range) else Part(ItemOf(f))
  }

  /** The fragments that survive grouping: all of them, except an empty literal with no join part before it since the last split. */
  function Kept(frags: seq<Fragment>): seq<Unit>
  {
    if |frags| == 0 then []
    else
      var k := Kept(frags[..|frags| - 1]);
      var f := frags[|frags| - 1];
      if f == Literal("") && (|k| == 0 || k[|k| - 1].SplitUnit?) then k else k + [UnitOf(f)]
  }

  lemma LayoutLast(g: seq<Combination>)
    requires NoEmptyJoin(g)
    ensures |g| == 0 <==> |Layout(g)| == 0
    ensures |g| > 0 ==> (g[|g| - 1].Join? <==> Layout(g)[|Layout(g)| - 1].Part?)
  {
    if |g| > 0 {
      var c := g[|g| - 1];
      assert |UnitsOf(c)| > 0;
    }
  }

  lemma LayoutExtend(front: seq<Combination>, items: seq<JoinItem>, item: JoinItem)
    ensures Layout(front + [Join(items + [item])]) == Layout(front + [Join(items)]) + [Part(item)]
  {
    assert (front + [Join(items + [item])])[..|front|] == front;
    assert (front + [Join(items)])[..|front|] == front;
    assert UnitsOf(Join(items + [item])) == UnitsOf(Join(items)) + [Part(item)];
  }

  lemma LayoutAppend(acc: seq<Combination>, c: Combination)
    ensures Layout(acc + [c]) == Layout(acc) + UnitsOf(c)
  {
    assert (acc + [c])[..|acc|] == acc;
  }

  /**
   * Grouping loses nothing but the empty literals outside a join: the join
   * parts and split ranges of the combinations, read in order, are the kept
   * fragments.
   */
  lemma {:induction false} GroupedLayout(frags: seq<Fragment>)
    ensures Layout(Grouped(frags)) == Kept(frags)
  {
    if |frags| > 0 {
      var init, f := frags[..|frags| - 1], frags[|frags| - 1];
      GroupedLayout(init);
      GroupedWellFormed(init);
      StepLayout(Grouped(init), f);
    }
  }

  /** One step of the fold adds to the layout what `Kept` adds for the fragment. */
  lemma StepLayout(acc: seq<Combination>, f: Fragment)
    requires NoEmptyJoin(acc)
    ensures var k := Layout(acc);
      Layout(Step(acc, f)) == if f == Literal("") && (|k| == 0 || k[|k| - 1].SplitUnit?) then k else k + [UnitOf(f)]
  {
    LayoutLast(acc);
    if f.SplitRangeGroup? {
      StepLayoutSplit(acc, f);
    } else if |acc| > 0 && acc[|acc| - 1].Join? {
      StepLayoutExtend(acc, f);
      assert UnitOf(f) == Part(ItemOf(f));
    } else if f != Literal("") {
      StepLayoutOpen(acc, f);
    }
  }

  lemma StepLayoutSplit(acc: seq<Combination>, f: Fragment)
    requires f.SplitRangeGroup?
    ensures Layout(Step(acc, f)) == Layout(acc) + [UnitOf(f)]
  {
    LayoutAppend(acc, Split(f.range));
  }

  lemma StepLayoutExtend(acc: seq<Combination>, f: Fragment)
    requires !f.SplitRangeGroup? && |acc| > 0 && acc[|acc| - 1].Join?
    ensures Layout(Step(acc, f)) == Layout(acc) + [Part(ItemOf(f))]
  {
    var front, items := acc[..|acc| - 1], acc[|acc| - 1].items;
    StepExtends(acc, f);
    LastSplit(acc);
    LayoutExtend(front, items, ItemOf(f));
  }

  lemma StepExtends(acc: seq<Combination>, f: Fragment)
    requires !f.SplitRangeGroup? && |acc| > 0 && acc[|acc| - 1].Join?
    ensures Step(acc, f) == acc[..|acc| - 1] + [Join(acc[|acc| - 1].items + [ItemOf(f)])]
  {
  }

  lemma LastSplit(acc: seq<Combination>)
    requires |acc| > 0 && acc[|acc| - 1].Join?
    ensures acc == acc[..|acc| - 1] + [Join(acc[|acc| - 1].items)]
  {
  }

  lemma StepLayoutOpen(acc: seq<Combination>, f: Fragment)
    requires !f.SplitRangeGroup? && !(|acc| > 0 && acc[|acc| - 1].Join?) && f != Literal("")
    ensures Layout(Step(acc, f)) == Layout(acc) + [UnitOf(f)]
  {
    LayoutAppend(acc, Join([ItemOf(f)]));
    assert UnitsOf(Join([ItemOf(f)])) == [Part(ItemOf(f))];
  }

  /** The ranges a context must be able to slice for a fragment, a join part or a combination. */
  predicate FragmentSafe(len: nat, f: Fragment)
  {
    match f
    case RangeGroup(r, _) => Sliceable(len, r)
    case SplitRangeGroup(r) => Sliceable(len, r)
    case _ => true
  }

  predicate ItemSafe(len: nat, item: JoinItem)
  {
    item.RangeItem? ==> Sliceable(len, item.range)
  }

  predicate CombinationSafe(len: nat, c: Combination)
  {
    match c
    case Join(items) => forall i :: 0 <= i < |items| ==> ItemSafe(len, items[i])
    case Split(r) => Sliceable(len, r)
  }

  predicate FragmentsSafe(len: nat, frags: seq<Fragment>)
  {
    forall i :: 0 <= i < |frags| ==> FragmentSafe(len, frags[i])
  }

  predicate CombinationsSafe(len: nat, g: seq<Combination>)
  {
    forall i :: 0 <= i < |g| ==> CombinationSafe(len, g[i])
  }

  /** Grouping keeps every range a fragment had, so fragments that are safe to resolve give safe combinations. */
  lemma {:induction false} GroupedSafe(len: nat, frags: seq<Fragment>)
    requires FragmentsSafe(len, frags)
    ensures CombinationsSafe(len, Grouped(frags))
  {
    if |frags| > 0 {
      var init, f := frags[..|frags| - 1], frags[|frags| - 1];
      GroupedSafe(len, init);
      assert FragmentSafe(len, f);
      if !f.SplitRangeGroup? {
        assert ItemSafe(len, ItemOf(f));
      }
    }
  }

  /** The text a join part contributes: an absent name or range contributes nothing. */
  function ItemText(ctx: Context, item: JoinItem): string
    requires ItemSafe(|ctx.groups|, item)
  {
    match item
    case LiteralItem(s) => s
    case NamedItem(name) => GetByName(ctx, name).GetOr("")
    case RangeItem(r, sep) => GetByRange(ctx, r, sep).GetOr("")
  }

  function JoinText(ctx: Context, items: seq<JoinItem>): string
    requires forall i :: 0 <= i < |items| ==> ItemSafe(|ctx.groups|, items[i])
  {
    if |items| == 0 then "" else JoinText(ctx, items[..|items| - 1]) + ItemText(ctx, items[|items| - 1])
  }

  /** The output strings of one combination: one joined string, or one per field of the split range. */
  function Outputs(ctx: Context, c: Combination): seq<string>
    requires CombinationSafe(|ctx.groups|, c)
  {
    match c
    case Join(items) => [JoinText(ctx, items)]
    case Split(r) => GetBySplitRange(ctx, r)
  }

  /**
   * `combine_with_context`: every combination's outputs, in order. Each
   * join gives exactly one string, so without split ranges there is one
   * output per combination.
   */
  function CombineWithContext(ctx: Context, g: seq<Combination>): (r: seq<string>)
    requires CombinationsSafe(|ctx.groups|, g)
    ensures (forall i :: 0 <= i < |g| ==> g[i].Join?) ==> |r| == |g|
  {
    if |g| == 0 then [] else CombineWithContext(ctx, g[..|g| - 1]) + Outputs(ctx, g[|g| - 1])
  }

  lemma SafeAppend(len: nat, a: seq<Combination>, b: seq<Combination>)
    requires CombinationsSafe(len, a) && CombinationsSafe(len, b)
    ensures CombinationsSafe(len, a + b)
  {
    forall i | 0 <= i < |a + b|
      ensures CombinationSafe(len, (a + b)[i])
    {
      if i < |a| {
        assert (a + b)[i] == a[i];
      } else {
        assert (a + b)[i] == b[i - |a|];
      }
    }
  }

  /** The outputs of two combination lists one after the other are the outputs of each. */
  lemma {:induction false} CombineAppend(ctx: Context, a: seq<Combination>, b: seq<Combination>)
    requires CombinationsSafe(|ctx.groups|, a) && CombinationsSafe(|ctx.groups|, b)
    ensures CombinationsSafe(|ctx.groups|, a + b)
    ensures CombineWithContext(ctx, a + b) == CombineWithContext(ctx, a) + CombineWithContext(ctx, b)
    decreases |b|
  {
    SafeAppend(|ctx.groups|, a, b);
    if |b| == 0 {
      assert a + b == a;
    } else {
      var b', c := b[..|b| - 1], b[|b| - 1];
      assert CombinationsSafe(|ctx.groups|, b');
      assert (a + b)[..|a + b| - 1] == a + b' && (a + b)[|a + b| - 1] == c;
      CombineAppend(ctx, a, b');
      var out := Outputs(ctx, c);
      assert CombineWithContext(ctx, a + b) == CombineWithContext(ctx, a + b') + out;
      assert CombineWithContext(ctx, b) == CombineWithContext(ctx, b') + out;
    }
  }

  /** `apply_context` on a fragment list: group, then combine. */
  function Expansion(ctx: Context, frags: seq<Fragment>): (r: seq<string>)
    requires FragmentsSafe(|ctx.groups|, frags)
  {
    GroupedSafe(|ctx.groups|, frags);
    CombineWithContext(ctx, Grouped(frags))
  }

  /**
   * `ArgTemplate::apply_context`: groups the fragments with the method, then
   * combines. This is the executable counterpart of `Expansion`, about which
   * the promised properties are proved.
   */
  method ApplyContext(ctx: Context, frags: seq<Fragment>) returns (args: seq<string>)
    requires FragmentsSafe(|ctx.groups|, frags)
    ensures args == Expansion(ctx, frags)
  {
    var combinations := GroupCombinations(frags);
    GroupedSafe(|ctx.groups|, frags);
    args := CombineWithContext(ctx, combinations);
  }

  predicate AllLiteral(frags: seq<Fragment>)
  {
    forall i :: 0 <= i < |frags| ==> frags[i].Literal?
  }

  function LiteralText(frags: seq<Fragment>): string
    requires AllLiteral(frags)
  {
    if |frags| == 0 then "" else LiteralText(frags[..|frags| - 1]) + frags[|frags| - 1].text
  }

  /** Literal fragments group into one `Join` holding all of them once the first non-empty one is met, and into nothing before. */
  lemma {:induction false} LiteralsGroup(ctx: Context, frags: seq<Fragment>)
    requires AllLiteral(frags)
    ensures LiteralText(frags) == "" ==> Grouped(frags) == []
    ensures LiteralText(frags) != "" ==>
      |Grouped(frags)| == 1 && Grouped(frags)[0].Join? &&
      CombinationsSafe(|ctx.groups|, Grouped(frags)) && JoinText(ctx, Grouped(frags)[0].items) == LiteralText(frags)
  {
    if |frags| > 0 {
      var init, f := frags[..|frags| - 1], frags[|frags| - 1];
      assert AllLiteral(init) by {
        forall i | 0 <= i < |init| ensures init[i].Literal? { assert init[i] == frags[i]; }
      }
      LiteralsGroup(ctx, init);
      assert f.Literal?;
      assert f == Literal(f.text);
      assert LiteralText(frags) == LiteralText(init) + f.text;
      assert Grouped(frags) == Step(Grouped(init), f);
      if LiteralText(init) != "" {
        LiteralJoinExtends(ctx, Grouped(init), f.text);
      } else {
        assert LiteralText(frags) == f.text;
        LiteralJoinOpens(ctx, f.text);
      }
    }
  }

  /** A literal extends the one open join by its text. */
  lemma LiteralJoinExtends(ctx: Context, acc: seq<Combination>, t: string)
    requires |acc| == 1 && acc[0].Join? && CombinationsSafe(|ctx.groups|, acc)
    ensures var g := Step(acc, Literal(t));
      |g| == 1 && g[0].Join? && CombinationsSafe(|ctx.groups|, g) && JoinText(ctx, g[0].items) == JoinText(ctx, acc[0].items) + t
  {
    var items := acc[0].items + [LiteralItem(t)];
    assert acc[..0] == [];
    assert Step(acc, Literal(t)) == [Join(items)];
    assert CombinationSafe(|ctx.groups|, acc[0]);
    assert items[..|items| - 1] == acc[0].items;
    assert CombinationSafe(|ctx.groups|, Join(items));
  }

  /** With no join open, an empty literal vanishes and any other opens a join of its text. */
  lemma LiteralJoinOpens(ctx: Context, t: string)
    ensures t == "" ==> Step([], Literal(t)) == []
    ensures t != "" ==> var g := Step([], Literal(t));
      |g| == 1 && g[0].Join? && CombinationsSafe(|ctx.groups|, g) && JoinText(ctx, g[0].items) == t
  {
    var items := [LiteralItem(t)];
    assert items[..0] == [];
    assert JoinText(ctx, items) == "" + t == t;
  }

  /** Literal-only fragments expand to their text as one argument, or to nothing when that text is empty. */
  lemma LiteralsExpand(ctx: Context, frags: seq<Fragment>)
    requires AllLiteral(frags)
    ensures FragmentsSafe(|ctx.groups|, frags)
    ensures Expansion(ctx, frags) == if LiteralText(frags) == "" then [] else [LiteralText(frags)]
  {
    LiteralsGroup(ctx, frags);
    if LiteralText(frags) != "" {
      var g := Grouped(frags);
      assert g[..0] == [];
    }
  }
}

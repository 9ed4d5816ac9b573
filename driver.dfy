/**
 * Argument assembly for one input line (`Rargs::get_args`): the line's
 * context is built from the pattern's matches, given the separator option
 * and the line number under `LINENUM` and `LN`, and every compiled argument
 * template is expanded against it, in order.
 */
module Driver {
  import opened Wrappers
  import opened Text
  import opened Contexts
  import opened Fields
  import opened Templates
  import opened Combinations
  import opened ContextBuilder

  const CONTEXT_KEY_LINENUM: string := "LINENUM"
  const CONTEXT_KEY_LINENUM_SHORT: string := "LN"

  /**
   * The parts of `Rargs` the expansion uses: the pattern's capture group
   * names (the pattern itself is replaced by its matches), the compiled
   * argument templates and the separator for range fields.
   */
  datatype Rargs = Rargs(groupNames: seq<string>, args: seq<ArgTemplate>, defaultSep: string)

  /** `Rargs::new`, argument part: every argument string compiled to a template, in order. */
  method CompileArgs(args: seq<string>) returns (templates: seq<ArgTemplate>)
    requires forall i :: 0 <= i < |args| ==> Compilable(args[i])
    ensures |templates| == |args|
    ensures forall i :: 0 <= i < |args| ==> templates[i].fragments == Compiled(args[i])
  {
    templates := [];
    for i := 0 to |args|
      invariant |templates| == i
      invariant forall k :: 0 <= k < i ==> templates[k].fragments == Compiled(args[k])
    {
      var t := Compile(args[i]);
      templates := templates + [t];
    }
  }

  /** The context `get_args` builds for a line. */
  function LineState(r: Rargs, matches: seq<Match>, line: string, lineNum: int): Context
  {
    var n := IntToString(lineNum);
    Put(Put(WithDefaultSep(LineContext(r.groupNames, matches, line), r.defaultSep), CONTEXT_KEY_LINENUM, n),
        CONTEXT_KEY_LINENUM_SHORT, n)
  }

  predicate TemplatesSafe(len: nat, ts: seq<ArgTemplate>)
  {
    forall i :: 0 <= i < |ts| ==> FragmentsSafe(len, ts[i].fragments)
  }

  /** The expansions of the templates, one after the other. */
  function ExpandAll(ctx: Context, ts: seq<ArgTemplate>): seq<string>
    requires TemplatesSafe(|ctx.groups|, ts)
  {
    if |ts| == 0 then [] else ExpandAll(ctx, ts[..|ts| - 1]) + Expansion(ctx, ts[|ts| - 1].fragments)
  }

  /**
   * `Rargs::get_args`: the arguments of the command run for one line. This
   * is the executable counterpart of `ExpandAll` over `LineState`, about
   * which the promised properties are proved.
   */
  method GetArgs(r: Rargs, matches: seq<Match>, line: string, lineNum: int) returns (args: seq<string>)
    requires IsI32(lineNum)
    requires TemplatesSafe(|FlatCaptures(matches)|, r.args)
    ensures args == ExpandAll(LineState(r, matches, line, lineNum), r.args)
  {
    var context := Builder(r.groupNames, matches, line);
    context := WithDefaultSep(context, r.defaultSep);
    context := Put(context, CONTEXT_KEY_LINENUM, IntToString(lineNum));
    context := Put(context, CONTEXT_KEY_LINENUM_SHORT, IntToString(lineNum));
    args := ExpandAll(context, r.args);
  }

  /**
   * The line's context: the line number under both keys, overriding a
   * capture group of the same name; every other name as the captures left
   * it; the captured groups in order; the configured separator.
   */
  lemma LineStateEntries(r: Rargs, matches: seq<Match>, line: string, lineNum: int)
    ensures var ctx := LineState(r, matches, line, lineNum);
      GetByName(ctx, CONTEXT_KEY_LINENUM) == Some(IntToString(lineNum)) &&
      GetByName(ctx, CONTEXT_KEY_LINENUM_SHORT) == Some(IntToString(lineNum)) &&
      ctx.groups == FlatCaptures(matches) && ctx.defaultSep == r.defaultSep
    ensures forall name :: name != CONTEXT_KEY_LINENUM && name != CONTEXT_KEY_LINENUM_SHORT ==>
      GetByName(LineState(r, matches, line, lineNum), name) == Lookup(LineContext(r.groupNames, matches, line).names, name)
  {
  }

  /** Expanding two template lists one after the other gives the two expansions one after the other. */
  lemma {:induction false} ExpandAllAppend(ctx: Context, a: seq<ArgTemplate>, b: seq<ArgTemplate>)
    requires TemplatesSafe(|ctx.groups|, a) && TemplatesSafe(|ctx.groups|, b)
    ensures TemplatesSafe(|ctx.groups|, a + b)
    ensures ExpandAll(ctx, a + b) == ExpandAll(ctx, a) + ExpandAll(ctx, b)
    decreases |b|
  {
    assert forall i :: 0 <= i < |a + b| ==> (a + b)[i] == if i < |a| then a[i] else b[i - |a|];
    if |b| == 0 {
      assert a + b == a;
    } else {
      var b' := b[..|b| - 1];
      assert (a + b)[..|a + b| - 1] == a + b' && (a + b)[|a + b| - 1] == b[|b| - 1];
      ExpandAllAppend(ctx, a, b');
    }
  }

  /** An argument without a field is passed as it is, and an empty one is dropped. */
  lemma FieldFreeArgument(ctx: Context, arg: string)
    requires TokenFree(arg)
    ensures Compilable(arg) && FragmentsSafe(|ctx.groups|, Compiled(arg))
    ensures Expansion(ctx, Compiled(arg)) == if arg == "" then [] else [arg]
  {
    TokenFreeCompiles(arg);
    LiteralsExpand(ctx, [Literal(arg)]);
    var frags := [Literal(arg)];
    assert frags[..0] == [];
    assert LiteralText(frags) == LiteralText([]) + arg;
    assert LiteralText([]) + arg == arg;
    assert Expansion(ctx, frags) == if arg == "" then [] else [arg];
  }

  lemma SoleTokenPieces(tok: string)
    requires TokenText(tok)
    ensures Pieces(tok) == ["", tok, ""]
  {
    var c := CloseFrom(tok, 1);
    assert c.Some? by {
      assert tok[|tok| - 1] == '}' && NoBrace(tok, 1, |tok| - 1);
    }
    assert c.value == |tok|;
    assert FindToken(tok, 0) == Some((0, |tok|));
    assert PiecesFrom(tok, |tok|) == [tok[|tok|..]] && tok[|tok|..] == "";
    assert tok[0..0] == "" && tok[0..|tok|] == tok;
    assert PiecesFrom(tok, 0) == [tok[0..0], tok[0..|tok|]] + PiecesFrom(tok, |tok|);
  }

  /** An argument that is one token compiles to the parsed token between two empty literals. */
  lemma SoleTokenCompiles(tok: string)
    requires TokenText(tok) && Parsable(tok)
    ensures Compilable(tok) && Compiled(tok) == [Literal(""), Parse(tok), Literal("")]
  {
    SoleTokenPieces(tok);
    SoleTokenCompilable(tok);
    var pieces := Pieces(tok);
    var frags := [Literal(""), Parse(tok), Literal("")];
    Parity(0);
    Parity(1);
    assert FragmentOf(pieces[0], 0) == Literal("");
    assert FragmentOf(pieces[1], 1) == Parse(tok);
    assert FragmentOf(pieces[2], 2) == Literal("");
    forall i | 0 <= i < |frags|
      ensures frags[i] == FragmentOf(pieces[i], i)
    {
      if i == 0 {
      } else if i == 1 {
      } else {
        assert i == 2;
      }
    }
    CompiledEquals(tok, frags);
  }

  lemma SoleTokenCompilable(tok: string)
    requires TokenText(tok) && Parsable(tok)
    ensures Compilable(tok)
  {
    SoleTokenPieces(tok);
    var pieces := Pieces(tok);
    forall i | 0 <= i < |pieces| && i % 2 == 1
      ensures Parsable(pieces[i])
    {
      Parity(0);
      Parity(1);
      assert i == 1;
    }
  }

  lemma SoleFragmentGroups(f: Fragment)
    ensures Grouped([Literal(""), f, Literal("")]) ==
      if f.SplitRangeGroup? then [Split(f.range)]
      else if f == Literal("") then []
      else [Join([ItemOf(f), LiteralItem("")])]
  {
    var frags := [Literal(""), f, Literal("")];
    assert frags[..2][..1] == [Literal("")] && frags[..2] == [Literal(""), f];
    assert [Literal("")][..0] == [];
    assert Grouped([Literal("")]) == [];
    var acc := Grouped(frags[..2]);
    if !f.SplitRangeGroup? && f != Literal("") {
      assert acc == [Join([ItemOf(f)])];
      assert acc[..0] == [] && [ItemOf(f)] + [LiteralItem("")] == [ItemOf(f), LiteralItem("")];
    }
  }

  lemma CombineSingle(ctx: Context, c: Combination)
    requires CombinationSafe(|ctx.groups|, c)
    ensures CombinationsSafe(|ctx.groups|, [c]) && CombineWithContext(ctx, [c]) == Outputs(ctx, c)
  {
    assert [c][..0] == [];
  }

  lemma JoinTextPair(ctx: Context, item: JoinItem)
    requires ItemSafe(|ctx.groups|, item)
    ensures JoinText(ctx, [item, LiteralItem("")]) == ItemText(ctx, item)
  {
    var items := [item, LiteralItem("")];
    assert items[..1] == [item] && items[..1][..0] == [];
    var t := ItemText(ctx, item);
    assert JoinText(ctx, items[..1]) == "" + t;
    assert "" + t + "" == t;
  }

  lemma SoleFragmentExpansion(ctx: Context, f: Fragment)
    requires FragmentSafe(|ctx.groups|, f) && f != Literal("")
    ensures FragmentsSafe(|ctx.groups|, [Literal(""), f, Literal("")])
    ensures f.SplitRangeGroup? ==> Expansion(ctx, [Literal(""), f, Literal("")]) == GetBySplitRange(ctx, f.range)
    ensures !f.SplitRangeGroup? ==> Expansion(ctx, [Literal(""), f, Literal("")]) == [ItemText(ctx, ItemOf(f))]
  {
    SoleFragmentGroups(f);
    if f.SplitRangeGroup? {
      CombineSingle(ctx, Split(f.range));
    } else {
      assert ItemSafe(|ctx.groups|, ItemOf(f));
      JoinTextPair(ctx, ItemOf(f));
      CombineSingle(ctx, Join([ItemOf(f), LiteralItem("")]));
    }
  }

  /**
   * An argument that is one field expands to the field's value (nothing
   * when it is absent) as one argument, or for a split range to one
   * argument per field it addresses.
   */
  lemma SoleFieldArgument(ctx: Context, tok: string)
    requires TokenText(tok) && Parsable(tok) && FragmentSafe(|ctx.groups|, Parse(tok))
    ensures Compilable(tok) && FragmentsSafe(|ctx.groups|, Compiled(tok))
    ensures Parse(tok).SplitRangeGroup? ==> Expansion(ctx, Compiled(tok)) == GetBySplitRange(ctx, Parse(tok).range)
    ensures !Parse(tok).SplitRangeGroup? ==> Expansion(ctx, Compiled(tok)) == [ItemText(ctx, ItemOf(Parse(tok)))]
  {
    SoleTokenCompiles(tok);
    SoleFragmentExpansion(ctx, Parse(tok));
  }

  lemma NamedTokenText(name: string)
    requires IsWord(name)
    ensures TokenText("{" + name + "}")
  {
    var tok := "{" + name + "}";
    forall k | 1 <= k < |tok| - 1
      ensures tok[k] != '{' && tok[k] != '}'
    {
      assert tok[k] == name[k - 1];
    }
  }

  /** A name token `{name}` is a token and parses to the named group. */
  lemma NamedToken(name: string)
    requires IsWord(name) && (name == "" || !AllDigits(name))
    ensures TokenText("{" + name + "}") && Parsable("{" + name + "}") && Parse("{" + name + "}") == NamedGroup(name)
  {
    NamedTokenText(name);
    assert "{" + "" + name + "" + "}" == "{" + name + "}";
    ParseNamedField("", name, "");
  }

  /** An argument `{name}` becomes the text recorded under the name, or the empty string when none is. */
  lemma NamedFieldArgument(ctx: Context, name: string)
    requires IsWord(name) && (name == "" || !AllDigits(name))
    ensures Compilable("{" + name + "}") && FragmentsSafe(|ctx.groups|, Compiled("{" + name + "}"))
    ensures Expansion(ctx, Compiled("{" + name + "}")) == [GetByName(ctx, name).GetOr("")]
  {
    NamedToken(name);
    SoleFieldArgument(ctx, "{" + name + "}");
  }

  /** The argument `{LN}` becomes the line number. */
  lemma LineNumberArgument(r: Rargs, matches: seq<Match>, line: string, lineNum: int)
    ensures var arg := "{" + CONTEXT_KEY_LINENUM_SHORT + "}";
      Compilable(arg) && FragmentsSafe(|FlatCaptures(matches)|, Compiled(arg)) &&
      Expansion(LineState(r, matches, line, lineNum), Compiled(arg)) == [IntToString(lineNum)]
  {
    LineNumberShortIsName();
    LineStateEntries(r, matches, line, lineNum);
    NamedFieldArgument(LineState(r, matches, line, lineNum), CONTEXT_KEY_LINENUM_SHORT);
  }

  lemma LineNumberShortIsName()
    ensures IsWord(CONTEXT_KEY_LINENUM_SHORT) && !AllDigits(CONTEXT_KEY_LINENUM_SHORT)
  {
    assert !IsDigit(CONTEXT_KEY_LINENUM_SHORT[0]);
  }
}

/**
 * Construction of the per-line capture context (`RegexContext::builder`,
 * `default_sep`, `put`). The regex engine is replaced by its output: the
 * list of matches of the pattern against the line, in order.
 */
module ContextBuilder {
  import opened Wrappers
  import opened Contexts

  /**
   * One match of the pattern: its numbered captures, group 0 (the whole
   * match) first, each absent when the group did not participate; and the
   * capture of each named group.
   */
  datatype Match = Match(captures: seq<Option<string>>, named: map<string, Option<string>>)

  /** `Captures::name`: the text of a named group in one match, if it participated. */
  function NamedCapture(m: Match, name: string): Option<string>
  {
    if name in m.named then m.named[name] else None
  }

  /** The texts of the captures that participated, in order. */
  function Participating(caps: seq<Option<string>>): seq<string>
  {
    if |caps| == 0 then []
    else Participating(caps[..|caps| - 1]) + (if caps[|caps| - 1].Some? then [caps[|caps| - 1].value] else [])
  }

  /** The participating numbered captures of one match, group 0 excluded. */
  function NumberedCaptures(m: Match): seq<string>
  {
    if |m.captures| == 0 then [] else Participating(m.captures[1..])
  }

  /** The addressing space of positional fields: all matches' numbered captures, match after match. */
  function FlatCaptures(ms: seq<Match>): seq<string>
  {
    if |ms| == 0 then [] else NumberedCaptures(ms[0]) + FlatCaptures(ms[1..])
  }

  /** The capture of a named group in the last match in which it participated. */
  function LastCapture(ms: seq<Match>, name: string): Option<string>
  {
    if |ms| == 0 then None
    else if NamedCapture(ms[|ms| - 1], name).Some? then NamedCapture(ms[|ms| - 1], name)
    else LastCapture(ms[..|ms| - 1], name)
  }

  /**
   * What a name maps to in the context of a line: a named group's last
   * capture, else the whole line for "" and "0".
   */
  function NameValue(groupNames: seq<string>, ms: seq<Match>, content: string, name: string): Option<string>
  {
    if name in groupNames && LastCapture(ms, name).Some? then LastCapture(ms, name)
    else if name == "" || name == "0" then Some(content)
    else None
  }

  /** Declarative description of the context built for one line. */
  function LineContext(groupNames: seq<string>, ms: seq<Match>, content: string): Context
  {
    var keys := {"", "0"} + set n | n in groupNames && LastCapture(ms, n).Some?;
    Context(map n | n in keys :: NameValue(groupNames, ms, content, n).GetOr(content), FlatCaptures(ms), " ")
  }

  /**
   * `RegexContext::builder`: seeds "" and "0" with the whole line, then for
   * each match appends its participating numbered captures to the groups and
   * records each named group that participated, later matches overwriting
   * earlier ones.
   */
  method Builder(groupNames: seq<string>, matches: seq<Match>, content: string) returns (ctx: Context)
    ensures ctx == LineContext(groupNames, matches, content)
  {
    var names := map["" := content, "0" := content];
    var groups := [];
    for i := 0 to |matches|
      invariant groups == FlatCaptures(matches[..i])
      invariant forall n :: Lookup(names, n) == NameValue(groupNames, matches[..i], content, n)
    {
      var caps := matches[i];
      groups := PushNumbered(groups, caps);
      FlatCapturesStep(matches, i);
      names := InsertNamed(names, groupNames, caps);
      NameValueStep(groupNames, matches, i, content);
    }
    assert matches[..|matches|] == matches;
    ctx := Context(names, groups, " ");
    LookupDeterminesContext(groupNames, matches, content, names);
  }

  /** The numbered groups of one match, group 0 skipped, pushed in order when they participated. */
  method PushNumbered(groups: seq<string>, caps: Match) returns (r: seq<string>)
    ensures r == groups + NumberedCaptures(caps)
  {
    r := groups;
    var j := 1;
    while j < |caps.captures|
      invariant |caps.captures| == 0 || 1 <= j <= |caps.captures|
      invariant r == groups + if |caps.captures| == 0 then [] else Participating(caps.captures[1..j])
    {
      ParticipatingStep(caps.captures, j);
      if caps.captures[j].Some? {
        r := r + [caps.captures[j].value];
      }
      j := j + 1;
    }
    if |caps.captures| > 0 {
      assert caps.captures[1..j] == caps.captures[1..];
    }
  }

  /** Each named group that participated in the match overwrites the name's entry. */
  method InsertNamed(names: map<string, string>, groupNames: seq<string>, caps: Match) returns (r: map<string, string>)
    ensures forall n :: (Lookup(r, n) ==
      if n in groupNames && NamedCapture(caps, n).Some? then NamedCapture(caps, n) else Lookup(names, n))
  {
    r := names;
    for k := 0 to |groupNames|
      invariant forall n :: (Lookup(r, n) ==
        if n in groupNames[..k] && NamedCapture(caps, n).Some? then NamedCapture(caps, n) else Lookup(names, n))
    {
      assert groupNames[..k + 1] == groupNames[..k] + [groupNames[k]];
      var name := groupNames[k];
      var mat := NamedCapture(caps, name);
      if mat.Some? {
        r := r[name := mat.value];
      }
    }
    assert groupNames[..|groupNames|] == groupNames;
  }

  lemma ParticipatingStep(caps: seq<Option<string>>, j: nat)
    requires 1 <= j < |caps|
    ensures Participating(caps[1..j + 1]) ==
      Participating(caps[1..j]) + (if caps[j].Some? then [caps[j].value] else [])
  {
    assert caps[1..j + 1][..j - 1] == caps[1..j];
  }

  lemma FlatCapturesStep(ms: seq<Match>, i: nat)
    requires i < |ms|
    ensures FlatCaptures(ms[..i + 1]) == FlatCaptures(ms[..i]) + NumberedCaptures(ms[i])
  {
    assert ms[..i + 1] == ms[..i] + [ms[i]];
    FlatCapturesAppend(ms[..i], [ms[i]]);
    FlatCapturesSingle(ms[i]);
  }

  lemma NameValueStep(groupNames: seq<string>, ms: seq<Match>, i: nat, content: string)
    requires i < |ms|
    ensures forall n :: (NameValue(groupNames, ms[..i + 1], content, n) ==
      if n in groupNames && NamedCapture(ms[i], n).Some? then NamedCapture(ms[i], n)
      else NameValue(groupNames, ms[..i], content, n))
  {
    assert ms[..i + 1][..i] == ms[..i];
  }

  lemma LookupDeterminesContext(groupNames: seq<string>, ms: seq<Match>, content: string, names: map<string, string>)
    requires forall n :: Lookup(names, n) == NameValue(groupNames, ms, content, n)
    ensures Context(names, FlatCaptures(ms), " ") == LineContext(groupNames, ms, content)
  {
    var spec := LineContext(groupNames, ms, content).names;
    forall n | true
      ensures (n in names) == (n in spec)
      ensures n in names ==> names[n] == spec[n]
    {
      assert Lookup(names, n) == NameValue(groupNames, ms, content, n);
    }
  }

  /** `default_sep`: replaces the separator, nothing else. */
  function WithDefaultSep(ctx: Context, sep: string): (r: Context)
    ensures r.defaultSep == sep && r.names == ctx.names && r.groups == ctx.groups
  {
    ctx.(defaultSep := sep)
  }

  /** `put`: records `value` under `key`, overriding any entry of that name; nothing else changes. */
  function Put(ctx: Context, key: string, value: string): (r: Context)
    ensures Lookup(r.names, key) == Some(value)
    ensures forall k :: k != key ==> Lookup(r.names, k) == Lookup(ctx.names, k)
    ensures r.groups == ctx.groups && r.defaultSep == ctx.defaultSep
  {
    ctx.(names := ctx.names[key := value])
  }

  /** The whole line is recorded under "" and "0" (group names are never "" or "0"). */
  lemma WholeLineRecorded(groupNames: seq<string>, ms: seq<Match>, content: string)
    requires "" !in groupNames && "0" !in groupNames
    ensures Lookup(LineContext(groupNames, ms, content).names, "") == Some(content)
    ensures Lookup(LineContext(groupNames, ms, content).names, "0") == Some(content)
  {
  }

  /**
   * Last match wins: a named group maps to its capture in match `i` when it
   * participated there and in no later match.
   */
  lemma {:induction false} LastMatchWins(ms: seq<Match>, name: string, i: nat)
    requires i < |ms| && NamedCapture(ms[i], name).Some?
    requires forall j :: i < j < |ms| ==> NamedCapture(ms[j], name).None?
    ensures LastCapture(ms, name) == NamedCapture(ms[i], name)
  {
    if i < |ms| - 1 {
      var init := ms[..|ms| - 1];
      assert forall j :: i < j < |init| ==> init[j] == ms[j];
      LastMatchWins(init, name, i);
    }
  }

  /** A named group that participated in no match is absent. */
  lemma {:induction false} NeverCaptured(ms: seq<Match>, name: string)
    requires forall j :: 0 <= j < |ms| ==> NamedCapture(ms[j], name).None?
    ensures LastCapture(ms, name) == None
  {
    if |ms| > 0 {
      var init := ms[..|ms| - 1];
      assert forall j :: 0 <= j < |init| ==> init[j] == ms[j];
      NeverCaptured(init, name);
    }
  }

  /** A named group's context entry is its last capture. */
  lemma NamedGroupLookup(groupNames: seq<string>, ms: seq<Match>, content: string, name: string)
    requires name in groupNames && name != "" && name != "0"
    ensures Lookup(LineContext(groupNames, ms, content).names, name) == LastCapture(ms, name)
  {
  }

  /** Every match has `w` numbered groups besides group 0, and all of them participated. */
  ghost predicate Uniform(ms: seq<Match>, w: nat)
  {
    forall m :: 0 <= m < |ms| ==> FullMatch(ms[m], w)
  }

  ghost predicate FullMatch(m: Match, w: nat)
  {
    |m.captures| == w + 1 && forall g :: 0 <= g < |m.captures| ==> m.captures[g].Some?
  }

  /**
   * Positional addressing across matches: when every match has the same `w`
   * numbered groups and all of them participated, group `j` (1-based) of
   * match `i` is group `i * w + j` of the line.
   */
  lemma {:induction false} FlatCapturesAt(ms: seq<Match>, w: nat, i: nat, j: nat)
    requires Uniform(ms, w)
    requires i < |ms| && 1 <= j <= w
    ensures j < |ms[i].captures| && ms[i].captures[j].Some?
    ensures var pos := i * w + j - 1;
      0 <= pos < |FlatCaptures(ms)| && FlatCaptures(ms)[pos] == ms[i].captures[j].value
  {
    assert FullMatch(ms[i], w);
    PrefixCapturesLength(ms, w, i);
    FullMatchCaptures(ms[i], w, j);
    CaptureInPlace(ms, i, j - 1);
  }

  lemma PrefixCapturesLength(ms: seq<Match>, w: nat, i: nat)
    requires Uniform(ms, w) && i <= |ms|
    ensures |FlatCaptures(ms[..i])| == i * w
  {
    UniformPrefix(ms, w, i);
    FlatCapturesLength(ms[..i], w);
  }

  /** Numbered group `k` of match `i` follows the groups of the matches before it. */
  lemma CaptureInPlace(ms: seq<Match>, i: nat, k: nat)
    requires i < |ms| && k < |NumberedCaptures(ms[i])|
    ensures var base := |FlatCaptures(ms[..i])|;
      base + k < |FlatCaptures(ms)| && FlatCaptures(ms)[base + k] == NumberedCaptures(ms[i])[k]
  {
    FlatCapturesAround(ms, i);
    IndexInMiddle(FlatCaptures(ms[..i]), NumberedCaptures(ms[i]), FlatCaptures(ms[i + 1..]), k);
  }

  lemma UniformPrefix(ms: seq<Match>, w: nat, i: nat)
    requires Uniform(ms, w) && i <= |ms|
    ensures Uniform(ms[..i], w)
  {
    forall m | 0 <= m < i ensures FullMatch(ms[..i][m], w) { assert ms[..i][m] == ms[m]; }
  }

  lemma FullMatchCaptures(m: Match, w: nat, j: nat)
    requires FullMatch(m, w) && 1 <= j <= w
    ensures |NumberedCaptures(m)| == w && NumberedCaptures(m)[j - 1] == m.captures[j].value
  {
    AllParticipating(m.captures[1..]);
  }

  lemma IndexInMiddle<T>(a: seq<T>, b: seq<T>, c: seq<T>, k: nat)
    requires k < |b|
    ensures (a + b + c)[|a| + k] == b[k]
  {
  }

  lemma FlatCapturesAround(ms: seq<Match>, i: nat)
    requires i < |ms|
    ensures FlatCaptures(ms) == FlatCaptures(ms[..i]) + NumberedCaptures(ms[i]) + FlatCaptures(ms[i + 1..])
  {
    SplitAround(ms, i);
    FlatCapturesAppend(ms[..i] + [ms[i]], ms[i + 1..]);
    FlatCapturesAppend(ms[..i], [ms[i]]);
    FlatCapturesSingle(ms[i]);
  }

  lemma FlatCapturesSingle(m: Match)
    ensures FlatCaptures([m]) == NumberedCaptures(m)
  {
    assert [m][1..] == [];
  }

  lemma SplitAround<T>(s: seq<T>, i: nat)
    requires i < |s|
    ensures s == s[..i] + [s[i]] + s[i + 1..]
  {
  }

  /** The addressing space of several lines' worth of matches is that of each, in order. */
  lemma {:induction false} FlatCapturesAppend(a: seq<Match>, b: seq<Match>)
    ensures FlatCaptures(a + b) == FlatCaptures(a) + FlatCaptures(b)
  {
    if |a| == 0 {
      assert a + b == b;
    } else {
      assert (a + b)[0] == a[0] && (a + b)[1..] == a[1..] + b;
      FlatCapturesAppend(a[1..], b);
    }
  }

  lemma MulStep(a: nat, w: nat)
    ensures (a + 1) * w == a * w + w
  {
  }

  /** Length of the addressing space when every match has `w` participating numbered groups. */
  lemma {:induction false} FlatCapturesLength(ms: seq<Match>, w: nat)
    requires Uniform(ms, w)
    ensures |FlatCaptures(ms)| == |ms| * w
  {
    if |ms| > 0 {
      var rest := ms[1..];
      assert Uniform(rest, w) by {
        forall m | 0 <= m < |rest| ensures FullMatch(rest[m], w) { assert rest[m] == ms[m + 1]; }
      }
      assert FullMatch(ms[0], w);
      FlatCapturesLength(rest, w);
      AllParticipating(ms[0].captures[1..]);
      MulStep(|rest|, w);
    }
  }

  /** When every capture participated, they are all kept, in order. */
  lemma {:induction false} AllParticipating(caps: seq<Option<string>>)
    requires forall g :: 0 <= g < |caps| ==> caps[g].Some?
    ensures |Participating(caps)| == |caps|
    ensures forall g :: 0 <= g < |caps| ==> Participating(caps)[g] == caps[g].value
  {
    if |caps| > 0 {
      AllParticipating(caps[..|caps| - 1]);
    }
  }
}

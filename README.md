# rargs field-reference template engine

rargs is a command-line tool in the spirit of `xargs`. Each input line is matched against a regular expression. The numbered and named captures of that match fill `{...}` fields in the argument templates of a command. This project models that template engine from `src/main.rs` in Dafny and proves properties about it:

- **Index translation and range resolution** (`Contexts`). A line's context holds a map of named captures, the flat list of numbered groups and a default separator. `translate_neg_index` turns negative indices into indices counted from the end. The two resolvers `get_by_range` (joins the groups) and `get_by_split_range` (keeps them apart) use the same recursive cascade that degrades a range to a simpler one. A separate closed form (`SpanOf`) names, for every range, which slice of groups it addresses.
- **Context construction** (`ContextBuilder`). `RegexContext::builder` is a method whose two loops flatten the numbered captures and record named captures, the last match winning. It is proved equal to a declarative context (`LineContext`). `default_sep` and `put` are functional updates. The regular-expression engine is replaced by an abstract list of matches.
- **Field classification** (`Fields`). `ArgFragment::parse` tries the four anchored field patterns in turn: single index, name, joined range with an optional `:sep`, split range. Each pattern is a hand-written recogniser.
- **Template compilation** (`Templates`). `ArgTemplate::from` is a method scanning for the leftmost non-overlapping `{...}` token. It is proved equal to a declarative piece list, and the list's shape is proved: it alternates literal and field, it has odd length, and its concatenation is the argument.
- **Grouping and expansion** (`Combinations`). `group_combinations` is a method mirroring the `pop`/`match`/`append` fold. It is proved equal to a fold of one step function. `combine_with_context` and `apply_context` turn the groups into argument strings.
- **Argument assembly** (`Driver`). `Rargs::new` compiles every argument template. `Rargs::get_args` builds the line's context with `LINENUM`/`LN` and expands all templates in order.
- **Input lines** (`Lines`). The two pure steps of the input loop: cutting input into lines like `read_until`, removing the terminator, and numbering lines from the start number with `i32` wrap-around.

Panics in the source become preconditions:

- `Sliceable`: a range whose resolution would slice out of bounds.
- `Parsable` / `Compilable`: a single-index field whose number is not an `i32`.

## Model

| member | source | states |
|---|---|---|
| Contexts.Lookup | src/main.rs:306-308 | a key yields a value exactly when it is in the map, and then its entry |
| Contexts.GetByName | src/main.rs:306-308 | a name yields a value exactly when the context records it, and then the recorded text |
| Contexts.GetByRange | src/main.rs:310-367 | only a single index can resolve to nothing; `RangeIsSpan` and `JoinSplitConsistent` pin every result down |
| Contexts.GetBySplitRange | src/main.rs:369-418 | every string resolved is one of the line's groups or the recorded whole line; `SplitRangeIsSpan` says exactly which |
| Contexts.TranslateNegIndex | src/main.rs:298-302 | non-negative indices are kept; -1 is the last group, -len the first, anything before that 0; the result is never negative |
| Contexts.NegativeIndexRoundTrip | src/main.rs:298-302 | -1 translates to len, -len to 1 and -(len+1) to 0 |
| Contexts.SliceableIffSpanOrdered | src/main.rs:324-365 | resolution stays in bounds exactly when the closed-form slice of the range is not inverted |
| Contexts.SplitRangeIsSpan | src/main.rs:369-418 | the split resolver yields the whole line (if recorded), nothing, or exactly the groups of the closed-form slice |
| Contexts.JoinSplitConsistent | src/main.rs:310-418 | the joining resolver yields None exactly for a single index past the last group or for index 0 without a recorded line; otherwise it yields the split resolution joined with the given separator or, if none, the default one |
| Contexts.RangeIsSpan | src/main.rs:310-367 | the joining resolver yields the recorded whole line, None, or the closed-form slice of groups joined with the separator in force |
| Contexts.WholeRangesAddressAllGroups | src/main.rs:341-365 | `Inf`, `RightInf(1)` and `LeftInf(-1)` all address every group, and join alike |
| Contexts.OpenBoundsAgree | src/main.rs:474-479 | `Both(1, r)` resolves like `LeftInf(r)`, `Both(l, -1)` like `RightInf(l)`, `Both(1, -1)` like `Inf`, under both resolvers |
| Contexts.BothCollapse | src/main.rs:324-339 | `Both(l, l)` is in bounds exactly up to translated len+1; it equals `Single(l)` for translated 1..len; at 0 it gives "" rather than the whole line; at len+1 it gives "" where `Single` gives None |
| ContextBuilder.PushNumbered | src/main.rs:265-267 | the groups afterwards are the groups before, then the participating numbered captures of the match, in order |
| ContextBuilder.InsertNamed | src/main.rs:270-274 | a group name the match captured now maps to that capture; every other name keeps its entry |
| ContextBuilder.Builder | src/main.rs:254-282 | the context the loops build is the declarative line context: flattened participating captures, the last capture per name, `""`/`"0"` seeded with the line, separator `" "` |
| ContextBuilder.WithDefaultSep | src/main.rs:284-287 | only the default separator changes |
| ContextBuilder.Put | src/main.rs:289-292 | the key now maps to the value; every other key and the groups are unchanged |
| ContextBuilder.WholeLineRecorded | src/main.rs:255-257 | `""` and `"0"` map to the whole line when no group has those names |
| ContextBuilder.LastMatchWins | src/main.rs:270-274 | a name's value is its capture in the last match where it participated |
| ContextBuilder.NeverCaptured | src/main.rs:270-274 | a name no match captured has no value |
| ContextBuilder.NamedGroupLookup | src/main.rs:270-274 | looking up a group name in the built context gives the last capture of that name |
| ContextBuilder.FlatCapturesAt | src/main.rs:263-267 | when every match captures all w groups, group i*w+j of the context is capture j of match i |
| ContextBuilder.FlatCapturesLength | src/main.rs:263-267 | when every match captures all w groups, there are matches times w groups |
| ContextBuilder.FlatCapturesAppend | src/main.rs:263-267 | the groups of two runs of matches are the groups of each, in order |
| ContextBuilder.AllParticipating | src/main.rs:265-266 | when every capture participates, all are kept in order |
| Text.ParseI32 | src/main.rs:451-452 | text parses exactly when it is an optional sign and a non-empty run of ASCII digits whose signed value fits in an `i32` (down to -2^31, up to 2^31-1), and then its value is that signed value of the digits; anything else is None |
| Text.ParseI32LeadingZero | src/main.rs:451-452 | a leading zero, with or without a minus sign before it, does not change what a run of digits parses to |
| Text.ParseI32NoDigits | src/main.rs:470-471 | the empty text and a sign alone are no number, so a missing or bare-minus bound falls back |
| Text.ParseI32Spellings | src/main.rs:451-452 | `-0` is 0, `+7` and `007` are 7 |
| Text.ParseIntToString | src/main.rs:202-203 | printing an `i32` and parsing it back gives the number |
| Fields.MatchSingle | src/main.rs:86-87 | a match captures a numeral that sits between the braces with only spaces around it; `ParseSingleField` gives the converse |
| Fields.MatchNamed | src/main.rs:84-85 | a match captures a word that sits between the braces with only spaces around it; `NamedFieldMatches` gives the converse |
| Fields.MatchRange | src/main.rs:88-89 | the captured bounds are `-?\d*` texts, the separator holds no line feed, and bounds, two dots and `:sep` reassemble the token; `RangeTextMatches` gives the converse |
| Fields.MatchSplitRange | src/main.rs:90-91 | the captured bounds are `-?\d*` texts and with three dots between them reassemble the token; `SplitTextSplitRange` gives the converse |
| Fields.Parse | src/main.rs:443-496 | a token stays a literal, with its text unchanged, exactly when none of the four field patterns matches |
| Fields.ParseSingleField | src/main.rs:444-456 | any numeral with any surrounding spaces matches the single pattern; it can be parsed exactly when it is an `i32`, and then becomes `RangeGroup(Single(v), None)` with `v` its parsed value (so `{007}` is `Single(7)`) |
| Fields.ParseNamedField | src/main.rs:458-466 | `{ name }` with a word that is not all digits becomes `NamedGroup(name)` |
| Fields.ParseRangeField | src/main.rs:468-480 | `{l..r:sep}` with any `-?\d*` bound texts becomes `RangeGroup(Both(l, r), sep)` with each bound its parsed value, and a bound text that is empty or not an `i32` (`-`, out of range) 1 on the left and -1 on the right |
| Fields.ParseSplitRangeField | src/main.rs:482-493 | `{l...r}` with any `-?\d*` bound texts becomes `SplitRangeGroup(Both(l, r))` with the same parsed values and fallbacks |
| Fields.RangeSplitExclusive | src/main.rs:88-91 | no token matches both the joined-range and the split-range pattern |
| Fields.DotIsNeitherNumberNorName | src/main.rs:84-87 | a token with a dot is neither a single index nor a name |
| Fields.TrimPadded | src/main.rs:84-87 | the spaces the single/named patterns allow around the field are exactly what is stripped |
| Templates.CloseFrom | src/main.rs:83 | the closing brace found ends a brace-free run; if none is found, no brace-free run ends in one |
| Templates.FindToken | src/main.rs:83 | the token found is the leftmost `{...}` without inner braces at or after the position, and none means there is none |
| Templates.Compile | src/main.rs:507-520 | the fragments the loop pushes are the declarative compilation of the argument |
| Templates.PiecesFromConcat | src/main.rs:511-516 | the pieces concatenate back to the scanned text |
| Templates.CompiledShape | src/main.rs:507-520 | odd length; literal at even positions with no token inside; the parsed token text at odd positions; the pieces concatenate to the argument |
| Templates.TokenFreeCompiles | src/main.rs:507-520 | an argument without a token compiles to the one literal holding it |
| Combinations.GroupCombinations | src/main.rs:577-634 | the pop/match/append fold builds the step-by-step grouping |
| Combinations.GroupedWellFormed | src/main.rs:577-634 | no two adjacent joins and no empty join |
| Combinations.SplitsPreserved | src/main.rs:593-597 | one split per split-range fragment, with its range, in order |
| Combinations.GroupedLayout | src/main.rs:577-634 | flattening the groups gives the fragments in order, less each empty literal that comes with no join open |
| Combinations.GroupedSafe | src/main.rs:577-634 | grouping in-bounds fragments gives in-bounds groups |
| Combinations.CombineWithContext | src/main.rs:546-574 | each join gives exactly one string, so without split ranges there is one output per combination; `CombineAppend` shows outputs follow combination order |
| Combinations.CombineAppend | src/main.rs:546-574 | combining two runs of groups gives the outputs of each, in order |
| Combinations.ApplyContext | src/main.rs:539-542 | applying a template gives the expansion of its fragments |
| Combinations.LiteralsExpand | src/main.rs:539-542 | literal-only fragments expand to their text, or to nothing when it is empty |
| Driver.CompileArgs | src/main.rs:185-188 | every argument is compiled, in order |
| Driver.GetArgs | src/main.rs:199-210 | the arguments are the expansions of all templates, in template order, against one line context |
| Driver.LineStateEntries | src/main.rs:200-204 | `LINENUM` and `LN` map to the printed line number; other names, groups and the separator come from the match and the options |
| Driver.ExpandAllAppend | src/main.rs:206-209 | expanding two runs of templates gives each expansion in order |
| Driver.FieldFreeArgument | src/main.rs:507-574 | a field-free argument expands to itself, and the empty argument to nothing |
| Driver.SoleFieldArgument | src/main.rs:507-574 | an argument that is one field expands to that field's value (joins) or to its groups (split ranges) |
| Driver.NamedFieldArgument | src/main.rs:557-558 | `{name}` expands to the name's value, or "" when it is absent |
| Driver.LineNumberArgument | src/main.rs:202-203 | `{LN}` expands to the line number |
| Lines.ReadChunks | src/main.rs:41-47 | there are no lines exactly when the input is empty, and at most one per byte; `ReadChunksFlatten` and `ReadChunksShape` give contents and shape |
| Lines.ReadChunksFlatten | src/main.rs:41-47 | the lines `read_until` cuts put back together are the input |
| Lines.ReadChunksShape | src/main.rs:41-47 | each line is non-empty, has the terminator only as its last byte, and every line but the last ends with it |
| Lines.StripLineEnding | src/main.rs:49-55 | the stripped line is a prefix of the buffer, at most two bytes shorter |
| Lines.StripLineEndingExact | src/main.rs:49-55 | CR LF, a lone LF or NUL is removed exactly; a line without one is kept |
| Lines.WrapI32 | src/main.rs:59 | the result is an `i32`, congruent to the input modulo 2^32, the input itself when it fits |
| Lines.NumberLines | src/main.rs:40-59 | line k is its stripped buffer, numbered startnum + k, wrapped to `i32` |

## Left out

- The stdin loop's reading, the UTF-8 check, the thread pool, `Arc` and exit codes (src/main.rs:18-80): these are I/O and concurrency. Only the pure steps of line cutting, stripping and numbering are modelled.
- Command-line parsing with structopt and its defaults (src/main.rs:94-161): this is library configuration. The separator, the start number and the templates are parameters.
- `execute_for_input` and `print_commands_to_be_executed`: they spawn processes and print. The command name (`cmd_and_args[0]`) is not part of the model.
- The regular-expression engine: `Regex::new`, `captures_iter`, `capture_names`, `find_iter`, and the default and delimiter patterns of `Rargs::new`. These are foreign library calls. A line's matches are an abstract list of captures and group names. `CMD_REGEX` and the `FIELD_*` patterns are hand-written recognisers.
- `\d` is modelled as the ASCII digits; the regex crate's `\d` is Unicode `\p{Nd}`. (`[[:word:]]` and `[[:space:]]` are ASCII classes in the regex crate too, and are modelled as such.) A token with non-ASCII decimal digits is therefore classified differently. Examples with the Arabic-Indic three `٣`:
  - In the source `{٣}` matches FIELD_SINGLE and then panics in `parse` (src/main.rs:452); the model makes it a `Literal`.
  - In the source `{٣..}` matches FIELD_RANGE and its unparsable bound falls back, giving `RangeGroup(Both(1, -1), None)`; the model makes it a `Literal`.
- In `parse`, the optional groups `(-?\d*)?` always participate, so a missing bound is "" and falls back to 1 or -1, and a range field is always `Both`. The other arms of the match at src/main.rs:474-479 and 487-492 cannot be reached and are not modelled; OpenBoundsAgree shows they would resolve like the `Both` that is produced.
- Contexts.TranslateNegIndex: computes on unbounded integers. The `i32` overflow of `idx + len + 1` and of the `usize` to `i32` casts for more than 2^31 groups is not modelled.
- The slice panics of `get_by_range`/`get_by_split_range` (`{3..1}`, or a left bound past len+1) are the precondition `Sliceable`. A field that matches the single-index pattern but whose number is not an `i32` panics in `parse`; this is the precondition `Parsable`. The panic itself is not modelled.
- Lines.NumberLines: `line_num += 1` wraps around as in a release build; the panic of a debug build on overflow is not modelled.
- `Cow`, lifetimes and `build()` (the identity) are modelled as plain values.

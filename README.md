# Template resolver of `scripts/customize.py`

`scripts/customize.py` turns an instruction-file template into a customised
copy, using the answers the user gave (the response set, a mapping from a
preference key such as `package_manager` to a value such as `uv`). Its core
is the template resolver, which works in two stages:

1. **Placeholder substitution** (`process_template`). The responses are
   visited in insertion order. For each one, every occurrence of
   `{{KEY}}` is replaced by the value, where `KEY` is the key in upper case.
   The replacement is Python's `str.replace`: it is leftmost and
   non-overlapping, and it does not rescan the text it has just put in.
2. **Conditional resolution** (`process_conditionals`). The regular
   expression `\{\{#if_([^}]+)\}\}(.*?)\{\{/if_\1\}\}` with `DOTALL` is
   substituted across the text until it no longer matches anywhere. Each
   matched block becomes its content or nothing, as `should_include_block`
   decides. That rule splits the condition on `_`. The last part is the
   option and the rest, joined again with `_`, is the category. The block
   is kept when the response for the category equals the option, ignoring
   case.

The Dafny model is one module per concept:

- `Strings`: finding a literal pattern, ASCII case mapping, and `split`/`join` on one character.
- `ResponseSet`: the response set as insertion-ordered pairs, and `dict.get(key, '')`.
- `Conditions`: `should_include_block`.
- `Substitution`: `str.replace` and the substitution loop.
- `Conditionals`: the regular expression as an explicit matcher and scanner (`re.search` and `re.sub`), the fixed-point loop, and the method `ProcessConditionals` with its `while` loop.
- `Customize`: the method `ProcessTemplate` with its `for` loop, and the function `Resolve` that specifies it.

The regular expression is modelled by `MatchAt`, which matches at one
position and needs no backtracking. Group 1 (`[^}]+`) must be the whole run
of characters other than `}` that follows `{{#if_`, because only a `}` can
begin the `}}` after it. The lazy `(.*?)` ends at the first closing marker
that carries the same condition. `MatchAtSound`, `MatchAtComplete` and
`MatchAtShortest` prove that this is exactly the leftmost-shortest match
that the pattern describes (`IsBlockAt`). `re.sub` is `Scan`: it takes the
leftmost match, resumes at the match's end, and copies the other characters.

Some properties one might expect of the resolver do not hold of the code,
and the model proves what the code does instead:

- One might expect that no placeholder `{{K}}` of a response key `K`
  remains after resolution. It can remain: a response value may spell the
  placeholder of a key that was substituted before it, and that
  placeholder then survives in the output (`ResolveTwiceDiffers`, first
  conjunct, and `SubstitutionOrderMatters`).
- One might expect the resolver to be idempotent. Only the conditional
  stage is (`ResolveIdempotent`). For the same reason as above, a second
  run of the whole of `process_template` can fill in a placeholder the
  first run left (`ResolveTwiceDiffers`).
- One might expect an unmatched or mismatched open marker to stay in the
  output. It does when no open marker in the text is ever closed after it:
  the text then holds no block and is returned unchanged
  (`UnclosedOpenersUnchanged`). Otherwise an unclosed open marker can
  disappear. It goes with a dropped block that contains it
  (`UnclosedInsideDroppedBlock`). It also goes when dropping some other
  block joins two pieces of text into its close marker
  (`ClosedByDroppedBlock`).
- The same goes for stray close markers. With no open marker at all, the
  text is unchanged (`NoOpenUnchanged`). A stray close marker of another
  condition inside a dropped block goes with the rest of that block's
  content (`ResolveWholeBlock`).
- One might fear that the repeated-scan loop does not terminate on deeply
  nested blocks. Every pass that finds a match makes the text strictly
  shorter, so the loop terminates on every input (the `decreases` of
  `ProcessConditionals` and `ResolveConditionals`). No block survives,
  whatever the nesting depth.
- One might expect a warning that lists unresolved markers. Nothing in
  `process_template` or its callers emits one, so the model has none.

## Model

| member | source | states |
|---|---|---|
| Customize.ProcessTemplate | scripts/customize.py:26-38 | The `for` loop over the responses followed by `process_conditionals` computes `Resolve` (substitute all, in order, then resolve conditionals); the loop keeps "the text so far has had the first i responses substituted"; no conditional block is left in the result |
| Customize.Resolve | scripts/customize.py:26-38 | What `process_template` returns: substitution in insertion order, then conditional resolution. Its properties are stated by `ProcessTemplate`, `MarkerFreeTemplateUnchanged`, `PlainTemplateUnchanged`, `ValueBlockResolved` and `ResolveTwiceDiffers` |
| Customize.MarkerFreeTemplateUnchanged | scripts/customize.py:26-38 | A template that holds no placeholder of any response key and no block comes out unchanged, even when it contains other `{{` (such as `${{ github.token }}`) |
| Customize.PlainTemplateUnchanged | scripts/customize.py:26-38 | A template containing no `{{` is returned unchanged for any responses |
| Customize.ValueBlockResolved | scripts/customize.py:31-36 | Substitution happens before resolution. With the one response `(key, v)` and the template `{{KEY}}`, where `v` spells a whole block, the result is that block resolved like a block written in the template: its content resolved, or nothing |
| Customize.PlaceholderHasNoOpen | scripts/customize.py:32 | A placeholder never contains an opening marker `{{#if_`, because its key is upper-cased |
| Customize.ResolveTwiceDiffers | scripts/customize.py:26-38 | With responses `[(b, x), (a, "{{B}}")]`, resolving `{{A}}` gives `{{B}}`, and resolving that again gives `x`, so the whole resolve is not idempotent |
| Substitution.ReplaceFrom | scripts/customize.py:33 | `str.replace` as a scan from an index. Its meaning is stated by `ReplaceFromLeftmost` (leftmost occurrence, no rescanning), `ReplaceFromAt`, `ReplaceFromSkip`, `ReplaceFromNoOccurrence` and `ReplaceAllLength` |
| Substitution.ReplaceAll | scripts/customize.py:33 | `result.replace(placeholder, value)`: the scan from index 0. Stated by `ReplaceWhole`, `ReplaceWithSelf`, `ReplaceWithoutBraces` and the `ReplaceFrom` lemmas |
| Substitution.SubstituteAll | scripts/customize.py:31-33 | The `for` loop: each response is applied in insertion order to the text the earlier ones left. `ProcessTemplate`'s loop invariant ties the loop to it; it is stated by `SubstituteWithoutPlaceholders`, `SubstituteWithoutBraces`, `SinglePlaceholder` and `SubstitutionOrderMatters` |
| Substitution.SubstituteWithoutPlaceholders | scripts/customize.py:31-33 | A text in which no response key's placeholder occurs is unchanged by the whole substitution loop |
| Substitution.Placeholder | scripts/customize.py:32 | The placeholder is `{{`, the upper-cased key, `}}`: four characters longer than the key, starting with `{{` |
| Substitution.ReplaceFromLeftmost | scripts/customize.py:33 | `str.replace` copies the text up to the leftmost occurrence, puts in the value, and continues after the occurrence without rescanning the value; with no occurrence the text is unchanged |
| Substitution.ReplaceFromAt | scripts/customize.py:33 | One step of the definition of `ReplaceFrom`, kept as a proof helper: an occurrence at the scan position is replaced by the value and the scan resumes after it |
| Substitution.ReplaceFromSkip | scripts/customize.py:33 | A stretch without occurrences is copied unchanged |
| Substitution.ReplaceFromNoOccurrence | scripts/customize.py:33 | Text with no occurrence of the pattern is returned unchanged |
| Substitution.ReplaceAllLength | scripts/customize.py:33 | The result's length is the original length plus, for each occurrence replaced, the value's length minus the pattern's length |
| Substitution.ReplaceWithSelf | scripts/customize.py:33 | Replacing a pattern with itself leaves the text unchanged |
| Substitution.ReplaceWhole | scripts/customize.py:33 | Text that is exactly the pattern becomes exactly the value |
| Substitution.NoPlaceholderWithoutBrace | scripts/customize.py:32 | No placeholder starts anywhere in a stretch that contains no `{` |
| Substitution.ReplaceWithoutBraces | scripts/customize.py:33 | Text containing no `{{` is unchanged by any placeholder replacement |
| Substitution.SubstituteWithoutBraces | scripts/customize.py:31-33 | Text containing no `{{` is unchanged by the whole substitution loop, for any responses |
| Substitution.SinglePlaceholder | scripts/customize.py:31-33 | Plain text followed by the placeholder of the only response becomes that text followed by the value |
| Substitution.SubstitutionOrderMatters | scripts/customize.py:31-33 | Insertion order decides the result: a value spelling another key's placeholder is filled in when that key comes later, and left in the output when it came earlier |
| Conditions.ShouldInclude | scripts/customize.py:65-77 | `should_include_block`. Stated by `ShouldIncludeLastSegment` and `ShouldIncludeAtLastUnderscore` (split at the last `_`, iff the response equals the option ignoring case), `NoUnderscoreExcluded`, `MissingCategory` and `OptionCaseIgnored` |
| Conditions.ShouldIncludeLastSegment | scripts/customize.py:68-75 | For `category_option` with no `_` in the option, the block is kept exactly when the response for the category equals the option, ignoring ASCII case (both directions) |
| Conditions.ShouldIncludeAtLastUnderscore | scripts/customize.py:68-75 | For any condition, the split happens at the last underscore: the prefix before it is the category, the suffix after it the option |
| Conditions.NoUnderscoreExcluded | scripts/customize.py:68-77 | A condition without `_`, including the empty one, splits into one part and never keeps its block |
| Conditions.MissingCategory | scripts/customize.py:75 | A category with no response reads as `''`, so it keeps the block only when the option is empty |
| Conditions.OptionCaseIgnored | scripts/customize.py:75 | Options that differ only in ASCII case select the same blocks |
| Conditions.UpperCaseResponseMatches | scripts/customize.py:65-77 | The stored value `UV` selects `package_manager_uv` and not `package_manager_pip` |
| ResponseSet.Get | scripts/customize.py:75 | `responses.get(key, '')`: a stored pair's value when the key is present, `''` when it is absent |
| ResponseSet.GetStored | scripts/customize.py:75 | With unique keys, looking up each stored key gives back exactly its value |
| Strings.FindFrom | scripts/customize.py:33 | The occurrence found is the leftmost one at or after the start; none is missed |
| Strings.Lower | scripts/customize.py:75 | `str.lower` on ASCII: same length, each upper-case letter mapped to its lower-case letter, every other character kept |
| Strings.Upper | scripts/customize.py:32 | `str.upper` on ASCII: same length, each lower-case letter mapped to its upper-case letter, every other character kept |
| Strings.SplitOn | scripts/customize.py:68 | `condition.split('_')` gives at least one part. Stated further by `SplitHasTwoParts`, `SplitPartsHaveNoSep`, `JoinSplit`, `SplitJoin` and `SplitConcat` |
| Strings.JoinWith | scripts/customize.py:71 | `'_'.join(parts)`. It is the inverse of `SplitOn`, as `JoinSplit` and `SplitJoin` state |
| Strings.SplitHasTwoParts | scripts/customize.py:68-70 | `split('_')` yields at least two parts exactly when `_` occurs |
| Strings.SplitPartsHaveNoSep | scripts/customize.py:68 | No part of a split contains the separator |
| Strings.JoinSplit | scripts/customize.py:68-71 | Joining the split parts with the separator gives back the original text |
| Strings.SplitJoin | scripts/customize.py:68-71 | Splitting a join of separator-free parts gives back those parts |
| Strings.SplitConcat | scripts/customize.py:68 | Splitting `a + sep + b` gives the parts of `a` followed by the parts of `b` |
| Conditionals.RunEnd | scripts/customize.py:46 | Group 1 `[^}]+` ends at the first `}` after its start, or at the end of the text |
| Conditionals.MatchAt | scripts/customize.py:46 | A match ends inside the text, and its length is the content plus both markers (content + 2·condition + 16) |
| Conditionals.MatchAtSound | scripts/customize.py:46 | What the matcher returns is a block of the pattern: open marker, condition without `}`, `}}`, content, and a closing marker with the same condition |
| Conditionals.MatchAtComplete | scripts/customize.py:46 | Wherever the pattern has a block, the matcher finds one with that condition, and its content is no longer than the block's |
| Conditionals.MatchAtShortest | scripts/customize.py:46 | The lazy `(.*?)`: no block at the same position has shorter content than the match |
| Conditionals.MatchAtBlock | scripts/customize.py:46 | A block whose content holds no closing marker of its condition is matched exactly, with that condition, content and end |
| Conditionals.UnclosedNotMatched | scripts/customize.py:46 | When no closing marker for condition `c` occurs at or after a position, the match found there (if any) does not have condition `c` |
| Conditionals.UnclosedOpenersUnchanged | scripts/customize.py:46-62 | A text in which no open marker's condition is ever closed after it is returned unchanged |
| Conditionals.ClosedByDroppedBlock | scripts/customize.py:46-77 | With no response for `a` or `c`, `{{#if_c_d}}{{/if_c{{#if_a_b}}{{/if_a_b}}_d}}` has no close marker for `c_d` and no match at 0. Yet it resolves to the empty text: the first pass drops `a_b` and so forms `{{/if_c_d}}`, and the second pass drops `c_d` |
| Conditionals.BlockAtShift | scripts/customize.py:46 | A block stays a block, at the shifted position, when text is put before and after it |
| Conditionals.UnclosedInsideDroppedBlock | scripts/customize.py:46-77 | With no response for `a`, `{{#if_a_b}}{{#if_c_d}}{{/if_a_b}}` resolves to the empty text, although `{{#if_c_d}}` is never closed: an unclosed marker inside a dropped block is removed with it |
| Conditionals.BlockTextIsBlock | scripts/customize.py:46 | The text of a block (open marker, condition, `}}`, content, closing marker) is read by the pattern with that condition and content, when the condition is non-empty and has no `}` |
| Conditionals.BlockText | scripts/customize.py:46 | The text of a block is as long as its content plus both markers |
| Conditionals.Search | scripts/customize.py:59 | `re.search`: the position found is the leftmost one where the pattern matches; when none is found, it matches nowhere |
| Conditionals.SearchIffHasBlock | scripts/customize.py:59 | The search succeeds exactly when the text contains a block of the pattern |
| Conditionals.Replacement | scripts/customize.py:48-56 | `replace_conditional`: the block's content when its condition holds, and the empty text otherwise. Stated by `OptionReplacement`, `ScanAtMatch` and `ScanLeftmost` |
| Conditionals.Pass | scripts/customize.py:60 | One `re.sub` over the whole text: the scan from index 0. Stated by `Scan`, `ScanLeftmost`, `ScanTwoMatches` and `PassWholeBlock` |
| Conditionals.Scan | scripts/customize.py:60 | One `re.sub` pass never lengthens the text, and shortens it whenever the pattern matches |
| Conditionals.ScanCopy | scripts/customize.py:60 | One step of the definition of `Scan`, kept as a proof helper: where no match starts, the pass copies the character and moves on |
| Conditionals.ScanAtMatch | scripts/customize.py:48-60 | One step of the definition of `Scan`, kept as a proof helper: where a match starts, the pass puts in its replacement (the content, or nothing) and resumes after the match |
| Conditionals.ScanSkip | scripts/customize.py:60 | A stretch where no match starts is copied unchanged |
| Conditionals.ScanLeftmost | scripts/customize.py:48-60 | A pass copies up to the leftmost match, puts in the content when the condition holds and nothing otherwise, and continues after the match; with no match the text is unchanged |
| Conditionals.ScanTwoMatches | scripts/customize.py:48-60 | Two matches side by side, the second of which ends the text, are each replaced in one pass |
| Conditionals.OptionReplacement | scripts/customize.py:48-56 | The replacement for `category_option` is the content exactly when the response for the category equals the option, ignoring case |
| Conditionals.PassWholeBlock | scripts/customize.py:48-60 | A text that is one block becomes its content or nothing after one pass |
| Conditionals.ResolveWholeBlock | scripts/customize.py:48-62 | A text that is one block resolves to its content, itself resolved, or to nothing |
| Conditionals.ResolveFirstOfTwoOptions | scripts/customize.py:41-77 | Two sibling blocks for options of one category: only the selected option's content remains |
| Conditionals.ResolveConditionals | scripts/customize.py:59-62 | After the loop, no block of the pattern remains anywhere in the text |
| Conditionals.ProcessConditionals | scripts/customize.py:41-62 | The `while` loop computes `ResolveConditionals` and leaves no block; each pass shortens the text, so it terminates |
| Conditionals.ResolveNoBlock | scripts/customize.py:59-62 | Text without a block is returned unchanged |
| Conditionals.ResolveIdempotent | scripts/customize.py:59-62 | Resolving conditionals twice gives the same text as resolving once |
| Conditionals.NoOpenUnchanged | scripts/customize.py:59-62 | Text with no `{{#if_` is returned unchanged |

## Left out

- `load_template`, `interactive_survey`, `save_responses` and `main` are not modelled: they do file I/O, console prompts, JSON and argument parsing.
- Response values are strings. The `str(value)` conversion of other values is not modelled.
- Case mapping covers ASCII letters only. Python's Unicode mappings, some of which change the length (`'ß'.upper()` is `'SS'`), are not modelled.
- Python's regular-expression engine is not modelled in general. Only the one pattern the resolver uses is modelled, by the matcher and scanner described above.
- The response set is a sequence of pairs. That keys are unique, as in a dictionary, is the predicate `KeysUnique`, which `GetStored` assumes. The type does not enforce it, and elsewhere `Get` reads the first pair with the key.
- Conditionals.ResolveFirstOfTwoOptions: the two sibling blocks are given by what the matcher returns at their positions, not as literal template text. `MatchAtBlock` connects the two for any text.
- No warning about unresolved markers is modelled, because the code does not produce one.

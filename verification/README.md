# MY_Parser, modelled in Dafny

`MY_Parser` extends CodeIgniter's template parser. `parse($template, $data)`
renders a view in these steps:

1. Merge the call's data over the data assigned beforehand (`set_data`, `assign`).
2. HTML-escape every scalar.
3. Load the view and replace its `{block name} … {endblock}` regions with the
   recorded block text.
4. Cut the `{noparse} … {/noparse}` regions out behind placeholders.
5. For each data entry:
   - an array value renders its first loop, either `{item in rows} … {end rows}`
     or the older `{rows} … {/rows}`;
   - a scalar value substitutes its variable tags `{key}`, `{key|filter:arg|…}`.
     Inside a loop row, the fields of a nested array are reached as
     `{key.sub}` and `{key->sub}`; a top-level array is reached only through
     its loop.
6. Run the registered plugins in order.
7. Evaluate the `{if}`/`{elseif}`/`{else}` chains.
8. Put the protected regions back.

Filters form a registry of named callables. It starts out with PHP string
built-ins and a few closures (`limit_chars`, `limit_words`, `highlight`,
`default`, …), and `add_filter` can extend it.

The project is organised like the library:

- **`Values`**: PHP values and ordered arrays. Covers assignment, `array_merge`,
  `isset` and `empty`, and string coercion.
- **`Text`**: the PHP string functions the library calls. These are `explode`,
  `implode`, `str_replace`, `trim`, `ucwords`, `substr` and `array_slice` prefixes,
  decimal conversion, and the number PHP reads at the start of a numeric string.
- **`Filters`**: the filter registry, the parsing of a filter specification
  `name:p1, p2`, and `apply_filters` as a pipeline.
- **`Resolver`**: `get_value`'s path walk.
- **`Lexer`**: the tag patterns of the library as sequences of regex atoms (literal,
  `\s*`, `\s+`, `(\w+)`). It also has a leftmost, lazy matcher for the
  paired-tag patterns and the variable-tag pattern.
- **`NoParse`**: extraction of `noparse` regions, and their restoration.
- **`Substitution`**: `_parse_single`, `_parse_row` and `_parse_row_with_key`.
  Each is described by the list of (key, scalar) pairs it substitutes, in order.
- **`Loops`**: `_parse_pair` and `_process_pair_body`. Each row gets its counters
  and optional loop variable, and the rows are concatenated.
- **`Conditionals`**: branch selection in one `if` chain. This is modelled both
  as written and as intended; see Findings.
- **`Blocks`**: `_parse_blocks` and the block recording helpers.
- **`Engine`**: the `Parser` class with its registries and recorded blocks. Its
  setters update that state in place. Its rendering methods (`apply_filters`,
  the extraction and restore loops, the recursive substitutions, the row loop,
  `_parse_blocks`, `parse`) are proved equal to the specification functions of
  the modules above. `Engine.Render` is the specification of `parse`.

## Model

| member | source | states |
|---|---|---|
| Values.Lookup | application/libraries/MY_parser.php:328 | a key is found exactly when it is one of the array's keys, and then with the value stored under it |
| Values.PutLookup | application/libraries/MY_parser.php:180 | after `$d[$k] = $v`, `k` reads `v` and every other key reads as before |
| Values.PutKeys | application/libraries/MY_parser.php:180 | assignment keeps the order of existing keys and appends a new key at the end |
| Values.PutUnique | application/libraries/MY_parser.php:180 | assignment never creates a duplicate key |
| Values.MergeLookup | application/libraries/MY_parser.php:113 | in `array_merge(a, b)` a key of `b` reads its value in `b`, and any other key reads its value in `a` |
| Values.MergeUnique | application/libraries/MY_parser.php:113 | `array_merge` of arrays without duplicate keys has none |
| Text.IndexOfFrom | application/libraries/MY_parser.php:317-319 | `strpos` finds the first occurrence at or after the offset, and reports none only when there is none |
| Text.Split | application/libraries/MY_parser.php:318 | `explode` always gives at least one piece |
| Text.JoinSplit | application/libraries/MY_parser.php:79-80 | `implode` of an `explode` on the same separator gives the string back |
| Text.SplitPiecesFree | application/libraries/MY_parser.php:79 | no piece `explode` gives contains the separator |
| Text.ReplaceSkip | application/libraries/MY_parser.php:264 | text before the first occurrence passes through `str_replace` unchanged |
| Text.ReplaceAbsent | application/libraries/MY_parser.php:264 | `str_replace` of a string that does not occur changes nothing |
| Text.ReplaceAllIsJoinSplit | application/libraries/MY_parser.php:83 | `str_replace` replaces every occurrence: it equals `implode(r, explode(p, s))` |
| Text.TrimLeft | application/libraries/MY_parser.php:69 | the left trim drops exactly the leading run of trimmed characters |
| Text.TrimRight | application/libraries/MY_parser.php:69 | the right trim drops exactly the trailing run of trimmed characters |
| Text.TrimIsInfix | application/libraries/MY_parser.php:69 | `trim` keeps a contiguous piece of its input, removes only trimmed characters, and the piece starts and ends with a kept character |
| Text.TrimIdempotent | application/libraries/MY_parser.php:69 | trimming twice is trimming once |
| Text.NatToString | application/libraries/MY_parser.php:441-442 | a counter's string form is a non-empty run of digits |
| Text.ParseNatToString | application/libraries/MY_parser.php:441-442 | reading back a number's decimal string gives the number |
| Text.NatToStringInjective | application/libraries/MY_parser.php:441-442 | distinct numbers have distinct decimal strings |
| Text.ParseIntToString | application/libraries/MY_parser.php:77 | every integer's decimal string reads back as that integer, so an integer in the 64-bit range passes through a `:n` filter parameter unchanged |
| Filters.IntParam | application/libraries/MY_parser.php:77-80 | an integer parameter that is accepted lies in the 64-bit range, and one that is refused raises a TypeError |
| Filters.IntLiteralParam | application/libraries/MY_parser.php:77-80 | an integer literal, alone or followed by text that cannot continue a number (`5abc`), is accepted as its value exactly when it is in the 64-bit range |
| Filters.ScientificParam | application/libraries/MY_parser.php:77-80 | `aeb` is accepted as `a * 10^b` when that is at most the largest integer, and refused otherwise |
| Filters.DigitlessParam | application/libraries/MY_parser.php:77-80 | a parameter without a digit is a TypeError |
| Filters.ParseSpec | application/libraries/MY_parser.php:379-386 | a specification with a colon splits at the first colon into a name and comma-separated trimmed parameters; without one it is a bare name |
| Filters.PipelineAppend | application/libraries/MY_parser.php:376-396 | running two lists of filters in a row is running their concatenation, and a failure stops the rest |
| Filters.UnknownFilterSkipped | application/libraries/MY_parser.php:388-393 | a filter whose name is not registered leaves the value unchanged |
| Filters.UnknownFiltersIdentity | application/libraries/MY_parser.php:377-395 | a list of unregistered filters is the identity |
| Filters.StepWithParameters | application/libraries/MY_parser.php:379-392 | `name:raw` calls the filter registered under `name` with the value first and the trimmed parameters after it |
| Filters.BareName | application/libraries/MY_parser.php:383-386 | a name without a colon parses to itself with no parameters |
| Filters.UpperThenTrim | application/libraries/MY_parser.php:66-69 | `upper` then `trim` gives trim of the upper-cased string |
| Filters.LimitCharsKeepsPrefix | application/libraries/MY_parser.php:77 | `limit_chars:n` keeps the first `n` characters, or all of them when there are fewer |
| Filters.LimitCharsNegative | application/libraries/MY_parser.php:77 | `limit_chars:-n` drops the last `n` characters |
| Filters.SplitJoin | application/libraries/MY_parser.php:79-80 | splitting an `implode` of words that do not contain the separator gives the words back |
| Filters.LimitWordsKeepsFirstWords | application/libraries/MY_parser.php:78-81 | for `n >= 1`, `limit_words:n` keeps exactly the first `n` space-separated words, or all of them when there are fewer |
| Filters.LimitWordsNegative | application/libraries/MY_parser.php:78-81 | `limit_words:-n`, for `n` below the number of words, keeps exactly the words but the last `n` |
| Filters.LimitWordsNone | application/libraries/MY_parser.php:78-81 | `limit_words:0`, and a negative limit reaching back over every word, give the empty string |
| Filters.HighlightWrapsEveryOccurrence | application/libraries/MY_parser.php:82-84 | `highlight:term` wraps every occurrence of a non-empty term in `<strong>`; an empty term changes nothing |
| Filters.DefaultOnlyWhenEmpty | application/libraries/MY_parser.php:93-95 | `default:x` gives `x` exactly when the value is PHP-empty or already `x`, and otherwise the value itself |
| Filters.ClosuresNeedTheirParameter | application/libraries/MY_parser.php:77-95 | a closure called without its parameter fails with an ArgumentCountError |
| Filters.ReverseTwice | application/libraries/MY_parser.php:71 | `reverse` twice gives back the string |
| Resolver.SplitPath | application/libraries/MY_parser.php:317-323 | a key always has at least one path segment |
| Resolver.WalkAppend | application/libraries/MY_parser.php:327-335 | walking a path is walking its first part and then the rest from where that stopped |
| Resolver.WalkNull | application/libraries/MY_parser.php:332-334 | nothing can be reached from null |
| Resolver.StopsAtMissingSegment | application/libraries/MY_parser.php:328-334 | a segment that is not set ends the walk with null |
| Resolver.DotWins | application/libraries/MY_parser.php:317-318 | a key with a dot is split on dots only, and joining the segments gives the key back |
| Resolver.ArrowPath | application/libraries/MY_parser.php:319-320 | a key with `->` and no dot is split on `->`, and joining gives the key back |
| Resolver.PlainKey | application/libraries/MY_parser.php:321-337 | a key without separators reads its value when it is set, and null otherwise |
| Resolver.DottedKey | application/libraries/MY_parser.php:316-338 | `a.rest` resolves the rest of the path, split on dots, from the value of `a` |
| Lexer.MatchAtoms | application/libraries/MY_parser.php:358 | a pattern match stays inside the text, starts with the pattern's leading literal, and makes one capture per `(\w+)` |
| Lexer.FindAtoms | application/libraries/MY_parser.php:412 | the match found is the leftmost one |
| Lexer.PairAt | application/libraries/MY_parser.php:404-405 | a paired tag found at `i` has its opening tag there and the first closing tag after it, with no closing tag inside the lazy body |
| Lexer.FirstPair | application/libraries/MY_parser.php:412 | the paired tag found is the leftmost one, and none is reported only when there is none |
| Lexer.LoopOpen | application/libraries/MY_parser.php:404 | the loop pattern captures one group, the loop variable |
| Lexer.BlockOpen | application/libraries/MY_parser.php:553 | the block pattern captures one group, the block name |
| Lexer.NoLeftNoPair | application/libraries/MY_parser.php:250 | no paired tag occurs in a text without the left delimiter |
| Lexer.VarTagAt | application/libraries/MY_parser.php:358 | a variable tag runs from a left delimiter to a right delimiter, and its filter list uses only `[\w\|\s:,-]` |
| Lexer.NoLeftNoVarTag | application/libraries/MY_parser.php:358 | no variable tag occurs in a text without the left delimiter |
| NoParse.ScanCovers | application/libraries/MY_parser.php:250-257 | cutting a template into protected regions and other text loses and adds nothing |
| NoParse.Placeholder | application/libraries/MY_parser.php:254 | every placeholder starts with the `{{ noparse_` marker |
| NoParse.Table | application/libraries/MY_parser.php:251-255 | the table has one entry per protected region |
| NoParse.TableEntries | application/libraries/MY_parser.php:254-255 | entry `n` of the table maps placeholder `n` to the `n`-th region's body |
| NoParse.PlaceholderInjective | application/libraries/MY_parser.php:254 | distinct regions get distinct placeholders |
| NoParse.TableKeysUnique | application/libraries/MY_parser.php:255 | no placeholder is recorded twice |
| NoParse.RestoreFrom | application/libraries/MY_parser.php:263-265 | the restore loop, from any round on, ends in the text with the regions back and their tags removed |
| NoParse.RoundTrip | application/libraries/MY_parser.php:247-267 | restoring an extraction gives the template with only the `noparse` tags removed, provided the template has no `{{ noparse_` marker of its own |
| NoParse.NoRegions | application/libraries/MY_parser.php:247-260 | a template without protected regions is extracted unchanged, with an empty table |
| Substitution.SubstituteNoLeft | application/libraries/MY_parser.php:358-369 | a text without the left delimiter is left unchanged |
| Substitution.SingleTag | application/libraries/MY_parser.php:358-369 | `{key}` becomes the value's string form, and the rest of the text is substituted in turn |
| Substitution.FilteredTag | application/libraries/MY_parser.php:358-369 | `{key\|list}` becomes the value run through the `\|`-separated filters |
| Substitution.ApplyLeavesAppend | application/libraries/MY_parser.php:347-353 | substituting two lists of pairs in a row is substituting their concatenation |
| Substitution.ApplyLeavesNoLeft | application/libraries/MY_parser.php:341-373 | a text without the left delimiter is left unchanged by any pairs |
| Substitution.LeavesAreScalars | application/libraries/MY_parser.php:346-354 | only scalars are substituted, and each under a key that extends the starting key |
| Substitution.FlatArrayLeaves | application/libraries/MY_parser.php:347-352 | an array of scalars substitutes each entry twice, first as `key.prop` and then as `key->prop` |
| Substitution.EntryPairsSameLeaves | application/libraries/MY_parser.php:486-501 | `_parse_row_with_key` reaches the same (key, scalar) pairs as `_parse_single` |
| Substitution.RowSameLeaves | application/libraries/MY_parser.php:470-484 | `_parse_row` substitutes the same (key, scalar) pairs as `_parse_single` over the row's entries |
| Loops.RowSeesCounters | application/libraries/MY_parser.php:440-444 | a row reads its own entries; `index` and `i` read the 0-based and 1-based counters unless the row sets them |
| Loops.LoopVariableNests | application/libraries/MY_parser.php:447-449 | with a loop variable, a row's data is the one entry under that name, holding the counters and the row |
| Loops.RenderRowsAppend | application/libraries/MY_parser.php:435-464 | rendering a list of rows is rendering its halves, the second numbered on from the first, and concatenating |
| Loops.OneRow | application/libraries/MY_parser.php:452-461 | a single row renders to exactly its own text |
| Loops.StaticBodyRepeats | application/libraries/MY_parser.php:435-464 | a body without tags is repeated once per row |
| Loops.NotAnArray | application/libraries/MY_parser.php:431-466 | a loop over a value that is not an array renders nothing |
| Loops.ParsePairNoTags | application/libraries/MY_parser.php:426 | a text without the left delimiter holds no loop and is returned unchanged |
| Loops.LoopRepeatsStaticBody | application/libraries/MY_parser.php:412-417 | the first `item in variable` loop with a static body is replaced by its body once per row, and the text around it stays |
| Loops.LegacyLoopRepeatsStaticBody | application/libraries/MY_parser.php:420-424 | the same for the older `{variable} … {/variable}` form, used only when the newer form is absent |
| Conditionals.IfWins | application/libraries/MY_parser.php:283-284 | the `if` branch is chosen when its condition holds |
| Conditionals.FirstElseifWins | application/libraries/MY_parser.php:284-292 | the first `elseif` whose condition holds is chosen when no earlier condition holds (corrected behaviour) |
| Conditionals.NoneHolds | application/libraries/MY_parser.php:293 | when no condition holds, the chain yields the `else` text, or nothing |
| Conditionals.SelectsABranch | application/libraries/MY_parser.php:282-294 | the result is always the text of a branch whose condition holds, or the fallback |
| Conditionals.Groups | application/libraries/MY_parser.php:272-279 | the match array has 3, 6 or 8 groups, and 8 exactly when there is an `else` |
| Conditionals.ArraySlice | application/libraries/MY_parser.php:278 | `array_slice(a, o, -k)` holds the entries of `a` from `o` on, up to `k` before the end, and none when there are no such entries |
| Conditionals.AsWrittenIgnoresElseifs | application/libraries/MY_parser.php:278-294 | as written, the callback returns the `if` text when its condition holds, and otherwise the `else` text, never an `elseif` text |
| Conditionals.ElseifCounterexample | application/libraries/MY_parser.php:284-292 | with `if a` and `elseif b`, where only `b` holds, the code as written yields nothing while the intended result is the `elseif` text |
| Conditionals.AgreeWithoutElseifs | application/libraries/MY_parser.php:275-294 | as written and corrected agree on every chain without `elseif` |
| Blocks.BlockScanCovers | application/libraries/MY_parser.php:553-555 | cutting a template at its block regions loses and adds nothing |
| Blocks.NoBlocksUnchanged | application/libraries/MY_parser.php:549-563 | a template without the left delimiter is left unchanged |
| Blocks.NothingRecorded | application/libraries/MY_parser.php:542-547 | with nothing recorded, every block region disappears and the text around the regions stays |
| Blocks.StackedBlocksIgnored | application/libraries/MY_parser.php:558-560 | what is recorded for a block that is being recorded is never used |
| Blocks.StackedBlockEmpty | application/libraries/MY_parser.php:558-560 | a region whose block is being recorded becomes empty |
| Blocks.ExpandAppend | application/libraries/MY_parser.php:555-562 | the regions are replaced independently: expanding two parts of a template in turn is expanding the whole |
| Blocks.RegionBecomesRecorded | application/libraries/MY_parser.php:555-562 | a region of a block not being recorded becomes exactly that block's recorded text, or nothing, and the text around it stays |
| Blocks.ExpandLength | application/libraries/MY_parser.php:555-562 | with nothing being recorded, the expanded template is as long as the text outside the regions plus the recorded texts that replace them |
| Engine.SanitizeEntries | application/libraries/MY_parser.php:201-202 | sanitizing an array keeps its length and its keys in order |
| Engine.SanitizeAll | application/libraries/MY_parser.php:116 | sanitizing the data keeps its keys |
| Engine.PluginsRunInOrder | application/libraries/MY_parser.php:222-227 | a plugin registered under a new name runs last, on what the earlier plugins produced |
| Engine.SanitizeLookup | application/libraries/MY_parser.php:200-205 | every key reads its sanitized value after sanitizing |
| Engine.SanitizedIsText | application/libraries/MY_parser.php:200-205 | after sanitizing every scalar is a string, and arrays stay arrays of the same size |
| Engine.ScanNoLeft | application/libraries/MY_parser.php:250 | a text without the left delimiter has no `noparse` region |
| Engine.DataPassNoTags | application/libraries/MY_parser.php:142-148 | the pass over the data leaves a text without the left delimiter unchanged |
| Engine.NoTagsRenderedAsIs | application/libraries/MY_parser.php:101-172 | a view without the left delimiter renders unchanged, whatever the data, when no plugin is registered |
| Engine.NoDataOnlyUnwraps | application/libraries/MY_parser.php:136-157 | with no data and no plugins, rendering only removes the `noparse` tags from the expanded view |
| Engine.Parser.constructor | application/libraries/MY_parser.php:61-96 | a new parser has the built-in filters, no data, plugins or blocks, and caching on |
| Engine.Parser.SetData | application/libraries/MY_parser.php:175-177 | the new data is merged over the assigned data, and the merged data has no duplicate key; nothing else changes |
| Engine.Parser.Assign | application/libraries/MY_parser.php:179-181 | one key takes the value and the other keys keep theirs; nothing else changes |
| Engine.Parser.AddFilter | application/libraries/MY_parser.php:184-188 | a callable is registered under its name, replacing any earlier one; a non-callable changes nothing |
| Engine.Parser.RegisterPlugin | application/libraries/MY_parser.php:190-194 | a callable is registered under its name, and a new name is placed last in the order; a non-callable changes nothing |
| Engine.Parser.EnableCache | application/libraries/MY_parser.php:196-198 | only the cache flag changes |
| Engine.Parser.StartBlock | application/libraries/MY_parser.php:532-535 | the block name is pushed on the stack; nothing else changes |
| Engine.Parser.EndBlock | application/libraries/MY_parser.php:537-540 | the innermost block comes off the stack and records the captured text; with an empty stack the text is recorded under the empty key |
| Engine.Parser.GetValue | application/libraries/MY_parser.php:316-338 | the loop yields the value the key's path reaches, or null |
| Engine.Parser.ApplyFilters | application/libraries/MY_parser.php:376-396 | the loop applies the filter specifications as the pipeline does |
| Engine.Parser.ApplyPlugins | application/libraries/MY_parser.php:222-227 | the loop applies the plugins in registration order |
| Engine.Parser.ExtractNoparse | application/libraries/MY_parser.php:247-260 | the loop gives the text with each region replaced by its placeholder, and the table of region bodies; these two complete the round trip of NoParse.RoundTrip |
| Engine.Parser.RestoreNoparse | application/libraries/MY_parser.php:262-267 | the loop replaces each placeholder, in table order, by its body |
| Engine.Parser.ParseSingle | application/libraries/MY_parser.php:341-373 | the recursion substitutes the (key, scalar) pairs that the value reaches, in order |
| Engine.Parser.ParseRowWithKey | application/libraries/MY_parser.php:486-501 | the recursion substitutes the prefixed (key, scalar) pairs that the row reaches |
| Engine.Parser.ParseRow | application/libraries/MY_parser.php:470-484 | the loop substitutes the row's (key, scalar) pairs |
| Engine.Parser.ProcessPairBody | application/libraries/MY_parser.php:429-467 | the loop renders each row of an array in turn and concatenates the results |
| Engine.Parser.ParsePair | application/libraries/MY_parser.php:399-427 | the first loop in the newer form is replaced; failing that, the first loop in the older form; otherwise nothing changes |
| Engine.Parser.SubstituteData | application/libraries/MY_parser.php:142-148 | each data entry renders its loop when it is an array, and substitutes its tags otherwise |
| Engine.Parser.ParseBlocks | application/libraries/MY_parser.php:549-563 | each block region is replaced by its recorded text, or by nothing while its block is being recorded |
| Engine.Parser.Parse | application/libraries/MY_parser.php:101-172 | an empty name is rejected. Otherwise the steps run in the library's order: merge, sanitize, blocks, extract, data, plugins, conditionals, restore |

## Left out

- **Regular expressions.** The patterns are modelled by a matcher over literal text, `\s*`, `\s+` and `(\w+)`. It takes runs of spaces and word characters greedily, with no backtracking.
  - It agrees with PCRE except in three cases: a right delimiter that begins with whitespace, `|`, or a character the filter class allows; a key that begins with whitespace; and a loop variable's `(\w+)` followed by text that would need it shorter.
  - `preg_replace` reads `$n` and `\n` in a replacement string as back-references (lines 416, 423 and 527). The model inserts the replacement literally.
- **Loop replacement.** Only the first loop over a variable is rendered and replaced. This matches lines 412-424, which replace at most once.
- **The conditional pass.** The regex scan at lines 272-296 and `evaluate_condition` (lines 301-313, which calls `eval`) are a `CondPass` parameter. `Conditionals` models branch selection on an already parsed chain.
  - When a chain has several `elseif`s, the repeated group keeps only the last one. This is modelled in `Conditionals.Groups`.
- **Caching.** The md5 cache key, reading and writing cache files (lines 120-132, 164-166, 229-244) are file I/O. The model keeps the `cacheEnabled` flag and always renders. A cached page would be the same text from an earlier render.
- **Loading and includes.** `_load_template`, `_process_includes` and `_process_extends` (lines 207-219, 503-529) load views through CodeIgniter. The loaded view text is a parameter of `Engine.Parser.Parse`, which expands its blocks.
- **Output buffering.** `ob_start` and `ob_get_clean` are not modelled; the text a block captured is the `captured` parameter of `Engine.Parser.EndBlock`.
- **Output and logging.**
  - With `$return` false, the output goes to CodeIgniter's output class (line 171). That line uses `$CI`, which is assigned only on the cache-hit path.
  - `log_error` (lines 565-567) only logs.
  - `Engine.Parser.Parse` models `parse(name, data, TRUE)`.
- **External functions.**
  - `htmlspecialchars` in `sanitize_input` is the `escape` parameter.
  - `md5`, `nl2br`, `esc`, `absolute`, `round`, `date` and `date_modify` are entries of a `Library` record of functions. They are uninterpreted.
- **PHP values.** Objects, `stdClass`, `get_object_vars` and floats are not modelled. Array keys are strings, so integer keys and `array_merge`'s renumbering of integer keys are not modelled either.
- **Loop variable rewrite.** The rewrite at line 458 replaces each whole-word occurrence of the loop variable with itself. It changes no text and is not modelled.
- **Parent class.** `set_delimiters` and the rest of CodeIgniter's `CI_Parser` are not part of this model. The delimiters are a constant field, `{` and `}` by default.
- **Filters.IntParam:** a parameter with a fraction or an exponent is read as an exact decimal. PHP reads it as a double first, so the two differ only for values with more than 15 significant digits near the ends of the 64-bit range. The warning for text after the number and the deprecation notice for a dropped fraction are not modelled.
- **Engine.Parser.GetBlock:** it returns recorded text only. A block's own body between its tags (line 557) is never used by the library either.
- **Engine.Parser.ParseRow:** it takes the row as an array. The `is_array` guard at line 471 always holds for the row data `_process_pair_body` builds.

## Findings

| source | as written | input that shows it | evidently intended | confidence | as-written member | corrected member |
|---|---|---|---|---|---|---|
| application/libraries/MY_parser.php:278-292 | `array_slice($matches, 3, -3)` leaves at most two entries, and the loop reads entries `i + 3` and `i + 4`, so no `elseif` branch is ever chosen | `{if a}A{elseif b}B{endif}` with only `b` true renders nothing | the first `elseif` whose condition holds is chosen | high (not executed) | Conditionals.ElseifCounterexample | Conditionals.FirstElseifWins |

# lupyd-markdown span parser, in Dafny

This project models the core of lupyd-markdown: the recursive span parser that turns a text into a flat, ordered list of `(text, type)` parts.

The parser scans the text with every pattern rule of a table. It sorts all candidate matches by start offset and then walks a cursor from left to right:

- a candidate that starts before the cursor is skipped;
- the gap before an accepted candidate is parsed again under the ambient type;
- the accepted candidate's text has its delimiters stripped, and that text is parsed again when the rule looks inwards (otherwise it becomes one part);
- the cursor moves to the candidate's end;
- text after the last accepted candidate becomes one trailing part.

There are two variants, and both are instances of one generic parser (`SpanParser`, over a rule tag `T` and a part type `P`):

- `_parseText` (src/index.ts): a part's type is a list of rule names. A rule that is not single-type appends its name (`NameParser`).
- `_parseText2` (public/index.js): a part's type is an element-type bit mask. A rule that is not single-type ORs its bit in (`MaskParser`).

Also modelled:

- the bit-mask helpers `hasType` and `iterateTypes` (`TypeBits`, `ElementTypes`, `MaskParser.IterateTypes`);
- the `ElementType` enum;
- JavaScript's `substring` and the three delimiter strippers (`Delimiters`);
- `Match.result` and the `RegexPatternMatcher` collection loop (`Matches`);
- the stable sort (`Sorting`);
- both default rule tables;
- `areListsEqual` and `PatternMatchPart.isEqual`.

The parser is given the regular-expression engine as a parameter (`Matches.Engine`). What the parser relies on is stated as `EngineOk`: a match lies in the text, starts at or after `lastIndex`, and is at least as long as the shortest text its pattern can match (`MinLength`).

## Termination

Parsing terminates when every rule that looks inwards strips a strictly shorter text from every match it can report. This is `Rules.Terminates`, and `Delimiters.ShrinksExactly` shows it is exact for each stripper.

The bundled quote rule (public/index.js:188) breaks this condition. It is the one finding below.

The corrected table (`MaskParser.FixedMatchers`) treats quote like hyperlink, the bundle's other single-type rule that uses `noDelimiter` (`lookInwards = false`, public/index.js:187). A quote line then becomes one leaf part, with no stripping. The bundled rule instead uses `tripleDelimiterBoth` with `lookInwards = true`. The model of the bundled table follows the code (`MaskParser.DefaultMatchers`).

## Model

| member | source | states |
|---|---|---|
| TypeBits.BitOfAnd | public/index.js:5 | bit k of `a & b` is set exactly when it is set in both `a` and `b` |
| TypeBits.BitOfOr | public/index.js:225 | bit k of `a \| b` is set exactly when it is set in `a` or in `b` |
| TypeBits.HasTypeIsInclusion | src/lupydMarkdown.ts:51-53 | `hasType(t, c)` holds exactly when every set bit of `c` is set in `t` |
| TypeBits.HasFlag | public/index.js:4-6 | for a single flag, `hasType(t, 2^k)` holds exactly when bit k of `t` is set |
| TypeBits.DescendComplete | src/lupydMarkdown.ts:57-63 | the loop started at `2^k` lists `2^j` (for j ≤ k) exactly when bit j of `t` is set |
| TypeBits.DescendUnion | src/lupydMarkdown.ts:57-63 | the OR of the listed flags is `t & (2^(k+1) - 1)`: every set bit up to the starting flag, and no other bit |
| TypeBits.IterateTypesFrom | src/lupydMarkdown.ts:55-66 | the halving loop from `2^k` returns the set flags of `t` up to `2^k`, each a single set bit of `t`, strictly decreasing, every such bit present, their OR equal to `t & (2^(k+1) - 1)`, at most k+1 of them |
| ElementTypes.ValuesAreDistinctFlags | src/lupydMarkdown.ts:23-40 | `Normal` is 0, every other member is the flag `2^p` for a position p ≤ 12, `MAX_ELEMENT_TYPE` equals `Svg` = 4096, and no two members share a value |
| ElementTypes.HasTypeMeaning | src/lupydMarkdown.ts:51-53 | `hasType(t, Normal)` always holds; for any other member it holds exactly when `t` has that member's bit |
| ElementTypes.IterateTypes | src/lupydMarkdown.ts:55-66 | `iterateTypes(t)` lists only set bits of `t` that are at most 4096, strictly decreasing; for every member other than `Normal`, it lists the member's value exactly when `hasType` holds for it (`hasType(t, Normal)` always holds, but 0 is never listed); the OR of the result is `t & 8191`; it has at most 13 elements; it is empty for `Normal` |
| MaskParser.IterateTypes | public/index.js:3-17 | the bundled `iterateTypes(t)` starts at 8192: it lists exactly the set bits of `t` from 8192 down to 1, strictly decreasing; bits above 8192 are ignored (the OR is `t & 16383`); it has at most 14 elements; the result for 0 is empty |
| Delimiters.SubstringIsSlice | src/index.ts:156 | with `0 <= a <= b <= length`, `substring(a, b)` is the slice from a to b |
| Delimiters.SubstringSwaps | public/index.js:176 | `substring` gives the same text whichever order its two arguments come in |
| Delimiters.SubstringIsSliceOf | src/index.ts:52 | whatever the arguments, `substring` returns a contiguous slice of the string |
| Delimiters.Strip | public/index.js:176-178 | `tripleDelimiterBoth` on length n ≥ 6 gives the text from 3 to n-3, of length n-6; on 3 < n < 6 it gives the swapped slice; on n ≤ 3 it gives the text itself; `singleDelimiter` drops exactly the first character; `noDelimiter` is the identity |
| Delimiters.StripIsSlice | src/index.ts:94-95 | every stripped text is a contiguous slice of the matched text |
| Delimiters.ShrinksExactly | public/index.js:176-178 | a stripper shortens every text of at least n characters exactly when `Shrinks` holds (triple: n ≥ 4, single: n ≥ 1, none: never) |
| Matches.Match.Result | src/index.ts:52 | `result()` is a slice of the input text; for an in-range match it is the text from `start` to `end`, of length `end - start` |
| Matches.CollectFollowsEngine | src/index.ts:82-86 | with a well-behaved engine, collection stops exactly when `exec` returns nothing, and otherwise pushes the match found and continues from its end |
| Matches.CollectOk | src/index.ts:82-86 | the collected matches lie in the text, are at least the pattern's minimum length, start at or after `lastIndex`, and are increasing and non-overlapping |
| Matches.CollectMatches | src/index.ts:79-88 | the `exec` loop, starting with `lastIndex = 0`, returns exactly the collection `Collect` describes |
| Matches.RegexMatcherOk | src/index.ts:75-92 | a `RegexPatternMatcher`'s matcher meets the matcher contract with its pattern's minimum length |
| Rules.CollectedOrder | src/index.ts:140-143 | the pushed candidates are valid, come rule by rule in table order and, within a rule, in increasing non-overlapping order |
| Rules.CollectedTies | public/index.js:207-210 | two pushed candidates with the same start come from different rules, the earlier from the rule listed first |
| Sorting.SortByStart | src/index.ts:145 | the sort returns a permutation of the candidates |
| Sorting.SortSorted | src/index.ts:145 | the sort result is ordered by start |
| Sorting.SortStable | public/index.js:211 | stability: when equal starts were pushed in rule order, the result is ordered by start and then by rule position |
| SpanParser.CandidatesOk | src/index.ts:140-145 | the sorted candidates are a permutation of the pushed ones, each valid, ordered by start, with equal starts in table order |
| SpanParser.TiesInTableOrder | src/index.ts:141-145 | sorted candidates with the same start come in table order, for any table whose matchers are well behaved |
| SpanParser.HitParts | src/index.ts:161-169 | a rule that does not look inwards yields exactly its one stripped part; one that looks inwards yields the parse of its stripped part, whose text is strictly shorter |
| SpanParser.ParseMatch | src/index.ts:161-169 | the parts of an accepted match: its stripped part under the new type, parsed again when the rule looks inwards |
| SpanParser.ParseText | src/index.ts:134-181 | the imperative `_parseText` (collect loop, sort, cursor loop with `continue`, trailing part) returns exactly the parts `Parse` defines |
| SpanParser.EmptyCatalog | src/index.ts:137-139 | with no rules, the input part is returned unchanged as the only part |
| SpanParser.EmptyText | public/index.js:238-245 | with at least one rule, the empty text yields no parts |
| Layouts.AcceptedChain | src/index.ts:150-153 | the accepted candidates come from the candidate list and lie end to end from the cursor inside the text |
| Layouts.ChainOrdered | src/index.ts:171 | candidates laid end to end never overlap and appear in increasing order |
| Layouts.SkippedOverlapAccepted | public/index.js:214-217 | with candidates sorted by start, every candidate that is not accepted starts inside an accepted one that starts no later (or before the initial cursor) |
| Layouts.LayoutCovers | src/index.ts:155-178 | gaps, accepted matches and the trailing rest cover exactly the text from the cursor on, each piece inside the text |
| Layouts.WalkIsLayout | src/index.ts:150-178 | the cursor loop emits, segment by segment, the re-parsed gap, the accepted candidate's parts and finally the trailing part |
| Layouts.ParseSegments | src/index.ts:147-178 | the segments of a text tile it end to end with no empty segment; they concatenate back to the text; a gap is always followed by a match and the rest comes last; the matches are exactly the accepted candidates, which never overlap; every other candidate starts inside an accepted one |
| Layouts.ParseIsLayout | src/index.ts:134-181 | for a non-empty table, `_parseText`'s result is the segments rendered in order: gap parses under the ambient type, match parts, then the trailing part with the ambient type |
| Layouts.NoAcceptedMatches | src/index.ts:174-180 | when no candidate is accepted, the result is the single trailing part equal to the input, or nothing for the empty text |
| Layouts.InnerCallsShrink | src/index.ts:155-169 | under the termination condition every recursive call is on a strictly shorter text |
| Layouts.ParseCallsAreInnerCalls | src/index.ts:150-172 | for a well-formed table, the parse is its segments' steps expanded in order (each gap and each inward-looking stripped part parsed again, every other part emitted as it is), and the parts parsed again are exactly `InnerCalls`, in order; with no rules there is no call |
| PartInvariants.PartsInherit | src/index.ts:155-178 | every part's text is a contiguous slice of the parsed text, and its type keeps any property of the input's type that every rule's type step preserves |
| NameParser.NameTypeShape | src/index.ts:161 | a single-type rule's part has exactly `[matchType]`; any other rule's has the ambient names as a prefix, is one longer, and ends with `matchType` |
| NameParser.DefaultMatchersOk | src/index.ts:97-106 | the default table's matchers meet the matcher contract and it satisfies the termination condition |
| NameParser.DefaultTieOrder | src/index.ts:103-105 | the table order is bold, header, hashtag, italic, username, and equal-start candidates are taken in that order |
| NameParser.NamesFromCatalog | src/index.ts:161 | every name on a part is an ambient name or a rule's name |
| NameParser.AmbientPrefixKept | src/index.ts:161 | with no single-type rules, every part's names start with the input's names |
| NameParser.AmbientPrefixOrSingle | src/index.ts:161 | for any table, every part's names start with the input's names or start with the name of a single-type rule |
| NameParser.DefaultAmbientKept | src/index.ts:97-106 | with the default table, every part's names start with the input's names, or the first name is `hashtag` or `username` |
| NameParser.AreListsEqual | src/index.ts:19-28 | `areListsEqual(a, b)` is true exactly when both lists have the same length and are equal at every index |
| NameParser.IsEqual | src/index.ts:121-126 | `isEqual` is true exactly when the texts and the name lists are equal |
| MaskParser.MaskTypeShape | public/index.js:225 | a single-type rule's part has exactly `matchType`; any other rule's has every ambient bit, every bit of `matchType`, and no other bit |
| MaskParser.DefaultMatchersFail | public/index.js:188 | the bundled table's matchers are well behaved, but its quote rule looks inwards with a stripper that does not shorten three-character matches, so the termination condition fails |
| MaskParser.FixedMatchersOk | public/index.js:187-188 | the table whose quote rule (line 188) takes the shape of the hyperlink rule (line 187), terminal and unstripped, meets the matcher contract and the termination condition |
| MaskParser.DefaultTieOrder | public/index.js:189-199 | the bundled table order is bold, header, hashtag, italic, mention, hyperlink, quote, underline, code, and equal-start candidates are taken in that order |
| MaskParser.QuoteLineCandidates | public/index.js:207-211 | on `>| `, the only candidate is the quote match over the whole line |
| MaskParser.BundledQuoteRecursesOnItself | public/index.js:226-232 | with the bundled table, parsing `>| ` under any type makes exactly one recursive call, on `>| ` itself with type `Quote`, so the recursion never ends |
| MaskParser.FixedQuoteLine | public/index.js:226-234 | with the corrected table, `>| ` parses to the single part `>| ` of type `Quote` with no recursive call, whatever the ambient type |
| MaskParser.BundledNestedQuoteRecurses | public/index.js:180-188 | with the bundled table, `***>| ***` under any type calls the parser once, on `>| ` with the bold bit added; from there `BundledQuoteRecursesOnItself` applies |
| MaskParser.BitsFromCatalog | public/index.js:225 | every part's type is made of ambient bits and bits of the table's types |
| MaskParser.AmbientBitsKept | public/index.js:225 | with no single-type rules, every part keeps every ambient bit |
| MaskParser.AmbientBitsOrSingle | public/index.js:225 | for any table, every part keeps every ambient bit or has every bit of some single-type rule |
| MaskParser.FixedAmbientKept | public/index.js:185-188 | with the corrected table, every part keeps every ambient bit or has the HashTag, Mention, HyperLink or Quote bit |

## Definitions

These functions model source code but only compute, so they carry no contract of their own. The rows above state their properties.

- `SpanParser.Parse`, `SpanParser.Walk` and `SpanParser.MatchParts` model `_parseText` and `_parseText2`, including the cursor loop (src/index.ts:134-181, public/index.js:201-246). Their contracts are in `SpanParser.ParseText` (the loop equals `Parse`), `SpanParser.HitParts`, `SpanParser.EmptyCatalog`, `SpanParser.EmptyText`, `Layouts.WalkIsLayout`, `Layouts.ParseSegments`, `Layouts.ParseIsLayout`, `Layouts.NoAcceptedMatches`, `Layouts.ParseCallsAreInnerCalls` and `PartInvariants.PartsInherit`.
- `NameParser.DefaultMatchers` models `defaultMatchers()` in src/index.ts:97-106. Its contracts are in `NameParser.DefaultMatchersOk`, `NameParser.DefaultTieOrder` (which states the table's names in order) and `NameParser.DefaultAmbientKept`.
- `MaskParser.DefaultMatchers` models `defaultMatchers()` in public/index.js:179-200. Its contracts are in `MaskParser.DefaultMatchersFail` and `MaskParser.DefaultTieOrder` (which states the table's masks in order), and for `>| ` in `MaskParser.QuoteLineCandidates` and `MaskParser.BundledQuoteRecursesOnItself`, and for `***>| ***` in `MaskParser.BundledNestedQuoteRecurses`. `MaskParser.FixedMatchers` is its corrected version: the quote rule at public/index.js:188 gets the hyperlink rule's shape from line 187. Its contracts are in `MaskParser.FixedMatchersOk`, `MaskParser.FixedQuoteLine` and `MaskParser.FixedAmbientKept`.
- `TypeBits.HasType` models `hasType` (src/lupydMarkdown.ts:51-53, public/index.js:4-6). Its contracts are in `TypeBits.HasTypeIsInclusion`, `TypeBits.HasFlag` and `ElementTypes.HasTypeMeaning`.
- `Matches.Collect` models the `exec` loop of `RegexPatternMatcher` (src/index.ts:82-86). Its contracts are in `Matches.CollectMatches` (the loop equals `Collect`), `Matches.CollectFollowsEngine` and `Matches.CollectOk`.
- `Delimiters.Substring` models JavaScript's `String.prototype.substring`, which the strippers at public/index.js:176-178 call. Its contracts are in `Delimiters.SubstringIsSlice`, `Delimiters.SubstringSwaps`, `Delimiters.SubstringIsSliceOf` and `Delimiters.Strip`.
- `Rules.NewType`, `NameParser.NameTyping` and `MaskParser.MaskTyping` model the type step at src/index.ts:161 and public/index.js:225. Their contracts are in `NameParser.NameTypeShape` and `MaskParser.MaskTypeShape`.

## Left out

- DOM construction and conversion are browser rendering and are not modelled. This covers `parseTextToHtmlElement`, the HTML converters, `wrapToHtmlElement` and `convertToHTMLElement`.
- Custom elements and shadow-root style sheets are DOM lifecycle and promises and are not modelled. This covers `LupydMarkdown`, `HyperLinkElement` and the style-sheet helpers.
- Event listeners, the `test()` function, `console.time` and the `toString` methods are UI, I/O and debugging text, and are not modelled.
- The regular expressions are not re-implemented. JavaScript's regex engine is a parameter (`Matches.Engine`), and only the contract `EngineOk` with each pattern's shortest match `MinLength` is assumed of it. Lookbehind, lazy quantifiers, the `m` flag and the regex object's `lastIndex` state are therefore not modelled.
- Matches.Collect: it stops at a match that would not advance `lastIndex`. JavaScript would repeat such an empty match forever. None of the patterns can match the empty text, so with a well-behaved engine the guard never fires (`Matches.CollectFollowsEngine`).
- NameParser.AreListsEqual and NameParser.IsEqual: the early `===` identity test is not modelled. Values have no identity here, and that test only returns early with the answer the comparison gives anyway.
- Masks are unbounded naturals. JavaScript applies `&`, `|` and `>>` to 32-bit integers, which agree with the model for every mask below 2^31. Every element type is below 2^14. Negative masks passed in by a caller are not modelled.
- Strings are sequences of characters. JavaScript's UTF-16 code units, and surrogate pairs in particular, are not distinguished.
- `Array.prototype.sort` is modelled as a stable insertion sort. JavaScript guarantees stability but not the algorithm; only the resulting order matters here.
- Inside the parser, `inputText.substring(a, b)` is always called with in-range, ordered arguments. It is modelled as a slice, which `Delimiters.SubstringIsSlice` shows is equal. The strippers use the full clamping and swapping `Delimiters.Substring`.
- Parts and type lists are values. The renderer reverses each output part's list in place (`match.matchTypes.reverse()`, src/index.ts:313), but no two output parts share a list. Each call's trailing part holds that call's own copy of the ambient names (src/index.ts:148, 176). A gap part is only handed to a recursive call, which copies its list again. A matched part gets a fresh list (src/index.ts:161). So the sharing is not observable.
- SpanParser.ParseText requires the termination condition `Rules.Terminates`. It is a sufficient condition, not a necessary one. A table that violates it may fail to terminate. The bundled table fails to terminate on every text where some level of the recursion accepts a three-character quote match: `>|` followed by one whitespace character. Examples are `>| `, `a\n>| `, `>|` followed by a tab, and `***>| ***` (`MaskParser.BundledNestedQuoteRecurses`). Where no such match is accepted it terminates: for example, `>| hello` is stripped through `substring(3, 5)` to `he`. For the bundled table, the model records the failure (`MaskParser.DefaultMatchersFail`, `MaskParser.BundledQuoteRecursesOnItself`) rather than running the non-terminating parse.
- The remaining regexes and the `Markdown` and `Element` interfaces of src/lupydMarkdown.ts are not part of the parser core. An `Element` is modelled as a part with a mask type.
- Escape resolution and discarding of empty stripped spans are not modelled, because no core code performs them.

## Findings

| source | as written | input that shows it | evidently intended | confidence | as-written member | corrected member |
|---|---|---|---|---|---|---|
| public/index.js:188 | the quote rule, whose regex matches lines of three characters or more, strips with `tripleDelimiterBoth` and looks inwards; `">| ".substring(3, 0)` swaps its arguments and returns `">| "` itself | the text `>| ` (a quote line with nothing after the marker), or any text where such a line is reached at some depth, such as `***>| ***` | a quote line becomes one `Quote` part, which ends the recursion (the same stripper also cuts longer quote lines: `>| hello` becomes `he`) | not executed | MaskParser.BundledQuoteRecursesOnItself | MaskParser.FixedQuoteLine |

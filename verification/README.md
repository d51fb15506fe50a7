# parseLLMJson in Dafny

A model of `parseLLMJson` (`src/utils/jsonParser.ts`). The function pulls one JSON
value out of the free-form text a language model returned. It works in four parts,
and the model keeps them apart.

- **The candidate extractor** (`extractJson`). It lifts candidate regions out of the
  response in four confidence tiers: ```` ```json ```` fences, any fences, inline code
  spans, and bare `{…}` / `[…]` structures. It trims and filters each capture, caps
  the list at `maxBlocks`, and sorts the list by tier when asked to.
- **The boundary scanner** (`findJsonBoundaries`). This is one forward pass with a
  start index, a nesting depth, an in-string flag and a pending-escape flag. It cuts
  out the first region whose depth returns to zero. With `allowPartial` it returns
  the unterminated tail from the first opener, with one `}` added only when the
  depth is still positive at the end (`}{}` gives `{}` with nothing added).
- **The repair engine** (`fixCommonJsonIssues`). A fixed chain of text rewrites:
  - byte-order mark
  - comments
  - backslash-quote unescaping
  - closing an odd quote
  - trailing commas
  - bare keys
  - single quotes
  - Python literals
  - escaped-quote fix
  - ellipses
- **The orchestrator** (`tryParseJson`) and **the driver**. The orchestrator tries a
  direct parse, then the scanned region, then the repaired text, then the region
  scanned out of the repaired text. The driver feeds it each candidate, then the whole
  response, then the region scanned out of the raw response. Every success goes
  through **the unwrapper** (`unwrapResponse`), which peels at most two `response`
  envelopes.

Modules:

- `Wrappers`: `Option`.
- `Text`: ECMAScript white space, `trim`, literal global `replace`, character removal.
- `JsonValue`: parsed values and JavaScript truthiness.
- `Boundary`: the scanner. It has two forms: a declarative fold `Scan` and the loop
  `FindJsonBoundaries`, proved equal.
- `Repair`: the repair engine.
- `Extract`: the extractor.
- `Pipeline`: the orchestrator, the unwrapper and the driver.

Three things are parameters. `JSON.parse` is a function `string -> Option<Json>`,
where `None` stands for a thrown `SyntaxError`. The repair engine's four
regex-driven passes are functions too (comment stripping, key quoting,
single-to-double quote conversion, literal normalisation). The extractor's patterns
are represented by the capture texts each pattern finds, in discovery order.

Some properties the model proves follow from the code rather than from its
intent:

- The repair engine is **not** idempotent. Two rewrites break it:
  - Deleting `…` can join dots into a new `...`.
  - Unescaping `\\'` leaves `\'`.
- The escaped-quote fix at line 75 never changes its input. Its replacement string
  `'"$1\\"$2"'` rebuilds exactly the text it matched.
- The tiers are pushed in priority order, so the stable sort never moves anything.
  `preferFirst` therefore has no effect on the result.
- The scanner decrements the depth on closers that come before any opener. A stray
  `}` therefore makes it stop one level early. `"}{{}}"` yields the unbalanced region
  `"{{}"`, and `"}{}"` yields nothing unless partial results are allowed.

## Model

| member | source | states |
|---|---|---|
| Text.Trim | src/utils/jsonParser.ts:199-203 | the trimmed text has no white space at either end, and it is empty exactly when the input is all white space, which is the `trim().length === 0` test |
| Text.TrimCutsOnlySpace | src/utils/jsonParser.ts:203 | `trim` returns a contiguous slice of its input and removes nothing but white space on either side |
| Text.TrimTrimmed | src/utils/jsonParser.ts:203 | trimming text that is already trimmed, such as an extracted candidate, changes nothing |
| Text.ReplaceAllNoMatch | src/utils/jsonParser.ts:78 | a global replacement that finds no match leaves the text unchanged |
| Text.ReplaceCharIsRemove | src/utils/jsonParser.ts:79 | globally replacing one character by the empty string deletes every occurrence of it and nothing else |
| Boundary.FindJsonBoundaries | src/utils/jsonParser.ts:146-195 | the scanning loop, with its early exit, returns exactly the declarative region `Boundaries` |
| Boundary.StartIsFirstOpener | src/utils/jsonParser.ts:171-174 | `start` stays -1 exactly until a structural `{` or `[` has been read, and from then on it is the index of the first one |
| Boundary.DepthBeforeOpener | src/utils/jsonParser.ts:175-176 | before the first opener only closers move the depth, so it is never positive |
| Boundary.CompleteRegion | src/utils/jsonParser.ts:177-187 | when the scan stops, the result runs from the first structural opener to the first structural closer that brings the depth back to zero, both included |
| Boundary.IncompleteRegion | src/utils/jsonParser.ts:189-194 | when the scan never stops, the result is null unless `allowPartial` holds and an opener was seen; in that case it is the rest of the text from the first opener, with one `}` added exactly when the final depth is positive |
| Boundary.NoOpenerIsNull | src/utils/jsonParser.ts:185-194 | text without a structural opener yields null in either mode |
| Boundary.ResultStartsWithOpener | src/utils/jsonParser.ts:185-192 | every non-null result is non-empty and starts with `{` or `[`, so the callers' truthiness tests always pass |
| Boundary.BalancedRegion | src/utils/jsonParser.ts:171-180 | if the depth is zero at the first opener (no stray closer before it), the depth stays positive strictly inside the returned region |
| Boundary.StrayCloserQuirk | src/utils/jsonParser.ts:175-179 | a `}` before any opener drives the depth to -1, so `"}{{}}"` is cut at its first closer and yields the unbalanced `"{{}"` |
| Boundary.StrayCloserHidesRegion | src/utils/jsonParser.ts:185-194 | after a stray closer, `"}{}"` never closes: it yields null normally and `"{}"` with `allowPartial` |
| Repair.StripBom | src/utils/jsonParser.ts:32 | at most one leading U+FEFF is removed, and the text changes exactly when it starts with one |
| Repair.TrimmedTextHasNoBom | src/utils/jsonParser.ts:226 | the engine only receives trimmed text, and `trim` already strips U+FEFF, so removing the byte-order mark never changes anything |
| Repair.UnescapeQuotes | src/utils/jsonParser.ts:40-41 | the two unescaping rewrites never lengthen the text |
| Repair.UnescapingDropsOnlyBackslashes | src/utils/jsonParser.ts:40-41 | the two unescaping rewrites delete backslashes and leave every other character, in order |
| Repair.UnescapingDropsQuoteEscapes | src/utils/jsonParser.ts:40-41 | the two rewrites together delete exactly the backslashes whose next character is `'` or `"`; every other backslash, such as the one in `\n`, stays |
| Repair.UnescapingNotIdempotent | src/utils/jsonParser.ts:40-41 | `\\'` unescapes to `\'`, which a second run unescapes to `'` |
| Repair.CloseOddQuote | src/utils/jsonParser.ts:44-49 | exactly when the count of `"` is odd, one `"` is appended, and the count afterwards is even |
| Repair.HasCommaBeforeCloserMeaning | src/utils/jsonParser.ts:53 | the left-to-right scan finds a comma exactly when some comma is followed, after optional white space, by `}` or `]` |
| Repair.DropCommasBeforeClosers | src/utils/jsonParser.ts:53 | the text is never longer, and it is unchanged exactly when no comma stands before a closer |
| Repair.TrailingCommaExample | src/utils/jsonParser.ts:53 | `a,b,}` becomes `a,b}`: the comma before the brace goes and the other comma stays |
| Repair.DropCommasDropsOnlyCommas | src/utils/jsonParser.ts:53 | only commas are deleted, and every other character stays in order |
| Repair.DropCommasDeletesExactly | src/utils/jsonParser.ts:53 | the rewrite deletes exactly the commas followed, after optional white space, by `}` or `]`, and keeps every other character, other commas included, in order |
| Repair.DropFinalComma | src/utils/jsonParser.ts:54 | the result is a prefix of the input |
| Repair.DropFinalCommaMeaning | src/utils/jsonParser.ts:54 | the text changes exactly when it ends in a comma followed only by white space, and it is then cut just before that comma |
| Repair.EscapedQuoteMatch | src/utils/jsonParser.ts:75 | a reported match is a genuine match of `"([^"]*)\\"([^"]*)"` at or after the search position |
| Repair.FixEscapedQuote | src/utils/jsonParser.ts:75 | the replacement rebuilds the matched text, so the step returns its input unchanged |
| Repair.StripEllipses | src/utils/jsonParser.ts:78-79 | no `…` is left and the text is never longer |
| Repair.StripEllipsesDropsOnlyDots | src/utils/jsonParser.ts:78-79 | only `.` and `…` are deleted, and every other character stays in order |
| Repair.StripEllipsesKeepsPlainText | src/utils/jsonParser.ts:78-79 | text with no `...` and no `…` is unchanged, so a lone dot such as the one in `1.5` survives |
| Repair.Repair | src/utils/jsonParser.ts:23-84 | whatever the regex-driven passes do, the engine's output never contains `…` |
| Repair.EllipsisRemovalNotIdempotent | src/utils/jsonParser.ts:78-79 | `..….` becomes `...`, which a second run deletes, so the engine is not idempotent |
| Extract.Collected | src/utils/jsonParser.ts:90-135 | the tier-by-tier collection with its shared `maxBlocks` check equals the first `maxBlocks` kept captures, taken in tier order |
| Extract.AllKeptIsSorted | src/utils/jsonParser.ts:90-135 | the kept captures come out in non-decreasing priority |
| Extract.KeptCandidate | src/utils/jsonParser.ts:94-133 | every kept candidate has a tier from 1 to 4, passes its tier's filter, and is trimmed and non-empty |
| Extract.StableSort | src/utils/jsonParser.ts:137-140 | the sort orders by priority, is a permutation, keeps the input order among equal priorities, and leaves sorted input alone |
| Extract.SortingChangesNothing | src/utils/jsonParser.ts:137-140 | the stable sort returns the collected candidates unchanged |
| Extract.ExtractJson | src/utils/jsonParser.ts:87-143 | the extractor returns at most `maxBlocks` candidates (none when `maxBlocks` is not positive) |
| Extract.ExtractJsonMeaning | src/utils/jsonParser.ts:87-143 | the candidates are the contents of the first `maxBlocks` kept captures in tier order, each non-empty and trimmed |
| Extract.PreferFirstIsIrrelevant | src/utils/jsonParser.ts:137-142 | the extractor returns the same list whether `preferFirst` is true or false |
| Pipeline.TryParse | src/utils/jsonParser.ts:198-250 | the "Empty JSON string" failure happens exactly for all-white-space text, and any other failure is "Failed to parse JSON after all attempts"; if the trimmed text parses directly, its value is returned; with fixing off, a failed direct parse is final |
| Pipeline.TryParseIsFirstSuccess | src/utils/jsonParser.ts:203-249 | the orchestrator returns the first success among direct, scanned, repaired and scanned-repaired text, in that order, or the fixed failure |
| Pipeline.TryParseRepairs | src/utils/jsonParser.ts:213-242 | once the direct parse fails with fixing on, the result is the first success among the scanned region, the repaired text and the region scanned out of it |
| Pipeline.FirstParseMeaning | src/utils/jsonParser.ts:292-298 | a first success is a text that parses with none parsing before it, and no success means no text parses |
| Pipeline.FirstParsePicks | src/utils/jsonParser.ts:292-298 | conversely, a text that parses, with none parsing before it, is the first success |
| Pipeline.Peel | src/utils/jsonParser.ts:260-286 | one unwrapping step happens exactly on an object whose `response` member is truthy and is an object, an array, or a string the orchestrator parses; it returns that member when the member is not a string, and the orchestrator's value of the member when it is |
| Pipeline.Unwrap | src/utils/jsonParser.ts:257-289 | for any unwrapping step, the loop's final value is reached from the input by as many successive steps as its counter has advanced; the counter never passes `maxAttempts`; and the loop stops before the bound only where no further step applies |
| Pipeline.UnwrapResponse | src/utils/jsonParser.ts:256-290 | with the default bound the result is the input after zero, one or two peels, and after exactly two whenever a further peel would still apply |
| Pipeline.UnwrapStops | src/utils/jsonParser.ts:260-286 | the value comes back unchanged when it is not an object, when `response` is missing or falsy, when it is a boolean or a number, and when it is a string that does not parse |
| Pipeline.NestedEnvelopes | src/utils/jsonParser.ts:256-260 | with the default bound of two, three nested envelopes lose exactly two layers |
| Pipeline.StringEnvelope | src/utils/jsonParser.ts:262-268 | a `response` string that the orchestrator parses, directly or after scanning or repair, to an object without `response` is replaced by that object |
| Pipeline.ParseLLMJson | src/utils/jsonParser.ts:9-17 | the invalid-input failure happens exactly for a missing, non-string or empty response, and any other failure is "No valid JSON found in the response" |
| Pipeline.Fallback | src/utils/jsonParser.ts:292-315 | the candidates, then the whole response, then the aggressive region are tried in order, and the result is the first success among them |
| Pipeline.DriverIsFirstSuccess | src/utils/jsonParser.ts:292-322 | for a non-empty string the driver returns the unwrapped value of the first of its texts the orchestrator parses, and the no-JSON failure if none parses |
| Pipeline.FirstParsedCandidateWins | src/utils/jsonParser.ts:292-298 | a candidate that parses, with every earlier candidate failing, decides the result; the whole response is then never tried |
| Pipeline.BlankResponseFails | src/utils/jsonParser.ts:300-322 | a blank response whose pattern captures are blank ends in the no-JSON failure |

## Left out

- The regex-driven repair passes (lines 35-37, 57, 61, 64-72) are opaque functions in `Repair.RegexPasses`. Their regular-expression semantics are not modelled.
- The extractor's five patterns (lines 91, 100, 110, 122-123) are not modelled. Each tier is given as the capture texts its pattern finds, in `exec` order.
- `JSON.parse` is the parameter `Host.parse`. The model does not say which texts parse.
- The per-call repair cache (lines 20, 25-27, 82) is left out. It only memoises a pure function.
- The module-export plumbing (lines 325-338) and `src/App.tsx` are left out. They are not part of the parsing logic.
- Lengths and indices count Unicode scalar values, not UTF-16 code units. This matters only for the tier-4 length test `content.length > 10` on text outside the Basic Multilingual Plane.
- `response` is either a string or `None`, which stands for any non-string value.
- Repair.EscapedQuoteMatch: proves that a reported match is genuine but not that it is the leftmost one. The step is the identity whichever match is rewritten, so nothing depends on it.
- Repair.DropFinalComma: its contract only says that the result is a prefix. What is cut is stated by `Repair.DropFinalCommaMeaning`.
- Repair.StripEllipses: its contract omits which characters are deleted. `Repair.StripEllipsesDropsOnlyDots` states that only `.` and `…` can go, and `Repair.StripEllipsesKeepsPlainText` that text without `...` or `…` is unchanged. Which dots of a run of more than three go (three at a time from the left) is given only by the definition of `Text.ReplaceAll`.
- Repair.UnescapingDropsOnlyBackslashes: states only which characters may be deleted. Which backslashes are deleted is stated by `Repair.UnescapingDropsQuoteEscapes`.
- Repair.DropCommasBeforeClosers: its contract states only when the text changes. Which commas are deleted is stated by `Repair.DropCommasDeletesExactly`.
- Repair.UnescapeQuotes: its contract only bounds the length. What it deletes is stated by `Repair.UnescapingDropsQuoteEscapes`.
- Repair.Repair: its contract only states that no `…` remains. The other steps' properties are lemmas about the individual passes.

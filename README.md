# Lenient JSON recovery parser, modelled in Dafny

This project models the recovery parser of a browser extension that formats
JSON. The parser accepts quasi-JSON text and brings it into strict JSON. Such
text may be a JavaScript object literal, use bare keys or single quotes, hold
`key=value` pairs with HTML inside, or end in stray commas. The model covers
these parts:

- `parseEnhancedJSON` (json-utils.js, copied verbatim into tab.js). It runs
  three stages in order: strict decoding, decoding of the normalised text,
  and a trailing-comma repair. When all three fail it throws one message
  that gathers the errors. The popup.js copy has only the first two stages.
- `convertJsObjectToJson`, the object-literal normaliser. It strips
  declaration prefixes and statement suffixes, cuts the text at the first
  `{` or `[`, and runs a balance scan. In json-utils.js the scan also tracks
  HTML tags; in popup.js it does not. The truncated text is then reshaped:
  - json-utils.js uses the equals-style pair splitter or the colon-style
    rewrites;
  - popup.js uses `convertSingleQuotes` and `quotePropertyNames`.
- `isValueWithoutQuotes`, `buildQueryString` and the URL conversion of
  tab.js. The URL conversion finds the url and the post data with two
  regular expressions and joins a query string onto the URL.
- `attemptFixBrokenJSON` of popup.js. It brackets the text, quotes bare
  keys, strips comments, and closes strings left open at line ends.

How the model is built:

- Every regular expression is modelled as an explicit scan. Each scan
  follows JavaScript's leftmost, non-overlapping global-replace semantics.
- Every loop that changes variables becomes a `method` with a loop. Each
  method is proved equal to a specification function, and the properties
  are proved about those functions.
- `JSON.parse` is a parameter (`Json.Decoder`), and so is
  `encodeURIComponent` (`Query.Encoder`). The model never defines them, so
  every property holds for any decoder and encoder.

The model follows the code as written, including where it does not do what
its comments say. These places are exhibited by lemmas:

- The balance scan records `endIndex` at every character where both
  counters are zero, not only at a closing bracket. So text after the
  top-level value that holds no quote, tag or bracket is not cut off
  (`Scanner.PlainTailIsKept`). The comment at json-utils.js:62 says the
  scan looks for the last matching `}` or `]`.
- `htmlTagLevel` drops below zero on a stray `>`
  (`Scanner.TagLevelGoesNegative`, `Tags.StrayCloserKeepsTagOpen`).
- The equals-style branch is taken whenever the text contains `=`, even
  inside a string or an array (`Normalizer.ArrayWithEqualsBecomesObject`).
- The colon-style rewrites ignore strings (`ColonStyle.QuotingIgnoresStrings`).
  Of a run of commas before a closer, only the last comma goes
  (`ColonStyle.DropCommaRunExample`).
- `quotePropertyNames` copies the whitespace after `{` or `,` twice when no
  key follows (`Quoting.SpaceAfterOpenerDoubled`).
- The post-data pattern is lazy. An object nested in the post data is cut
  at its first `}` (`Request.PostDataStopsAtFirstBrace`).
- A key whose value is an empty object contributes an empty piece to the
  query string (`Query.EmptyObjectGivesBlankPiece`).
- `attemptFixBrokenJSON` removes `//` wherever it stands, inside strings
  too (`Repair.LineCommentInStringExample`). Block comments are removed
  across line breaks (`Repair.BlockCommentExamples`). The quote it appends
  does not close the string when the line ends in a backslash
  (`Repair.BackslashKeepsStringOpen`).

## Model

| member | source | states |
|---|---|---|
| Text.Trim | json-utils.js:45 | the trimmed text is no longer than the input and is empty or starts and ends with a non-space character |
| Text.TrimStart | json-utils.js:45 | the text loses exactly its leading run of whitespace and then starts with a non-space |
| Text.TrimEnd | json-utils.js:45 | the text loses exactly its trailing run of whitespace and then ends with a non-space |
| Text.SkipSpaces | json-utils.js:155-159 | the whitespace-skipping loop stops at the first non-space index at or after its start |
| Text.TrimKeepsCharacters | json-utils.js:45 | trimming keeps characters of the text only |
| Text.JoinSplit | popup.js:482-509 | splitting on a character and joining with it gives the text back |
| Text.SplitJoin | popup.js:482-509 | splitting a join of separator-free parts gives the parts back |
| Tags.TagLevelIsBalance | json-utils.js:140-149 | the tag level is the number of `<` minus the number of `>`, with no floor at zero |
| Tags.TagStep | json-utils.js:76-84 | one character of the tag tracking; no contract of its own, characterised by TagLevelIsBalance and NoOpenNoTag |
| Tags.NoOpenNoTag | json-utils.js:140-149 | text without `<` is never inside a tag |
| Tags.StrayCloserKeepsTagOpen | json-utils.js:193-200 | a stray `>` makes the level negative, after which a `<` enters a tag that a later `>` does not leave |
| Scanner.ScanAt | json-utils.js:71-109 | every state of the scan is consistent: never in a string and a tag at once, a quote character exactly while in a string, and no tag at all in the popup.js variant |
| Scanner.Step | json-utils.js:72-108 | one iteration of the balance loop (popup.js:98-122 without the tag part); no contract of its own, characterised by ScanAt, QuoteClosesOnlyOnOpener and StringAndTagExcludeEachOther |
| Scanner.LastBalance | json-utils.js:104-106 | the recorded index is the last position after which both counters are zero outside a string and a tag |
| Scanner.Truncated | json-utils.js:111-113 | the text is cut after the recorded index when there is one, and left whole otherwise |
| Scanner.BalanceScan | json-utils.js:63-109 | the loop returns exactly the last balanced index, or -1 |
| Scanner.Truncate | json-utils.js:111-113 | the cut gives the truncated text |
| Scanner.QuoteClosesOnlyOnOpener | json-utils.js:88-96 | a string closes only on an unescaped copy of the quote that opened it |
| Scanner.StringAndTagExcludeEachOther | json-utils.js:76-98 | inside a string `<` and `>` leave the tag state alone; inside a tag the string state is frozen |
| Scanner.PlainTailIsKept | json-utils.js:104-113 | after a balanced point, a tail with no quote, tag or bracket is kept untruncated |
| Scanner.PlainTailStaysBalanced | json-utils.js:98-106 | such a tail keeps the scan balanced at every position |
| Scanner.VariantsAgreeWithoutTags | popup.js:98-122 | on text without `<` or `>` the popup.js scan and the HTML-aware scan agree at every position |
| Scanner.TruncationAgreesWithoutTags | popup.js:124-126 | on such text both variants truncate alike |
| Scanner.TagLevelGoesNegative | json-utils.js:79-84 | a lone `>` outside a string drives `htmlTagLevel` to -1 |
| Prepass.DeclarationEnd | json-utils.js:48 | the declaration match needs whitespace after the keyword and ends at the last `=` before the first `{` |
| Prepass.StripDeclaration | json-utils.js:48 | the text loses everything up to and including that `=`, or stays whole without a match |
| Prepass.SuffixFrom | json-utils.js:49 | the suffix match starts at the leftmost `;` with no `}` after it |
| Prepass.StripStatementSuffix | json-utils.js:49 | the text is cut at that `;`, and is a prefix of its input |
| Prepass.SemicolonsPrecedeABrace | json-utils.js:49 | every `;` left has a `}` somewhere after it |
| Prepass.FirstOpener | json-utils.js:52 | the first index holding `{` or `[` |
| Prepass.FromFirstOpener | json-utils.js:52-60 | none exactly when no opener occurs; otherwise the suffix from the first opener, with no opener before it |
| Prepass.DeclarationKeepsFirstBrace | json-utils.js:48 | the declaration prefix never swallows a `{` after the keyword |
| Prepass.OpenerStartsNoKeyword | json-utils.js:48 | text that does not start with an identifier character has no declaration prefix and stays whole |
| Prepass.DeclarationExample | json-utils.js:48 | `var x = {` loses `var x =` |
| Prepass.NoKeywordExample | json-utils.js:48 | `varx = {` is no declaration and stays whole |
| Prepass.SuffixExamples | json-utils.js:49 | `{a};x` loses `;x`, while `{a;b}` keeps its `;` |
| EqualsStyle.StripOuterBraces | json-utils.js:122-128 | the content is the trimmed text from after its leading `{`, if it has one, up to before one trailing `}`, which goes exactly when the rest ends in `}` |
| EqualsStyle.Segments | json-utils.js:137-174 | the text cut at the separator commas gives at least one segment |
| EqualsStyle.JoinSegments | json-utils.js:137-174 | no character is lost: the segments joined with `,` give the content back |
| EqualsStyle.JoinSegmentsUpTo | json-utils.js:137-174 | at every point of the scan, the closed segments and the open one, joined with `,`, are the text read so far |
| EqualsStyle.SegmentCount | json-utils.js:153-170 | the scan closes as many pairs as there are separator commas, ones outside a tag and before an identifier start |
| EqualsStyle.SeparatorPositions | json-utils.js:153-165 | the separator commas below a position, in increasing order, and all of them |
| EqualsStyle.CutsAtSeparators | json-utils.js:137-174 | the text is cut exactly at the separator commas: the k-th closed pair is the text between the (k-1)-th and the k-th separator, and the open pair is what follows the last one |
| EqualsStyle.SplitPairs | json-utils.js:131-179 | the splitting loop gives the trimmed segments, the last one only when it is not blank |
| EqualsStyle.FirstEquals | json-utils.js:186-205 | the first `=` outside a tag, or -1 when there is none |
| EqualsStyle.FirstEqualsFrom | json-utils.js:186-205 | the first `=` outside a tag at or after a position, with none before it, or -1 |
| EqualsStyle.FindEquals | json-utils.js:186-205 | the search loop stops at that `=` |
| EqualsStyle.Escape | json-utils.js:212 | every `"` of the escaped value is preceded by a backslash |
| EqualsStyle.UnescapeEscape | json-utils.js:212 | escaping loses nothing: the value can be read back |
| EqualsStyle.EmitPairs | json-utils.js:182-219 | the emitting loop gives `{` + the entries joined by `, ` + `}` |
| EqualsStyle.KeyValuesConcat | json-utils.js:184-216 | pairs are processed in order, each on its own |
| EqualsStyle.OneEntryPerSplittablePair | json-utils.js:207-215 | there is one entry per pair with an `=` outside a tag, and the other pairs are dropped |
| EqualsStyle.EqualsReshaped | json-utils.js:119-219 | the whole equals-style branch; no contract of its own, characterised by StripOuterBraces, CutsAtSeparators, SplitPairs, OneEntryPerSplittablePair and EmitPairs |
| ColonStyle.DropWithoutMatchIsIdentity | json-utils.js:223 | text with no comma before a closer is unchanged |
| ColonStyle.DropTrailingCommasFrom | json-utils.js:223 | the trailing-comma replace; no contract of its own, characterised by DropTrailingCommasIsMask, DropRemovesMatches and DropKeepsOthers |
| ColonStyle.DropKeepsOthers | json-utils.js:223 | the trailing-comma rewrite touches only commas and whitespace: the characters other than `,` and whitespace survive, in order |
| ColonStyle.DropMask | json-utils.js:223 | a position is deleted exactly when it holds a comma that, after whitespace, stands before `}` or `]`, or is whitespace between such a comma and the closer |
| ColonStyle.DropRemovesMatches | json-utils.js:223 | from any point outside a match, the scan gives the text less exactly the deleted positions, in order |
| ColonStyle.DropTrailingCommasIsMask | json-utils.js:223 | the whole rewrite is the text less exactly those positions: every match goes, and nothing else |
| ColonStyle.DropExample | json-utils.js:223 | `[, ]` becomes `[]` |
| ColonStyle.DropCommaRunExample | json-utils.js:223 | `,,}` becomes `,}`, because matches do not overlap |
| ColonStyle.QuoteColonKeysFrom | json-utils.js:226 | the key-quoting replace; no contract of its own, characterised by NoBareKeyLeft, QuoteColonKeysIdempotent and QuotingKeepsOthers |
| ColonStyle.KeyColonMatches | json-utils.js:226 | the key pattern matches exactly where an identifier starts and, after whitespace, a `:` follows its longest run; the match ends with the identifier |
| ColonStyle.KeyColonAtIs | json-utils.js:226 | the same, with the identifier end and the end of the whitespace after it given |
| ColonStyle.QuotingKeepsOthers | json-utils.js:226 | the key rewrite touches only quotes and whitespace: the characters other than `"` and whitespace survive, in order |
| ColonStyle.NoBareKeyLeft | json-utils.js:226 | the pattern matches nowhere in the output: no bare key before `:` is left |
| ColonStyle.QuoteColonKeysIdempotent | json-utils.js:226 | rewriting twice is rewriting once |
| ColonStyle.QuotingWithoutColonIsIdentity | json-utils.js:226 | text without `:` is unchanged |
| ColonStyle.QuotingExample | json-utils.js:226 | `a :1` becomes `"a":1` |
| ColonStyle.QuotingIgnoresStrings | json-utils.js:226 | the string `"a:"` is broken up too |
| Quoting.IsValueWithoutQuotes | tab.js:280-283 | no value is ever left unquoted |
| Quoting.QuoteAt | popup.js:137-164 | outside a string the quote type is empty; inside it is `"` or `'` |
| Quoting.SingleQuotedUpTo | popup.js:137-164 | the output has the input's length, with `"` at each toggling quote and the input character elsewhere |
| Quoting.ConvertSingleQuotes | popup.js:137-164 | the loop computes that output (tab.js:285-312 is the same code) |
| Quoting.OtherQuoteKindKept | popup.js:155-157 | inside a string, a quote of the other kind is copied and leaves the state alone |
| Quoting.StateHoldsBetweenToggles | popup.js:146-161 | between two toggles the state stays what the first made it |
| Quoting.ClosingMatchesOpening | popup.js:146-154 | a string closes on the same quote character that opened it |
| Quoting.NoSingleQuoteNoChange | popup.js:137-164 | text without `'` is unchanged |
| Quoting.SingleQuotedExample | popup.js:137-164 | `'a"b'`-style text keeps its inner `"` unescaped |
| Quoting.CopySpaces | popup.js:183-187 | the copying loop stops at the first non-space and copies what it passed |
| Quoting.ReadIdent | popup.js:190-195 | the name loop reads the longest identifier run |
| Quoting.NoQuoteSameParity | popup.js:174-178 | skipping text without `"` keeps the string state |
| Quoting.QuotePropertyNames | popup.js:166-214 | the loop, with its jump back to the key end, computes the quoted-names text (tab.js:314-362 is the same code) |
| Quoting.AfterKeyOpener | popup.js:180-207 | one step at `{` or `,` outside a string emits a prefix of the output and keeps the string state |
| Quoting.CopiedRun | popup.js:208-210 | characters inside strings, or no key opener, are copied as they are |
| Quoting.NoOpenerNoChange | popup.js:166-214 | text with no `{` or `,` outside a string is unchanged |
| Quoting.KeyIsQuoted | popup.js:189-206 | a key after `{` or `,` outside a string and before `:` is wrapped in `"` |
| Quoting.KeyStep | popup.js:180-206 | such a step emits the opener, its whitespace and the quoted key, and continues at the key end |
| Quoting.SpaceAfterOpenerDoubled | popup.js:180-207 | whitespace after `{` with no key behind it is copied twice |
| Quoting.KeyQuotedExample | popup.js:166-214 | `{a:1}` becomes `{"a":1}` |
| Normalizer.Located | json-utils.js:52-60 | an error with the fixed message exactly when no `{` or `[` is left, otherwise the text from the first opener |
| Normalizer.Normalized | json-utils.js:44-232 | the json-utils.js normaliser as a function; no contract of its own, characterised by ConvertJsObjectToJson, FailsOnlyWithoutOpener and BranchOnAnyEquals |
| Normalizer.PopupNormalized | popup.js:73-135 | the popup.js normaliser as a function; no contract of its own, characterised by PopupConvertJsObjectToJson and FailsOnlyWithoutOpener |
| Normalizer.ConvertJsObjectToJson | json-utils.js:44-232 | the normaliser gives the reshaped truncated text, or the error (tab.js:90-278 is the same code) |
| Normalizer.PopupConvertJsObjectToJson | popup.js:73-135 | the popup.js normaliser gives the quoted-names, single-quote-converted, HTML-unaware truncation, or the error |
| Normalizer.FailsOnlyWithoutOpener | json-utils.js:52-55 | both normalisers fail for the same inputs, with the same message, exactly when no opener is left |
| Normalizer.EqualsOutputIsBraced | json-utils.js:219 | the equals-style output always starts with `{` and ends with `}` |
| Normalizer.BranchOnAnyEquals | json-utils.js:119-227 | any `=` in the truncated text selects the equals branch; else the colon rewrites run |
| Normalizer.ArrayWithEqualsBecomesObject | json-utils.js:116-219 | the array `["="]` comes out as a braced object |
| Normalizer.UntouchedWithEquals | json-utils.js:116-219 | text the pre-passes and the cut leave alone goes to the equals branch whole |
| Normalizer.PrepassesLeaveBracketed | json-utils.js:45-49 | text that starts with `{` or `[`, ends in a non-space and holds no `;` is left alone by `trim` and both pre-passes |
| Normalizer.ArrayExampleUntruncated | json-utils.js:63-113 | the balance scan leaves `["="]` alone |
| Pipeline.ThreePartExtendsTwoPart | json-utils.js:35-37 | the three-stage message is the two-stage message with the repair error appended |
| Pipeline.ParseEnhancedJson | json-utils.js:4-41 | `parseEnhancedJSON` (tab.js:51-88 is the same code); no contract of its own, characterised by SucceedsIffAStageDoes, ErrorGathersAllStages, StrictJsonFirst, NormaliserSecond and RepairThird |
| Pipeline.PopupParseEnhancedJson | popup.js:58-71 | the two-stage popup.js parser; no contract of its own, characterised by StrictJsonFirst and PopupNormaliserSecond |
| Pipeline.LastCloser | json-utils.js:18-21 | the last index holding `}` or `]`, or -1 |
| Pipeline.StrictJsonFirst | json-utils.js:5-6 | strict JSON is returned as decoded, by both parsers |
| Pipeline.NormaliserSecond | json-utils.js:8-10 | after a strict failure, a successful normalised decode is the result |
| Pipeline.PopupNormaliserSecond | popup.js:58-70 | the popup.js parser succeeds after a strict failure exactly when the normalised decode does; otherwise it fails with the two-part message |
| Pipeline.RepairThird | json-utils.js:13-31 | the repair is tried only after both stages fail, and then decides the result |
| Pipeline.SucceedsIffAStageDoes | json-utils.js:4-41 | the parser succeeds exactly when one stage does, with the first successful stage's value |
| Pipeline.ErrorGathersAllStages | json-utils.js:34-37 | on failure both earlier stages failed and the message names their errors, then the repair's error or the two-part message |
| Pipeline.RepairDropsFinalComma | json-utils.js:14-27 | the repaired text is the trimmed text without its final comma, and trims to text ending in `}` or `]` |
| Pipeline.CloserThenCommaRepaired | json-utils.js:14-30 | a text ending in `}` or `]` followed by one comma is repaired to the text without that comma |
| Pipeline.RepairTrimmedDropsFinalComma | json-utils.js:16-27 | on repairable trimmed text the repair removes exactly the last character |
| Pipeline.RepairTrimmedValue | json-utils.js:16-27 | on repairable trimmed text the repaired text is that text less its last character |
| Pipeline.RepairedTrimsToCloser | json-utils.js:24-27 | that repaired text trims to text that ends in `}` or `]` |
| Pipeline.CloserPrecedesComma | json-utils.js:18-21 | on repairable text the last closer stands before the final comma |
| Pipeline.SpacesBeforeComma | json-utils.js:24-27 | between the last closer and the final comma there is only whitespace |
| Pipeline.TrimToCloser | json-utils.js:24-27 | text that starts with a non-space and has only whitespace after a closer trims to end at that closer |
| Pipeline.RepairRemovesComma | json-utils.js:27 | keeping text up to the closer and removing the final comma after it drops only the last character |
| Pipeline.RepairLeavesCloser | json-utils.js:24-27 | the repaired text trims to text that ends in the closer |
| Pipeline.CommaTail | json-utils.js:24-27 | a tail that trims to `,` is whitespace and one final comma, which the replacement removes |
| Query.BuildQueryString | tab.js:466-495 | the recursive builder gives the query string of the value, or the `hasOwnProperty` TypeError exactly when some object it walks has an own member of that name |
| Query.QueryString | tab.js:466-495 | the query string the builder returns when it does not throw; no contract of its own, characterised by QueryStringIsFields and QueryStringSplitsIntoFields |
| Query.Throws | tab.js:469-470 | when the walk meets an object with its own `hasOwnProperty` member; no contract of its own, characterised by ShadowingMemberThrows and the Grow lemmas |
| Query.PushMember | tab.js:469-491 | one key pushes a nested object's whole query string, one piece per array item, or one leaf, or passes on the TypeError of a nested call |
| Query.ShadowingMemberThrows | tab.js:470 | an object with an own `hasOwnProperty` member makes the walk throw, at the top or nested under a key |
| Query.MembersThrowGrow | tab.js:469-491 | a throw among the first members is a throw among more of them |
| Query.IndexThrowsGrow | tab.js:479-486 | the same for array items enumerated by index |
| Query.ItemsThrowGrow | tab.js:479-486 | the same for the items of an array value |
| Query.QueryStringIsFields | tab.js:466-495 | the query string is the flat list of leaf fields, rendered and joined by `&`, and is empty exactly when there are no pieces |
| Query.MembersAreFields | tab.js:469-492 | the same for the members of an object |
| Query.IndexAreFields | tab.js:469-492 | the same for an array enumerated by index keys |
| Query.CharsAreFields | tab.js:469-492 | the same for a string enumerated by characters |
| Query.MemberIsFields | tab.js:471-490 | the same for one key |
| Query.NestedIsFields | tab.js:474-476 | a nested object's query string is its fields under the longer path |
| Query.ItemsAreFields | tab.js:479-486 | the same for the items of an array value |
| Query.ItemIsFields | tab.js:480-485 | an item gives at least one field |
| Query.RenderAllAppend | tab.js:494 | rendering distributes over concatenation |
| Query.QueryStringSplitsIntoFields | tab.js:494 | with an encoder that never yields `&`, splitting the query string at `&` gives back one rendered field per leaf |
| Query.RenderedHaveNoAmpersand | tab.js:484-489 | with such an encoder no rendered field holds `&` |
| Query.EmptyObjectGivesBlankPiece | tab.js:474-476 | a key whose value is an empty object contributes one empty piece |
| Query.NestedKeyPath | tab.js:472-489 | a nested primitive gets the path `parent[child]`, and `null` is rendered as `null` |
| Query.ArrayItemPaths | tab.js:477-486 | array items get the paths `key[0]`, `key[1]`, in order |
| Request.UrlQuoteFrom | tab.js:506 | the first index holding one of the three quote characters |
| Request.UrlAt | tab.js:506 | a url match yields a non-empty group without quote characters |
| Request.UrlFrom | tab.js:506 | so does the leftmost match |
| Request.PostDataAt | tab.js:514 | a post-data match runs from `{` to the first `}` after it |
| Request.PostDataFrom | tab.js:514 | so does the leftmost match |
| Request.ConvertRequestToUrl | tab.js:497-546 | `convertRequestToUrlWithQuery` with its status messages as errors; no contract of its own, characterised by ConversionFailures, JoinUrlSplits and ConvertedUrlCarriesFields |
| Request.ConversionFailures | tab.js:497-528 | the conversion fails exactly on an empty input, a missing url, post data that does not parse, or post data whose walk throws the `hasOwnProperty` TypeError, each with its own message |
| Request.JoinUrlSplits | tab.js:531-537 | the result is the URL, one separator and the query string; the separator is `&` exactly when the URL has a `?` |
| Request.NoQueryKeepsUrl | tab.js:531-532 | an empty query string leaves the URL as it is |
| Request.UrlIsClean | tab.js:506-511 | the URL found has no quote character and no whitespace at either end |
| Request.PostDataStopsAtFirstBrace | tab.js:514 | the post data holds exactly one `}`, its last character |
| Request.ConvertedUrlCarriesFields | tab.js:497-537 | with an encoder that never yields `&`: when the post data parses, its walk does not throw and it gives a non-empty query string, the result is the URL, a separator, and the rendered fields |
| Request.UrlCarriesFields | tab.js:523-537 | the URL join carries one rendered field per leaf after the separator |
| Repair.BraceInFrontOpens | popup.js:465-467 | prepending `{` makes the trimmed text start with an opener |
| Repair.BraceBehindCloses | popup.js:470-472 | appending `}` keeps that start and makes the trimmed text end with a closer |
| Repair.Wrapped | popup.js:464-472 | steps 1 and 2; no contract of its own, characterised by WrappedIsBracketed and WrappedOnlyWhenNeeded |
| Repair.WrappedIsBracketed | popup.js:464-472 | after steps 1 and 2 the trimmed text starts with `{` or `[` and ends with `}` or `]` |
| Repair.WrappedOnlyWhenNeeded | popup.js:464-472 | the text is left as it is exactly when it is already bracketed; otherwise only `{` and `}` are added around it |
| Repair.KeysQuotedKeepsOthers | popup.js:475 | the key rewrite touches only quotes and whitespace: the characters other than `"` and whitespace survive, in order |
| Repair.KeysQuotedFrom | popup.js:475 | the step-3 replace; no contract of its own, characterised by NoOpenedKeyLeft, KeysQuotedIdempotent and KeysQuotedKeepsOthers |
| Repair.NoOpenedKeyLeft | popup.js:475 | the pattern matches nowhere in the output: no bare key after `{` or `,` and before `:` is left |
| Repair.KeysQuotedIdempotent | popup.js:475 | rewriting twice is rewriting once |
| Repair.KeysQuotedWithoutColonIsIdentity | popup.js:475 | text without `:` is unchanged |
| Repair.KeysQuotedExample | popup.js:475 | `{a:1` becomes `{"a":1` |
| Repair.KeysQuotedSpacedExample | popup.js:475 | `{ a :1` becomes `{ "a":1`: the whitespace after the opener stays, the whitespace before `:` goes |
| Repair.KeyAtStartStaysBare | popup.js:475 | a key not preceded by `{` or `,` is not quoted |
| Repair.LineEnd | popup.js:478 | the end of the comment is the next line terminator, or the end of the text |
| Repair.LineCommentsStrippedFrom | popup.js:478 | the step-4 line-comment replace: no `//` is left, and the first character is kept unless a comment starts there; characterised in full by LineCommentsStrippedIsMask |
| Repair.CommentMask | popup.js:478 | a position is deleted exactly when it belongs to a line after the first `//` of that line |
| Repair.CommentReaches | popup.js:478 | a `//` covers every later position of its line |
| Repair.CommentStartOf | popup.js:478 | every deleted position has a `//` at or before it with no line terminator in between |
| Repair.LineCommentsRemoved | popup.js:478 | from any line-fresh point, the scan gives the text less exactly the deleted positions, in order |
| Repair.LineCommentsStrippedIsMask | popup.js:478 | the whole rewrite cuts each line at its first `//` and keeps the rest |
| Repair.LineCommentStep | popup.js:478 | at a `//` the scan resumes at the line end, skipping no line terminator |
| Repair.LineCommentsKeepLines | popup.js:478 | every line terminator is kept, in order |
| Repair.LineCommentInStringExample | popup.js:478 | the string `"//"` loses its closing quote |
| Repair.BlockCloseFrom | popup.js:479 | a comment closer at or after the given index, or none when there is no closer there |
| Repair.BlockCommentsStrippedFrom | popup.js:479 | the step-4 block-comment replace, never longer than its input; characterised in full by BlockCommentsLeftmost and BlockCloseIsFirst |
| Repair.BlockCloseIsFirst | popup.js:479 | the closer found is the first `*/` at or after the index: the match is lazy |
| Repair.BlockCommentsLeftmost | popup.js:479 | the output is the text up to the leftmost match, then the output after that match's first closer: matches are disjoint, each from `/*` to the first `*/` after it |
| Repair.BlockStripWithoutMatchIsIdentity | popup.js:479 | text where the pattern matches nowhere is unchanged |
| Repair.BlockStripWithoutOpenIsIdentity | popup.js:479 | text without a comment opener is unchanged |
| Repair.BlockCommentExamples | popup.js:479 | a comment spanning a line break is removed and joins the lines; an unclosed opener stays |
| Repair.BlockCommentCanReappear | popup.js:479 | one pass can leave a comment that removing another one formed: `//**/**/` becomes `/**/`, which a second pass removes |
| Repair.AtMostOneQuoteAppended | popup.js:500-506 | a line gains at most one quote, only when it ends inside a string and is not the last line |
| Repair.LineCountKept | popup.js:482-509 | step 5 keeps the line count: the result splits into the repaired lines |
| Repair.QuoteAtPrefix | popup.js:488-499 | the quote state of a line prefix does not depend on what follows |
| Repair.AppendedQuoteCloses | popup.js:500-506 | the appended quote closes the string unless the line ends in a backslash |
| Repair.BackslashKeepsStringOpen | popup.js:488-506 | after a line ending in a backslash, the appended quote is escaped and the string stays open |
| Repair.ScanLine | popup.js:488-499 | the inner loop, starting outside a string, ends in the quote state of the whole line |
| Repair.ClosedLines | popup.js:482-509 | step 5 repairs every line on its own, the last line without an appended quote |
| Repair.CloseOpenStrings | popup.js:482-509 | the loop over the array of lines repairs each line in place |
| Repair.FixedBroken | popup.js:461-512 | `attemptFixBrokenJSON` as a function; no contract of its own, characterised by AttemptFixBrokenJson, ClosedLines and LineCountKept |
| Repair.AttemptFixBrokenJson | popup.js:461-512 | the whole repair: steps 1 to 4, then the lines closed one by one, joined with newlines |

## Left out

- The page wiring is not modelled: DOM access, status messages, timers,
  the example loaders, clipboard and storage. The same goes for
  background.js and `syntaxHighlight`: they are user interface and display
  markup, not parsing.
- `JSON.parse` and `encodeURIComponent` are not defined. They are
  parameters, so the results hold for any decoder and encoder. Error
  messages of `JSON.parse` are whatever the decoder returns.
- There is no general regular-expression engine. Each pattern is
  re-expressed as the scan it amounts to.
- Whitespace for `trim` and `\s` is one fixed set of characters: the ASCII
  whitespace, no-break space, line and paragraph separators and the byte
  order mark. The other Unicode space separators are left out.
- Strings are sequences of Dafny characters, not of UTF-16 code units.
  Splitting a surrogate pair, for example in `for...in` over a string or
  in `substring`, is not modelled.
- The `inValuePart` flag of the pair splitter is set but never read; it is
  left out.
- The outer catch-all `catch` of the URL conversion is left out. Of the
  exceptions the inner `catch` around the post data reports, the model
  has the parse failure and the TypeError of `obj.hasOwnProperty(key)` on
  an object with its own `hasOwnProperty` member. That message is fixed to
  the wording of V8 (`obj.hasOwnProperty is not a function`); other
  engines word it differently.
- Query.BuildQueryString: the encoder `Query.Encoder` is a total function,
  so the URIError that `encodeURIComponent` throws on a lone surrogate
  (tab.js:484 and tab.js:489, with post data such as `{"a":"\uD800"}`) is
  not modelled; the builder never fails for that reason.
- Request.ConversionFailures: for the same reason its list of failures
  leaves out the post-data failure the URIError causes; for an encoder
  that can throw the source fails on more inputs than the four listed.
- `for...in` is taken to enumerate an object's members in the order of the
  decoded member list, and arrays and strings by index. JavaScript puts
  integer-like keys first; that reordering is not modelled.
- Duplicate keys in a decoded object are kept as separate members.
- `attemptFixBrokenJSON` is not called anywhere in the program. It is
  modelled on its own, not as a stage of the parser.
- Repair.AttemptFixBrokenJson: the line loop is a method of its own,
  `Repair.CloseOpenStrings`, and its per-line scan is another,
  `Repair.ScanLine`, rather than one nested loop inside the function.
  The state carried from line to line is always outside a string at a
  line start, so the two agree.

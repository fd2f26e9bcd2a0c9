# BFL playground image-editing automation: a verified model of its decision logic

The repository drives the BFL image-editing playground in a browser. It loads
the session cookies from a Netscape/curl `cookies.txt` jar, uploads an image,
types a prompt, presses the generate button and picks the result image(s) off
the page. There are two entry points: `editImageWithPlaywright` in
`imageEditor.js` and the `POST /edit-image` handler in `index.js`.

Almost all of the code calls the Playwright browser library. This model keeps
the deterministic decisions made around those calls:

* **The two cookie-jar parsers.**
  * `parseCookieFile` (imageEditor.js) and `parseCookiesFile` (index.js).
  * Both are modelled as `for` loops over the lines. Each is proved equal to a
    line-by-line specification function.
  * The JavaScript built-ins that the parsers and the locator code rely on are
    written out in `JsText`: `split`, `trim`, `startsWith`, `includes`,
    `toUpperCase`, `parseInt(s, 10)` and `Number`.
  * A jar writer (`CookieJar`), built on a modelled `join`, lets the model
    state read-back round trips.
  * `CookieVariants` proves how the two parsers differ.
* **The page as an oracle (`PageOracle`).**
  * For each selector: the elements it matches, in document order. Some
    selectors make the query throw.
  * What the file-input probe finds after an upload area is clicked.
  * For each element: its `src` attribute and property, whether it is
    enabled, whether it is visible, and its size.
* **The ordered fallbacks.**
  * The upload, prompt and generate-button loops of index.js.
  * The result-selector scan of imageEditor.js.
  * Each is a `for` loop whose contract says which selector wins and what the
    variable holds afterwards.
  * This includes the generate-button quirk: when no enabled button is found,
    the button is whatever the last probe that did not throw returned.
* **Result selection.**
  * The polling passes and the `logo`/`icon` fallback filter of index.js.
  * The last-large-visible-image fallback and the `success`/`partial_success`
    outcome of imageEditor.js.
  * The whole `POST /edit-image` handler: which failure is reported, and what
    `resultImages` holds on success.

Modules and files:

| file | module | contents |
|---|---|---|
| wrappers.dfy | Wrappers | `Option`, `Result` |
| jstext.dfy | JsText | JavaScript string and number built-ins |
| seqs.dfy | Seqs | `filter`, `map`, subsequences |
| cookiejar.dfy | CookieJar | cookie record, jar lines, jar writer |
| editorcookies.dfy | EditorCookies | `parseCookieFile` of imageEditor.js |
| servicecookies.dfy | ServiceCookies | `parseCookiesFile` of index.js |
| cookievariants.dfy | CookieVariants | how the two parsers relate |
| pageoracle.dfy | PageOracle | the page oracle |
| editorresult.dfy | EditorResult | imageEditor.js result extraction |
| serviceflow.dfy | ServiceFlow | index.js request pipeline |

How the code behaves, in particular where the two entry points differ:

* **Missing cookie file in index.js.** index.js reads the cookie file with
  `readFileSync` and rethrows, so the request fails. Only imageEditor.js
  returns an empty list.
* **Empty name or value.** imageEditor.js keeps cookies whose name or value is
  empty. Only index.js drops them.
* **The "FALSE" sentinel.** It becomes `-1` in imageEditor.js but `NaN` in
  index.js.
* **An empty expiry.** It becomes `NaN` in imageEditor.js but `undefined` in
  index.js.
* **`-1` from a number.** In imageEditor.js an expiry field reading `-1` also
  gives `-1`.
* **No visibility wait.** Selector loops take the first element `page.$` finds.
  They do not wait for a visible one.

## Model

| member | source | states |
|---|---|---|
| JsText.Split | index.js:15 | `split` on one character yields at least one piece |
| JsText.SplitPiecesFree | index.js:15 | no piece of a split contains the separator |
| JsText.JoinSplit | index.js:24 | joining the pieces of a split with the separator gives back the original line |
| JsText.SplitJoin | index.js:24 | splitting a join of separator-free pieces gives back exactly those pieces |
| JsText.SplitConcat | index.js:15 | splitting `a + sep + b` is the pieces of `a` followed by the pieces of `b` |
| JsText.SplitLength | index.js:24-26 | a line has one more tab-separated part than it has tabs |
| JsText.TrimStart | index.js:20 | the result is a suffix of the input and everything dropped before it is white space; it is empty iff the input is all white space; otherwise it starts with a non-space character |
| JsText.TrimEnd | index.js:20 | the result is a prefix of the input and everything dropped after it is white space; it is empty iff the input is all white space; otherwise it ends in a non-space character |
| JsText.TrimEmptyIff | imageEditor.js:28 | `line.trim() === ''` holds exactly for all-white-space lines |
| JsText.DigitPrefix | imageEditor.js:42 | `parseInt` reads the longest all-digit prefix |
| JsText.Decimal | imageEditor.js:42 | the decimal text of a number is a non-empty digit string |
| JsText.DecimalValue | imageEditor.js:42 | the digits of a number's decimal text evaluate back to that number |
| JsText.DigitsRead | index.js:39 | a digit string that evaluates to `n` reads back as `n` under both `parseInt` and `Number` |
| JsText.NegatedDigitsRead | index.js:39 | the same digits after a minus sign read back as `-n` under both |
| JsText.DecimalRoundTrip | index.js:39 | both `parseInt(s, 10)` and `Number(s)` read back the decimal text of any integer, signed or not |
| JsText.ParseIntDiffersFromNumber | imageEditor.js:42 | `parseInt` stops at trailing text and gives 12, while `Number` gives NaN on the same string |
| JsText.StartsWith | index.js:20 | `startsWith`: the prefix test; characterised by its use in `CookieJar.LineCommentIff` and `EditorCookies.HttpOnlyLinesDropped` |
| JsText.Includes | index.js:315 | `includes`: some position begins an occurrence; characterised by `JsText.IncludesAt` and `JsText.IncludesWitness` |
| JsText.Trim | index.js:20 | `trim`: both ends stripped of white space; characterised by `JsText.TrimStart`, `JsText.TrimEnd` and `JsText.TrimEmptyIff` |
| JsText.ToUpperCase | index.js:40-42 | `toUpperCase` on ASCII letters; characterised by `ServiceCookies.TrueIgnoringCaseIff` |
| JsText.ParseInt | imageEditor.js:42 | `parseInt(s, 10)`; characterised by `JsText.DigitPrefix`, `JsText.DecimalRoundTrip` and `JsText.ParseIntDiffersFromNumber` |
| JsText.ToNumber | index.js:39 | `Number` on strings; characterised by `JsText.DecimalRoundTrip`, `JsText.ParseIntDiffersFromNumber` and `CookieVariants.FalseIsNaN` |
| JsText.IncludesAt | index.js:315 | a string includes every substring found at some position |
| JsText.IncludesWitness | index.js:342 | whenever a string includes `sub`, there is a position where `sub` occurs |
| JsText.IncludesInConcat | index.js:337 | `a + sub + b` includes `sub` |
| Seqs.Filter | index.js:337-343 | a filter's output is no longer than its input, and every kept element passes the test |
| Seqs.Map | index.js:334-336 | `map` keeps the length and applies the function pointwise |
| Seqs.FilterMembership | index.js:342-344 | an element is kept iff it is in the input and passes the test |
| Seqs.FilterAppend | index.js:337-344 | filtering a concatenation is the concatenation of the filtered parts |
| Seqs.FilterTwice | index.js:337-344 | two filters in a row equal one filter whose test is the conjunction of both tests |
| Seqs.FlatMap | imageEditor.js:26-48 | the per-line outputs concatenated in line order, which both cookie loops build; characterised by `Seqs.FlatMapAppend`, `Seqs.FlatMapOne`, `Seqs.FlatMapCount` and `Seqs.FlatMapShorter` |
| Seqs.FirstNonEmpty | index.js:303-329 | the first non-empty output along a sequence, which the polling loop returns; characterised by `Seqs.FirstNonEmptyIsFirst` |
| Seqs.FlatMapAppend | imageEditor.js:26-48 | lines contribute their cookies independently and in file order |
| Seqs.FlatMapOne | imageEditor.js:26-48 | the cookies of a single line are what that line contributes |
| Seqs.FlatMapCount | imageEditor.js:26-48 | when each line yields one cookie if kept and none otherwise, there are as many cookies as kept lines |
| Seqs.FlatMapShorter | index.js:18-45 | when each line yields no more under one parser than another, the whole file does not either |
| Seqs.FirstNonEmptyIsFirst | index.js:303-329 | the first non-empty output is empty iff every output is, and otherwise it is the output of the first element whose output is not empty |
| Seqs.FilterLast | imageEditor.js:274-298 | a filter keeps nothing iff no element passes; otherwise its last element is the last input element that passes |
| Seqs.FilterEmptyIff | imageEditor.js:274-298 | a filter keeps nothing iff no element passes |
| Seqs.FilterLastKept | imageEditor.js:274-298 | a non-empty filter's last element is an input element that passes, after which none passes |
| Seqs.FilterIsSubsequence | index.js:337-344 | a filter preserves the order of its input |
| Seqs.SubsequenceOfTail | index.js:337-344 | a subsequence of the tail is a subsequence of the whole sequence |
| Seqs.SubsequenceDropHead | index.js:337-344 | a subsequence stays one after its first element is removed |
| CookieJar.Lines | index.js:15 | `content.split('\n')`; characterised by `CookieJar.JarTextLines` and the `JsText` split lemmas |
| CookieJar.Parts | index.js:24 | `line.split('\t')`; characterised by `CookieJar.LineOfSplits` and `JsText.SplitLength` |
| CookieJar.IsComment | index.js:20 | the comment test; characterised by `CookieJar.LineCommentIff` and `EditorCookies.HttpOnlyLinesDropped` |
| CookieJar.IsBlank | index.js:20 | the blank-line test; characterised by `JsText.TrimEmptyIff` and `CookieJar.LineBlankIff` |
| CookieJar.FieldsOf | index.js:27 | the destructuring of a line's parts takes exactly the first seven parts |
| CookieJar.LineOfSplits | index.js:24-27 | a written line with no tab or line break in its fields splits back into exactly its seven fields |
| CookieJar.JoinWithout | index.js:15 | a joined line holds no line break when no field does |
| CookieJar.LineCommentIff | index.js:20 | a written line is a comment iff its domain field starts with `#` |
| CookieJar.LineBlankIff | index.js:20 | a written line is blank iff all seven fields are white space |
| CookieJar.JoinAllSpace | index.js:20 | a tab-joined line is all white space iff every field is |
| CookieJar.AllSpaceConcat | index.js:20 | a concatenation is all white space iff both parts are |
| CookieJar.JarTextLines | index.js:15 | the lines of a written jar file are the written cookie lines, one per cookie, in order |
| EditorCookies.StripDot | imageEditor.js:40 | a leading dot is removed and nothing else changes |
| EditorCookies.ParseCookieFile | imageEditor.js:16-52 | a missing file gives `[]`; otherwise the cookies are those of the file's `'\n'`-separated lines taken one at a time |
| EditorCookies.ExpiryOf | imageEditor.js:42 | the expiry rule; characterised by `EditorCookies.ExpiryMinusOne` |
| EditorCookies.CookieOf | imageEditor.js:37-46 | the cookie built from a line's fields; characterised by `EditorCookies.KeptLine`, `EditorCookies.SecureExactlyTrue` and `EditorCookies.WrittenLine` |
| EditorCookies.Kept | imageEditor.js:28-34 | the lines that yield a cookie; characterised by `EditorCookies.SkippedLine`, `EditorCookies.KeptLine` and `EditorCookies.CookieCount` |
| EditorCookies.LineCookies | imageEditor.js:26-48 | one line's contribution; characterised by `EditorCookies.SkippedLine`, `EditorCookies.KeptLine` and `EditorCookies.WrittenLine` |
| EditorCookies.CookiesOf | imageEditor.js:26-48 | the cookies of the lines, in order; characterised by `EditorCookies.ParseCookieFile`, `EditorCookies.KeptLine`, `EditorCookies.SkippedLine` and `EditorCookies.ReadWrittenJar` |
| EditorCookies.SkippedLine | imageEditor.js:28-34 | a comment, blank or short line contributes nothing wherever it stands |
| EditorCookies.KeptLine | imageEditor.js:33-46 | every other line contributes exactly one cookie, built from its first seven fields, at its own position; empty name or value is kept |
| EditorCookies.CookieCount | imageEditor.js:26-48 | the number of cookies is the number of kept lines |
| EditorCookies.ExtraFieldsIgnored | imageEditor.js:34-35 | fields after the seventh do not change the cookie |
| EditorCookies.LongerLine | imageEditor.js:28 | appending fields to a non-comment, non-blank line keeps it non-comment and non-blank |
| EditorCookies.StripOneDot | imageEditor.js:40 | `.x` becomes `x` and `..x` becomes `.x` |
| EditorCookies.ExpiryMinusOne | imageEditor.js:42 | on a line that yields a cookie, `expires` is -1 iff the fifth field is `FALSE` or parses to -1; otherwise it is `parseInt` of that field; it is never undefined |
| EditorCookies.SecureExactlyTrue | imageEditor.js:43-45 | on a line that yields a cookie, `secure` holds iff the fourth field is exactly `TRUE` (`true` gives false); `httpOnly` is false and `sameSite` is `Lax` |
| EditorCookies.HttpOnlyLinesDropped | imageEditor.js:28 | curl's `#HttpOnly_` lines count as comments and yield nothing |
| EditorCookies.WrittenLine | imageEditor.js:26-47 | a written clean, non-comment, non-blank line reads back as its cookie |
| EditorCookies.WrittenLines | imageEditor.js:26-48 | such lines read back as their cookies, in order |
| EditorCookies.ReadWrittenJar | imageEditor.js:22-48 | reading a written jar file gives back one cookie per written line, in order |
| ServiceCookies.AddDot | index.js:37 | the domain always ends up starting with `.`; it is unchanged if it already did, otherwise a dot is prepended |
| ServiceCookies.ParseCookiesFile | index.js:11-53 | an unreadable file gives the rethrown error; otherwise the cookies of the file's lines taken one at a time |
| ServiceCookies.HasCredentials | index.js:29-32 | domain, name and value are all non-empty; characterised by `ServiceCookies.SkippedLine` and `ServiceCookies.WrittenLine` |
| ServiceCookies.ExpiryOf | index.js:39 | the expiry rule; characterised by `ServiceCookies.ExpiryUndefinedIff` |
| ServiceCookies.CookieOf | index.js:34-43 | the cookie built from a line's fields; characterised by `ServiceCookies.KeptLine`, `ServiceCookies.FlagsIgnoreCase` and `ServiceCookies.WrittenLine` |
| ServiceCookies.IsTrueIgnoringCase | index.js:40-42 | the upper-cased comparison with `TRUE`; characterised by `ServiceCookies.TrueIgnoringCaseIff` |
| ServiceCookies.Kept | index.js:20-32 | the lines that yield a cookie; characterised by `ServiceCookies.SkippedLine`, `ServiceCookies.KeptLine` and `ServiceCookies.CookieCount` |
| ServiceCookies.LineCookies | index.js:18-45 | one line's contribution; characterised by `ServiceCookies.SkippedLine`, `ServiceCookies.KeptLine` and `ServiceCookies.WrittenLine` |
| ServiceCookies.CookiesOf | index.js:18-45 | the cookies of the lines, in order; characterised by `ServiceCookies.ParseCookiesFile`, `ServiceCookies.KeptLine`, `ServiceCookies.SkippedLine` and `ServiceCookies.ReadWrittenJar` |
| ServiceCookies.SkippedLine | index.js:20-32 | comment, blank and short lines, and lines with an empty domain, name or value, contribute nothing |
| ServiceCookies.KeptLine | index.js:24-43 | every other line contributes exactly one cookie at its own position |
| ServiceCookies.CookieCount | index.js:18-45 | the number of cookies is the number of kept lines |
| ServiceCookies.DotIdempotent | index.js:37 | every cookie's domain, for all fields, starts with `.`, and adding the dot twice changes nothing |
| ServiceCookies.ExpiryUndefinedIff | index.js:39 | on a line that yields a cookie, `expires` is undefined iff the fifth field is empty; otherwise it is `Number` of that field |
| ServiceCookies.TrueIgnoringCaseIff | index.js:40-42 | `toUpperCase() === 'TRUE'` accepts exactly the sixteen case spellings of `true` |
| ServiceCookies.FlagsIgnoreCase | index.js:40-42 | on a line that yields a cookie, `secure` holds iff the fourth field spells `true` in any mix of cases, and `httpOnly` iff the second does |
| ServiceCookies.WrittenLine | index.js:20-43 | a written line reads back as its cookie iff domain, name and value are non-empty, and otherwise as nothing |
| ServiceCookies.WrittenLines | index.js:18-45 | written lines read back as the cookies of those with credentials, in order |
| ServiceCookies.KeptCookiesSnoc | index.js:18-45 | appending one line's fields extends the expected cookies by that line's cookie, if it has credentials |
| ServiceCookies.ReadWrittenJar | index.js:14-45 | reading a written jar file gives the cookies of the written lines that have a domain, name and value, in order |
| CookieVariants.ServiceKeepsFewerLines | index.js:20-32 | every line index.js keeps, imageEditor.js keeps too |
| CookieVariants.ServiceYieldsFewerCookies | index.js:18-45 | on the same file, index.js never yields more cookies than imageEditor.js |
| CookieVariants.DomainsAgreeUpToDot | index.js:37 | adding a dot and then stripping one gives the same domain as only stripping one |
| CookieVariants.SameCookieUpToNormalisation | imageEditor.js:37-46 | on the same fields, the two cookies agree on name, value, path and sameSite and on the domain up to the dot; a secure cookie of imageEditor.js is secure in index.js too |
| CookieVariants.SameDecimalExpiry | index.js:39 | on a plain decimal expiry both parsers give the same number |
| CookieVariants.ExpirySentinelsDiffer | imageEditor.js:42 | `FALSE` gives -1 in imageEditor.js but NaN in index.js; an empty field gives NaN in imageEditor.js but undefined in index.js |
| CookieVariants.FalseIsNaN | index.js:39 | `Number("FALSE")` is NaN |
| PageOracle.Query | index.js:156-157 | `page.$` finds an element iff the query does not throw and something matches, and then it finds the first match |
| PageOracle.QueryAll | index.js:310 | `page.$$` returns all matches in document order unless it throws |
| EditorResult.ScanResultSelectors | imageEditor.js:234-265 | no element is found iff no selector matches; otherwise the first matching selector decides the element and its URL |
| EditorResult.UrlFor | imageEditor.js:251-258 | the URL a matched selector gives; characterised by `EditorResult.SelectorUrls` |
| EditorResult.SelectorUrls | imageEditor.js:250-258 | every listed selector except `canvas` reads `src` (including `[role="img"]`), `canvas` gives `canvas-element`, and the no-src branch is unreachable |
| EditorResult.SelectorMentionsImg | imageEditor.js:234-242 | every selector other than `canvas` contains `img` |
| EditorResult.CanvasHasNoImg | imageEditor.js:240 | `canvas` does not contain `img` |
| EditorResult.NotIncludes | imageEditor.js:251-253 | a string with no occurrence of `sub` at any position does not include it |
| EditorResult.LastLargeImage | imageEditor.js:272-298 | the last large visible image's source; characterised by `EditorResult.LastLargeImageIsLast` |
| EditorResult.IsLargeVisible | imageEditor.js:275-283 | the fallback's image test; characterised by `EditorResult.LastLargeImageIsLast` and `EditorResult.FallbackFindsImage` |
| EditorResult.LastLargeImageIsLast | imageEditor.js:268-298 | the fallback finds nothing iff no image is large, visible and non-`data:`; otherwise it takes the last such image's source |
| EditorResult.Outcome | imageEditor.js:303-322 | the returned object; characterised by `EditorResult.OutcomeTags` |
| EditorResult.Falsy | imageEditor.js:307 | `!resultImageUrl` for null or a string; characterised by `EditorResult.OutcomeTags` |
| EditorResult.OutcomeTags | imageEditor.js:307-322 | `partial_success` with no URL iff the URL is falsy, `success` with the URL otherwise; the screenshot is always a JPEG data URL of the capture |
| EditorResult.ExtractResult | imageEditor.js:234-322 | with no selector match, the outcome is built from the last-large-image fallback; with a match, from the first matching selector's URL |
| EditorResult.FallbackFindsImage | imageEditor.js:268-298 | when nothing matches but a large visible image exists, the outcome is `success` with the source of the last qualifying image, at or after any given one |
| EditorResult.NothingFoundIsPartial | imageEditor.js:307-315 | with no match and no large visible image, only the screenshot comes back |
| EditorResult.MatchWithoutSrcIsPartial | imageEditor.js:247-268 | a matched element without `src` skips the fallback and gives `partial_success` |
| ServiceFlow.FirstHit | index.js:154-164 | the variable stays unset iff no selector finds an element; otherwise it is what the first finding selector found |
| ServiceFlow.Reveals | index.js:179-184 | an upload area that exists and, once clicked, shows a file input; characterised by `ServiceFlow.RevealByClicking` |
| ServiceFlow.RevealByClicking | index.js:177-189 | the upload-area phase finds nothing iff no area both exists and reveals a file input after the click; otherwise it yields the input revealed by the first such area |
| ServiceFlow.ErrorMessage | index.js:193-194 | the thrown texts of the cookie, upload, prompt and button failures (also index.js:51, 234 and 283); used by `ServiceFlow.OperatePage` and `ServiceFlow.HandleEditImage` |
| ServiceFlow.ResolveUpload | index.js:145-196 | it succeeds iff an upload selector matches or an upload area reveals an input; the first phase has priority, and failure is the upload error |
| ServiceFlow.ResolvePrompt | index.js:207-235 | it succeeds iff a prompt selector matches, taking the first match; failure is the prompt error |
| ServiceFlow.ResolveGenerateButton | index.js:244-280 | if some selector finds an enabled button, the first such is taken; otherwise the result is what the last probe that did not throw returned |
| ServiceFlow.EnabledHit | index.js:273 | a selector finds an element that reports itself enabled; characterised by `ServiceFlow.ResolveGenerateButton` |
| ServiceFlow.LastProbe | index.js:269-280 | the answer of the last probe that did not throw; characterised by `ServiceFlow.LastProbeNone` and `ServiceFlow.LastProbeIsLastAnswer` |
| ServiceFlow.LastProbeNone | index.js:269-284 | with no enabled button the step fails iff every found element is followed by a later probe that finds nothing |
| ServiceFlow.LastProbeIsLastAnswer | index.js:269-280 | a remembered button was found by a probe after which every probe threw |
| ServiceFlow.ButtonQuirk | index.js:269-284 | a disabled button found by the last selector is still taken and handed to `click`, while a disabled one found by the first selector is lost and the step fails |
| ServiceFlow.IsResultSource | index.js:315 | the usable-source test; characterised by `ServiceFlow.ResultSources` and `ServiceFlow.ResultSourcesInOrder` |
| ServiceFlow.ResultSources | index.js:313-318 | the kept sources of one selector's elements are usable (non-empty, not the local image path, no `data:`), and every usable source is kept |
| ServiceFlow.ResultSourcesInOrder | index.js:313-318 | the kept sources are exactly the `src` attributes of the elements whose attribute is usable, one per such element, in element order |
| ServiceFlow.ResultSourcesAppend | index.js:313-318 | sources are collected in element order |
| ServiceFlow.Listed | index.js:310-311 | `$$` succeeds with at least one element; characterised by `ServiceFlow.FirstListed` and `ServiceFlow.CollectPass` |
| ServiceFlow.FirstListed | index.js:308-321 | it picks the first selector whose `$$` succeeds with at least one element |
| ServiceFlow.PassSources | index.js:308-324 | one pass's collection; characterised by `ServiceFlow.CollectPass` and `ServiceFlow.FirstListed` |
| ServiceFlow.CollectPass | index.js:308-324 | one pass collects the usable sources of the first selector that lists any element, possibly none |
| ServiceFlow.Poll | index.js:303-329 | the first non-empty pass; characterised by `ServiceFlow.PollFirstNonEmpty` |
| ServiceFlow.PollResults | index.js:303-329 | the polling loop's result is `Poll` of the passes seen before the deadline |
| ServiceFlow.PollFirstNonEmpty | index.js:303-329 | the polled result is empty iff every pass before the deadline collects nothing; otherwise it is what the first non-empty pass collected |
| ServiceFlow.IsRemoteSource | index.js:337 | the first fallback filter's test; characterised by `ServiceFlow.FallbackSourcesSpec` |
| ServiceFlow.IsNotDecoration | index.js:342 | the second fallback filter's test; characterised by `ServiceFlow.FallbackSourcesSpec` |
| ServiceFlow.FallbackSources | index.js:333-343 | the two chained filters over the image sources; characterised by `ServiceFlow.FallbackSourcesSpec` |
| ServiceFlow.FallbackSourcesSpec | index.js:331-344 | the fallback keeps exactly the image sources that are non-empty, not `data:`, contain `http` and contain neither `logo` nor `icon`, in page order |
| ServiceFlow.Missing | index.js:87 | a body field that is absent or empty; characterised by `ServiceFlow.HandleEditImage` (400 iff a field is missing) |
| ServiceFlow.ButtonFound | index.js:282 | the button step leaves something to click; characterised by `ServiceFlow.LastProbeNone` and `ServiceFlow.OperatePage` |
| ServiceFlow.OperatePage | index.js:145-344 | the steps on the opened page succeed iff the upload input is found and filled, the prompt is found and entered, the button is found and clicked, and the fallback (run only when polling found nothing) does not throw; otherwise the first failing step's error; on success the polled results, or the fallback's |
| ServiceFlow.HandleEditImage | index.js:84-363 | 400 iff a parameter is missing; otherwise success iff every step succeeds, including the element actions and the fallback scan; failure reports the first failing step, in handler order; success carries the polled results, or the fallback when polling found none, even when that is empty |

## Left out

- Browser control: every Playwright call (launch, contexts, navigation, waits, clicks, typing, file upload, screenshots) is left out, because it is a foreign library. The page is a snapshot per step. The failures of the download, launch and navigation, of `setInputFiles`, of the prompt's `click` and `fill`, of the button's `click` (which waits for the button to be enabled, so a disabled button ends there) and of the fallback's `$$eval` in index.js are parameters carrying the thrown message; why they fail is not modelled.
- EditorResult.ExtractResult: it never fails. In imageEditor.js a throw from the fallback's `page.evaluate` (imageEditor.js:272) or from `page.screenshot` (imageEditor.js:303) makes the function throw `Failed to edit image: ` followed by the message (imageEditor.js:337); that path is not modelled.
- In-page scripts of imageEditor.js:
  - The scripted fallbacks that dispatch DOM events (creating the drop zone, finding the prompt field, pressing submit).
  - The navigation and upload steps before result extraction.
  - Error-time screenshots.
  - These run inside the browser and are not decision logic over the page model.
- `waitForElementWithRetry` (index.js:71-82) is never called.
- Time:
  - The two-minute `Date.now()` polling bound becomes the sequence of page states the passes see before the deadline.
  - Fixed delays have no effect in the model.
- I/O:
  - Reading the cookie file becomes its content (or its absence).
  - The image download and temporary-file cleanup become a download error parameter and the local `imagePath`.
- EditorCookies.ParseCookieFile: a cookie file that exists but cannot be read makes `readFileSync` throw in imageEditor.js; the model only knows a present content or an absent file.
- Cookie-file error message: for an unreadable cookie file, the `ErrorMessage` text is only the prefix `Failed to parse cookies file: `. The file system's own message is not modelled.
- Logging: every `console` line (the missing-file warning, the cookie counts, each selector attempt) is left out; it has no effect on the results.
- HTTP: Express routing, the health endpoint and the `timestamp` fields are not modelled. The status-400 check is modelled on absent or empty string parameters only, not on other falsy JSON values.
- `context.addCookies` rejecting a cookie, and `browser.newContext` or `context.newPage` failing, are folded into the navigation and launch error parameters, since the browser library is not modelled.
- PageOracle: `getAttribute` is modelled as never throwing. In index.js a throw part-way through a pass would keep the sources already pushed and move on to the next selector; that is not modelled.
- PageOracle: element sizes are whole pixels, not floats.
- The upload-area probe is one recorded answer per area, since clicking has effects outside the model.
- JsText.ParseInt: values are exact integers; `-0` (as from `parseInt("-0")`) and the rounding of doubles above 2^53 are not modelled.
- JsText.ToNumber: `Number` is modelled on optionally signed decimal digit strings, after trimming, and on the empty string (which gives 0). Other numeric syntaxes give NaN here: fractions, exponents, hexadecimal and `Infinity`. Values are exact integers: the rounding of doubles above 2^53 and `-0` are not modelled.
- JsText.ToUpperCase: only ASCII letters are upper-cased. Non-ASCII letters whose upper case is an ASCII letter, such as U+0131, are not treated as in JavaScript.
- Strings are sequences of Unicode scalar values, not UTF-16 code units.
- The base64 encoding of the screenshot is a parameter of the model.

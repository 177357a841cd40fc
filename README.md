# Gold-price scraper: extraction toolkit and append cursor

A Dafny model of the core of a scraper that reads the gold price table of one
web page every thirty minutes and appends it as a row to a Google Sheet. Two
parts are modelled:

- **helper.js**, a toolkit of pure combinators for building DOM extractors:
  `compose` (right-to-left composition over a deep-flattened argument list),
  `enforceHttpsUrl`, `santinizeNumber`, `withoutNulls`, `arrayPairsToObject`,
  `fromPairsToObject`, `fetchElemInnerText`, `fetchElemAttribute`,
  `extractFromElems`, `extractNumber`, and the status-to-message mapping of
  `sendResponse`. Module `Helper` (helper.dfy), all functions and lemmas.
- **server.js**, the row builders of `getGoldPrices` / `getGoldPrices2` (the
  `forEach`/`push` loops and the `unshift` of the capture time, as methods
  with loops), the range string `Sheet1!<start>:<end>`, and the module-level
  cursor `startCell`/`endCell` updated by `addNewRowToSheet` (class
  `SheetCursor` with a state-changing method). Module `Server` (server.dfy).

Module `Js` (js.dfy) holds the part of JavaScript that both files depend on:
a `Value` datatype (undefined, null, integers, strings, arrays, plain objects,
element handles), thrown errors as a `Result`, `Array.prototype.filter`,
`startsWith`, `includes`, `trim` with ECMAScript's white-space set, and
`String(n)` / `Number(s)` on non-negative decimal integers with both round
trips proved.

JavaScript functions become Dafny function values `Value -> Result<Value>`,
so an exception thrown inside a stage propagates as it does in the source.
`Value` itself has no function case, because a datatype cannot hold functions
over itself. The places where the source accepts "anything, maybe a function"
(the arguments of `compose`, the `extractor` and `transform` of
`extractFromElems`) take a `Helper.Arg`: a function, a nested array, or
another value.

Notes on how the code behaves, which the model follows:

- The cursor starts as the one-row window `A4:S4` (server.js:16-17), and the
  two assignments at server.js:163-166 have the same shape. But `endCell` is
  computed from the already advanced `startCell`, so the end row lands at
  old start row + 2 × updatedRows (see Findings).
- Nothing checks the scraped row before the append (server.js:51-57). An
  empty table is still sent, as a row holding the capture time alone
  (`Server.MainProcess`); an empty extraction is not a no-op.
- `fetchElemAttribute` returns the attribute value as stored. Only
  `fetchElemInnerText` trims.
- `fetchElemInnerText` reads `elem.text` as a string (`elem.text.trim()`),
  while on a cheerio handle `text` is a method. On such a handle the code
  throws (see Findings).
- `extractFromElems` calls cheerio's `.map`. That call drops `null` and
  `undefined` callback results and splices arrays in (`Helper.MapElemsSingle`,
  `Helper.MapElemsConcat`), so the result has one entry per element only when
  no extractor result is null, undefined or an array
  (`Helper.MapElemsDropsAbsent`, `Helper.ExtractFromElemsOnePerElement`).

## Model

| member | source | states |
|---|---|---|
| `Helper.FlattenDeep` | helper.js:32 | `_.flattenDeep(fns)` leaves only functions and non-array values |
| `Helper.FlattenValues` | helper.js:32 | the elements of an array value, flattened at every depth, leave no array behind |
| `Helper.FlattenDeepConcat` | helper.js:32 | flattening distributes over concatenation of argument lists |
| `Helper.FlattenDeepLeaf` | helper.js:32 | a function or a non-array value is kept as it is |
| `Helper.FlattenDeepNested` | helper.js:32 | a nested argument list is spliced in, itself flattened |
| `Helper.FlattenDeepArray` | helper.js:32 | an array value is spliced in, itself flattened; together with `FlattenDeepConcat`, `FlattenDeepLeaf`, `FlattenDeepNested`, `FlattenValuesConcat` and `FlattenValuesSingle` this fixes the result for every list |
| `Helper.FlattenValuesConcat` | helper.js:32 | flattening the elements of an array value distributes over concatenation |
| `Helper.FlattenValuesSingle` | helper.js:32 | inside an array value, a non-array element is kept and an array element is spliced in, at any depth |
| `Helper.ReduceRight` | helper.js:32-35 | the fold over no stages returns its initial value; every exception it throws is either the compose TypeError, when the list does hold a non-function, or one that a function of the list throws |
| `Helper.Compose` | helper.js:31-36 | `compose()` of nothing is the identity; every exception the composed function throws is the compose TypeError, caused by a non-function in the flattened list, or one a stage throws |
| `Helper.FlattenDeepIdempotent` | helper.js:32 | flattening an already flattened list changes nothing |
| `Helper.ComposeConcat` | helper.js:31-35 | `compose(a..., b...)(x)` runs `compose(b...)` first and feeds its result to `compose(a...)`; an exception stops the chain |
| `Helper.ComposeEmpty` | helper.js:31-35 | `compose()` returns its argument unchanged, since `arg` is the fold's initial value |
| `Helper.ComposeSingle` | helper.js:31-35 | `compose(f)(x)` is `f(x)` |
| `Helper.ComposeThree` | helper.js:27-35 | `compose(f, g, h)(x)` applies h, then g, then f, right to left |
| `Helper.ComposeThreeTotal` | helper.js:27-35 | for functions that never throw, `compose(f, g, h)(x) == f(g(h(x)))` |
| `Helper.ComposeFlattens` | helper.js:32 | the composed function depends only on the flattened argument list |
| `Helper.ComposeNestedExample` | helper.js:32 | `compose([f, [g]], h)` behaves like `compose(f, g, h)` on every input |
| `Helper.ReduceRightRejects` | helper.js:32-35 | if no stage throws, the fold throws the compose TypeError if and only if some element is not a function, and succeeds if and only if all elements are functions |
| `Helper.ComposeRejectsNonFunction` | helper.js:31-34 | when no function stage throws, calling the composed function throws "compose() expects only functions as parameters." exactly when some flattened argument is not a function; building it never throws |
| `Helper.EnforceHttpsUrl` | helper.js:53-54 | a string with a leading `//`, `http://` or `https://` has exactly that prefix replaced by `https://`; any other string is unchanged; a non-string gives null |
| `Helper.EnforceHttpsUrlIdempotent` | helper.js:53-54 | applying enforceHttpsUrl twice is the same as applying it once |
| `Helper.EnforceHttpsUrlScheme` | helper.js:54 | the result starts with `https://` if and only if the input had one of the three prefixes the regular expression matches |
| `Helper.SanitizeNumber` | helper.js:60-61 | for a string: every output character is a digit, `-` or `.`; the output is an order-preserving subsequence of the input, no longer than it, and every such character of the input occurs in the output (every copy is kept, by `SanitizeNumberConcat`); a non-string gives null |
| `Helper.SanitizeNumberIdempotent` | helper.js:60-61 | sanitising twice is sanitising once, for every value |
| `Helper.SanitizeNumberConcat` | helper.js:61 | sanitising works character by character: it distributes over concatenation |
| `Helper.SanitizeNumberOfNumeric` | helper.js:61 | a string made only of digits, `-` and `.` is returned unchanged |
| `Helper.WithoutNulls` | helper.js:67-68 | always an array without null; `[]` for a non-array; for an array, exactly the elements `filter` keeps with the not-null test, in order, every non-null value with all its copies (undefined included) |
| `Helper.WithoutNullsConcat` | helper.js:68 | withoutNulls works element by element: it distributes over concatenation |
| `Helper.WithoutNullsOfNullFree` | helper.js:67-68 | an array with no null passes through unchanged |
| `Helper.ArrayPairsToObject` | helper.js:74-75 | an array folds into one object whose keys are exactly the keys of its pairs; any other value throws, having no `reduce` |
| `Helper.Spread` | helper.js:75 | `...pair` copies a plain object's own entries, and nothing from a number, null, undefined or an element handle |
| `Helper.SpreadIndexed` | helper.js:75 | `...pair` on an array copies each element under its index numeral "0", "1", ..., and on a string each character as a one-character string, with no other key |
| `Helper.MergePairs` | helper.js:75 | `{...obj, ...pair}` folded from the left: every key of the last pair is in the result with that pair's value |
| `Helper.MergePairsSnoc` | helper.js:75 | one more pair is spread over the object folded from the pairs before it |
| `Helper.MergeNull` | helper.js:75 | a trailing null pair adds no key |
| `Helper.MergePairsValuesFrom` | helper.js:75 | nothing is invented: every key of the folded object, with its value, comes from one of the pairs |
| `Helper.MergePairsKeys` | helper.js:75 | a key is in the folded object if and only if some pair spreads it |
| `Helper.MergePairsLastWins` | helper.js:75 | a key's value comes from the last pair that contains it |
| `Helper.MergePairsWithoutNulls` | helper.js:75 | removing null pairs does not change the folded object, since `{...null}` adds no key |
| `Helper.FromPairsToObject` | helper.js:81 | `compose(arrayPairsToObject, withoutNulls)` never throws: a non-array gives `{}`, and an array gives what arrayPairsToObject gives it |
| `Helper.Truthy` | helper.js:87-94 | the `&&` / `||` tests treat exactly undefined, null, 0 and the empty string as false |
| `Helper.FetchElemInnerText` | helper.js:87 | as written: for a handle whose `text` is a string, the trimmed text when it is non-empty, otherwise null; null when there is no `text`; a handle whose `text` is a method throws "elem.text.trim is not a function"; null or undefined input throws |
| `Helper.FetchElemInnerTextIntended` | helper.js:87 | corrected reading `elem.text().trim()`: on a handle whose `text` is a method it never throws and gives the trimmed text, or null when that is blank |
| `Helper.CheerioTextExample` | helper.js:87 | for the cheerio handle of `<td> 7.650 </td>` the code as written throws, the corrected reading gives "7.650" |
| `Helper.FetchElemAttribute` | helper.js:93-94 | for an element handle: the attribute's value, untrimmed, when present and non-empty, otherwise null, also when the handle has no `attr`; null or undefined input throws |
| `Helper.ExtractFromElems` | helper.js:101-104 | `transform` is applied to the collected array only when it is a function; otherwise the raw array is returned; an extractor's exception propagates |
| `Helper.Splice` | helper.js:102 | what cheerio's `.map` keeps of one callback result: an array's elements spliced in, nothing for null or undefined, and any other value as one element |
| `Helper.MapElems` | helper.js:102 | a successful walk means the extractor succeeded on every element; an exception is the one raised by the first element on which the extractor throws |
| `Helper.MapElemsSingle` | helper.js:102 | one element contributes what `.map` keeps of its callback result (`Splice`): an array's elements, nothing for null or undefined, otherwise the value; the extractor's exception propagates |
| `Helper.MapElemsConcat` | helper.js:102 | the walk over `a + b` collects `a`'s values followed by `b`'s, and an exception in `a` ends it; with `MapElemsSingle` this fixes the result for every list, array results included |
| `Helper.MapElemsDropsAbsent` | helper.js:102 | with non-array extractor results, the collected values are the extractor's results in document order, minus the null and undefined ones |
| `Helper.ExtractFromElemsOnePerElement` | helper.js:101-104 | when `transform` is not a function and no extractor result is null, undefined or an array, the result holds exactly one value per element, in order |
| `Helper.ExtractFromElemsRejectsNonFunction` | helper.js:102 | a non-function extractor throws a TypeError as soon as there is an element |
| `Helper.ExtractNumber` | helper.js:110 | `compose(parseInt, santinizeNumber, fetchElemInnerText)` hands parseInt the sanitised trimmed text, or null when the element has no text; on a handle whose `text` is a method it throws |
| `Helper.ExtractNumberIntended` | helper.js:110 | built on the corrected text reading, it hands parseInt the sanitised trimmed text of a cheerio handle, or null when it is blank |
| `Helper.SendResponse` | helper.js:5-15 | success is sent as `{status: "success", data}`; a failure replies with the error's status, 500 when it has none, and the message is "Not found" exactly for 404, otherwise "Request failed" |
| `Js.Trim` | helper.js:87 | `trim()` returns a part of the string with no white space at either end, and everything cut off either end is white space |
| `Js.TrimUnique` | helper.js:87 | any cut of a string into white space, a middle without white space at its ends, and white space has `trim()` as its middle |
| `Js.Filter` | helper.js:68 | `filter` returns no more elements than it was given, each accepted by the test |
| `Js.FilterMembership` | helper.js:68 | a value survives `filter` exactly when it occurs and the test accepts it |
| `Js.FilterMultiset` | helper.js:68 | `filter` keeps every copy of an accepted value and no copy of a rejected one |
| `Js.FilterIsSubsequence` | helper.js:68 | `filter` keeps the input order |
| `Js.Includes` | server.js:107 | `includes(t)` holds if and only if `t` occurs at some index of the string |
| `Js.NumberToString` | server.js:164 | `String(n)` is a non-empty string of decimal digits that starts with '0' exactly when n is 0 |
| `Js.StringToNumber` | server.js:164 | `Number(s)` of a digit string is a non-negative integer, at least 1 when the first digit is not '0' |
| `Js.ZeroNumeral` | server.js:164 | a digit string reads as 0 exactly when all its digits are '0' |
| `Js.NumberToStringInjective` | server.js:164 | distinct row numbers are written as distinct numerals |
| `Js.NumberRoundTrip` | server.js:164 | `Number(String(n)) == n`, and `String(n)` is a canonical numeral |
| `Js.CanonicalRoundTrip` | server.js:164 | `String(Number(s)) == s` for every canonical numeral `s` |
| `Server.GetGoldPrices` | server.js:67-84 | the row has length 1 + 2k for k table rows; element 0 is the capture time; elements 2i+1 and 2i+2 are row i's purchase and sell prices |
| `Server.GetGoldPrices2` | server.js:100-122 | the capture time first, then one record for exactly the rows whose type contains "SJC" or "TT Hà Nội", in table order |
| `Server.TrackedRecords` | server.js:105-113 | every kept record is of a tracked table row, and every tracked table row has its record kept |
| `Server.IsTracked` | server.js:107 | a row is tracked exactly when "SJC" or "TT Hà Nội" occurs at some index of its type name |
| `Server.TrackedExample` | server.js:107 | of a table with an SJC row and an unrelated row, only the SJC row is kept |
| `Server.Cell` | server.js:163-166 | `column + row` is a well-formed cell whose row number reads back as `row` |
| `Server.CellOfRow` | server.js:164 | every well-formed cell is the one its column letter and row number build |
| `Server.RowOf` | server.js:164 | `Number(cell.substr(1, cell.length))` on a cell whose row is a canonical numeral is 0 exactly when that numeral is "0" |
| `Server.NextCell` | server.js:163-166 | `column + (Number(cell.substr(1, cell.length)) + n)` is the well-formed cell of that column `n` rows below `cell`'s row |
| `Server.SheetRange` | server.js:148 | the range is `Sheet1!`, then the start cell, `:`, and the end cell |
| `Server.SheetRangeInjective` | server.js:148-151 | distinct cursor positions give distinct range strings |
| `Server.SheetCursor.constructor` | server.js:16-17 | the cursor starts at `A4` / `S4` |
| `Server.SheetCursor.AddNewRowToSheet` | server.js:145-168 | the request targets the range before the update; status other than 200 leaves both cells untouched; status 200 with n rows from start row r gives `startCell == "A" + (r + n)` and `endCell == "S" + (r + 2n)`; columns stay A and S |
| `Server.SheetCursor.Advance` | server.js:163-166 | the two assignments of a successful append: the start cell moves n rows down, and the end cell, computed from the moved start cell, lands at old start row + 2n |
| `Server.MainProcess` | server.js:51-57 | every tick appends one row of length 1 + 2k headed by the capture time, with row i's purchase and sell prices at 2i+1 and 2i+2; status other than 200 leaves both cells untouched; status 200 with n rows from start row r leaves `A(r + n)` and `S(r + 2n)` |
| `Server.EndCellOvershoots` | server.js:163-166 | after a successful append of n > 0 rows, the end cell is n rows below the new start cell, not level with it |
| `Server.ZeroRowAppend` | server.js:163-166 | an append of zero rows keeps `startCell`, and keeps `endCell` only when the end row already equals the start row |
| `Server.StartRowsContiguous` | server.js:163-164 | across serialized appends the start rows never overlap a previous write and leave no gap: each append starts where the previous one's rows end |
| `Server.NextCellsIntended` | server.js:165-166 | corrected update: both cells move to old start row + n, so after a successful append the window is one row high; a failed append changes nothing, and neither does an empty one when start and end rows already agree |
| `Server.FirstAppendScenario` | server.js:16-17 | from the initial cursor, a one-row append is sent to `Sheet1!A4:S4` and leaves `A5`/`S6`; the corrected update would give `S5` |
| `Server.ZeroRowScenario` | server.js:163-166 | a zero-row append after a one-row append moves `endCell` back from `S6` to `S5` |

## Left out

- Express setup, morgan logging and `app.listen` are process and HTTP plumbing (server.js:1-14).
- Google JWT authorisation, `values.get`, `values.append` and `getSheetData` are calls to a foreign service (server.js:19-35, 130-143, 157). The append's answer is the input `AppendResult(status, updatedRows)`. The range `getSheetData` reads is the same `SheetRange`.
- Puppeteer's browser launch, `page.goto`, the query selector and `browser.close` are I/O. The table arrives as a sequence of `GoldRow` triples, the `innerText` of the first three child nodes of each row. A row with fewer than three child nodes, which would throw, is not modelled, and neither is a child node whose `innerText` is undefined (a white-space text node).
- The `moment()` clock read is a parameter, the capture time `updatedDate`.
- `node-schedule` and `gsRun` are a timer. Overlapping runs are concurrency, which is not modelled. Repeated ticks appear only as the serialized series of `Server.StartRowsContiguous`.
- `composeAsync` (helper.js:42-47) is promise sequencing and is not modelled. It is not `compose` with awaits added. Its TypeError says "composeAsync() expects only function as parameters" (helper.js:45). A non-function stage rejects without awaiting `current` (helper.js:44-45). Its rejection therefore beats a failure of a stage to its right, while in `compose` the exception of the rightmost failing stage wins (helper.js:33). The function stages to the right of a non-function still run.
- `fetchHtmlFromUrl` (helper.js:17-25) and the `res.json` / `res.status` calls of `sendResponse` are network and HTTP glue; only the reply `SendResponse` computes is modelled.
- `parseInt` is a parameter of `Helper.ExtractNumber`; its JavaScript semantics are not modelled.
- `extractUrlAttribute` (helper.js:116-118) has no `return`: it builds `compose(enforceHttpsUrl, fetchElemAttribute(attr))`, discards it and returns undefined. The model gives it no member.
- JavaScript numbers are unbounded integers here. The precision limit of 2^53 and the exponent notation `String(n)` uses from 10^21 upward do not appear in the cursor arithmetic.
- `Server.RowOf`: it models `Number(...)` only on strings of decimal digits, the only strings the cursor holds. A missing or non-numeric `updatedRows`, which would produce a `NaN` cell, is excluded by typing it `nat`.
- `Helper.Spread`: spreading an element handle is modelled as adding no key, and plain objects are key/value maps without prototype or key order. A string is spread one Dafny character (a Unicode scalar value) per key, while JavaScript uses one UTF-16 code unit per key; the two differ for characters outside the Basic Multilingual Plane.
- `Helper.SendResponse`: a rejection carries an integer status or none, and none gets the default 500. In the source the default applies only to an undefined `status`. A `status` of null gives `code` null. A rejection reason that is itself undefined or null makes the destructuring in the `catch` callback throw.
- `Helper.FetchElemInnerText`: a plain object's values are never functions in this model, so on a plain object only a truthy non-string `text` throws.
- Error messages other than compose's own are descriptive stand-ins for the engine's TypeError texts.

## Findings

| source | as written | input that shows it | evidently intended | confidence | as-written member | corrected member |
|---|---|---|---|---|---|---|
| server.js:165-166 | `endCell` is built from `startCell` after line 163-164 has already advanced it, so the end row becomes old start row + 2 × updatedRows, and a zero-row append pulls a taller window back to one row | initial `A4`/`S4`, append answered with status 200 and `updatedRows` 1: the cursor becomes `A5`/`S6` instead of `A5`/`S5` (`Server.FirstAppendScenario`, `Server.EndCellOvershoots`, `Server.ZeroRowScenario`) | the end cell takes the same new row as the start cell, keeping the window one row high | high; not executed | `Server.SheetCursor.AddNewRowToSheet` | `Server.NextCellsIntended` |
| helper.js:87 | `elem.text && elem.text.trim()` treats `text` as a string, but on the cheerio handles `$(element)` that `extractFromElems` passes (helper.js:102), `text` is a method; a function has no `trim`, so every such call throws a TypeError, and so does `extractNumber` (helper.js:110) | the cheerio handle of `<td> 7.650 </td>`: as written it throws "elem.text.trim is not a function"; the corrected reading gives "7.650" (`Helper.CheerioTextExample`) | `elem.text().trim()`, as `fetchElemAttribute` already calls `elem.attr(attribute)` | medium; not executed | `Helper.FetchElemInnerText` | `Helper.FetchElemInnerTextIntended` |

The cursor class keeps the as-written update, since that is what the program
does. `Server.NextCellsIntended` states the intended update and proves the
one-row window invariant for it. Likewise `Helper.ExtractNumber` composes the
text reading as written, and `Helper.ExtractNumberIntended` composes the
corrected one.

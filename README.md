# Turnip price bot: the table, the chat handler and the chart data, in Dafny

This project models the part of the turnip-price bot that sits around its
prediction engine, and proves what that part promises:

- **src/model.js**, the web side's access to the `prices` table. A report
  names a weekday (`dayMap`: 一..六 or "1".."6") and a half-day
  (`timeMap`: 上/a/A or 下/p/P). These pick one of the 13 slots of the
  user's price vector: slot 0 is the buy price and slots 1..12 run from
  Monday morning to Saturday afternoon. `updatePrice` overwrites that slot
  with `parseInt(price)`, or inserts a fresh 13-slot row of zeros with that slot set.
  `getPrices` reads the first row back. `deletePrices` removes every row of
  the user.
- **src/server.js**, the LINE webhook handler `handleEvent`. It tries the
  following on a text message, in this order:
  1. the chart keyword 我的分析圖 anywhere in the text;
  2. the report pattern `^\s*(週|星期)(一..六)\s*(上|下)午\s*(\d+)\s*$`;
  3. the exact text 清除全部資料;
  4. the exact text 幫助.

  A report writes the captured digits, as text, into slot
  `(zhTWNumberMap[day] - 1) * 2 + (上 ? 1 : 2)` of the user's `prices`
  column, then echoes `週{day} {上|下}午 {price} 鈴錢`.
- **src/chart.js**, `createGenerteData` and `createGetLabels`.
  - `createGenerteData` asks the engine for candidate patterns. When none
    match, it asks once more with the buy price replaced by 0. It then
    shapes the answers into six datasets: Buy Price, Guaranteed Min, Daily
    Price, Average, Maximum, Minimum.
  - `createGetLabels` interleaves the translated day words with AM and PM.

Modules:

- `Wrappers` holds `Option` and `Result`.
- `JsText` holds the JavaScript string built-ins the code relies on:
  - the `\s` class;
  - `parseInt` without a radix;
  - `String.prototype.split` and `Array.prototype.join` on one character.
- `Store` holds the shared table: the `PricesTable` class, a map from user
  id to that user's rows.
- `Model`, `Server` and `Chart` follow the three source files.

The stateful operations are module-level methods that take the shared
`Store.PricesTable` object, whose `rows` they read and write. Each is
proved against a function of the old table:

- `Model.UpdatePrice`
- `Model.GetPrices`
- `Model.DeletePrices`
- `Server.SaveReport`
- `Server.HandleEvent`

Both writers do the read-modify-write of one slot with the array method
`Store.ParseAndWrite`.
The chart code is pure and is modelled as functions and lemmas.

How the table is modelled:

- **Several rows per user.** The table has no uniqueness constraint on
  `user_id`. `updatePrice` inserts a new row whenever the first row lacks
  `values`. `handleEvent` inserts a new row unless the user has exactly one
  row and that row has `prices`. So a user may own several rows. They are
  kept oldest first, and `.first()` is the oldest.
- **A row is a document.** A column is `None` when the row object has no
  such key. The source's `"values" in row` and `"prices" in records[0]`
  tests can only fail on such rows. knex on sqlite3 or mysql, the
  configured clients, returns every selected column as a key, so those
  tests hold there for every existing row. The paths where they fail are
  modelled as a document store would run them (see "## Left out").
- **Two columns, never shared.** The web model writes the `values` column
  and the chat bot writes a `prices` column, as the code does. The two
  writers therefore never see each other's data:
  - `Server.ChatReportInvisibleToGetPrices` proves that chat reports never
    change what `getPrices` returns, except that a user with no row, for
    whom `getPrices` throws, reads 13 zeros afterwards.
  - `Model.UpdateHiddenBehindRowWithoutValues` proves that a web update for
    a user whose first row came from the chat bot lands in a new row,
    appended after the user's rows, that `getPrices` never reads.

Four facts about the code that are easy to get wrong:

- The observation vector has 13 slots (`new Array(13)`): the buy price and
  twelve half-days.
- The relaxation fallback replaces slot 0 (the buy price) by 0; it does not
  drop any observed half-day.
- The fallback runs at most once, and its answer is used even when it is
  empty. There is no "indeterminate" outcome.
- Reported values are not validated:
  - `updatePrice` stores `parseInt(price)`, which may be negative, or `null`
    for NaN;
  - the chat bot stores the digit string itself.

## Model

| member | source | states |
|---|---|---|
| Model.DayMapKeys | src/model.js:5-18 | the keys of `dayMap` are exactly 一..六 and "1".."6", and the i-th of either maps to i + 1 |
| Model.TimeMapNormalises | src/model.js:19-26 | `timeMap` knows exactly 上 下 a p A P; 上, a and A are morning, and every other known spelling maps to "p" |
| Model.SlotIndex | src/model.js:29-32 | the slot is 0 when day or half-day is undefined; it is a number exactly when the day is a `dayMap` key; it then lies in 1..12 and is odd exactly for a morning; every slot is below 13 |
| Model.SlotIndexDecodes | src/model.js:29-31 | the slot gives back its day, `(slot + 1) / 2`, and its half-day, by its parity |
| Model.SlotIndexInjective | src/model.js:29-31 | two (day, half-day) pairs with the same slot have the same day number and the same half-day |
| Model.SlotIndexOnto | src/model.js:29-31 | every slot 1..12 is reached by some day and half-day |
| Model.ParsedCell | src/model.js:40 | `parseInt(price)` after a JSON round trip is a number, or null for NaN |
| Model.ParsedCellOfNumeral | src/model.js:40 | the decimal numeral of n is stored as the number n |
| Model.WriteValues | src/model.js:37-51 | the write half of `updatePrice` keeps every stored vector at 13 slots, adds the user to the table and leaves every other user's rows unchanged |
| Model.PricesOf | src/model.js:55-59 | `getPrices` throws exactly when the user has no row; on a table whose vectors have 13 slots it returns 13 slots |
| Model.UpdatePrice | src/model.js:28-53 | `updatePrice` leaves the table as `AfterUpdatePrice` describes and keeps every stored vector at 13 slots |
| Model.GetPrices | src/model.js:55-59 | `getPrices` succeeds exactly when the user has a row; it then returns 13 slots, the first row's `values` or 13 zeros |
| Model.DeletePrices | src/model.js:61-63 | `deletePrices` removes the user's rows and nothing else |
| Model.UpdateThenGet | src/model.js:37-51 | reading back after an update: the chosen slot holds `parseInt(price)`, every other slot is what it was (0 for a new user), and there are still 13 slots |
| Model.UpdateHiddenBehindRowWithoutValues | src/model.js:35-51 | when the first row lacks `values`, the update appends a row after the user's rows, which stay as they were, and `getPrices` still returns 13 zeros |
| Model.UpdateIdempotent | src/model.js:28-53 | for a user with no row, or whose first row has `values`, repeating the same update changes nothing more (when the first row lacks `values`, each repeat appends another row) |
| Model.DeleteThenGet | src/model.js:55-63 | after deletion `getPrices` throws for that user and answers as before for everyone else; the table invariant is kept |
| Store.Insert | src/model.js:48-51 | an insert appends one row to the user's rows, adds the user to the table and changes no other user |
| Store.SetValues | src/model.js:41-43 | `update({ values })` sets that column on every row of the user and keeps the number of rows |
| Store.SetPrices | src/server.js:87-89 | `update({ prices })` sets that column on every row of the user and keeps the number of rows |
| Store.WriteSlot | src/model.js:40 | `prices[index] = c` keeps the length and changes only slot `index`; a NaN index changes nothing |
| Store.ParseAndWrite | src/model.js:39-40 | copying the stored vector into an array and writing one slot in place gives `WriteSlot` of it |
| Store.PricesTable.constructor | migrations/20200408222937_initial.js:2-8 | a new table is empty and satisfies the invariant |
| JsText.ParseInt | src/model.js:40 | `parseInt` without a radix skips leading white space; a text that is blank is NaN; a negative result needs a leading minus; when the first non-blank character is a decimal digit the result is NaN or non-negative, and a number unless the text goes on `0x` or `0X` there |
| JsText.ParseIntDigits | src/model.js:40 | `parseInt` of a run of decimal digits, followed by anything that is not a digit (and not "x" after a lone "0"), is the digits' decimal value |
| JsText.ParseIntDecimalString | src/model.js:40 | `parseInt` inverts the decimal numeral of every natural number |
| JsText.Split | src/chart.js:100 | `split(" ")` gives at least one piece, and no piece holds the separator |
| JsText.JoinSplit | src/chart.js:99-100 | joining the pieces of a split with the separator gives the text back |
| JsText.SplitJoin | src/chart.js:99-100 | splitting a join of separator-free words gives the words back |
| Server.MatchAmount | src/server.js:68 | a match of `\s*(\d+)\s*$` is blanks, at least one ASCII digit and blanks, and together they are the text |
| Server.MatchAmountComplete | src/server.js:68 | every blanks-digits-blanks text is matched and split back into exactly those parts |
| Server.MatchHalfDay | src/server.js:68 | a match of `\s*(上\|下)午` followed by the amount is blanks, 上 or 下, 午 and a well-formed amount, and together they are the text |
| Server.MatchHalfDayComplete | src/server.js:68 | every such text is matched and split back into its parts |
| Server.MatchWeekDay | src/server.js:68 | a match after the leading blanks is 週 or 星期, a day 一..六 and a well-formed half-day part, and together they are the text |
| Server.MatchWeekDayComplete | src/server.js:68 | every such text is matched and split back into its parts |
| Server.MatchReport | src/server.js:68-70 | `inputRe.exec`: a match is well formed and covers the whole text |
| Server.MatchReportComplete | src/server.js:68-70 | every well-formed report text is matched, with the same groups |
| Server.ReportIndex | src/server.js:74 | the report's slot lies in 1..12 and is odd exactly for 上 |
| Server.ReportIndexAgreesWithModel | src/server.js:74 | the chat bot and `updatePrice` give the same slot for the same day and half-day |
| Server.Contains | src/server.js:43 | when `/我的分析圖/.test` holds, the keyword occurs at some position of the text |
| Server.ContainsAnywhere | src/server.js:43 | `/我的分析圖/.test` holds for any text with the keyword anywhere in it |
| Server.ReportIsNoChartRequest | src/server.js:43-70 | no report text contains the chart keyword, so the order of those two tests does not matter |
| Server.Classify | src/server.js:43-123 | a text taken as a price report is a well-formed match that covers the whole text |
| Server.ChartKeywordWins | src/server.js:43 | a text with the chart keyword anywhere in it is a chart request, even when it also looks like a report |
| Server.PriceReportIffPattern | src/server.js:68-70 | a text is handled as a price report exactly when the report pattern matches it, and with that match |
| Server.ClearAllExact | src/server.js:110-115 | the clear-all branch fires exactly on the text 清除全部資料, with nothing around it |
| Server.HelpExact | src/server.js:117-122 | the help branch fires exactly on the text 幫助, with nothing around it |
| Server.ReplyText | src/server.js:104-107 | the reply is the captured day, half-day and digits written back as a report text in canonical form (週, single spaces, no padding), followed by " 鈴錢" |
| Server.ReplyEchoesReport | src/server.js:104-107 | the report text the reply starts with (see `Server.ReplyText`) parses back to the captured day, half-day and digits, and to the same slot |
| Server.RecordReport | src/server.js:76-97 | recording a report keeps every stored vector at 13 slots, adds the user to the table and leaves every other user's rows unchanged |
| Server.RecordReportExisting | src/server.js:80-89 | for a user who has exactly one row, and whose row has `prices`, only that vector's slot `index` changes, to the captured digit string, and `values` is untouched |
| Server.RecordReportNew | src/server.js:90-97 | otherwise one row is appended, with no `values`, and `prices` of 13 zeros but the digit string at slot `index`; the earlier rows stay |
| Server.ChatReportInvisibleToGetPrices | src/server.js:76-97 | what `getPrices` returns is unchanged by a chat report, except that a user with no row now reads 13 zeros |
| Server.ClearAllKeepsData | src/server.js:110-115 | 清除全部資料 replies with that text and clears nothing |
| Server.OtherTextUnanswered | src/server.js:117-123 | a text that matches no branch gets no reply (`undefined`) and writes nothing, and only such texts fall through |
| Server.NonTextIgnored | src/server.js:35-39 | a non-text event resolves to null and writes nothing |
| Server.ChartReplyShowsSample | src/server.js:43-58 | the chart reply always carries the fixed sample vector: Buy Price 93 at every point and daily prices 180 and 356 at points 2 and 3 only |
| Server.SaveReport | src/server.js:76-97 | the report branch's read-modify-write leaves the table as `RecordReport` describes and keeps the invariant |
| Server.HandleEvent | src/server.js:35-123 | the message `handleEvent` sends through the LINE client, or the null or undefined it resolves to, is `Respond(event)`, and the table is left as `StoreAfter` describes |
| Server.HandleText | src/server.js:41-123 | the text branches, in source order, give the reply and the write of the text's command |
| Chart.PatternCountZero | src/chart.js:33 | the candidate count is 0 exactly when every group of patterns is empty |
| Chart.Relaxed | src/chart.js:34 | `[0, ...filter.slice(1)]` starts with 0 and keeps every later slot |
| Chart.Candidates | src/chart.js:32-34 | the candidates are the engine's answer on the filter or on the relaxed filter, and they are empty only when the first answer was |
| Chart.CandidatesFallback | src/chart.js:32-34 | the engine's first answer is used when some group is non-empty; otherwise the engine is asked once more, on the relaxed filter |
| Chart.RelaxingZeroBuyPriceIsNoop | src/chart.js:34 | with a buy price of 0 the relaxed filter is the filter and the first answer is used |
| Chart.Transpose | src/chart.js:36 | lodash `zip`: as many columns as the longest row, each as long as there are rows, and entry (j, i) is row i's j-th value or undefined |
| Chart.TransposeTwice | src/chart.js:36 | zipping a rectangular table with at least one column twice gives it back |
| Chart.TruncReal | src/chart.js:71 | `Math.trunc` rounds toward zero: within 1 of x, never past it |
| Chart.Trunc | src/chart.js:71 | `Math.trunc` of a number is a whole number within 1 of it toward zero; null gives 0; undefined and NaN give NaN |
| Chart.GenerateData | src/chart.js:31-96 | exactly six datasets, labelled by the translations of Buy Price, Guaranteed Min, Daily Price, Average, Maximum and Minimum in that order; the first three have 12 points |
| Chart.BuyPriceSeries | src/chart.js:44 | Buy Price is `filter[0]` at all 12 points, or 12 nulls when it is falsy or missing |
| Chart.GuaranteedMinSeries | src/chart.js:54 | Guaranteed Min is the first minimum-of-week value at all 12 points, or 12 nulls when it is falsy or missing |
| Chart.DailyPriceSeries | src/chart.js:64 | point i of Daily Price is `filter[i + 1]`, or null when that is falsy or missing |
| Chart.ObservedSeriesIgnoreEngine | src/chart.js:41-68 | Buy Price and Daily Price do not depend on the engine |
| Chart.ExtremeSeries | src/chart.js:79-88 | Maximum and Minimum at point i are the second and first entries of the reducer's i-th pair, or 12 nulls when no pair has such an entry |
| Chart.AverageSeries | src/chart.js:71 | Average at point i is `Math.trunc` of the first entry of the average reducer's i-th row, or 12 nulls when no row has one |
| Chart.LabelsFold | src/chart.js:101-104 | the label reduce returns its starting labels followed by two labels per day |
| Chart.LabelsFoldAt | src/chart.js:101-104 | the label reduce keeps what it started with and appends "day AM", "day PM" for each day in order |
| Chart.GetLabels | src/chart.js:98-105 | `createGetLabels` gives two labels per day word of the translated week, and at least two |
| Chart.LabelsOfTranslatedWeek | src/chart.js:98-105 | for day words d1..dk joined by single spaces, the labels are d1 AM, d1 PM, ..., dk AM, dk PM: 2k of them |
| Chart.EnglishWeekIsJoined | src/chart.js:99 | the week key is the six English day names joined by single spaces |
| Chart.EnglishLabels | src/chart.js:98-105 | untranslated, the labels are the twelve Mon..Sat AM/PM labels in order |

## Left out

- The prediction engine (`possiblePatterns`, `patternReducer`, `averageReducer`, `minWeekReducer` from ./utils/patterns) is not part of this model. It is a parameter (`Chart.Engine`), so every chart property holds whatever the engine returns.
- The translation function `t` (i18next) is a parameter: any function from strings to strings.
- Numbers are unbounded integers and exact reals, not IEEE doubles. `parseInt` of a very long numeral therefore does not lose precision, and averages are not rounded before `Math.trunc`.
- The JavaScript value model of the chart covers undefined, null, NaN and numbers. It has no strings, so a string observation (what the chat bot stores) is not followed into the chart.
- `updatePrice` takes `dayOfWeek` and `ampm` as strings or `undefined`. Other JavaScript values, such as `null` or numbers, are not modelled.
- The LINE client's answer to `client.replyMessage`, which is what `handleEvent` resolves to on the chart, report, clear-all and help branches, is not modelled. `Server.Reply` records the message sent instead.
- The json-url LZW codec is not modelled. The chart reply carries the sample vector itself instead of its compressed id.
- Not modelled, because they do I/O or only log:
  - the Express routes, the LINE client and its signature middleware;
  - `renderToBuffer` and canvas drawing;
  - `console.log`;
  - the read-only `updatedRecords` query.
- The database is a map in memory. The model does not cover:
  - SQL column types, `id` and timestamps (knexfile.js and the migration);
  - the fact that the migration has no `prices` column, so the chat bot's queries would fail against that schema;
  - asynchronous interleaving of two requests.
- `Model.UpdateHiddenBehindRowWithoutValues`, `Server.RecordReportNew` and `Server.ChatReportInvisibleToGetPrices` describe rows with a missing column, as a document store would hold them. Against knex's SQL clients every existing row has both columns, possibly null. There these paths go differently: a report for a user whose only row has a null `prices` throws at `JSON.parse(null)[index]`; `updatePrice` on a row with a null `values` throws the same way; `getPrices` then returns `null`. Under the migration's `values NOT NULL` a row without `values` cannot exist at all. The model does not capture these throwing paths.
- `.first()` is taken to return the oldest row. Without an `ORDER BY` the database does not promise that.
- src/components/Chart.jsx and src/i18n.js are not part of this model.
- `Model.ParsedCell` models `parseInt` with the ECMAScript white-space set listed in `JsText.IsJsSpace`. It does not model the `Infinity` that an over-long numeral would give.

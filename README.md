# scraper-hackernoon, modelled in Dafny

The scraper opens the Hackernoon listing of articles tagged JavaScript in a
headless browser and scrolls it repeatedly. On each pass it extracts the post
elements it has not seen yet into article records and keeps those dated 2018.
It stops at the first pass that yields nothing dated 2018 or later. The records
are then sorted by claps, most first, and written out as JSON and as an HTML
ordered list.

This project models that core and proves properties of it:

- `counter.dfy` (module `Counter`): the claps counter text ("58", "1.2K") is
  read as an exact decimal number (`Num`). `Text` renders it the way the page
  template prints a JavaScript number, and the two are proved to round-trip.
- `extractor.dfy` (module `Extractor`): the code evaluated inside the page.
  It contains `safeGet` (`SafeGet`), `removeQueryFromURL` (`StripQuery`), the
  per-post record builder with its `try`/`catch` (`BuildRecord`: a throwing
  element gives a null slot) and the `slice(offset).map(...)` extraction
  (`Extract`). Post elements are abstract: each sub-element query either finds
  nothing or yields the one attribute or text the extractor reads.
- `pagination.dfy` (module `Pagination`): the year filters and the scrape loop.
  - `Loop` is the loop as a specification function. `Schedule` is the same loop
    over any per-iteration rule, and `Decide` is the scraper's rule.
  - The browser page is a `PageDriver` class. It holds the navigation outcome,
    a finite list of document frames and a trace of the calls issued.
  - The loop itself is a `while` loop in `CollectArticles`, proved to compute
    `Loop`. `GetPage` opens the page, runs the callback and closes the page on
    both paths. `ScrapArticles` runs it all on the listing URL.
  - Waiting after a scroll shows the next frame; the last frame stays on show,
    so a finite frame list ends the source's `while (true)`. A `Crashed` frame
    makes the in-page evaluation throw.
- `output.dfy` (module `Output`): the in-place sort by claps (an insertion sort
  on an `array`), the HTML template, and `Scrap`. `Scrap` sorts the scraped
  records and derives both the JSON data and the HTML page from the sorted
  list.
- `wrappers.dfy` (module `Wrappers`): `Option` and `Result`.

Dates are abstract. A `<time>` element carries the calendar year of its
`dateTime`, or none when that is not a valid date. The stored date text is
`Empty` (the `''` fallback) or the UTC text of a date, and `YearOf` is what
`new Date(...).getFullYear()` reads back from it.

In a record, `None` stands for two different JavaScript values:
- for the title, link and reading time it is `null`, and the page prints "null";
- for the author's link and name it is `undefined`, because they come from
  destructuring the `{}` fallback, and the page prints "undefined".

## Model

| member | source | states |
|---|---|---|
| Counter.ClapsValue | src/service.ts:89-95 | text ending in K is worth 1000 times the numeral before the K; any other text is worth its numeral |
| Counter.ParseNumber | src/service.ts:95 | the scale of the number read is the count of digits after the point |
| Counter.ParseNumberValue | src/service.ts:95 | a decimal numeral is read exactly: its integer digits scaled past the fraction plus the fraction's digits, for non-canonical forms such as "1.20", "007", ".5" and "5." too |
| Counter.Thousand | src/service.ts:92 | the value is multiplied by exactly 1000 |
| Counter.Normalize | src/index.ts:23 | the printed form drops trailing fractional zeros without changing the value |
| Counter.TextRoundTrip | src/index.ts:23 | the printed claps are a decimal numeral that reads back as the same number |
| Counter.ClapsExamplePlain | src/service.ts:95 | "58" is 58 claps |
| Counter.ClapsExampleThousands | src/service.ts:91-92 | "1.2K" is 1200 claps and prints as "1200" |
| Counter.ClapsExampleBareK | src/service.ts:91-92 | a bare "K" reads the empty numeral, which is 0 |
| Extractor.SafeGet | src/service.ts:48-58 | the fallback exactly when the element is absent, otherwise the callback applied to the element |
| Extractor.StripQuery | src/service.ts:60 | the result is a prefix of the URL without '?', it ends where the first '?' stands, and a URL without '?' is unchanged |
| Extractor.StripQueryAt | src/service.ts:60 | when the first '?' is at index k (or there is none and k is the length), the result is the first k characters |
| Extractor.StripQueryIdempotent | src/service.ts:60 | stripping twice is stripping once |
| Extractor.StripQueryExample | src/service.ts:60 | "https://x/y?ref=abc" becomes "https://x/y" |
| Extractor.ClapsCount | src/service.ts:84-98 | a post without a claps button has 0 claps, otherwise the value its text shows |
| Extractor.YearOf | src/service.ts:138 | the empty date text has no year, so it never passes a year filter |
| Extractor.BuildRecord | src/service.ts:64-123 | the slot is null exactly when building the record throws |
| Extractor.RecordFields | src/service.ts:66-119 | field by field: date '' without a time tag, otherwise that date's year; author link and name both missing without the author element, otherwise the link without query and the text; title, read-more link without query and reading time missing exactly when their element is; claps as counted |
| Extractor.Records | src/service.ts:64 | one slot per post element |
| Extractor.RecordsAt | src/service.ts:64 | slot i is the record of element i |
| Extractor.Extract | src/service.ts:62-64 | the batch has max(0, total - offset) slots, null slots included |
| Extractor.ExtractAt | src/service.ts:62-123 | slot i is the record of the post offset + i places into the document, and it is null exactly when that post throws |
| Pagination.Matching | src/service.ts:137-139 | the first filter never adds records |
| Pagination.MatchingMembers | src/service.ts:137-139 | a record passes the first filter exactly when it is a non-null slot dated 2018 or later |
| Pagination.FloorYearOnly | src/service.ts:145-147 | the second filter never adds records |
| Pagination.FloorYearOnlyMembers | src/service.ts:145-147 | a record passes the second filter exactly when it is dated 2018 |
| Pagination.FiltersCompose | src/service.ts:137-147 | the two filters together keep exactly the batch's non-null records dated 2018, in batch order |
| Pagination.Decide | src/service.ts:127-149 | an iteration continues only when posts past the offset remain, and then the new offset is the number of posts |
| Pagination.DecideRule | src/service.ts:127-149 | the loop stops exactly when no non-null record of the batch is dated 2018 or later; otherwise the offset grows by the batch length and the batch's 2018 records are appended in order |
| Pagination.LoopAppendsFloorYear | src/service.ts:137-149 | a returned list starts with the records accumulated before, and every later record is dated 2018 |
| Pagination.SessionFloorYear | src/service.ts:145-149 | every record the scrape returns is dated 2018 |
| Pagination.ScheduleAccumulates | src/service.ts:44-152 | the loop only appends driver calls to those issued before it |
| Pagination.ScheduleGoes | src/service.ts:44-152 | a continuing iteration issues its own calls, then the rest of the loop's |
| Pagination.ScheduleTrace | src/service.ts:47-143 | the loop's calls form whole iterations of evaluate, scroll and a 7500 ms wait, starting with an evaluation at the current offset; the last iteration is whole when the loop returns, and the calls end with the failing evaluation when it throws |
| Pagination.SessionCalls | src/service.ts:20-24 | after a successful navigation, the session is the navigation followed by the loop's own calls |
| Pagination.OffsetsIncrease | src/service.ts:127 | the offsets of the loop's evaluations start at the initial offset and strictly increase |
| Pagination.ScheduleNeverCloses | src/service.ts:44-152 | the loop never closes the page itself |
| Pagination.SessionClosesOnce | src/service.ts:19-33 | a session followed by the release of the page closes it exactly once, as the last call, on both paths |
| Pagination.StopsOnEmptyWindow | src/service.ts:141-143 | when no record past the offset is dated 2018 or later, the loop returns the accumulated records unchanged after one iteration |
| Pagination.ScenarioMixedYears | src/service.ts:127-149 | posts from 2019, 2018 and 2017 on a page that loads nothing more: two passes, and only the 2018 record is kept |
| Pagination.ScenarioAllOlder | src/service.ts:141-143 | posts from 2017 and 2016 only: one pass, and the accumulated records come back unchanged |
| Pagination.PageDriver.constructor | src/service.ts:17 | a new page shows the first frame and has issued no call |
| Pagination.PageDriver.Goto | src/service.ts:20 | navigation records the call and fails or not as the page is set up to |
| Pagination.PageDriver.EvaluatePosts | src/service.ts:47-125 | the in-page evaluation returns the extraction of the frame on show past the offset, or throws on a crashed frame |
| Pagination.PageDriver.ScrollToBottom | src/service.ts:130-132 | scrolling records the call |
| Pagination.PageDriver.WaitFor | src/service.ts:135 | waiting records the call, and the next frame comes on show |
| Pagination.PageDriver.Close | src/service.ts:26-30 | closing records the call and marks the page closed |
| Pagination.CollectArticles | src/service.ts:41-152 | the imperative loop returns what Loop returns or rethrows its error, and issues exactly Loop's driver calls |
| Pagination.GetPage | src/service.ts:16-34 | the result or the error is the session's, and the page ends closed after the session's calls plus one close |
| Pagination.ScrapArticles | src/service.ts:37-154 | the scrape of the JavaScript listing, with every returned record dated 2018 |
| Output.SortByClaps | src/index.ts:11-13 | in place, the array ends up a permutation of its records with claps never increasing |
| Output.Insert | src/index.ts:12 | one insertion step rearranges a[..i + 1] into claps order, keeping exactly its records, and leaves the rest of the array untouched |
| Output.SortedClapsUnique | src/index.ts:12 | any two claps-ordered arrangements of the same records have the same claps at every position, so the sorted order is fixed up to ties |
| Output.Rendered | src/index.ts:16-26 | one list item per record |
| Output.Html | src/index.ts:29-43 | the page is the fixed head, the list, then the fixed closing tags |
| Output.ItemsAppend | src/index.ts:16-27 | the list of a concatenation is the two lists joined with nothing between them |
| Output.ItemsSplit | src/index.ts:16-27 | the list is the items before k, the item of record k, then the items after it |
| Output.ItemAt | src/index.ts:16-43 | the k-th item of the page is the k-th record's, right after the items of the records before it |
| Output.HtmlEmpty | src/index.ts:29-43 | no records give the skeleton with an empty list |
| Output.ItemShowsFields | src/index.ts:18-24 | each interpolated field appears in its item verbatim, with no escaping, right after the markup before it |
| Output.ItemShowsClaps | src/index.ts:23 | the claps shown in an item read back as the record's claps |
| Output.Scrap | src/index.ts:46-63 | the output records are the scrape's records sorted by claps, all dated 2018, and the HTML renders exactly that order; a failed scrape is rethrown |

## Left out

- Puppeteer: launching the browser, `newPage`, the `goto` options and the
  console forwarding are not modelled. The page is the abstract `PageDriver`;
  only navigation and the in-page extraction can fail.
- The DOM and CSS selectors: post elements are abstract records of what each
  query finds. `Faulty` stands for whatever makes building a record throw.
- Scrolling and timing: `window.scrollTo` and the 7500 ms pause are trace
  events. The content each scroll loads is the next frame in the list.
- Failures of the scroll evaluation, of `waitFor` and of `newPage` are not
  modelled.
- Pagination.PageDriver.Close: closing never fails. In the source, a `close()`
  that rejects on the normal path is caught and closed again.
- JavaScript `Date`: parsing, `toUTCString` and `getFullYear` are replaced by an
  optional calendar year. `getFullYear` reads local time, so in time zones
  other than UTC a post near New Year can land in the neighbouring year; the
  model ignores this.
- Counter.ClapsValue: `Number(...)` is modelled on unsigned decimal numerals
  only.
  - Whitespace, signs, exponents, hexadecimal, "Infinity" and text that gives
    `NaN` are excluded by the `CounterText` type.
  - Values are exact decimals. IEEE double rounding of the ×1000 product is not
    modelled.
- Counter.Text: printing uses plain decimal notation. Exponent notation, which
  JavaScript uses for very large or very small numbers, is not modelled.
- Output.SortByClaps: `NaN` claps in the comparator are not modelled, because
  no counter text yields them here. It does not state stability: the model's
  insertion sort is stable, but no lemma says so.
- Output.SortByClaps: the source's sort returns the same array. The model sorts
  the array in place and returns nothing.
- The `page.evaluate` serialisation of the returned records is not modelled.
- I/O is left out: `console.log`, `module-alias`, `ensureFile`, emptying and
  writing the two files, `JSON.stringify` and `Promise.all`. The JSON
  representation is the sorted list of records itself.
- The browser itself is never closed by the source; nothing about it is
  modelled.

# Background refresh cache of the stock-availability front end

`app.js` serves product pages for three categories: beanies, facemasks and gloves.
It keeps every piece of data it shows in module-level state.
Two async refreshes fill that state:

- `fetchItems` fetches the three product lists and collects the manufacturers they mention.
- `fetchAvailabilities` fetches each manufacturer's availability records. It retries the upstream's malformed answers a bounded number of times. It then writes a stock status for every record into a dictionary keyed by the lower-cased product id. The status is extracted from between `<INSTOCKVALUE>` tags.

Every page request starts a refresh of each kind unless one of that kind is already running.

This project models that cache in Dafny and proves what it does.
The module state becomes the class `RefreshCache.Cache`, with one field per global.
Each network reply is a parameter.
A category listing is an `Option`, where `None` means the fetch or `JSON.parse` threw.
A manufacturer's availability replies come as a feed that the retry loop reads from, one reply per attempt.

The modules:

- `Upstream`: option, item, record and reply types.
- `Text`: `indexOf`, `split(sep)[0]`, `split(sep)[1]` and `toLowerCase` on strings.
- `Payload`: the extraction of the stock status.
- `Discovery`: the ordered de-duplication of manufacturers.
- `AvailabilityFetcher`: the retry loop for one manufacturer.
- `AvailabilityIndex`: the index pass as a function over the records.
- `RefreshCache`: the class, its two refreshes and the trigger guard.
- `Scenario`: one start-up cycle worked through.

Where the code behaves differently from what the upstream's documented behaviour suggests, the model follows the code:

- `manufList` is a `const` array that is never cleared, so manufacturers accumulate across refreshes. They are not recomputed.
- `availabilities` and `manufAvailbList` are merged into, never rebuilt. A manufacturer given up on keeps the records of an earlier cycle, and a product that disappears keeps its status.
- A payload without an end tag is not an error: its whole remainder after the start tag becomes the status.
- A payload without a start tag throws a TypeError. The index pass stops there, after its earlier writes, and the refresh never reaches the lines that clear `fetchingAvailabilities` and update `successfulUpdate`.
- A fetch or parse that throws during the availability loop is not retried. It ends the whole availability refresh before the index pass.
- When an item fetch throws, the categories fetched before it have already been replaced, and the refresh ends before it scans for manufacturers or clears `fetchingItems`.
- None of these throws is caught. The refreshes that a page request starts are neither awaited nor given a handler, so under Deno the rejected promise ends the process; at start-up (app.js:84-85) the throw ends the module before the request loop begins. The model stops at the throw itself: see "## Left out".
- A genuine response of exactly two records is treated as the failure signature, so it is retried and in the end given up on.

## Model

| member | source | states |
|---|---|---|
| Text.FindMeaning | app.js:74-75 | the search finds a separator exactly when one occurs, and the one it finds is the first |
| Text.SplitFirstMeaning | app.js:75 | `split(sep)[0]` is the prefix before the first separator; no separator starts inside it; it is all of the string exactly when there is no separator |
| Text.SplitSecondMeaning | app.js:74 | `split(sep)[1]` is undefined exactly when there is no separator; otherwise it is the text after the first separator, up to the next one or the end |
| Text.LowerChar | app.js:76 | upper-case ASCII letters map to their lower-case letter; other characters stay as they are |
| Text.ToLower | app.js:76 | `toLowerCase` keeps the length, leaves no upper-case letter, turns each upper-case letter into its lower-case letter in place and keeps every other character |
| Text.ToLowerIsLower | app.js:76 | a lower-cased key has no upper-case letter left, and lower-casing it again changes nothing |
| Text.LowerIsFixedPoint | app.js:76 | a key without upper-case letters is its own lower-cased form |
| Payload.ExtractMeaning | app.js:73-75 | `Extract`, the two splits, throws exactly when the payload has no start tag; otherwise the status is the text after the first start tag, up to the next start tag or the first end tag, or to the end when neither follows |
| Payload.ExtractRoundTrip | app.js:73-75 | a status `v` written between a start and an end tag, after a prefix without a start tag, is extracted as `v` whatever follows |
| Payload.ExtractWithoutEndTag | app.js:75 | with the end tag missing, the whole remainder after the start tag is the status |
| Discovery.DiscoverAppendsUnseen | app.js:34-37 | `Discover`, the `includes`/`push` scan, keeps the old list (a `const` array, app.js:12) as an unchanged prefix and appends only manufacturers it did not hold, none twice; the result holds exactly the old entries and the manufacturer of every item |
| Discovery.DiscoverNoDuplicates | app.js:35-36 | a list without duplicates stays without duplicates |
| Discovery.DiscoverFirstSeenOrder | app.js:34-37 | the appended manufacturers come in order of their first item |
| AvailabilityFetcher.RetryFrom | app.js:50-59 | from attempt `i` on: every attempt but the last had a malformed reply; the last reply decides the outcome (throw, kept response or giving up); giving up happens only at the sixth attempt |
| AvailabilityFetcher.Retry | app.js:45-63 | one to six attempts; every attempt before the last was answered with a two-entry response; the outcome is a throw exactly when the last reply was unreadable, and the response is kept exactly when the last one was well formed |
| AvailabilityFetcher.FetchAvailability | app.js:45-63 | the `tries` loop with its `break` after the sixth attempt computes exactly `Retry` |
| AvailabilityFetcher.RetrySucceedsWithinBudget | app.js:45-64 | after k malformed replies, k at most 5, a well-formed reply k+1 is the one kept, after k+1 attempts |
| AvailabilityFetcher.RetryGivesUpAfterSix | app.js:50-63 | six malformed replies in a row make the loop give up after exactly six attempts |
| AvailabilityFetcher.RetryThrowsOnUnreadableReply | app.js:47-57 | an unreadable reply ends the retry at once, as a throw |
| AvailabilityIndex.FlattenMembers | app.js:69-72 | the pass visits every record of every stored response, and only those |
| AvailabilityIndex.ApplyDoneIff | app.js:72-75 | the index pass runs to its end exactly when every payload has a start tag |
| AvailabilityIndex.ApplyKeys | app.js:72-76 | after a complete pass the keys are the old keys plus the lower-cased id of every record |
| AvailabilityIndex.ApplyKeepsUntouched | app.js:69-77 | a key that no record writes keeps its old value |
| AvailabilityIndex.ApplyLastWriter | app.js:72-76 | the last record in iteration order that writes a key decides its value |
| AvailabilityIndex.ApplyLastWriterWins | app.js:69-77 | `Apply`, the writes of the index pass in record order: the dictionary (never cleared, app.js:14) is merged into; after a complete pass: the key set is the old keys plus the record keys, each record key holds its last writer's status, and every other key keeps its old value |
| AvailabilityIndex.ApplyThrowsAtFirstBad | app.js:72-76 | a pass that meets a payload without a start tag keeps exactly the writes of the records before it |
| AvailabilityIndex.LastWriterOf | app.js:72-76 | every key some record writes has a last writer |
| AvailabilityIndex.ApplyIdempotent | app.js:69-77 | a second complete pass over the same records changes nothing |
| AvailabilityIndex.ApplyMergesLowerCased | app.js:72-76 | a pass, complete or not, never removes a key, and every key it adds is lower case |
| RefreshCache.Put | app.js:64 | storing a response adds the key at the end of the key order, or keeps the key's place; it sets that value and no other |
| RefreshCache.CollectKeepsStore | app.js:44-67 | `CollectFrom`, the fetch loop over the manufacturers, keeps the store well formed, only adds keys, and adds only manufacturers |
| RefreshCache.CollectThrewIff | app.js:44-67 | the fetch loop is cut short exactly when some manufacturer's retry throws |
| RefreshCache.CollectKeepsUnvisited | app.js:44-67 | a manufacturer the loop does not visit keeps its stored response |
| RefreshCache.CollectOutcomes | app.js:60-64 | a manufacturer fetched successfully holds its new response; one given up on keeps its old response, or stays absent |
| RefreshCache.Cache.constructor | app.js:12-22 | the empty state: no manufacturers, no responses, an empty index, no items, both flags clear, tick 0 |
| RefreshCache.Cache.RefreshItems | app.js:24-41 | each category is replaced as soon as its reply is read; a throw stops there with `manufList` and the flag unchanged; a complete refresh appends the unseen manufacturers and clears `fetchingItems` |
| RefreshCache.Cache.DiscoverManufacturers | app.js:34-37 | the `includes`/`push` loop computes `Discover` and keeps `manufList` free of duplicates |
| RefreshCache.Cache.FetchAll | app.js:44-67 | the loop over `manufList` leaves the store and the throw flag as `CollectFrom` says |
| RefreshCache.Cache.IndexPass | app.js:69-78 | the nested loops leave `availabilities` as `Apply` over the stored responses in key order; `done` is false exactly when a payload threw; every key of the index stays lower case, as the class invariant `Valid` requires |
| RefreshCache.Cache.IndexResponse | app.js:72-77 | the loop over one stored response writes each record in turn exactly as `Apply` over that response followed by the later records, or stops where `Apply` throws |
| RefreshCache.Cache.RefreshAvailabilities | app.js:43-82 | a throw in the fetch loop leaves the index untouched; otherwise the index pass runs; only a complete refresh clears `fetchingAvailabilities` and advances `successfulUpdate` by one, and otherwise both stay as they were |
| RefreshCache.Cache.TriggerItems | app.js:108-111 | an item refresh starts exactly when none is running, and the flag is set afterwards |
| RefreshCache.Cache.TriggerAvailabilities | app.js:112-115 | an availability refresh starts exactly when none is running, and the flag is set afterwards |
| RefreshCache.Cache.OnPageView | app.js:107-115 | a page request starts each kind of refresh exactly when that kind's flag was clear |
| RefreshCache.TwoPageViews | app.js:107-115 | with no refresh completing in between, a second page request starts nothing |
| Scenario.CycleOutcome | app.js:44-78 | over A and B, the fetch loop completes without a throw and the index pass then yields exactly A's lower-cased id mapped to its status |
| Scenario.StartUpCycle | app.js:84-85 | from a fresh cache, a manufacturer that answers at once is indexed under the lower-cased id, one that always sends the failure signature is skipped, and the refresh completes with the tick at 1 |

## Left out

- The HTTP server, URL routing, the favicon and stylesheet reads, EJS rendering and the 303 redirect (app.js:87-131): these are I/O and templating.
- Port parsing from the command line (app.js:4-10): this is process start-up with a float conversion.
- `fetch`, `response.text()` and `JSON.parse`: their results are parameters. A reply that throws, or whose `response` field is missing, is `None`.
- Availability responses are modelled as lists of records. A `response` that is a string, or a list of strings, is not modelled. A list is never falsy, so the `!json` guard of app.js:70 never skips an entry.
- Async interleaving of the fire-and-forget refreshes (app.js:110, 114): triggering and running a refresh are separate sequential calls. Because of this, a manufacturer that an item refresh pushes while the availability loop runs over `manufList` is not modelled.
- `new Date()`: `successfulUpdate` is a tick that counts completed availability refreshes, starting at 0.
- `console.log` output.
- The end of the process after a throw: in app.js an uncaught rejection ends the Deno process. The model instead ends the refresh at the throw: `RefreshItems` or `RefreshAvailabilities` returns `completed == false` with its flag as it was, and the class still allows page views and refreshes after that. No such later call happens in the program.
- Text.ToLower: lower-cases ASCII letters only, not the full Unicode mapping of `toLowerCase`.
- Object-key semantics beyond insertion order: integer-like keys, which `Object.entries` visits first, and `__proto__` keys are not modelled.
- Only the `id`, `manufacturer` and `DATAPAYLOAD` fields are modelled. The other item fields are only read by the page templates.
- RefreshCache.CollectOutcomes: states the stored responses only for a fetch loop that runs to its end. After a throw, `CollectKeepsStore` and `CollectKeepsUnvisited` still apply.
- RefreshCache.Cache.RefreshAvailabilities: takes one feed per manufacturer in `manufList`. Each feed must hold at least six replies, the most the retry loop can read.

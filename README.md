# TinyURL link store and request logic, in Dafny

A model of the core of a small URL shortener (Node.js/Express). The model covers these parts:

- **The in-memory link store** (`MemoryStore.MemoryDB`). This is a class whose fields are the store's two maps: short code to link record, and short code to click counter. The JavaScript `Map`'s iteration order is a third field, `order`. Its methods create, find, list, click and delete. The invariant `Valid()` holds after every one of them:
  - every record sits under its own short code;
  - `order` lists each key once;
  - the click-counter map has the same keys, all still 0.
- **The API handlers** of `routes/links.js` on the in-memory backend (`LinkRoutes`):
  - create: URL check, then custom-code format, then 409 on an existing code, then 201;
  - list, newest first;
  - stats, 404 when the code is absent;
  - delete, 404 when the code is absent.
- **The redirect handler** of `server.js` (`Server.HandleRedirect`): 404, or one more click and a 302 to the stored URL.
- **The validation middleware** (`Validation.ValidateCreateLink`).
- **Three client helpers** from `public/script.js`:
  - `escapeHtml` (`HtmlEscape`);
  - the stats-page code extraction (`StatsPage`);
  - the search filter (`LinkSearch.HandleSearch`, a loop over row elements that sets each row's `display`).

External inputs are parameters:
- `validator.isURL` is an arbitrary predicate `isUrl`.
- `new Date()` is an integer clock reading `now`.
- The random code `Math.random().toString(36).substring(2, 8)` is an arbitrary string `generated`.
- `process.env.BASE_URL` is an optional string.

A request-body field that is `undefined`/`null` is `None`. JavaScript truthiness of a string field is `Truthy`: the value is present and non-empty.

Facts about the create path that the model keeps as the code has them:
- The create route does not retry a colliding generated code. It answers 409, exactly as for a taken custom code (routes/links.js:86-95).
- The existence check and the insert are two separate steps of the route.
- `substring(2, 8)` may return fewer than six characters, so the model claims no length for a generated code.
- The store's `createLink` overwrites an existing code. The route's existence check is the only guard.

## Model

| member | source | states |
|---|---|---|
| `MemoryStore.MemoryDB.constructor` | models/MemoryDB.js:3-7 | the store starts with both maps empty and satisfies the store invariant |
| `MemoryStore.MemoryDB.CreateLink` | models/MemoryDB.js:9-22 | returns a record with `_id` = `shortCode` = the code, the URL, 0 clicks, no last click, `createdAt` = now. It stores the record under the code even if the code was present, because `Map.set` overwrites (a replaced key keeps its iteration position). The click counter is set to 0. Afterwards `FindLink` returns exactly that record |
| `MemoryStore.MemoryDB.FindLink` | models/MemoryDB.js:24-26 | absent (null) exactly when the code is not a key, otherwise the stored record |
| `MemoryStore.MemoryDB.FindAllLinks` | models/MemoryDB.js:28-32 | the result is a permutation of all stored records (same multiset, one per key), ordered by `createdAt` non-increasing. Records created at the same time keep map insertion order (stable sort) |
| `MemoryStore.SortNewestFirstCorrect` | models/MemoryDB.js:29-31 | sorting with comparator `b.createdAt - a.createdAt` gives newest first and permutes its input. It keeps, for every timestamp, the subsequence of records with that timestamp |
| `MemoryStore.InOrderIsPermutation` | models/MemoryDB.js:29 | `Array.from(links.values())` lists every stored record exactly once |
| `MemoryStore.InOrder` | models/MemoryDB.js:29 | the values are listed in key order, one per key |
| `MemoryStore.Clicked` | models/MemoryDB.js:37-38 | a click raises `clicks` by exactly 1 and sets `lastClicked` to now. `_id`, `shortCode`, `originalUrl` and `createdAt` are kept |
| `MemoryStore.MemoryDB.IncrementClicks` | models/MemoryDB.js:34-42 | on a present code, that record becomes its clicked version and is returned; every other record is unchanged. On an absent code it returns null and changes nothing. The click-counter map is never touched |
| `MemoryStore.RemoveKey` | models/MemoryDB.js:46 | deleting a key removes exactly that key from the iteration order, keeps the rest, and keeps keys distinct; deleting an absent key leaves the order as it is |
| `MemoryStore.RemoveKeyInPlace` | models/MemoryDB.js:46 | in a duplicate-free order, deleting a present key takes out exactly its one position, so every other key keeps its place relative to the rest |
| `MemoryStore.MemoryDB.DeleteLink` | models/MemoryDB.js:44-49 | returns whether the code was present beforehand. It removes the code from both maps and from the order and leaves the code absent, so a second delete returns false. Deleting an absent code changes nothing |
| `MemoryStore.MemoryDB.LinkExists` | models/MemoryDB.js:51-53 | true exactly when `FindLink` finds a record |
| `Validation.ValidateCreateLink` | middleware/validation.js:4-25 | a missing, empty or isURL-refused URL gets 400 with the URL message, whatever the custom code (the URL is checked first). A custom code with a character outside `[A-Za-z0-9_-]`, or longer than 50 characters, gets 400 with the code message. An absent or empty code with a good URL passes. The request passes exactly when both checks do |
| `LinkRoutes.ChooseCode` | routes/links.js:64-83 | the route refuses exactly the requests the middleware refuses, with the same message. Otherwise it picks the custom code when one is given (truthy), and that code matches the format. Otherwise it picks the generated code |
| `LinkRoutes.ShortUrlCarriesCode` | routes/links.js:112 | the last path segment of the echoed short URL, whatever `BASE_URL` is (`http://localhost:3000` when unset or empty), is exactly the code |
| `LinkRoutes.ShortUrlOfValidCode` | routes/links.js:112 | the same for every code the format rule admits |
| `LinkRoutes.HandleCreate` | routes/links.js:60-116 | a refused request gets 400 and the store is unchanged. A chosen code that exists, whether custom or generated, gets 409 with no retry, and the store is unchanged. Otherwise exactly one record is added (clicks 0, created now), its code goes to the end of the iteration order, its counter is set to 0, and the 201 body echoes its code, URL, short URL, 0 clicks and creation time |
| `LinkRoutes.HandleList` | routes/links.js:21-29 | every stored record, newest first |
| `LinkRoutes.HandleStats` | routes/links.js:38-52 | 404 exactly when the code is absent, otherwise the stored record. The store is only read |
| `LinkRoutes.HandleDelete` | routes/links.js:128-142 | 404 exactly when the code was absent, with the whole store then unchanged. Otherwise the record and its counter are removed and the code is taken out of the iteration order, the other codes keeping their order |
| `Server.HandleRedirect` | server.js:95-124 | an absent code gets 404 and nothing changes. A present code gets a 302 to its stored `originalUrl`, and only that record changes, by one click stamped now |
| `HtmlEscape.ReplaceAll` | public/script.js:431 | a global one-character replacement leaves a string without that character unchanged |
| `HtmlEscape.ChainIsEscapeEach` | public/script.js:430-435 | because `&` is replaced first, the five chained replacements escape each character exactly once |
| `HtmlEscape.EscapeEachSafe` | public/script.js:431-435 | the escaped text holds no raw `<`, `>`, `"` or `'`, and every `&` in it begins `&amp;`, `&lt;`, `&gt;`, `&quot;` or `&#039;` |
| `HtmlEscape.EscapeEachLength` | public/script.js:430-435 | escaping never shortens, and leaves a text without special characters unchanged |
| `HtmlEscape.UnescapeEscapeEach` | public/script.js:430-435 | decoding the five entities gives the original text back, so escaping loses nothing |
| `HtmlEscape.EscapeHtml` | public/script.js:428-436 | a falsy input gives `''`. Otherwise the output has no raw markup characters, every `&` opens an entity, the output is never shorter, it is unchanged when there are no special characters, and it decodes back to the input |
| `StatsPage.Split` | public/script.js:253 | `split('/')` gives at least one piece and no piece holds a `/` |
| `StatsPage.JoinSplit` | public/script.js:253 | joining the pieces with `/` gives the path back |
| `StatsPage.LastSegmentIsSuffix` | public/script.js:254 | the segment taken is the text after the last `/` (the whole path when there is none) |
| `StatsPage.SplitStatsPath` | public/script.js:247 | the page path `/code/<code>` of a code without `/` splits into `""`, `"code"`, the code |
| `StatsPage.StatsCodeAsWritten` | public/script.js:253-260 | as written: the last segment is accepted unless it is empty or equals `"code"` |
| `StatsPage.StatsCodeAsWrittenRefusesCode` | public/script.js:256 | `"code"` is a valid short code, yet its own stats page `/code/code` is refused |
| `StatsPage.StatsCodeAsWrittenOtherCodes` | public/script.js:253-260 | every other non-empty code without `/` is read back from its page path |
| `StatsPage.StatsCode` | public/script.js:253-260 | corrected extraction: refused exactly when the last segment is empty, or is `"code"` standing for the route prefix with nothing after it; otherwise the last segment |
| `StatsPage.StatsCodeOfStatsPath` | public/script.js:253-260 | round trip with `viewStats`: every non-empty code without `/` is read back from `/code/<code>` |
| `StatsPage.StatsCodeRefusesBarePaths` | public/script.js:256 | `/code` and `/code/` are refused as invalid |
| `StatsPage.ValidCodesRoundTrip` | public/script.js:253-260 | every code matching the short-code format is read back from its page path |
| `LinkSearch.LowerPointwise` | public/script.js:365 | lower-casing keeps the length and maps each character on its own |
| `LinkSearch.ShowMatchingRows` | public/script.js:364-372 | each row is shown (`''`) exactly when its lower-cased text contains the lower-cased query, hidden (`'none'`) otherwise, and the count returned is the number of rows shown |
| `LinkSearch.HandleSearch` | public/script.js:355-377 | with a table body, each row is shown (`''`) exactly when its lower-cased text contains the lower-cased query, and hidden (`'none'`) otherwise. The empty-state element is `'block'` exactly when the visible count is 0, otherwise `'none'`. Without a table body nothing changes |
| `LinkSearch.EmptyQueryShowsAll` | public/script.js:364-372 | an empty query shows every row |
| `LinkSearch.NoneVisibleIffZero` | public/script.js:374-376 | the visible count is 0 exactly when no row matches, so the empty state is shown exactly then |
| `LinkSearch.QueryCaseIgnored` | public/script.js:366 | the filter gives the same answer for a query and its lower-cased form |

## Findings

| source | as written | input that shows it | evidently intended | confidence | as-written member | corrected member |
|---|---|---|---|---|---|---|
| public/script.js:256 | `initStatsPage` refuses any last path segment equal to `"code"` | create the valid custom code `code`; `viewStats` opens `/code/code`, whose last segment is `"code"`, and the page shows "Invalid link code" | refuse `"code"` only when it is the route prefix with no code after it (`/code`); read back every code from `/code/<code>` | medium (not executed) | `StatsPage.StatsCodeAsWrittenRefusesCode` | `StatsPage.StatsCodeOfStatsPath` |

## Left out

- The MongoDB/Mongoose branch of `routes/links.js` and `server.js` is not modelled: `Link.findOne`, `save`, `findOneAndDelete`, error code 11000 and `readyState`. It depends on a foreign database library. The backend is fixed to the in-memory store.
- `models/Link.js` (the Mongoose schema) is not part of this model. It is enforced by the library; only its short-code pattern (line 10) is used, in `ShortCodes.IsValidCode`.
- `validator.isURL` is an arbitrary predicate parameter. No URL syntax is modelled.
- The random code generator is an arbitrary string parameter, because it is floating-point and random. No length or alphabet is claimed.
- `new Date()` is an integer clock parameter. No monotonicity is assumed.
- The `catch` branches (status 500 and the empty-list fallback) are left out. On the memory backend with string inputs they cannot be reached.
- Request-body fields that are JSON values other than strings (numbers, objects) are left out, and so is the type error `isURL` would raise on them.
- Records are values in the store's map. JavaScript returns the stored object itself, so a caller's reference sees later clicks; this aliasing is not modelled. No handler in the core reads a record after changing it, except for `originalUrl`, which never changes.
- Express routing, helmet, CORS, rate limiting, dotenv, `app.listen`, connection event handlers and `console` logging are left out as plumbing. Response JSON is modelled only as status and the fields named above.
- Express route order is not modelled. `app.get('/healthz')` (server.js:70) is registered before `app.get('/:code')` (server.js:95), and Express matches paths case-insensitively by default, so a link whose custom code is any case variant of `healthz` (`healthz`, `HEALTHZ`, `Healthz`, …) passes validation but never redirects.
- `LinkRoutes.ShortUrlCarriesCode`: proves only that the last path segment of the short URL is the code. The link reaches the `/:code` route (server.js:95) with that code only when `BASE_URL` is the server's origin with no path and no trailing `/`. With `https://h/` the path becomes `//abc`, and with `https://h/x` it becomes `/x/abc`; neither matches `/:code`. URL parsing and route matching are not modelled.
- `MemoryStore.Clicked`: `clicks` is an unbounded `nat`. The source's counter is a JavaScript double, which stops increasing at 2^53 (unreachable in practice).
- Concurrency is left out: Node runs these handlers one event at a time, and the source has no locking or retry to model.
- `LinkSearch.Lower`: models `toLowerCase` on ASCII letters only. Full Unicode case mapping is outside the model.
- `LinkSearch.HandleSearch`: the row `NodeList` is a sequence of element objects whose `textContent` is fixed, since the handler only reads it. DOM rendering, `fetch`, clipboard, alerts and event wiring in `public/script.js` are left out.
- `HtmlEscape.EscapeHtml`: the input is a string or absent. Other falsy JavaScript values give `''` in the source as well, but non-string truthy values are not modelled.

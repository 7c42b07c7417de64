# Bookmark service — a Dafny model

The bookmark service has two halves. A request handler runs on an edge worker and
stores bookmark rows (id, URL, title, comma-joined tags, creation time) in a SQL
table. A browser client lists the rows, filters them by tag and adds new ones.
This project models:

- the handler (`apps/api/src/index.ts`) as a pure transition
  `Handler.Handle(store, request, freshId, now)`, which yields a new table and a
  reply. It routes a CORS preflight first, then a create on `/bookmarks` and a
  list on `/bookmarks`, and answers everything else with 404;
- the list query (`Listing`): the optional `LIKE '%t%'` filter, here a
  substring test, and `ORDER BY created_at DESC`, here a stable insertion sort;
- the tag encoding that the form, the server and the table share (`Strings`,
  `Whitespace`, `Tags`). The form parses its field with
  `split(",").map(trim).filter(Boolean)`, the server stores `tags.join(",")`,
  and the table shows `tags.split(",")`;
- the client's request choices (`Client`): when the `tag` query is attached,
  what a click on a tag badge selects, and what clearing the filter does;
- the test suite's create-then-list and filter exchanges (`Scenarios`).

Files: `wrappers.dfy` (Option), `strings.dfy`, `whitespace.dfy`, `tags.dfy`,
`bookmarks.dfy` (the records of `apps/shared/src/types.ts`), `listing.dfy`,
`handler.dfy`, `client.dfy`, `scenarios.dfy`.

The model follows the code:

- A create without `tags` binds `undefined` (`apps/api/src/index.ts:39`). The
  model takes a bound `undefined` to store SQL NULL, and writes it as `None`.
- A create has no 400 path. `url` and `title` are passed through unchecked.
- An empty `tag` query value is falsy, so it lists every row unfiltered.
- The test suite sends its requests to `/api/bookmarks`. The handler compares
  the pathname with `/bookmarks` exactly, so it answers those requests with 404
  (`Scenarios.PrefixedPathIsNotFound`). The scenarios therefore replay the
  tests on `/bookmarks`.
- A create whose body is not valid JSON makes `request.json()` throw. A body
  that is JSON `null` throws at `body.url`. Either way the throw comes before
  anything is written. The model's request carries no body in these cases,
  its reply is `Throw`, and the table is unchanged.
- The table splits the stored tags with `bm.tags.split(",")`. On a NULL value
  that call throws a TypeError. `Tags.DisplayTags` returns `None` in that case.

## Model

| member | source | states |
|---|---|---|
| Strings.Split | apps/web/src/App.tsx:182 | JavaScript `split` on one character always yields one more piece than the string has separators, so "" gives [""]; no piece contains the separator |
| Strings.JoinSplit | apps/api/src/index.ts:39 | for every string, joining its comma-pieces back with the separator rebuilds the string exactly |
| Strings.SplitJoin | apps/web/src/App.tsx:182 | splitting the join of a non-empty list of separator-free pieces returns that list |
| Strings.SplitAcrossSeparator | apps/web/src/App.tsx:182 | the pieces of `a + sep + b` are the pieces of `a` followed by the pieces of `b` |
| Strings.ContainsIffOccurs | apps/api/src/index.ts:52 | the substring test that stands for `LIKE '%t%'` holds exactly when `t` occurs in `s` at some index |
| Strings.PiecesAreContained | apps/web/src/App.tsx:182 | every piece the table shows is a substring of the stored tag string |
| Whitespace.TrimStart | apps/web/src/App.tsx:75 | the result is a suffix of the input; everything dropped is white space, and the result does not start with white space |
| Whitespace.TrimEnd | apps/web/src/App.tsx:75 | the result is a prefix of the input; everything dropped is white space, and the result does not end with white space |
| Whitespace.Trim | apps/web/src/App.tsx:75 | `trim()` returns the slice of the input that is left after cutting white space off both ends: only white space lies before and after it, and it has white space at neither end; it is "" exactly when the input is all white space |
| Tags.DropEmpty | apps/web/src/App.tsx:75 | `filter(Boolean)` keeps every non-empty string of the input, as often as it occurs there, and nothing else; the result is empty exactly when every input string is empty |
| Tags.DropEmptyAppend | apps/web/src/App.tsx:75 | `filter(Boolean)` distributes over concatenation, so it keeps the input order |
| Tags.ParseTagField | apps/web/src/App.tsx:75 | every parsed tag is non-empty, contains no comma and is trimmed; the list is empty exactly when the field holds only commas and white space |
| Tags.ParseAcrossComma | apps/web/src/App.tsx:75 | the tags of `a + "," + b` are the tags of `a` followed by those of `b` |
| Tags.ParseCommaFree | apps/web/src/App.tsx:75 | a comma-free field parses to no tag if it is all white space and otherwise to its trimmed self; with ParseAcrossComma this fixes the parser on every input |
| Tags.DisplayTags | apps/web/src/App.tsx:182 | a NULL tag string makes the display throw; otherwise it shows one badge more than the string has commas, every badge is a substring of the string, and joining the badges rebuilds the string |
| Tags.ParsedTagsRoundTrip | apps/api/src/index.ts:39 | a non-empty parsed list, joined by the server and split by the table, comes back unchanged; an empty list is stored as "" and shows the single badge "" |
| Bookmarks.SomeFreshId | apps/api/src/index.ts:36 | whatever the table holds, a non-empty id that no row uses exists, so the fresh-id assumption can always be met |
| Listing.FilterByTag | apps/api/src/index.ts:52 | the filter keeps each row exactly as often as it is stored when its tags are non-NULL and contain the filter value, and drops every other row |
| Listing.Insert | apps/api/src/index.ts:52-53 | inserting into a newest-first list keeps it newest-first and adds exactly the one row |
| Listing.SortNewestFirst | apps/api/src/index.ts:52-53 | `ORDER BY created_at DESC` returns a permutation of its input, newest first |
| Listing.ListBookmarks | apps/api/src/index.ts:50-55 | the list is newest first; without a non-empty filter it is a permutation of the whole table; with filter `t` it is a permutation of the rows whose tags contain `t` |
| Listing.ListedIff | apps/api/src/index.ts:50-55 | a row is listed exactly when it is stored and, if the query filters, its tags contain the filter |
| Handler.Handle | apps/api/src/index.ts:18-69 | OPTIONS on any path gets 204 with no body and exactly the three CORS headers, before any path check; a create on `/bookmarks` appends exactly one row, keeps the old rows, and acknowledges `{success: true, id}` with status 200; a create whose body is not valid JSON, or is JSON `null`, throws without writing; a list on `/bookmarks` returns the rows of the list query and writes nothing; everything else gets 404 "Not Found" with `Access-Control-Allow-Origin: *` and writes nothing; the table only grows, and only through a create |
| Handler.NewRecordKeepsRequest | apps/api/src/index.ts:35-39 | the new row has the generated id, the URL and title as sent, and the insert time; its tags are the comma-join of the sent list, or NULL exactly when no list was sent; the table shows a non-empty comma-free list again as it was sent |
| Handler.CreateKeepsIdsUnique | apps/api/src/index.ts:36-39 | when the generated id is fresh, a create keeps ids unique and adds exactly that id to the ids in use |
| Handler.CreatedRecordIsListed | apps/api/src/index.ts:34-62 | a create is acknowledged with status 200 and a non-empty id; a later unfiltered list holds the new row, and it is the only listed row with that id |
| Handler.RepeatedCreateMakesTwoRecords | apps/api/src/index.ts:36 | a create is not idempotent: sending the same body twice gives two new rows with the same URL, title and tags and different ids |
| Handler.ListFiltersBySubstring | apps/api/src/index.ts:50-53 | with a non-empty `tag`, exactly the stored rows whose tags contain it are listed; with an empty `tag`, every stored row is listed |
| Client.FetchRequest | apps/web/src/App.tsx:48 | the list request targets `/bookmarks`; it carries a `tag` query exactly when the selected tag is a non-empty string, and the query is that tag |
| Client.FetchAgreesWithServerTruthiness | apps/web/src/App.tsx:48 | whatever tag is selected, the server answers the client's request as it would a request carrying the selection as-is, so leaving out an empty tag changes nothing |
| Client.ClearedFilterListsEverything | apps/web/src/App.tsx:150 | after the filter is cleared, the list is every stored row, newest first |
| Client.ClickedTagFindsItsBookmark | apps/web/src/App.tsx:182-187 | clicking any badge shown for a row lists that row again, whether the badge is non-empty (filtered list) or empty (unfiltered list) |
| Client.SubmittedTagsShowBack | apps/web/src/App.tsx:69-77 | after a form submit the new row holds the title and URL typed; its badges are the parsed tags, or one empty badge when the field held no tag |
| Scenarios.IntegrationRoundTrip | test/index.spec.ts:36-72 | after creating `["integration", "test"]`, the list holds the acknowledged id with the URL and title sent and the tags "integration,test" |
| Scenarios.FilterByUniqueTag | test/index.spec.ts:87-119 | after creating a row tagged "unique-tag-123", filtering by that tag answers 200, lists the row, and every listed row's tags contain the tag |
| Scenarios.PrefixedPathIsNotFound | test/index.spec.ts:18 | a non-OPTIONS request on `/api/bookmarks` or `/bookmarks/` gets 404 "Not Found" and writes nothing |

## Left out

- The SQL database: the table is an in-memory sequence. Statement failures are not modelled, so there is no 5xx reply.
- `LIKE` details: `%` and `_` inside the filter value act as wildcards in SQL, and SQLite's `LIKE` ignores ASCII case. The model's filter is a plain case-sensitive substring test.
- The random id (`uuid()`): a parameter of `Handle`. Properties that need a new id assume it is non-empty and unused. The UUID text format is not modelled.
- `created_at`: the database's default timestamp is a `nat` parameter, and its text rendering is not modelled. The source leaves the order of equal timestamps unspecified; the model keeps table order for them.
- JSON parsing and serialisation, `new URL`, `encodeURIComponent`, and `Response` objects are library code. The request arrives already decoded: method, pathname, `tag` value and body. Headers are a map with exact-case names. The client's `encodeURIComponent` followed by the server's `searchParams.get` is taken to give back the selected tag unchanged.
- A bound `undefined` for absent tags is taken to store SQL NULL. The database driver's documented handling of `undefined` binds, which may reject them, is not part of this model.
- Request bodies that parse as JSON but do not have the create shape. The typed body cannot express them, and the source handles them as follows:
  - a number, string or array body reaches the insert with `undefined` binds;
  - an object whose `url` or `title` is missing or not a string reaches the insert with those values bound as they are;
  - an object whose `tags` is present but not an array (for example `"a,b"`) throws at `body.tags?.join`.
- Tag lists whose elements are not strings: `join` converts each element to text, and `null` or `undefined` becomes "". The model's tags are strings.
- The worker runtime's response to a thrown handler: the model stops at `Throw`.
- HTTP method case normalisation by the runtime: methods are compared as given.
- JavaScript strings are UTF-16 code-unit sequences. The model uses Dafny's Unicode-scalar strings, and the white-space set of `trim()` is written out as the 25 ECMAScript WhiteSpace and LineTerminator code points.
- All React rendering, state hooks, the loading flag, `fetch` error handling, dialog handling and `apps/web/src/components/Footer.tsx`: these are presentation. So is the duplicate-`key` behaviour of badges with equal tags.
- `eslint.config.js`: tool configuration with no behaviour.

# Blacklist service — a Dafny model

This project models the core of a mock name-blacklist HTTP service. It covers two parts.

- **`BlacklistStore`** (`BlacklistStore.dfy`) is the in-memory store. It holds a registry of
  entries keyed by the lower-cased name. On creation it is seeded with five sample entries. It
  answers membership, lookup, listing and statistics queries, and it adds and removes entries.
  The registry is a value `Registry(order, names)`. `names` maps each key to its entry. `order`
  lists the keys in the order a JavaScript object enumerates them: insertion order, where
  re-assigning a key keeps its place and deleting it removes it. The store object is a class,
  `Store`, whose one mutable field holds that registry. Its constructor, `Add` and `Remove`
  update the field in place.
- **`BlacklistRoutes`** (`BlacklistRoutes.dfy`) holds the five request handlers of the
  `/api/blacklist` router: list all, check one, statistics, add, remove. The three GET handlers
  only read, so each is a function from the registry and the clock reading to a `Response`
  (status code, `success` flag, body). POST and DELETE change the store. Each is specified by a
  function from (registry, request, clock) to (response, new registry), and a method over a
  `Store` is proved to agree with that function.

`Text.dfy` models the two string operations names go through: `trim` in the handlers and
`toLowerCase` in the store. `Wrappers.dfy` holds `Option`. `BlacklistScenarios.dfy` replays
the blacklist requests of the API test suite against a freshly seeded store. It states the
status codes and bodies those tests expect.

The clock is a parameter `now`, in epoch milliseconds. Stored timestamps are the same integers
rather than ISO-8601 strings. The seeds' `addedAt` values are converted exactly, e.g.
2024-01-15T10:00:00Z is 1705312800000.

The main results are these:
- Keys stay the lower-cased names, in a duplicate-free order that lists exactly the stored keys.
- The listing returns every stored entry exactly once.
- The statistics count every entry once; their category counts add up to the total (for
  categories that are not names of `Object.prototype` members; see "Left out").
- `lastUpdated` is the latest `addedAt` of a stored entry.
- Checks ignore case and surrounding whitespace.
- A second POST of the same name gets 409.
- DELETE after POST restores the previous registry, and a second DELETE gets 404.
- The 500 branch of DELETE cannot be reached.

## Model

| member | source | states |
|---|---|---|
| Text.LowerChar | src/data/blacklistStore.ts:72 | a capital `A`-`Z` becomes the lower-case letter at the same place in the alphabet, every other character is unchanged, and no capital is left |
| Text.Lower | src/data/blacklistStore.ts:72 | `toLowerCase` keeps the length and lower-cases each character in place |
| Text.LowerIdempotent | src/data/blacklistStore.ts:67 | lower-casing an already lower-cased key changes nothing, so a key is its own key |
| Text.LowerOfLowercase | src/data/blacklistStore.ts:67 | a name without upper-case letters is its own key |
| Text.IsBlank | src/routes/blacklist.ts:129 | the handlers' blank test `name.trim().length === 0` (also at lines 241 and 310); its meaning is stated by `Text.BlankIffAllSpace` |
| Text.TrimStart | src/routes/blacklist.ts:138 | the result is the longest suffix not starting with whitespace, and only whitespace was dropped |
| Text.TrimEnd | src/routes/blacklist.ts:138 | the result is the longest prefix not ending with whitespace, and only whitespace was dropped |
| Text.Trim | src/routes/blacklist.ts:138 | `trim` returns the contiguous part of the name left after exactly its leading and trailing whitespace is dropped: every dropped character is whitespace, and the result is empty or starts and ends with a non-space |
| Text.BlankIffAllSpace | src/routes/blacklist.ts:129 | `name.trim().length === 0` holds exactly when every character is whitespace, in both directions |
| Text.SuffixTail | src/routes/blacklist.ts:138 | cutting trailing whitespace off a suffix of a name leaves a slice of the name, and only whitespace follows it |
| Text.TrimmedIsFixed | src/routes/blacklist.ts:138 | a name with no whitespace at either end is its own trimmed form |
| Text.TrimIdempotent | src/routes/blacklist.ts:138 | trimming twice is trimming once |
| Text.TrimStartLower | src/routes/blacklist.ts:138-139 | dropping leading whitespace commutes with lower-casing |
| Text.TrimEndLower | src/routes/blacklist.ts:138-139 | dropping trailing whitespace commutes with lower-casing |
| Text.TrimLowerCommute | src/routes/blacklist.ts:138-139 | trimming then lower-casing (handler, then store) equals lower-casing then trimming |
| BlacklistStore.DistinctCount | src/data/blacklistStore.ts:13 | a duplicate-free key sequence has as many elements as its set of keys |
| BlacklistStore.OrderCountsKeys | src/data/blacklistStore.ts:79-81 | in a well-formed registry the enumeration order has exactly one slot per stored key |
| BlacklistStore.IsBlacklisted | src/data/blacklistStore.ts:71-73 | `hasOwnProperty` of the lower-cased name; it agrees with the lookup by `BlacklistStore.GetBlacklistEntry`'s contract and ignores case by `BlacklistStore.LookupIgnoresCase` |
| BlacklistStore.GetBlacklistEntry | src/data/blacklistStore.ts:75-77 | the lookup finds an entry exactly when the name is blacklisted, and that entry is stored and its name lower-cases to the same key |
| BlacklistStore.LookupIgnoresCase | src/data/blacklistStore.ts:71-77 | membership and lookup give the same answer for a name and its lower-cased form |
| BlacklistStore.GetAllBlacklisted | src/data/blacklistStore.ts:79-81 | `Object.values` has one element per key, the i-th being the entry of the i-th key in enumeration order |
| BlacklistStore.ListingIsComplete | src/data/blacklistStore.ts:79-81 | every listed entry is found by looking up its own name, and every stored entry is listed |
| BlacklistStore.CategoryOf | src/data/blacklistStore.ts:105 | the entry's category, or `other` when it is missing or empty; `BlacklistStore.MissingCategoryCountsAsOther` states its default |
| BlacklistStore.Occurrences | src/data/blacklistStore.ts:103-110 | a category never occurs more often than there are entries |
| BlacklistStore.OccurrencesFive | src/data/blacklistStore.ts:103-110 | the count of a category over five entries is the sum of the five entries' contributions, in order |
| BlacklistStore.CountCategories | src/data/blacklistStore.ts:103-110 | the category map has a key exactly for each category present (missing counts as `other`), with that category's count |
| BlacklistStore.MaxAddedAt | src/data/blacklistStore.ts:117 | the maximum is at least every entry's `addedAt` and is one of them |
| BlacklistStore.GetBlacklistStats | src/data/blacklistStore.ts:101-120 | `total` is the number of entries; `categories` has a key exactly for each category in the listing, with its count; `lastUpdated` is the clock reading on an empty store and otherwise the `addedAt` of a stored entry that no other entry exceeds |
| BlacklistStore.LatestIsStored | src/data/blacklistStore.ts:115-118 | on a non-empty store `lastUpdated` is the `addedAt` of some stored entry |
| BlacklistStore.LatestIsMax | src/data/blacklistStore.ts:115-118 | on a non-empty store no stored entry was added after `lastUpdated` |
| BlacklistStore.MapSumTake | src/data/blacklistStore.ts:106 | the sum of a count map is one key's count plus the sum of the rest, whichever key is taken |
| BlacklistStore.CountCategoriesSum | src/data/blacklistStore.ts:103-110 | the per-category counts of a list of entries add up to its length |
| BlacklistStore.StatsCategoriesSumToTotal | src/data/blacklistStore.ts:101-114 | the counts in `categories` add up to `total` |
| BlacklistStore.OccurrencesPositive | src/data/blacklistStore.ts:105-106 | every listed entry's category appears in the map with a positive count |
| BlacklistStore.MissingCategoryCountsAsOther | src/data/blacklistStore.ts:105 | a stored entry whose category is missing or empty makes `other` a key with a positive count |
| BlacklistStore.Stamp | src/data/blacklistStore.ts:84-87 | the stored entry is the caller's fields plus `addedAt` from the clock; `BlacklistStore.Store.Add` states it |
| BlacklistStore.Put | src/data/blacklistStore.ts:88 | assignment to an object key: overwrite in place, or append the key; `BlacklistStore.AddSemantics` states its effect |
| BlacklistStore.Without | src/data/blacklistStore.ts:95 | `delete` removes exactly the deleted key from the enumeration order and keeps it free of duplicates |
| BlacklistStore.WithoutAppended | src/data/blacklistStore.ts:95 | deleting a freshly appended key restores the previous order |
| BlacklistStore.Delete | src/data/blacklistStore.ts:95 | `delete` of an object key; `BlacklistStore.RemoveSemantics` states its effect |
| BlacklistStore.AddSemantics | src/data/blacklistStore.ts:83-90 | after an add the name is blacklisted with the stamped entry, every other key keeps its entry, the count grows by one exactly when the name was new, and the registry stays well formed |
| BlacklistStore.AddTwiceLastWins | src/data/blacklistStore.ts:88 | the store itself overwrites: two adds of the same name leave the second entry, in the first one's place |
| BlacklistStore.RemoveSemantics | src/data/blacklistStore.ts:92-99 | after deleting the lower-cased key the name is not blacklisted, every other key keeps its entry, the count drops by one exactly when the name was present, and the registry stays well formed |
| BlacklistStore.PutThenDeleteRestores | src/data/blacklistStore.ts:83-99 | adding a new key and then deleting it gives back the previous registry, order included |
| BlacklistStore.SampleEntries | src/data/blacklistStore.ts:28-64 | the five sample entries in declared order, with `addedAt` converted exactly to epoch milliseconds |
| BlacklistStore.Index | src/data/blacklistStore.ts:66-68 | the registry after the `forEach` assignment of each entry under its lower-cased name; `BlacklistStore.IndexWellFormed` and `BlacklistStore.IndexSnoc` state its properties |
| BlacklistStore.IndexSnoc | src/data/blacklistStore.ts:66-68 | seeding one more entry assigns its key on top of the previous registry |
| BlacklistStore.IndexWellFormed | src/data/blacklistStore.ts:66-68 | seeding any list of entries keyed by their lower-cased names gives a well-formed registry |
| BlacklistStore.SampleNamesAreKeys | src/data/blacklistStore.ts:28-64 | the five sample names are already lower case, so each is its own key |
| BlacklistStore.Seeded | src/data/blacklistStore.ts:27-69 | the seeded registry is well formed and holds five entries |
| BlacklistStore.WellFormedFive | src/data/blacklistStore.ts:66-68 | five entries with distinct lower-cased names, assigned in turn, form a well-formed five-key registry |
| BlacklistStore.SeededKeyShapes | src/data/blacklistStore.ts:28-64 | each seeded key is identified by its length and first letter |
| BlacklistStore.InitialState | src/data/blacklistStore.ts:27-69 | running the seeding loop over the sample list yields the seeded registry |
| BlacklistStore.IndexFive | src/data/blacklistStore.ts:66-68 | assigning five distinct keys in turn yields those keys in that order with their entries |
| BlacklistStore.ListingFive | src/data/blacklistStore.ts:79-81 | listing five keys assigned in turn gives the five entries in assignment order |
| BlacklistStore.SeededListing | src/data/blacklistStore.ts:27-81 | a fresh store lists the five samples in their declared order |
| BlacklistStore.CategoriesFive | src/data/blacklistStore.ts:103-110 | the category map of five entries has exactly their five categories as keys |
| BlacklistStore.SampleCategories | src/data/blacklistStore.ts:28-64 | the samples count two `security`, two `policy` and one `compliance` |
| BlacklistStore.SampleLatest | src/data/blacklistStore.ts:28-64 | the latest sample was added at 2024-03-10T09:15:00Z |
| BlacklistStore.SeededStats | src/data/blacklistStore.ts:101-120 | a fresh store's statistics are total 5, those category counts and that latest time, whatever the clock says |
| BlacklistStore.Store.constructor | src/data/blacklistStore.ts:15-69 | a new store holds exactly the seeded registry, built by the seeding loop |
| BlacklistStore.Store.Add | src/data/blacklistStore.ts:83-90 | the store's registry becomes the old one with the stamped entry assigned under the lower-cased name; the stamped entry is returned |
| BlacklistStore.Store.Remove | src/data/blacklistStore.ts:92-99 | returns whether the lower-cased name was a key; if so that key is deleted, otherwise nothing changes |
| BlacklistRoutes.ListAll | src/routes/blacklist.ts:64-78 | 200 with every stored entry exactly once, the total, the statistics' category counts and latest time, and the request's time as `timestamp` |
| BlacklistRoutes.ListAllCountsAddUp | src/routes/blacklist.ts:66-75 | the listing's category counts add up to the number of entries listed |
| BlacklistRoutes.Check | src/routes/blacklist.ts:124-148 | 400 exactly for a blank name; otherwise 200 with the trimmed name, its membership, and its entry exactly when it is blacklisted |
| BlacklistRoutes.CheckNormalizes | src/routes/blacklist.ts:138-140 | checking the trimmed, lower-cased name gives the same verdict and entry as checking the name |
| BlacklistRoutes.GetStats | src/routes/blacklist.ts:184-194 | 200 with the store's statistics and the request's time |
| BlacklistRoutes.ValidName | src/routes/blacklist.ts:241 | the POST name check: a string that is not blank; `BlacklistRoutes.AddOutcome` answers 400 exactly when it fails |
| BlacklistRoutes.OrElse | src/routes/blacklist.ts:265-267 | a string field's value, or the fallback when it is missing or empty; `BlacklistRoutes.AddFillsDefaults` states both cases |
| BlacklistRoutes.AddOutcome | src/routes/blacklist.ts:236-274 | 400 for a missing, non-string or blank name; 409 when the trimmed name is present; otherwise 201 with the entry added under the trimmed name; only 201 changes the registry |
| BlacklistRoutes.AddFillsDefaults | src/routes/blacklist.ts:263-274 | a created entry carries the trimmed name and the request's time, and the default reason, author and category for empty fields |
| BlacklistRoutes.AddThenAddConflicts | src/routes/blacklist.ts:250-260 | after a 201, a second POST of the same trimmed name gets 409 and leaves the registry alone |
| BlacklistRoutes.Post | src/routes/blacklist.ts:236-274 | the handler over the store returns the specified response and leaves the store in the specified registry |
| BlacklistRoutes.RemoveOutcome | src/routes/blacklist.ts:305-346 | 400 for a blank name; 404 when absent; otherwise 200 with the name deleted; the 500 branch is never taken |
| BlacklistRoutes.Remove | src/routes/blacklist.ts:305-346 | the handler over the store returns the specified response and leaves the store in the specified registry |
| BlacklistRoutes.DeleteThenDeleteNotFound | src/routes/blacklist.ts:319-339 | after a 200 DELETE, a second DELETE of the same name gets 404 |
| BlacklistRoutes.AddThenDeleteRestores | src/routes/blacklist.ts:263-339 | a 201 POST of a new name followed by its DELETE gets 200 and restores the previous registry |
| BlacklistScenarios.ListSeeded | tests/api.test.ts:66-78 | listing a fresh store gives 200 with the five samples and total 5 |
| BlacklistScenarios.CheckSeededName | tests/api.test.ts:80-92 | `malicious_user` is reported blacklisted with its `security` entry |
| BlacklistScenarios.CheckUnknownName | tests/api.test.ts:94-104 | `clean_user` is reported not blacklisted, with no entry |
| BlacklistScenarios.NotSeeded | tests/api.test.ts:94-104 | the names the suite expects to be absent are not seeded |
| BlacklistScenarios.CheckBlankName | tests/api.test.ts:107-116 | a check of a single space gets 400 `Invalid name parameter` |
| BlacklistScenarios.StatsSeeded | tests/api.test.ts:118-130 | the statistics of a fresh store are total 5 with their category counts and latest time |
| BlacklistScenarios.AddNewName | tests/api.test.ts:132-153 | POST of `test_new_user` gets 201 with the fields it sent |
| BlacklistScenarios.AddSeededName | tests/api.test.ts:155-168 | POST of `malicious_user` gets 409 and changes nothing |
| BlacklistScenarios.AddWithoutName | tests/api.test.ts:170-181 | POST without a name gets 400 `Invalid name` and changes nothing |
| BlacklistScenarios.AddThenDeleteName | tests/api.test.ts:183-201 | POST then DELETE of `test_delete_user` gets 201 then 200 and restores the fresh store |
| BlacklistScenarios.DeleteUnknownName | tests/api.test.ts:203-210 | DELETE of `non_existent_user` gets 404 `Entry not found` and changes nothing |

## Left out

- Text.Lower: lower-cases ASCII letters only. `toLowerCase` also maps non-ASCII letters, and
  some of those change length. No name the service's tests or seeds use is affected.
- Text.Trim: the whitespace set is the fixed ECMAScript list (WhiteSpace, including the Unicode
  `Zs` characters, and LineTerminator). It is not derived from a Unicode database.
- The `try`/`catch` envelopes that turn an exception into a 500 (src/routes/blacklist.ts:79-85,
  149-155, 195-201, 275-281, 347-353). No modelled operation throws. The one 500 a handler
  returns itself, when DELETE's `removeFromBlacklist` reports `false`, is kept in
  `RemoveOutcome`. Its contract proves that branch unreachable.
- ISO-8601 formatting and parsing of `addedAt` and of the response timestamps. Timestamps are
  epoch milliseconds throughout, and `new Date(s).getTime()` is the identity on them.
- BlacklistRoutes.ListAll: one clock reading per request. `GET /` reads the clock twice, once
  for an empty store's `lastUpdated` and once for `timestamp`. The model uses `now` for both.
- BlacklistRoutes.GetStats: one clock reading per request. `GET /stats` also reads the clock
  twice, once for an empty store's `lastUpdated` (src/data/blacklistStore.ts:118) and once for
  `retrievedAt` (src/routes/blacklist.ts:192). The model uses `now` for both.
- The singleton `getInstance` (src/data/blacklistStore.ts:20-25). One `Store` object stands
  for the process-wide instance, and the routes take it as a parameter.
- Plain-object quirks of the registry. A name that lower-cases to `__proto__` replaces the
  object's prototype instead of adding a key. Integer-like keys are enumerated before the
  others, in numeric order. The model treats every key as an ordinary own key.
- BlacklistStore.GetBlacklistEntry: its "an entry exactly when blacklisted" clause does not
  hold in the source for names that lower-case to `constructor`, `__proto__` or another
  `Object.prototype` member. There `getBlacklistEntry` (src/data/blacklistStore.ts:76) returns
  the inherited member, while `isBlacklisted` (line 72) returns `false`. The check handler
  looks an entry up only after `isBlacklisted` holds (src/routes/blacklist.ts:140), so no
  response shows the difference.
- BlacklistStore.StatsCategoriesSumToTotal: holds only for categories that are not names of
  `Object.prototype` members. The `categories` accumulator is a plain `{}`, and
  `acc[category] || 0` (src/data/blacklistStore.ts:106) reads inherited members. A POST may
  store any non-empty category (src/routes/blacklist.ts:267). Under `toString` or `constructor`
  the count becomes a string, such as the function's source text followed by `1`. Under
  `__proto__` the category vanishes from the map. In those cases the counts do not add up to
  `total`. The model's map has no inherited members, and the same applies to
  `BlacklistStore.GetBlacklistStats`, `BlacklistStore.CountCategories` and
  `BlacklistRoutes.ListAllCountsAddUp`.
- BlacklistRoutes.AddRequest: optional body fields that are truthy non-strings (numbers,
  objects), and their string coercion when used as a category key. A missing or falsy field
  is `None`; a string field is kept as it is.
- The key order of the `categories` object in a statistics response. The model compares maps.
- A POST without a JSON body at all, and Express routing and URL decoding of `:name`.
- BlacklistScenarios: each request scenario is stated against a fresh store. The suite runs its
  tests in sequence against one shared store, but no scenario depends on an earlier one.
- src/routes/health.ts and src/server.ts (health endpoints, app wiring, listening) are not part
  of this model.

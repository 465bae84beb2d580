# Library app state and catalog logic, in Dafny

This project models the logic at the core of a small React library front end.
The front end has four parts:

- **Application state provider** (`src/context/AppStateContext.js`).
  - It keeps a session (`isLoggedIn`, `currentUser`) and three id-keyed book
    lists (borrowed, purchased, catalog ebooks).
  - It hydrates them from `localStorage` through three defensive readers.
  - It writes every list change through to storage.
- **Catalog page** (`src/catalog.js`).
  - Subject "chips" counted from the loaded works.
  - The `filteredBooks` pipeline: search, chip, six toggle filters, three sorts.
  - Filter toggling, the mapping of a work to a list record (`toListBook`), and
    the login guards on the borrow and purchase buttons.
- **Demo login form** (`src/usser.js`): a five-field state machine checked
  against a fixed list of demo users.
- **Landing page** (`src/App.js`).
  - Its own `readStoredList`, with an empty fallback.
  - The badge counts and login flag derived from storage, and `syncCartCounts`.
  - The trimming of the trending response to 8 works.

Modules:

- `Storage` models `localStorage` as a class over a `map<string, string>`,
  together with the three readers.
- `Json` is a concrete JSON value type with an encoder, a parser and the
  round trip `Decode(Encode(v)) == Some(v)` for well-formed values. That round
  trip is what makes write-through provable.
- `AppState.Provider` is a class.
  - Every mutator keeps the invariant `Synced()`: each in-memory cell equals what
    its reader returns from the store, with the same fallback that hydration
    uses.
  - `BookLists` holds the list operations (add-if-absent, filter-by-id,
    renew-due) as functions, with lemmas for idempotence, id-uniqueness and
    "nothing else changes".
- `Calendar` gives due-date renewal a proleptic Gregorian day count.
- `Catalog` covers the filter pipeline (a method that reassigns `list` step by
  step, then sorts an array in place), the chip counting loop and the
  `CatalogPage` class.
- `Account.LoginForm` and `Landing.LandingPage` model the other two pages.

The landing page counts an absent borrowed list as 0, while the provider
shows the three seed loans (`Landing.SeedNotCounted`).

## Model

| member | source | states |
|---|---|---|
| Storage.LocalStorage.constructor | src/context/AppStateContext.js:53 | the store starts with the given items |
| Storage.LocalStorage.SetItem | src/context/AppStateContext.js:103-104 | `setItem` maps the key to the value and changes no other key |
| Storage.LocalStorage.RemoveItem | src/context/AppStateContext.js:110-111 | `removeItem` removes exactly that key |
| Storage.GetItem | src/context/AppStateContext.js:53 | `getItem` returns a value iff the key is present, and then returns the stored text |
| Storage.ReadStoredList | src/context/AppStateContext.js:51-60 | gives the fallback when the key is absent or empty, the text does not parse, or it parses to a non-array; otherwise gives the parsed array; keeps well-formedness of the fallback |
| Storage.ReadStoredBoolean | src/context/AppStateContext.js:62-70 | fallback only for an absent key; otherwise true exactly when the value is `"true"` |
| Storage.ReadStoredString | src/context/AppStateContext.js:72-79 | a present non-empty value is returned; anything else yields the fallback |
| Storage.ListWriteThrough | src/context/AppStateContext.js:118 | writing `JSON.stringify(next)` under a key reads back as `next`, whatever the fallback |
| Storage.ListWriteElsewhere | src/context/AppStateContext.js:118 | writing one list key leaves what any other key reads back unchanged |
| Json.Lookup | src/context/AppStateContext.js:116 | a member is found iff some entry has that key, and the value found belongs to such an entry |
| Json.LookupMember | src/context/AppStateContext.js:116 | with distinct keys, looking up an entry's key yields that entry's value |
| Json.Put | src/context/AppStateContext.js:140 | object spread `{ ...book, due }` keeps keys distinct and introduces nothing but the new pair |
| Json.Normalize | src/context/AppStateContext.js:55 | parsing an object with repeated keys yields distinct keys drawn from the parsed members |
| Json.StringRoundTrip | src/context/AppStateContext.js:55 | parsing an escaped string gives back the original string and the rest of the text |
| Json.NumberRoundTrip | src/context/AppStateContext.js:55 | parsing the decimal text of an integer gives back that integer |
| Json.DecodeEncode | src/context/AppStateContext.js:55 | `JSON.parse(JSON.stringify(v))` gives back `v` for every well-formed value |
| Json.Decode | src/context/AppStateContext.js:55 | a successful parse yields a well-formed value (distinct object keys) |
| Json.ParsePair | src/context/AppStateContext.js:55 | a `\uXXXX\uXXXX` high and low surrogate pair reads as one character above U+FFFF |
| Json.SurrogateHalves | src/context/AppStateContext.js:55 | every character above U+FFFF is the pair of its UTF-16 halves, so each such character has an escape that parses back to it |
| Json.PairExample | src/context/AppStateContext.js:55 | `"\ud83d\ude00"` parses to the one character U+1F600 |
| BookLists.Member | src/context/AppStateContext.js:116 | only an object has members |
| BookLists.AddIfAbsent | src/context/AppStateContext.js:114-121 | the result always holds the id; it is unchanged iff the id was present, and otherwise it is the list with the book appended |
| BookLists.AddIdempotent | src/context/AppStateContext.js:114-121 | adding the same book twice is the same as adding it once |
| BookLists.AddKeepsUnique | src/context/AppStateContext.js:114-121 | adding keeps ids unique |
| BookLists.RemoveId | src/context/AppStateContext.js:125 | no entry with the removed id remains |
| BookLists.RemoveIdIsFilter | src/context/AppStateContext.js:125 | the removal written out over the list equals `filter` with the test `item.id !== id` |
| BookLists.RemoveIdMembers | src/context/AppStateContext.js:125 | an entry survives iff it was in the list and its id differs |
| BookLists.RemoveIdSubseq | src/context/AppStateContext.js:125 | survivors keep their original order (a subsequence) |
| BookLists.RemoveAbsent | src/context/AppStateContext.js:158 | removing an absent id leaves the list unchanged |
| BookLists.RemoveIdempotent | src/context/AppStateContext.js:166 | removing twice equals removing once |
| BookLists.FilterKeepsUnique | src/context/AppStateContext.js:125 | filtering keeps ids unique |
| BookLists.RemoveKeepsUnique | src/context/AppStateContext.js:158 | removal keeps ids unique |
| BookLists.FilterKeepsWellFormed | src/context/AppStateContext.js:125 | filtering keeps every entry well formed |
| BookLists.RemoveKeepsWellFormed | src/context/AppStateContext.js:158 | removal keeps every entry well formed |
| BookLists.RenewDue | src/context/AppStateContext.js:133-141 | the mapped list has the same length |
| BookLists.RenewUnchanged | src/context/AppStateContext.js:134-136 | entries with another id, or whose `due` is not a date, come back unchanged |
| BookLists.RenewOnlyDue | src/context/AppStateContext.js:137-140 | a renewed entry has the new `due`, and every other field keeps its value |
| BookLists.RenewKeepsIds | src/context/AppStateContext.js:133-141 | renewal keeps each position's id, so it keeps ids unique |
| BookLists.RenewKeepsWellFormed | src/context/AppStateContext.js:133-141 | renewal keeps every entry well formed |
| Calendar.NextPrev | src/context/AppStateContext.js:138 | moving one day forward and one back (either order) is the identity on valid dates |
| Calendar.AddDaysAdd | src/context/AppStateContext.js:138 | shifting by `a` then `b` days equals shifting by `a + b` |
| Calendar.AddDaysInverse | src/context/AppStateContext.js:138 | shifting by `n` then `-n` days returns the date |
| Calendar.PadDigitsValue | src/context/AppStateContext.js:139 | the zero-padded field reads back as the number |
| Calendar.DueText | src/context/AppStateContext.js:139 | `toISOString().slice(0, 10)` is ten characters |
| Calendar.ParseDateOnly | src/context/AppStateContext.js:135 | a parsed date-only string is a valid calendar date |
| Calendar.DueDate | src/context/AppStateContext.js:135-136 | `new Date(book.due)` yields a valid date inside the time range (±1e8 days, ±8.64e15 ms) or NaN (None); an array is read as its comma-joined text |
| Calendar.SingletonArrayDue | src/context/AppStateContext.js:135 | `new Date([text])` is `new Date(text)` |
| Calendar.AddDaysNumber | src/context/AppStateContext.js:138 | shifting a date by `n` days adds `n` to its day number |
| Calendar.NearDateInTime | src/context/AppStateContext.js:135-139 | every date within 273000 years of 1970 is inside the time range |
| Calendar.InTimeYear | src/context/AppStateContext.js:139 | a date inside the time range has a year `toISOString` can write |
| Calendar.ParseDueText | src/context/AppStateContext.js:135-139 | a written due date (years 0-9999) parses back to the same date |
| Calendar.RenewedDue | src/context/AppStateContext.js:135-139 | an invalid stored date gives no renewal; otherwise a renewal exists iff the shifted day at the stored time of day stays within ±8.64e15 ms, where a stored number keeps its milliseconds and `true` is 1 ms past midnight (for a midnight, iff the shifted day number stays within ±1e8), and the renewal is the ten-character `toISOString` date of the stored date shifted by `days` |
| Calendar.NumberDueDay | src/context/AppStateContext.js:134 | a stored number of milliseconds in range is read as a date on day `n / 86400000` from the epoch |
| Calendar.LastDayRenewal | src/context/AppStateContext.js:134-138 | the last millisecond of the range cannot be renewed by a day, while midnight of the last day can |
| Calendar.BooleanDueRenewal | src/context/AppStateContext.js:134-138 | a stored `true` (time value 1 ms) cannot be moved onto the last day of the range, while `false` (time value 0) can |
| Calendar.BooleanDueRange | src/context/AppStateContext.js:134-138 | a stored boolean renews iff its time value (1 ms for `true`, 0 for `false`) shifted by whole days stays within ±8.64e15 ms |
| Calendar.RenewReadBack | src/context/AppStateContext.js:134-138 | a renewed due text with a four-digit year reads back as the stored date shifted by `days` |
| Calendar.RenewExample | src/context/AppStateContext.js:131-139 | renewing `2026-02-12` by the default 7 days gives `2026-02-19` |
| Calendar.ExampleDue | src/context/AppStateContext.js:135 | the stored text `2026-02-12` is read as that day |
| AppState.LoginReadsBack | src/context/AppStateContext.js:100-105 | after login the stored flag reads true and the stored user reads the name |
| AppState.LoginThenLogout | src/context/AppStateContext.js:100-112 | login then logout leaves the store as logout alone would: both session keys absent, every other key kept, default session read back |
| AppState.SeedsWellFormed | src/context/AppStateContext.js:9-49 | the borrowed and ebook seeds are well-formed JSON values |
| AppState.LoginSynced | src/context/AppStateContext.js:100-105 | a store in step with the state stays in step after login, with the session set to the name and the lists unchanged |
| AppState.LogoutSynced | src/context/AppStateContext.js:107-112 | a store in step with the state stays in step after logout, with the session cleared and the lists unchanged |
| AppState.WriteKeepsSession | src/context/AppStateContext.js:118 | writing a list key leaves the stored login flag and user reading as before |
| AppState.BorrowedWriteSynced | src/context/AppStateContext.js:114-145 | writing a well-formed borrowed list keeps the store in step, with that list as the new borrowed cell and the other cells unchanged |
| AppState.PurchasedWriteSynced | src/context/AppStateContext.js:147-162 | the same for the purchased list |
| AppState.CatalogWriteSynced | src/context/AppStateContext.js:164-170 | the same for the ebook list |
| AppState.Provider.constructor | src/context/AppStateContext.js:84-98 | each cell is its reader over the store with the source's fallbacks (seeds for borrowed and catalog, `[]` for purchased); the provider starts synced |
| AppState.Provider.Login | src/context/AppStateContext.js:100-105 | sets the session to logged in as the name, stores `"true"` and the name, leaves the lists alone and stays synced |
| AppState.Provider.Logout | src/context/AppStateContext.js:107-112 | clears the session, removes both keys, leaves the lists alone and stays synced |
| AppState.Provider.AddBorrowedBook | src/context/AppStateContext.js:114-121 | the list becomes add-if-absent; when the id exists the store is untouched, otherwise the new list is written; everything else unchanged; stays synced |
| AppState.Provider.ReturnBorrowedBook | src/context/AppStateContext.js:123-129 | the list becomes the filter-by-id and is written through; everything else unchanged; stays synced |
| AppState.Provider.UpdateBorrowedDueDate | src/context/AppStateContext.js:131-145 | the list becomes the renew-due map (default 7 days) and is written through; stays synced |
| AppState.Provider.AddPurchasedBook | src/context/AppStateContext.js:147-154 | as for borrowed, on the purchased list and key |
| AppState.Provider.RemovePurchasedBook | src/context/AppStateContext.js:156-162 | filter-by-id on the purchased list, written through; stays synced |
| AppState.Provider.RemoveCatalogEbook | src/context/AppStateContext.js:164-170 | filter-by-id on the ebook list, written through; stays synced |
| AppState.Provider.WriteThrough | src/context/AppStateContext.js:118 | the store becomes the old one with the key mapped to the encoded list; the key reads back as the new list under any fallback, and the login flag and user read as before |
| Catalog.OrElse | src/catalog.js:101 | `x \|\| fallback`: a truthy number is returned as itself; a falsy or missing number gives the fallback |
| Catalog.CoverUrl | src/catalog.js:9-10 | the cover URL is empty exactly when the cover id is falsy |
| Catalog.CoverUrlInjective | src/catalog.js:9-10 | different cover ids give different non-empty URLs |
| Catalog.Toggle | src/catalog.js:121-126 | flips exactly the named flag and keeps the other five |
| Catalog.ToggleTwice | src/catalog.js:121-126 | toggling the same flag twice restores the filters |
| Catalog.SelectedMembers | src/catalog.js:77-108 | a work survives the filters iff it was loaded and passes the search, chip and every active toggle |
| Catalog.NarrowedMembers | src/catalog.js:77-89 | a work survives search and chip iff it contains the trimmed lowercased term in its title or its joined author names, and carries the chip |
| Catalog.ToggledMembers | src/catalog.js:91-108 | a work survives the toggles iff each active toggle's test holds for it (cover, authors, readable, year ≤ 1950 with missing as 3000, editions ≥ 25, at most 4 words) |
| Catalog.SelectedSubseq | src/catalog.js:75-108 | the filtered list is a subsequence of the loaded works |
| Catalog.BlankSearch | src/catalog.js:77 | a whitespace-only search term filters nothing |
| Catalog.TitleOrderTotal | src/catalog.js:111 | the title comparison is a total, transitive order |
| Catalog.SortList | src/catalog.js:110-116 | a permutation; sorted by title, by non-increasing year or by non-increasing edition count; unchanged for relevance |
| Catalog.FilteredBooks | src/catalog.js:74-119 | with relevance the result is exactly the filtered subsequence, otherwise a permutation of it in the requested order |
| Catalog.Stage | src/catalog.js:87-89 | one `if (flag) list = list.filter(test)` step: with the flag on, exactly the works that pass the test survive; with it off, the list is kept |
| Catalog.ToggleStages | src/catalog.js:91-108 | the six toggle steps in source order keep exactly the works that pass every active toggle |
| Catalog.FirstSubjects | src/catalog.js:63 | at most four subjects per work are counted |
| Catalog.CountedMembers | src/catalog.js:62-66 | a subject is counted iff it is among the first four subjects of some work |
| Catalog.CountStep | src/catalog.js:64 | one `subjectCount[subject] + 1` step keeps the count table equal to the tally of the subjects seen |
| Catalog.CountOne | src/catalog.js:64 | one counting step keeps the count table equal to the tally of the subjects seen, now including this one |
| Catalog.CountWork | src/catalog.js:63-65 | the inner loop over one work's first four subjects keeps the count table equal to the tally of everything seen |
| Catalog.CountSubjects | src/catalog.js:61-66 | the loop leaves each counted subject's tally, with the keys exactly the distinct subjects in first-seen order |
| Catalog.DedupFacts | src/catalog.js:67 | the first-seen key list holds every counted subject exactly once |
| Catalog.Chips | src/catalog.js:60-72 | starts with `all`, at most 9 entries, counted subjects only, no duplicates, non-increasing tally, and no omitted subject outranks a chosen one |
| Catalog.AuthorTextFallback | src/catalog.js:131-134 | the author text is `Unknown author` iff the joined names are empty |
| Catalog.ToListBook | src/catalog.js:128-137 | the record is well formed, with id the work's key, its title, the joined authors (or the fallback), due `2026-03-01` and format `EPUB` |
| Catalog.CatalogPage.constructor | src/catalog.js:13-34 | the page's initial state cells |
| Catalog.CatalogPage.HandleResponse | src/catalog.js:43-47 | keeps the first 40 works (none when `works` is not an array) and ends loading |
| Catalog.CatalogPage.HandleFailure | src/catalog.js:48-52 | an empty list and loading ended |
| Catalog.CatalogPage.SelectBook | src/catalog.js:911-913 | the work becomes active and the notice is cleared |
| Catalog.CatalogPage.HandleFilterToggle | src/catalog.js:121-126 | the filters become the toggle of the key; nothing else changes |
| Catalog.CatalogPage.HandleAddBorrowed | src/catalog.js:139-147 | logged out: only the notice is set; no book selected: nothing changes; otherwise adds the mapped record; the provider stays synced |
| Catalog.CatalogPage.HandleAddPurchased | src/catalog.js:149-157 | as for borrowing, on the purchased list with its own notice |
| Account.FindUser | src/usser.js:45-47 | no user is found iff no demo user has that email and exact password; a found user is the first match |
| Account.LoginForm.constructor | src/usser.js:30-34 | all five cells start empty or false |
| Account.LoginForm.SetEmail | src/usser.js:216 | typing replaces the email only |
| Account.LoginForm.SetPassword | src/usser.js:226 | typing replaces the password only |
| Account.LoginForm.HandleSubmit | src/usser.js:36-56 | empty fields give the missing-fields error; no match gives the invalid-credentials error with the session unchanged; a match logs in as the first matching user with the error cleared |
| Account.LoginForm.HandleLogout | src/usser.js:58-63 | logged out with email, password and user cleared; the error is kept |
| Account.EmmaLogsIn | src/usser.js:24-27 | the first demo user's exact credentials find that user |
| Account.WrongPasswordRefused | src/usser.js:24-27 | the password comparison is case-sensitive |
| Landing.MediumCoverUrl | src/App.js:14-15 | empty exactly when the cover id is falsy |
| Landing.CoverSizes | src/App.js:14-15 | the landing and catalog URLs for the same id differ only in the size letter |
| Landing.ReadStoredListOrEmpty | src/App.js:17-26 | the landing reader is the provider's reader with fallback `[]` |
| Landing.StoredLoggedIn | src/App.js:40-42 | the stored flag is logged in exactly when it is `"true"` |
| Landing.SeedNotCounted | src/App.js:34-39 | with no borrowed key, the badge shows 0 while the provider shows the three seed loans |
| Landing.CountAfterWrite | src/App.js:34-39 | after a list write, the badge count is the length of the written list |
| Landing.BadgeMatchesProvider | src/App.js:84-88 | when the stored lists parse, the badge counts and flag agree with a synced provider |
| Landing.LandingPage.constructor | src/App.js:34-42 | the counts are the stored list lengths and the flag is the stored flag |
| Landing.LandingPage.SyncCartCounts | src/App.js:84-88 | after it runs, the counts and flag match storage; run again, it changes nothing |
| Landing.LandingPage.HandleTrendingResponse | src/App.js:50-55 | keeps at most the first 8 works (none when not an array) and ends loading |
| Landing.LandingPage.HandleTrendingFailure | src/App.js:56-61 | an empty list and loading ended |
| Text.Trim | src/catalog.js:77 | the result has no surrounding whitespace and is what remains of the input after removing only whitespace from the ends |
| Text.TrimBlank | src/catalog.js:77 | the trimmed term is empty iff the term is all whitespace |
| Text.Lower | src/catalog.js:78 | same length, no upper-case ASCII letters, and each other character unchanged |
| Text.IncludesIff | src/catalog.js:83 | `includes` holds iff the term occurs at some position |
| Text.SplitWs | src/catalog.js:107 | splitting gives at least one piece, and no piece holds whitespace |
| Text.SplitJoin | src/catalog.js:107 | splitting words joined by single spaces gives back the words |
| Text.JoinEmpty | src/catalog.js:132-134 | a join is empty iff there are no names or only one empty name |
| Text.LexLeTotal | src/catalog.js:111 | the title order is total |
| Text.LexLeTransitive | src/catalog.js:111 | the title order is transitive |
| Text.DigitsRoundTrip | src/catalog.js:10 | the decimal text of a number reads back as that number |
| Sorting.SortInPlace | src/catalog.js:110-116 | the array is sorted under a total order and is a permutation of its old contents |
| Sequences.Filter | src/context/AppStateContext.js:125 | `filter` never lengthens the list, and every survivor passes the test |
| Sequences.FilterMembers | src/catalog.js:79 | an element survives iff it was present and passes the test |
| Sequences.FilterSubseq | src/catalog.js:79 | filtering keeps the original order |
| Sequences.FilterIdempotent | src/context/AppStateContext.js:125 | filtering twice by the same test equals filtering once |
| Sequences.Take | src/App.js:53 | `slice(0, n)` keeps the first `min(n, length)` elements |
| Sequences.FilterAllPass | src/context/AppStateContext.js:158 | a filter that every element passes returns the list unchanged |
| Sequences.SubseqTransitive | src/catalog.js:79-107 | a subsequence of a subsequence is a subsequence, so chained filters keep order |
| Sequences.NoDuplicatesCount | src/catalog.js:61-66 | a list has no duplicates iff every element occurs at most once in its multiset |
| Sequences.PermutationNoDuplicates | src/catalog.js:67-70 | a permutation of a duplicate-free list is duplicate free |

## Left out

- Network fetches, promises and the `isMounted` cancellation flag are left out. Only the transformation of a response or a failure is modelled.
- `scrollTrending` (DOM measurement and floating point) and the registration of `storage`/`focus` listeners are left out. `syncCartCounts` is a plain method.
- All JSX, the inline styles, and the rating and sales display arithmetic are presentation and are not modelled.
- Title sorting uses `localeCompare` collation. The model orders titles by code point (`LexLe`).
- `toLowerCase` follows Unicode case rules. The model lowercases ASCII letters only.
- `new Date(string)` is modelled for ISO date-only forms (`YYYY`, `YYYY-MM`, `YYYY-MM-DD`).
  - Date-time strings, time zones, daylight saving and non-ISO formats are not modelled.
  - The shift is a plain day count in UTC.
- Calendar.RenewedDue: when the shifted time value leaves the time range (beyond ±8.64e15 ms), `setDate` gives NaN and `toISOString` throws inside the state updater, so the source writes nothing. The model gives no renewal there: it keeps the entry unchanged and still writes the list.
- Calendar.DueDate: `String(array)` is applied to an array `due`, but the text is parsed only in the ISO date-only forms, as for strings.
- Json numbers are integers. Fractions, exponents and non-integer `daysToAdd` are not modelled.
  - `JSON.parse` rounds integers beyond 2^53 to the nearest double. Ids such as 9007199254740992 and 9007199254740993 then compare equal in the source (`item.id === id`) but differ in the model.
- Json.Decode: a lone surrogate escape (a `\uD800`-`\uDFFF` half without its partner) is refused, because a Dafny character cannot hold it. `JSON.parse` accepts it, so the reader falls back where the source would not. A high/low pair is decoded.
- Object member order follows insertion. Integer-like keys, which JavaScript moves to the front, and `__proto__` are not modelled.
- Ids are compared by value. For object or array ids JavaScript compares references, and `null.id` would throw. Neither is modelled.
- The `try`/`catch` around `getItem` is not modelled. Writes are total.
- `showToast` is undefined in `App.js`, so its `catch` handler would throw. The model's `HandleTrendingFailure` just empties the list.
- Catalog.CountOne: the tally starts from an empty map. The source's `{}` inherits `Object.prototype` names (`constructor`, `toString`, `valueOf`, `hasOwnProperty`, …), where `subjectCount[subject] || 0` is a function, so the count becomes a string and the comparator gives NaN. Such subjects are ordered differently from the model.
- Catalog.CountSubjects: keys are in first-seen order. `Object.entries` lists integer-like keys (a subject such as `1984`) first, in numeric order; that is not modelled.
- Catalog.Chips: ties between equally counted subjects are not ordered by the contract, because the sort's stability is not stated.
- Sorting.SortInPlace: stability is not stated. `Array.prototype.sort` is stable; the model only proves order and permutation.
- The login form keeps its own session cells, separate from the provider. That is what the code does.
- The search box, the sort select, the chip buttons and closing the modal are plain state setters and are not modelled.
- Works are assumed fully typed: every work has a title and every author a name. Works that lack them are not modelled.
  - In the source such a work throws only on three paths: the non-blank search, the short-title filter and the title sort.
  - Elsewhere it is mapped differently: `toListBook` drops the missing title, a missing name joins as "", and the grid still renders the work.
- A check that a purchased book is in the ebook catalog is not in the code, and it is not in the model either.

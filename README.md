# Subscriber store of the WebApp home controller

The web application collects email subscriptions through a form and keeps
them in one process-wide, in-memory list held by `HomeController`. Three
handlers work on that list:

- **Subscribe** rejects a form that failed validation, rejects an address
  that is already stored under a case-insensitive comparison, and otherwise
  appends a new entry stamped with the current time.
- **DeleteSubscriber** looks up the first entry whose address matches
  case-insensitively and removes it; with no match it does nothing.
- **Subscribers** shows the entries ordered by subscription time, newest
  first.

The model has four modules:

- `CaseFold` (casefold.dfy): `StringComparison.OrdinalIgnoreCase` as
  equality of the upper-cased strings.
- `Entries` (entries.dfy): the `Entry` value (address and time), the
  side-effect-free queries the handlers run (`Any`, `FirstOrDefault`, and
  `List<T>.Remove` as `IndexOf` followed by deleting that position), the invariant "no two addresses equal ignoring case"
  and the lemmas that the handlers' updates keep it.
- `Listing` (listing.dfy): `OrderByDescending(...).ToList()` as a stable
  insertion sort, proved to be a newest-first permutation that keeps
  same-time entries in insertion order, and proved to be the only such
  ordering.
- `Controller` (controller.dfy): class `HomeController` with the list as a
  `seq<Entry>` field, the two handlers as methods that modify it and the
  listing as a function that only reads it.

The form's validity (`ModelState.IsValid`) and the clock reading
(`DateTime.UtcNow`) are parameters of `Subscribe`; the time is an integer
tick count. The page results (views, redirects, `TempData` messages) are
reduced to a `SubscribeOutcome` value and a `removed` flag.

`DeleteSubscriber` is modelled in the source's two steps: find the index of
the first match, then remove the first element equal to the entry found.
`RemoveFoundEntry` proves this deletes exactly the first matching position.
It does so whether `SubscriberEntry` compares by reference or by value,
because an earlier equal entry would itself have matched.

One might expect a newly subscribed address to be listed first; the code
does not guarantee this. The sort is stable, so a new entry stamped with the
same time as an older one is listed after it. `NewestEntryListedFirst`
proves the new entry is first when its time is strictly later than every
stored one. `TieKeepsInsertionOrder` proves the tie case.

## Model

| member | source | states |
|---|---|---|
| CaseFold.ToUpper | src/WebApp/Controllers/HomeController.cs:25 | the per-character upper-casing: 'a' to 'z' become 'A' to 'Z' and every other character is kept |
| CaseFold.EqualsIgnoreCase | src/WebApp/Controllers/HomeController.cs:25 | the comparison used by the duplicate check (line 25) and the lookup (line 50): two addresses are equal ignoring case when their ASCII-upper-cased forms are equal |
| CaseFold.Fold | src/WebApp/Controllers/HomeController.cs:25 | folding keeps the length of the address |
| CaseFold.FoldAt | src/WebApp/Controllers/HomeController.cs:25 | each position of the folded address holds the upper-cased character of that position |
| CaseFold.FoldIdempotent | src/WebApp/Controllers/HomeController.cs:25 | folding an already folded address changes nothing |
| CaseFold.MatchesOwnFold | src/WebApp/Controllers/HomeController.cs:25 | every address matches its own upper-case spelling ignoring case |
| CaseFold.EqualsIgnoreCaseCharwise | src/WebApp/Controllers/HomeController.cs:25 | two addresses are equal ignoring case exactly when they have the same length and the same upper-cased character at every position |
| CaseFold.EqualsIgnoreCaseIsEquivalence | src/WebApp/Controllers/HomeController.cs:25 | the case-insensitive comparison is reflexive, symmetric and transitive |
| CaseFold.CaseFoldExamples | src/WebApp/Controllers/HomeController.cs:25 | examples only: `"aB@c"` and `"Ab@C"` compare equal; `"a@c"` equals neither `"b@c"` nor `"a@cc"` |
| Entries.Matches | src/WebApp/Controllers/HomeController.cs:25 | the lambda of the duplicate check (line 25) and the lookup (line 50): an entry matches an address when its email equals the address ignoring case |
| Entries.AnyMatch | src/WebApp/Controllers/HomeController.cs:25 | the duplicate check is true exactly when some stored entry's address equals the candidate ignoring case |
| Entries.AnyMatchIgnoresCase | src/WebApp/Controllers/HomeController.cs:25 | the duplicate check gives the same answer for every letter-case spelling of the candidate |
| Entries.FindFirst | src/WebApp/Controllers/HomeController.cs:50 | the lookup finds nothing exactly when no entry matches; otherwise it gives an in-range position that matches and no earlier position matches |
| Entries.IndexOf | src/WebApp/Controllers/HomeController.cs:53 | the search finds nothing exactly when the element is absent; otherwise it gives a position holding the element with no earlier copy |
| Entries.RemoveFirst | src/WebApp/Controllers/HomeController.cs:53 | removing an element that is absent changes nothing; removing a present one shortens the list by one |
| Entries.RemoveFirstTakesOneCopy | src/WebApp/Controllers/HomeController.cs:53 | removal takes exactly one copy of the element out of the multiset of entries, and none when it is absent |
| Entries.RemoveFirstOccurrence | src/WebApp/Controllers/HomeController.cs:53 | when no position before i holds the element at i, removing that element deletes exactly position i and keeps the rest in order |
| Entries.RemoveFoundEntry | src/WebApp/Controllers/HomeController.cs:50-53 | removing the entry the lookup found deletes exactly the first matching position, leaving the other entries in their order |
| Entries.AppendKeepsNoDuplicates | src/WebApp/Controllers/HomeController.cs:25-35 | appending an address the duplicate check let through keeps all addresses pairwise distinct ignoring case |
| Entries.AppendedIsFound | src/WebApp/Controllers/HomeController.cs:25-35 | after the append, the duplicate check finds every letter-case spelling of the new address |
| Entries.RemoveAtKeepsNoDuplicates | src/WebApp/Controllers/HomeController.cs:50-53 | deleting one position from a duplicate-free list leaves it duplicate-free |
| Entries.RemoveFirstMatchLeavesNone | src/WebApp/Controllers/HomeController.cs:50-57 | in a duplicate-free list, once the first match is deleted no entry matching the address remains |
| Entries.RemoveFoundEntryKeepsNoDuplicates | src/WebApp/Controllers/HomeController.cs:50-53 | removing the entry the lookup found, by value, from a duplicate-free list leaves it duplicate-free and without any entry matching the address |
| Listing.Insert | src/WebApp/Controllers/HomeController.cs:43 | inserting into a newest-first list gives a newest-first list with one more entry, headed by the new entry or the old head, whose multiset is the old one plus the new entry |
| Listing.InsertKeepsSameTimeOrder | src/WebApp/Controllers/HomeController.cs:43 | after insertion the entries of every time appear in the order of the new entry followed by the old list, so the new entry goes before existing entries of its time |
| Listing.SortNewestFirst | src/WebApp/Controllers/HomeController.cs:43 | the listing is newest first, a permutation of the store, and for every time keeps the entries recorded then in insertion order |
| Listing.HeadIsNewest | src/WebApp/Controllers/HomeController.cs:43 | in a newest-first list no entry is recorded later than the first one |
| Listing.StableOrderIsUnique | src/WebApp/Controllers/HomeController.cs:43 | two newest-first lists that agree on the order of the entries of every time are equal |
| Listing.ListingIsTheStableOrder | src/WebApp/Controllers/HomeController.cs:43 | any newest-first arrangement that keeps same-time entries in insertion order is exactly the listing |
| Listing.NewestEntryListedFirst | src/WebApp/Controllers/HomeController.cs:31-43 | an entry recorded strictly later than every stored one is listed first |
| Listing.RecordedAtAppend | src/WebApp/Controllers/HomeController.cs:43 | the entries of a time in a concatenation are those of the first part followed by those of the second |
| Listing.TieKeepsInsertionOrder | src/WebApp/Controllers/HomeController.cs:31-43 | two entries appended one after the other with the same time are listed in the order they were added, after the stored entries of that time |
| Controller.HomeController.constructor | src/WebApp/Controllers/HomeController.cs:9 | the store starts empty and satisfies the invariant |
| Controller.HomeController.Subscribe | src/WebApp/Controllers/HomeController.cs:18-39 | an invalid form leaves the store unchanged; a duplicate in any letter case leaves it unchanged and reports a conflict; otherwise the store becomes the old one with the new entry appended; afterwards every spelling of the address is present; the invariant is preserved |
| Controller.HomeController.DeleteSubscriber | src/WebApp/Controllers/HomeController.cs:48-58 | reports a removal exactly when some entry matches; with no match the store is unchanged; otherwise exactly the first matching position is deleted and the rest keep their order; the invariant is preserved and no match remains |
| Controller.HomeController.Subscribers | src/WebApp/Controllers/HomeController.cs:41-44 | reading the listing changes nothing; it is a newest-first permutation of the store that keeps same-time entries in insertion order |
| Controller.ResubscribeIsRejected | src/WebApp/Controllers/HomeController.cs:25-35 | subscribing an address and then any letter-case spelling of it rejects the second request and leaves the store as the first request left it |

## Left out

- `Index`, `Privacy` and `Error` (HomeController.cs lines 11-14 and 60-69): they only render pages.
- Views, redirects, `TempData` message texts, `[HttpPost]` and `[ValidateAntiForgeryToken]`: web framework plumbing; results become `SubscribeOutcome` and `removed`.
- The `[Required]` and `[EmailAddress]` rules of `SubscribeViewModel`: they run inside the validation library, so validity is a boolean parameter.
- `CaseFold.Fold`, `CaseFold.ToUpper`, `CaseFold.EqualsIgnoreCase`: fold only the ASCII letters, not the full invariant-culture upper-casing that `OrdinalIgnoreCase` applies to other characters. The store's invariant relies only on the comparison being an equivalence, which the model proves.
- `DateTime.UtcNow`: it is a clock read, so the time is a parameter; no ordering between successive times is assumed.
- Unsynchronised access to the shared list from concurrent requests: the model is sequential.
- A missing `email` form field: `DeleteSubscriber` then receives null, which matches nothing, the same as the no-match path; the model's strings are never null.
- The list is a static field shared by all controller instances; the model has one `HomeController` object standing for that shared list.

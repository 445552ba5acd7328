# Characters store and composable of the Rick and Morty catalog client

This project models the client-side view-model of a public character
catalog. It has two parts.

- The **characters store** (`characterStore.ts`) holds the characters on
  display, the current page and the total page count. It offers three
  operations:
  - `setCharacters` replaces all three fields.
  - `appendCharacter` is a dedup-append: it pushes the incoming records whose
    id was not stored before the call.
  - `clear` goes back to the initial state: the empty list, page 1 and 0 pages.
- The **characters composable** (`useCharacters.ts`) has two parts:
  - `applyLocalFilters` keeps the records whose location name contains the
    location text, ignoring case. It can then stably sort them by name or by
    episode count.
  - `fetchPage` builds the query for one page and sends it. It applies the
    reply to the store and keeps the `loading` and `error` flags.

Modules:

- `Types` (`types.dfy`): the character record with its optional location and
  location name, `Option`, the set of ids of a list, and "distinct ids".
- `CharacterStore` (`character_store.dfy`): the class `Store` with its three
  fields and methods. `AppendCharacter` is proved against the specification
  functions `Appended` and `Fresh`, and the lemmas about the dedup-append are
  proved about those functions. The constructor, `SetCharacters` and `Clear`
  state their new fields directly, and `CollectIds` is proved against `Ids`.
- `StableSort` (`stable_sort.dfy`): `Array.prototype.sort` with a numeric
  comparator, modelled as a stable insertion sort. Proved: it is a
  permutation; it is sorted when the comparator is consistent; it is stable;
  and only the sign test `cmp(a, b) <= 0` decides its result.
- `UseCharacters` (`use_characters.dfy`): the ASCII lower-casing and the
  `includes` test, the location filter, the two comparators,
  `ApplyLocalFilters`, the query parameters, and the class `CharactersView`
  with `FetchPage`.

The HTTP reply is an input of `FetchPage`, of type `Response`. It is
`Ok(results, pages)` for a parsed body, whose `results` and `info.pages` may
each be missing; `NotFound` for a 404; or `Failure(message)` for anything else
thrown. A missing `results` counts as the empty list. A missing `info.pages`
reaches the store as `undefined`, so the store's default of 0 pages applies
(`characterStore.ts:10,15`). A body without `info` throws inside the `try`, so
it is a `Failure`. `FetchPage`
returns the query parameters it would send.

Behaviour of the code that the model keeps as written:

- `applyLocalFilters` does no name or status filtering. `nameSearch` and
  `status` only become query parameters (`useCharacters.ts:22-24`).
- `appendCharacter` checks the batch only against the ids stored before the
  call (`characterStore.ts:16`). One batch that repeats a new id stores that id
  twice (`SameBatchDuplicatesAreKept`). Distinct ids are proved only when the
  stored list and the batch each have distinct ids (`AppendedDistinct`).
- In the episode sort, the `desc` branch returns `r` unchanged
  (`useCharacters.ts:57`). The model keeps this as written.
  `EpisodeSortIgnoresDirection` proves that `desc` gives the same result as
  `asc`.

## Model

| member | source | states |
|---|---|---|
| `CharacterStore.Store.constructor` | ram/src/features/characters/store/characterStore.ts:6-8 | a new store is in the initial state: no characters, page 1, 0 total pages |
| `CharacterStore.Store.SetCharacters` | ram/src/features/characters/store/characterStore.ts:10-14 | the list becomes exactly `items` (not validated) and the pages become `page` and `pages`; the defaults are page 1 and 0 pages |
| `CharacterStore.Store.AppendCharacter` | ram/src/features/characters/store/characterStore.ts:15-20 | the list becomes the old list followed by the incoming items whose id was not stored before, in batch order; distinct ids are kept when the old list and the batch each have distinct ids; both page numbers are overwritten even when nothing is appended |
| `CharacterStore.Store.Clear` | ram/src/features/characters/store/characterStore.ts:22-26 | the store is back in exactly the initial state |
| `CharacterStore.CollectIds` | ram/src/features/characters/store/characterStore.ts:16 | the loop collects exactly the set of ids of the stored list |
| `CharacterStore.FreshMembers` | ram/src/features/characters/store/characterStore.ts:17 | a record is kept by the batch filter if and only if it is in the batch and its id is not among the old ids |
| `CharacterStore.FreshConcat` | ram/src/features/characters/store/characterStore.ts:17 | filtering a batch piece by piece gives the same result as filtering it whole, which is why pushing item by item matches `push(...filter)` |
| `CharacterStore.AppendedIds` | ram/src/features/characters/store/characterStore.ts:16-17 | after the dedup-append, the stored ids are exactly the old ids together with the batch's ids |
| `CharacterStore.FreshDistinct` | ram/src/features/characters/store/characterStore.ts:17 | filtering a batch with distinct ids leaves distinct ids |
| `CharacterStore.DistinctConcat` | ram/src/features/characters/store/characterStore.ts:17 | appending a distinct-id list whose ids are all new to a distinct-id list gives a distinct-id list |
| `CharacterStore.AppendedDistinct` | ram/src/features/characters/store/characterStore.ts:16-17 | if the old list and the batch each have distinct ids, the list after the dedup-append has distinct ids |
| `CharacterStore.SameBatchDuplicatesAreKept` | ram/src/features/characters/store/characterStore.ts:16-17 | without the batch precondition distinctness fails: a batch holding the same new record twice is appended twice |
| `CharacterStore.AppendTwiceAddsNothing` | ram/src/features/characters/store/characterStore.ts:16-17 | appending the same batch a second time adds nothing, for any old list and batch |
| `StableSort.InsertPermutes` | ram/src/features/characters/composables/useCharacters.ts:50-58 | inserting one element adds exactly that element |
| `StableSort.SortPermutes` | ram/src/features/characters/composables/useCharacters.ts:50-58 | `sort` returns a permutation of its input |
| `StableSort.InsertSorted` | ram/src/features/characters/composables/useCharacters.ts:50-58 | with a consistent comparator, inserting into a sorted sequence keeps it sorted |
| `StableSort.SortSorted` | ram/src/features/characters/composables/useCharacters.ts:50-58 | with a consistent comparator, no element of the result is ordered after a later one |
| `StableSort.InsertTies` | ram/src/features/characters/composables/useCharacters.ts:50-58 | an inserted element lands in front of every element it ties with |
| `StableSort.TiesAreOrdered` | ram/src/features/characters/composables/useCharacters.ts:50-58 | under a consistent comparator, two elements that tie with the same element are not ordered apart |
| `StableSort.SortStable` | ram/src/features/characters/composables/useCharacters.ts:50-58 | the sort is stable: the elements that tie with any given element keep their relative order |
| `StableSort.InsertSameOrder` | ram/src/features/characters/composables/useCharacters.ts:50-58 | two comparators with the same sign test place an inserted element identically |
| `StableSort.SortSameOrder` | ram/src/features/characters/composables/useCharacters.ts:50-58 | two comparators that agree on `cmp(a, b) <= 0` give the same result |
| `UseCharacters.LowerChar` | ram/src/features/characters/composables/useCharacters.ts:47 | lower-casing one character leaves no upper-case ASCII letter and changes nothing else |
| `UseCharacters.Lower` | ram/src/features/characters/composables/useCharacters.ts:47 | `toLowerCase` keeps the length and lower-cases each character where it stands |
| `UseCharacters.LowerIdempotent` | ram/src/features/characters/composables/useCharacters.ts:47 | lower-casing twice is the same as lower-casing once |
| `UseCharacters.ContainsOccurs` | ram/src/features/characters/composables/useCharacters.ts:47 | `includes` holds if and only if the text occurs in the name at some position |
| `UseCharacters.LocationMatchIgnoresCase` | ram/src/features/characters/composables/useCharacters.ts:47 | the location match gives the same answer for the filter text and for its lower-cased form |
| `UseCharacters.FilterByLocationCounts` | ram/src/features/characters/composables/useCharacters.ts:46-48 | the location filter keeps each matching record as often as it occurs and drops the others, including records with no location or no location name |
| `UseCharacters.NameOrderConsistent` | ram/src/features/characters/composables/useCharacters.ts:50-53 | the name comparator, negated for `desc`, is consistent when `localeCompare` is |
| `UseCharacters.EpisodeOrderConsistent` | ram/src/features/characters/composables/useCharacters.ts:55-58 | the episode-count comparator is consistent in both directions |
| `UseCharacters.ApplyLocalFiltersNoCriteria` | ram/src/features/characters/composables/useCharacters.ts:44-61 | with an empty location text and no sort key, the result equals the input |
| `UseCharacters.ApplyLocalFiltersPermutes` | ram/src/features/characters/composables/useCharacters.ts:49-60 | the result is a permutation of the location-filtered list: sorting never adds or drops records |
| `UseCharacters.ApplyLocalFiltersKeeps` | ram/src/features/characters/composables/useCharacters.ts:45-48 | with a non-empty location text the result holds exactly the matching records, as often as the input does; with an empty text it holds every record |
| `UseCharacters.EpisodeSortAscending` | ram/src/features/characters/composables/useCharacters.ts:54-58 | sorting by episodes gives non-decreasing episode counts for both `asc` and `desc` |
| `UseCharacters.EpisodeSortIgnoresDirection` | ram/src/features/characters/composables/useCharacters.ts:57 | sorting by episodes `desc` gives the same list as `asc` |
| `UseCharacters.EpisodeTies` | ram/src/features/characters/composables/useCharacters.ts:55-58 | the records that tie under the episode comparator are exactly those with the same episode count |
| `UseCharacters.EpisodeSortStable` | ram/src/features/characters/composables/useCharacters.ts:54-58 | records with equal episode counts keep their relative order |
| `UseCharacters.NameSortOrdered` | ram/src/features/characters/composables/useCharacters.ts:49-53 | sorting by name orders by `localeCompare`: ascending for `asc` and the reverse for `desc` |
| `UseCharacters.NameSortStable` | ram/src/features/characters/composables/useCharacters.ts:49-53 | records whose names compare equal keep their relative order |
| `UseCharacters.QueryParams` | ram/src/features/characters/composables/useCharacters.ts:22-24 | the query always has `page`; it has `name` exactly when the name search is non-empty, and `status` exactly when the status is not `All`; nothing else |
| `UseCharacters.ErrorText` | ram/src/features/characters/composables/useCharacters.ts:37 | the error shown is the failure's message, or `Fetch error` when that message is empty; it is never empty |
| `UseCharacters.CharactersView.constructor` | ram/src/features/characters/composables/useCharacters.ts:7-16 | a new view shares the given store and starts not loading, with no error, an empty search, no sort key, `asc`, status `All` and an empty location text |
| `UseCharacters.CharactersView.Filtered` | ram/src/features/characters/composables/useCharacters.ts:63 | the `filtered` list holds no record more often than the store does |
| `UseCharacters.CharactersView.FetchPage` | ram/src/features/characters/composables/useCharacters.ts:18-42 | the request is the page query. On success, a missing `results` counts as empty and the store is set (or dedup-appended when `append`) with `page` and the reply's page count, or 0 when that count is missing. On 404 the store becomes `([], 1, 0)`, or is left alone when appending. Any other failure sets the error text and leaves the store alone. `error` is otherwise cleared, and `loading` is off at the end |

## Left out

- CharacterStore.Store: the list is a value (`seq`). `setCharacters` keeps the caller's array itself and `appendCharacter` pushes onto that same array in place, so the caller's array grows too after a later append. That sharing and the in-place push are not modelled; the composable only ever passes a freshly parsed array or `[]`, so it cannot observe them.

- The HTTP request and JSON parsing (`useCharacters.ts:25-26`): the reply is the `Response` input of `FetchPage`.
- Vue `ref`, `computed` and `watch`, and Pinia `defineStore`: refs are plain fields, `filtered` is the function `Filtered`, and the empty `watch` body has no effect.
- `localeCompare`: locale-aware collation is the comparator parameter `collate`. The name-sort lemmas assume it is consistent. With an inconsistent comparator the engine's order is implementation-defined, while the model always gives insertion-sort order.
- UseCharacters.NameSortOrdered: requires a consistent `collate`, because Unicode collation itself is not modelled.
- `toLowerCase`: only ASCII letters are lower-cased. Unicode case mapping is not modelled.
- Concurrency: two overlapping `fetchPage` calls racing on the store (the last write wins) are not modelled. Neither is `loading` being true while a request is awaited. The model runs each call to completion.
- UseCharacters.CharactersView.FetchPage: states that `loading` is false on exit, but not that it was true while the request was awaited.
- JavaScript numbers: page numbers and ids are unbounded integers. Floating-point values are not modelled.
- Fields of the API's character record that the store and the filters never read (`types.ts` is not part of this model).
- The drain-and-merge fetch variant (location-resident id batching and following `next` links) is not part of this model.
- The stray expression `1` in `clear` (`characterStore.ts:22`) has no effect.

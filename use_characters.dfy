/**
 * The characters composable: the location filter and sort applied on the
 * client to the stored list, the query sent for one page, and the handling
 * of the reply (set, dedup-append, empty on not-found, error message).
 */
module UseCharacters {
  import opened Types
  import opened StableSort
  import CharacterStore

  datatype SortKey = ByName | ByEpisodes
  datatype SortDir = Asc | Desc
  datatype StatusFilter = All | Alive | Dead | Unknown

  /** The client-side criteria: location text, optional sort key, direction. */
  datatype Filters = Filters(locationFilter: string, sortBy: Option<SortKey>, sortDir: SortDir)

  // ---------------------------------------------------------------------
  // Case-insensitive substring test
  // ---------------------------------------------------------------------

  /** Lower-cases ASCII letters and leaves every other character alone. */
  function LowerChar(c: char): (r: char)
    ensures !('A' <= r <= 'Z')
    ensures !('A' <= c <= 'Z') ==> r == c
  {
    if 'A' <= c <= 'Z' then (c as int + 32) as char else c
  }

  function Lower(s: string): (r: string)
    ensures |r| == |s|
    ensures forall i :: 0 <= i < |s| ==> r[i] == LowerChar(s[i])
  {
    if s == [] then [] else [LowerChar(s[0])] + Lower(s[1..])
  }

  /** Lower-casing twice is lower-casing once. */
  lemma LowerIdempotent(s: string)
    ensures Lower(Lower(s)) == Lower(s)
  {
  }

  /** `sub` occurs in `s` starting at position `i`. */
  ghost predicate OccursAt(s: string, sub: string, i: int) {
    0 <= i && i + |sub| <= |s| && s[i..i + |sub|] == sub
  }

  /** The `includes` test: `sub` is a prefix of some suffix of `s`. */
  function Contains(s: string, sub: string): bool {
    sub <= s || (s != [] && Contains(s[1..], sub))
  }

  lemma {:induction false} ContainsOccurs(s: string, sub: string)
    ensures Contains(s, sub) <==> exists i :: OccursAt(s, sub, i)
  {
    if sub <= s {
      assert s[0..|sub|] == sub;
      assert OccursAt(s, sub, 0);
    } else if s == [] {
      assert forall i :: !OccursAt(s, sub, i);
    } else {
      ContainsOccurs(s[1..], sub);
      if Contains(s[1..], sub) {
        var i :| OccursAt(s[1..], sub, i);
        assert s[i + 1..i + 1 + |sub|] == s[1..][i..i + |sub|];
        assert OccursAt(s, sub, i + 1);
      }
      if exists i :: OccursAt(s, sub, i) {
        var i :| OccursAt(s, sub, i);
        assert i != 0;
        assert s[1..][i - 1..i - 1 + |sub|] == s[i..i + |sub|];
        assert OccursAt(s[1..], sub, i - 1);
      }
    }
  }

  /**
   * `c.location?.name?.toLowerCase().includes(filter.toLowerCase())`: a
   * record without a location or without a location name never matches.
   */
  predicate LocationMatches(c: Character, filter: string) {
    && c.location.Some?
    && c.location.value.name.Some?
    && Contains(Lower(c.location.value.name.value), Lower(filter))
  }

  /** The match ignores the case of the filter text. */
  lemma LocationMatchIgnoresCase(c: Character, filter: string)
    ensures LocationMatches(c, filter) == LocationMatches(c, Lower(filter))
  {
    LowerIdempotent(filter);
  }

  /** The records of `items` whose location name contains `filter`, in order. */
  function FilterByLocation(items: seq<Character>, filter: string): seq<Character> {
    if items == [] then []
    else (if LocationMatches(items[0], filter) then [items[0]] else [])
         + FilterByLocation(items[1..], filter)
  }

  /** Each record is kept exactly as often as it occurs when it matches, else dropped. */
  lemma {:induction false} FilterByLocationCounts(items: seq<Character>, filter: string)
    ensures forall x :: multiset(FilterByLocation(items, filter))[x]
                     == if LocationMatches(x, filter) then multiset(items)[x] else 0
  {
    if items != [] {
      FilterByLocationCounts(items[1..], filter);
      assert items == [items[0]] + items[1..];
    }
  }

  /** The first stage: the location filter applies only to a non-empty text. */
  function LocationFiltered(items: seq<Character>, filter: string): seq<Character> {
    if filter != "" then FilterByLocation(items, filter) else items
  }

  // ---------------------------------------------------------------------
  // Sorting
  // ---------------------------------------------------------------------

  /** The name comparator: `collate` stands for `localeCompare`, negated for `desc`. */
  function NameOrder(collate: (string, string) -> int, dir: SortDir): (Character, Character) -> int {
    (a: Character, b: Character) =>
      var r := collate(a.name, b.name);
      if dir == Asc then r else -r
  }

  /** The episode comparator as written: both directions return `r`. */
  function EpisodeOrder(dir: SortDir): (Character, Character) -> int {
    (a: Character, b: Character) =>
      var r := |a.episode| - |b.episode|;
      if dir == Asc then r else r
  }

  lemma NameOrderConsistent(collate: (string, string) -> int, dir: SortDir)
    requires Consistent(collate)
    ensures Consistent(NameOrder(collate, dir))
  {
    var cmp := NameOrder(collate, dir);
    forall a, b ensures cmp(a, b) < 0 <==> cmp(b, a) > 0 {
      assert collate(a.name, b.name) < 0 <==> collate(b.name, a.name) > 0;
      assert collate(b.name, a.name) < 0 <==> collate(a.name, b.name) > 0;
    }
    forall a, b, c | cmp(a, b) <= 0 && cmp(b, c) <= 0 ensures cmp(a, c) <= 0 {
      if dir == Desc {
        var ab, bc, ac := collate(a.name, b.name), collate(b.name, c.name), collate(a.name, c.name);
        assert cmp(a, b) == -ab && cmp(b, c) == -bc && cmp(a, c) == -ac;
        // both `a` after `b` and `b` after `c` under collate, so `a` after `c`
        assert collate(b.name, a.name) <= 0 && collate(c.name, b.name) <= 0;
        assert collate(c.name, a.name) <= 0;
      } else {
        assert cmp(a, b) == collate(a.name, b.name) && cmp(b, c) == collate(b.name, c.name);
        assert cmp(a, c) == collate(a.name, c.name);
      }
    }
  }

  lemma EpisodeOrderConsistent(dir: SortDir)
    ensures Consistent(EpisodeOrder(dir))
  {
  }

  /** `applyLocalFilters`: the location filter, then the optional stable sort. */
  function ApplyLocalFilters(items: seq<Character>, f: Filters, collate: (string, string) -> int): seq<Character> {
    var out := LocationFiltered(items, f.locationFilter);
    match f.sortBy
    case None => out
    case Some(ByName) => Sort(out, NameOrder(collate, f.sortDir))
    case Some(ByEpisodes) => Sort(out, EpisodeOrder(f.sortDir))
  }

  /** With no location text and no sort key the result is the input. */
  lemma ApplyLocalFiltersNoCriteria(items: seq<Character>, dir: SortDir, collate: (string, string) -> int)
    ensures ApplyLocalFilters(items, Filters("", None, dir), collate) == items
  {
  }

  /** Sorting neither adds nor drops records: a permutation of the filtered list. */
  lemma ApplyLocalFiltersPermutes(items: seq<Character>, f: Filters, collate: (string, string) -> int)
    ensures multiset(ApplyLocalFilters(items, f, collate))
         == multiset(LocationFiltered(items, f.locationFilter))
  {
    var out := LocationFiltered(items, f.locationFilter);
    match f.sortBy
    case None =>
    case Some(ByName) => SortPermutes(out, NameOrder(collate, f.sortDir));
    case Some(ByEpisodes) => SortPermutes(out, EpisodeOrder(f.sortDir));
  }

  /**
   * A non-empty location text keeps exactly the matching records (as often as
   * they occur); an empty one keeps every record.
   */
  lemma ApplyLocalFiltersKeeps(items: seq<Character>, f: Filters, collate: (string, string) -> int)
    ensures forall x :: multiset(ApplyLocalFilters(items, f, collate))[x]
                     == if f.locationFilter == "" || LocationMatches(x, f.locationFilter)
                        then multiset(items)[x] else 0
  {
    ApplyLocalFiltersPermutes(items, f, collate);
    if f.locationFilter != "" {
      FilterByLocationCounts(items, f.locationFilter);
    }
  }

  /** Sorting by episodes orders by episode count, ascending in both directions. */
  lemma EpisodeSortAscending(items: seq<Character>, f: Filters, collate: (string, string) -> int)
    requires f.sortBy == Some(ByEpisodes)
    ensures var r := ApplyLocalFilters(items, f, collate);
      forall i, j :: 0 <= i < j < |r| ==> |r[i].episode| <= |r[j].episode|
  {
    var cmp := EpisodeOrder(f.sortDir);
    EpisodeOrderConsistent(f.sortDir);
    SortSorted(LocationFiltered(items, f.locationFilter), cmp);
    var r := ApplyLocalFilters(items, f, collate);
    forall i, j | 0 <= i < j < |r| ensures |r[i].episode| <= |r[j].episode| {
      assert cmp(r[i], r[j]) <= 0;
    }
  }

  /** The direction is ignored when sorting by episodes. */
  lemma EpisodeSortIgnoresDirection(items: seq<Character>, location: string, collate: (string, string) -> int)
    ensures ApplyLocalFilters(items, Filters(location, Some(ByEpisodes), Desc), collate)
         == ApplyLocalFilters(items, Filters(location, Some(ByEpisodes), Asc), collate)
  {
    SortSameOrder(LocationFiltered(items, location), EpisodeOrder(Desc), EpisodeOrder(Asc));
  }

  /** The records of `s` with exactly `n` episodes, in their order in `s`. */
  function WithEpisodeCount(s: seq<Character>, n: nat): seq<Character> {
    if s == [] then []
    else (if |s[0].episode| == n then [s[0]] else []) + WithEpisodeCount(s[1..], n)
  }

  lemma {:induction false} EpisodeTies(s: seq<Character>, dir: SortDir, e: Character)
    ensures Ties(s, EpisodeOrder(dir), e) == WithEpisodeCount(s, |e.episode|)
  {
    if s != [] {
      EpisodeTies(s[1..], dir, e);
    }
  }

  /** Records with equal episode counts keep their relative order. */
  lemma EpisodeSortStable(items: seq<Character>, f: Filters, collate: (string, string) -> int, n: nat)
    requires f.sortBy == Some(ByEpisodes)
    ensures WithEpisodeCount(ApplyLocalFilters(items, f, collate), n)
         == WithEpisodeCount(LocationFiltered(items, f.locationFilter), n)
  {
    var out := LocationFiltered(items, f.locationFilter);
    var cmp := EpisodeOrder(f.sortDir);
    var e := Character(0, "", "", seq(n, _ => ""), None);
    EpisodeOrderConsistent(f.sortDir);
    SortStable(out, cmp, e);
    EpisodeTies(Sort(out, cmp), f.sortDir, e);
    EpisodeTies(out, f.sortDir, e);
  }

  /** Sorting by name orders by `collate`, reversed for `desc`. */
  lemma NameSortOrdered(items: seq<Character>, f: Filters, collate: (string, string) -> int)
    requires Consistent(collate) && f.sortBy == Some(ByName)
    ensures var r := ApplyLocalFilters(items, f, collate);
      forall i, j :: 0 <= i < j < |r| ==>
        if f.sortDir == Asc then collate(r[i].name, r[j].name) <= 0
        else collate(r[i].name, r[j].name) >= 0
  {
    var cmp := NameOrder(collate, f.sortDir);
    NameOrderConsistent(collate, f.sortDir);
    SortSorted(LocationFiltered(items, f.locationFilter), cmp);
    var r := ApplyLocalFilters(items, f, collate);
    forall i, j | 0 <= i < j < |r|
      ensures if f.sortDir == Asc then collate(r[i].name, r[j].name) <= 0
              else collate(r[i].name, r[j].name) >= 0
    {
      assert cmp(r[i], r[j]) <= 0;
    }
  }

  /** Records whose names collate equal keep their relative order. */
  lemma NameSortStable(items: seq<Character>, f: Filters, collate: (string, string) -> int, e: Character)
    requires Consistent(collate) && f.sortBy == Some(ByName)
    ensures var cmp := NameOrder(collate, f.sortDir);
      Ties(ApplyLocalFilters(items, f, collate), cmp, e)
      == Ties(LocationFiltered(items, f.locationFilter), cmp, e)
  {
    NameOrderConsistent(collate, f.sortDir);
    SortStable(LocationFiltered(items, f.locationFilter), NameOrder(collate, f.sortDir), e);
  }

  // ---------------------------------------------------------------------
  // Fetching one page
  // ---------------------------------------------------------------------

  /** A query parameter value: `page` is a number, `name` and `status` are text. */
  datatype ParamValue = Number(n: int) | Text(s: string)

  /** The API's spelling of a status. */
  function StatusName(s: StatusFilter): string {
    match s
    case All => "All"
    case Alive => "Alive"
    case Dead => "Dead"
    case Unknown => "unknown"
  }

  /**
   * The reply to the request, as the HTTP layer reports it: a parsed body
   * (whose `results` and `info.pages` may be missing), a 404, or any other
   * failure with its message (a network error, another status, or a body
   * that cannot be read, such as one without `info`).
   */
  datatype Response =
    | Ok(results: Option<seq<Character>>, pages: Option<int>)
    | NotFound
    | Failure(message: string)

  /** The query for `page`: `name` only for a non-empty search, `status` unless `All`. */
  ghost predicate IsQueryFor(params: map<string, ParamValue>, page: int, nameSearch: string, status: StatusFilter) {
    && params.Keys <= {"page", "name", "status"}
    && "page" in params && params["page"] == Number(page)
    && ("name" in params <==> nameSearch != "")
    && ("name" in params ==> params["name"] == Text(nameSearch))
    && ("status" in params <==> status != All)
    && ("status" in params ==> params["status"] == Text(StatusName(status)))
  }

  method QueryParams(page: int, nameSearch: string, status: StatusFilter) returns (params: map<string, ParamValue>)
    ensures IsQueryFor(params, page, nameSearch, status)
  {
    params := map["page" := Number(page)];
    if nameSearch != "" {
      params := params["name" := Text(nameSearch)];
    }
    if status != All {
      params := params["status" := Text(StatusName(status))];
    }
  }

  /** `e.message || 'Fetch error'`: the message shown is never empty. */
  function ErrorText(message: string): (t: string)
    ensures t != ""
    ensures message != "" ==> t == message
  {
    if message != "" then message else "Fetch error"
  }

  /** The state of one `useCharacters()` call: its flags, its criteria and the shared store. */
  class CharactersView {
    const store: CharacterStore.Store
    var loading: bool
    var error: Option<string>
    var nameSearch: string
    var sortBy: Option<SortKey>
    var sortDir: SortDir
    var status: StatusFilter
    var locationFilter: string

    constructor (store: CharacterStore.Store)
      ensures this.store == store
      ensures !loading && error == None
      ensures nameSearch == "" && sortBy == None && sortDir == Asc
      ensures status == All && locationFilter == ""
    {
      this.store := store;
      loading := false;
      error := None;
      nameSearch := "";
      sortBy := None;
      sortDir := Asc;
      status := All;
      locationFilter := "";
    }

    /** The `filtered` view: the local filters applied to the stored list. */
    function Filtered(collate: (string, string) -> int): (r: seq<Character>)
      reads this, store
      ensures multiset(r) <= multiset(store.characters)
    {
      var f := Filters(locationFilter, sortBy, sortDir);
      ApplyLocalFiltersKeeps(store.characters, f, collate);
      ApplyLocalFilters(store.characters, f, collate)
    }

    /**
     * Requests `page` and applies `response` to the store. Returns the query
     * it sends. The error is cleared first and `loading` is off at the end.
     */
    method FetchPage(response: Response, page: int := 1, append: bool := false)
      returns (request: map<string, ParamValue>)
      modifies this, store
      ensures IsQueryFor(request, page, nameSearch, status)
      ensures !loading
      ensures nameSearch == old(nameSearch) && status == old(status) && locationFilter == old(locationFilter)
      ensures sortBy == old(sortBy) && sortDir == old(sortDir)
      ensures response.Ok? ==>
        && error == None
        && store.currentPage == page && store.totalPages == response.pages.GetOr(0)
        && store.characters == (
             var items := response.results.GetOr([]);
             if append then CharacterStore.Appended(old(store.characters), items) else items)
      ensures response.NotFound? ==>
        && error == None
        && (if append then unchanged(store) else store.IsInitial())
      ensures response.Failure? ==>
        && error == Some(ErrorText(response.message))
        && unchanged(store)
    {
      loading := true;
      error := None;
      request := QueryParams(page, nameSearch, status);
      match response {
      case Ok(results, pages) =>
        var items := results.GetOr([]);
        // a missing `pages` is `undefined`, so the store's default 0 applies
        if append {
          if pages.Some? {
            store.AppendCharacter(items, page, pages.value);
          } else {
            store.AppendCharacter(items, page);
          }
        } else {
          if pages.Some? {
            store.SetCharacters(items, page, pages.value);
          } else {
            store.SetCharacters(items, page);
          }
        }
      case NotFound =>
        if !append {
          store.SetCharacters([], 1, 0);
        }
      case Failure(message) =>
        error := Some(ErrorText(message));
      }
      loading := false;
    }
  }
}

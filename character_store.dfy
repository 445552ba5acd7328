/**
 * The characters store: the list of characters on display, the current page
 * and the total number of pages, with the three operations that change them.
 */
module CharacterStore {
  import opened Types

  /** The items of `items` whose id is not in `ids`, in their original order. */
  function Fresh(items: seq<Character>, ids: set<int>): seq<Character> {
    if items == [] then []
    else (if items[0].id in ids then [] else [items[0]]) + Fresh(items[1..], ids)
  }

  /**
   * The list after a dedup-append of `items` onto `prior`: an incoming item is
   * kept when its id is not among the ids `prior` had before the call.
   */
  function Appended(prior: seq<Character>, items: seq<Character>): seq<Character> {
    prior + Fresh(items, Ids(prior))
  }

  lemma {:induction false} FreshMembers(items: seq<Character>, ids: set<int>)
    ensures forall x :: x in Fresh(items, ids) <==> x in items && x.id !in ids
  {
    if items != [] {
      FreshMembers(items[1..], ids);
      assert forall x :: x in items <==> x == items[0] || x in items[1..];
    }
  }

  lemma {:induction false} FreshConcat(a: seq<Character>, b: seq<Character>, ids: set<int>)
    ensures Fresh(a + b, ids) == Fresh(a, ids) + Fresh(b, ids)
  {
    if a == [] {
      assert a + b == b;
    } else {
      assert (a + b)[1..] == a[1..] + b;
      FreshConcat(a[1..], b, ids);
    }
  }

  /** Every id the batch carries is an id of the store once it is appended. */
  lemma AppendedIds(prior: seq<Character>, items: seq<Character>)
    ensures Ids(Appended(prior, items)) == Ids(prior) + Ids(items)
  {
    var r := Appended(prior, items);
    FreshMembers(items, Ids(prior));
    forall k | k in Ids(prior) + Ids(items) ensures k in Ids(r) {
      if k !in Ids(prior) {
        var c :| c in items && c.id == k;
        assert c in r;
      } else {
        var c :| c in prior && c.id == k;
        assert c in r;
      }
    }
  }

  lemma {:induction false} FreshDistinct(items: seq<Character>, ids: set<int>)
    requires DistinctIds(items)
    ensures DistinctIds(Fresh(items, ids))
  {
    if items != [] {
      var t := items[1..];
      assert DistinctIds(t) by {
        forall i, j | 0 <= i < |t| && 0 <= j < |t| && i != j ensures t[i].id != t[j].id {
          assert t[i] == items[i + 1] && t[j] == items[j + 1];
        }
      }
      FreshDistinct(t, ids);
      FreshMembers(t, ids);
      var head := if items[0].id in ids then [] else [items[0]];
      forall c | c in Fresh(t, ids) ensures c.id != items[0].id {
        var k :| 0 <= k < |t| && t[k] == c;
        assert items[k + 1] == c;
      }
      DistinctConcat(head, Fresh(t, ids));
    }
  }

  lemma DistinctConcat(a: seq<Character>, b: seq<Character>)
    requires DistinctIds(a) && DistinctIds(b)
    requires forall x, y :: x in a && y in b ==> x.id != y.id
    ensures DistinctIds(a + b)
  {
    var s := a + b;
    forall i, j | 0 <= i < |s| && 0 <= j < |s| && i != j ensures s[i].id != s[j].id {
      if i < |a| && j >= |a| {
        assert s[i] in a && s[j] == b[j - |a|];
      } else if i >= |a| && j < |a| {
        assert s[j] in a && s[i] == b[i - |a|];
      } else if i >= |a| {
        assert s[i] == b[i - |a|] && s[j] == b[j - |a|];
      }
    }
  }

  /**
   * When the stored list and the incoming batch each have distinct ids, so
   * does the list after the dedup-append.
   */
  lemma AppendedDistinct(prior: seq<Character>, items: seq<Character>)
    requires DistinctIds(prior) && DistinctIds(items)
    ensures DistinctIds(Appended(prior, items))
  {
    var added := Fresh(items, Ids(prior));
    FreshDistinct(items, Ids(prior));
    FreshMembers(items, Ids(prior));
    DistinctConcat(prior, added);
  }

  /**
   * The batch is checked against the ids stored before the call only: two
   * new items of one batch that share an id are both appended.
   */
  lemma SameBatchDuplicatesAreKept(c: Character)
    ensures Appended([], [c, c]) == [c, c]
    ensures !DistinctIds(Appended([], [c, c]))
  {
    assert Ids([]) == {};
    assert [c, c][1..] == [c] && [c][1..] == [];
    assert Fresh([], {}) == [];
    assert Fresh([c], {}) == [c] + Fresh([], {});
    assert Fresh([c, c], {}) == [c] + Fresh([c], {});
    var r := Appended([], [c, c]);
    assert r == [c, c] && r[0].id == r[1].id;
  }

  /** Appending the same batch a second time adds nothing. */
  lemma AppendTwiceAddsNothing(prior: seq<Character>, items: seq<Character>)
    ensures Appended(Appended(prior, items), items) == Appended(prior, items)
  {
    var once := Appended(prior, items);
    AppendedIds(prior, items);
    FreshMembers(items, Ids(once));
    if Fresh(items, Ids(once)) != [] {
      var c := Fresh(items, Ids(once))[0];
      assert c in Fresh(items, Ids(once));
      assert c in items;
    }
  }

  /** The ids of `cs`, collected one by one (the `Set` of line 16). */
  method CollectIds(cs: seq<Character>) returns (ids: set<int>)
    ensures ids == Ids(cs)
  {
    ids := {};
    var i := 0;
    while i < |cs|
      invariant 0 <= i <= |cs|
      invariant ids == Ids(cs[..i])
    {
      assert cs[..i + 1] == cs[..i] + [cs[i]];
      assert forall c :: c in cs[..i + 1] <==> c in cs[..i] || c == cs[i];
      ids := ids + {cs[i].id};
      i := i + 1;
    }
    assert cs[..i] == cs;
  }

  class Store {
    var characters: seq<Character>
    var currentPage: int
    var totalPages: int

    /** The state the store starts in, and the one `Clear` restores. */
    predicate IsInitial()
      reads this
    {
      characters == [] && currentPage == 1 && totalPages == 0
    }

    constructor ()
      ensures IsInitial()
    {
      characters := [];
      totalPages := 0;
      currentPage := 1;
    }

    /** Replaces the list and both page numbers; the list is taken as given. */
    method SetCharacters(items: seq<Character>, page: int := 1, pages: int := 0)
      modifies this
      ensures characters == items
      ensures currentPage == page && totalPages == pages
    {
      characters := items;
      currentPage := page;
      totalPages := pages;
    }

    /**
     * Pushes the items whose id was not stored before the call, then
     * overwrites both page numbers whether or not anything was appended.
     */
    method AppendCharacter(items: seq<Character>, page: int := 1, pages: int := 0)
      modifies this
      ensures characters == Appended(old(characters), items)
      ensures DistinctIds(old(characters)) && DistinctIds(items) ==> DistinctIds(characters)
      ensures currentPage == page && totalPages == pages
    {
      ghost var prior := characters;
      var ids := CollectIds(characters);
      var i := 0;
      while i < |items|
        invariant 0 <= i <= |items|
        invariant characters == old(characters) + Fresh(items[..i], ids)
      {
        assert items[..i + 1] == items[..i] + [items[i]];
        FreshConcat(items[..i], [items[i]], ids);
        if items[i].id !in ids {
          characters := characters + [items[i]];
        }
        i := i + 1;
      }
      assert items[..i] == items;
      if DistinctIds(prior) && DistinctIds(items) {
        AppendedDistinct(prior, items);
      }
      currentPage := page;
      totalPages := pages;
    }

    method Clear()
      modifies this
      ensures IsInitial()
    {
      characters := [];
      currentPage := 1;
      totalPages := 0;
    }
  }
}

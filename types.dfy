/** Records shared by the character store and the characters composable. */
module Types {

  /** A value that may be missing (`undefined`/`null` in the API's JSON). */
  datatype Option<+T> = None | Some(value: T) {
    /** The value, or `default` when it is missing (the `??` operator). */
    function GetOr(default: T): T {
      match this
      case Some(v) => v
      case None => default
    }
  }

  /** The `location` reference of a character; the API may omit its `name`. */
  datatype LocationRef = LocationRef(name: Option<string>)

  /**
   * A character record as the catalog API returns it. Only the fields the
   * store and the local filters look at are kept.
   */
  datatype Character = Character(
    id: int,
    name: string,
    status: string,
    episode: seq<string>,
    location: Option<LocationRef>)

  /** The set of ids that occur in `cs`. */
  function Ids(cs: seq<Character>): set<int> {
    set c | c in cs :: c.id
  }

  /** No two positions of `cs` hold records with the same id. */
  ghost predicate DistinctIds(cs: seq<Character>) {
    forall i, j :: 0 <= i < |cs| && 0 <= j < |cs| && i != j ==> cs[i].id != cs[j].id
  }
}

/**
 * The review records the core works on: rows of the review frame, and the
 * metadata store that maps each review ID to its entry.
 */
module Reviews {
  import opened Options

  /**
   * One row of the review frame: its row index (the review ID), its
   * `review_text` (`None` when the row has no such field) and its
   * `customer_review_rating` (`None` when absent or `None`).
   */
  datatype Row = Row(index: int, text: Option<string>, rating: Option<int>)

  /**
   * One metadata entry, a dict with the keys "customer_review_rating",
   * "text" and "preprocessed_text", each of which may be absent.
   */
  datatype Entry = Entry(rating: Option<int>, text: Option<string>, preprocessed: Option<string>)

  predicate Distinct<T(==)>(s: seq<T>)
  {
    forall i, j :: 0 <= i < j < |s| ==> s[i] != s[j]
  }

  /**
   * The metadata store: a Python dict from review ID to entry. `keys` is the
   * dict's iteration (insertion) order, `entries` its contents.
   */
  class ReviewMetadata {
    var keys: seq<int>
    var entries: map<int, Entry>

    ghost predicate Valid()
      reads this
    {
      Distinct(keys) && forall id :: id in entries <==> id in keys
    }

    /** `{}` */
    constructor ()
      ensures Valid() && keys == [] && entries == map[]
    {
      keys := [];
      entries := map[];
    }

    /** `metadata[id] = e`: a new key goes last, an existing key keeps its place. */
    method Put(id: int, e: Entry)
      requires Valid()
      modifies this
      ensures Valid()
      ensures keys == if id in old(entries) then old(keys) else old(keys) + [id]
      ensures entries == old(entries)[id := e]
    {
      if id !in entries {
        keys := keys + [id];
      }
      entries := entries[id := e];
    }
  }
}

/**
 * The index builder: the inverted index (`create_postings_list`), the
 * metadata store (`create_review_metadata`) and the check that both speak of
 * the same review IDs.
 */
module PostingsListGenerator {
  import opened Options
  import opened Tokenizer
  import opened Sequences
  import opened Reviews

  /**
   * The returned postings dict: `terms` is its key order, `lists` maps each
   * term to its list of review IDs.
   */
  datatype PostingsList = PostingsList(terms: seq<string>, lists: map<string, seq<int>>)

  /** The text the index reads from a row (the row's `review_text`). */
  function TextOf(r: Row): string
  {
    r.text.GetOr("")
  }

  /** Every row has a `review_text`; `row['review_text']` fails otherwise. */
  predicate HasTexts(rows: seq<Row>)
  {
    forall j :: 0 <= j < |rows| ==> rows[j].text.Some?
  }

  /** Review `id` is the index of some row. */
  predicate IsRowIndex(rows: seq<Row>, id: int)
  {
    exists j | 0 <= j < |rows| :: rows[j].index == id
  }

  /** Some row with index `id` has `w` among its tokens. */
  predicate Mentions(rows: seq<Row>, w: string, id: int)
  {
    exists j | 0 <= j < |rows| :: rows[j].index == id && w in Tokens(TextOf(rows[j]))
  }

  // ---------------------------------------------------------------------
  // The defaultdict(set) being filled

  predicate InMap(m: map<string, set<int>>, w: string, id: int)
  {
    w in m && id in m[w]
  }

  /** Keys are lower-case words and no set is empty. */
  predicate WellFormed(m: map<string, set<int>>)
  {
    forall w :: w in m ==> IsWord(w) && IsLowerString(w) && m[w] != {}
  }

  /** `postings_list[w].add(id)` on a `defaultdict(set)`. */
  function Add(m: map<string, set<int>>, w: string, id: int): map<string, set<int>>
  {
    m[w := (if w in m then m[w] else {}) + {id}]
  }

  /** The inner loop: `for word in words: postings_list[word].add(id)`. */
  function AddTokens(m: map<string, set<int>>, id: int, ws: seq<string>): map<string, set<int>>
  {
    if ws == [] then m else Add(AddTokens(m, id, ws[..|ws| - 1]), ws[|ws| - 1], id)
  }

  /** The outer loop over the rows, as a function of the rows seen. */
  function Build(rows: seq<Row>): map<string, set<int>>
  {
    if rows == [] then map[]
    else
      var last := rows[|rows| - 1];
      AddTokens(Build(rows[..|rows| - 1]), last.index, Tokens(TextOf(last)))
  }

  /** After the inner loop, exactly the words of `ws` have gained `id`. */
  lemma {:induction false} AddTokensSpec(m: map<string, set<int>>, id: int, ws: seq<string>)
    ensures forall w :: w in AddTokens(m, id, ws) <==> w in m || w in ws
    ensures forall w, x :: InMap(AddTokens(m, id, ws), w, x) <==> InMap(m, w, x) || (x == id && w in ws)
  {
    if ws != [] {
      var init := ws[..|ws| - 1];
      AddTokensSpec(m, id, init);
      assert ws == init + [ws[|ws| - 1]];
      var last := ws[|ws| - 1];
      var prev := AddTokens(m, id, init);
      assert AddTokens(m, id, ws) == Add(prev, last, id);
      forall w, x
        ensures InMap(AddTokens(m, id, ws), w, x) <==> InMap(m, w, x) || (x == id && w in ws)
      {
        assert InMap(Add(prev, last, id), w, x) <==> InMap(prev, w, x) || (w == last && x == id);
      }
    }
  }

  /** The inner loop keeps keys lower-case words with non-empty sets. */
  lemma {:induction false} AddTokensWellFormed(m: map<string, set<int>>, id: int, ws: seq<string>)
    requires WellFormed(m)
    requires forall k :: 0 <= k < |ws| ==> IsWord(ws[k]) && IsLowerString(ws[k])
    ensures WellFormed(AddTokens(m, id, ws))
  {
    if ws != [] {
      AddTokensWellFormed(m, id, ws[..|ws| - 1]);
    }
  }

  /**
   * Adding one review's tokens a second time leaves the index as it was:
   * the sets absorb repeated insertions.
   */
  lemma AddTokensTwice(m: map<string, set<int>>, id: int, ws: seq<string>)
    ensures AddTokens(AddTokens(m, id, ws), id, ws) == AddTokens(m, id, ws)
  {
    var once := AddTokens(m, id, ws);
    var twice := AddTokens(once, id, ws);
    AddTokensSpec(m, id, ws);
    AddTokensSpec(once, id, ws);
    assert twice.Keys == once.Keys;
    forall w | w in once
      ensures twice[w] == once[w]
    {
      forall x
        ensures x in twice[w] <==> x in once[w]
      {
        assert InMap(twice, w, x) <==> InMap(once, w, x) || (x == id && w in ws);
        assert x == id && w in ws ==> InMap(once, w, x);
      }
    }
  }

  /** A word that repeats within one review adds nothing the second time. */
  lemma RepeatedWord(m: map<string, set<int>>, id: int, ws: seq<string>, w: string)
    requires w in ws
    ensures AddTokens(m, id, ws + [w]) == AddTokens(m, id, ws)
  {
    var before := AddTokens(m, id, ws);
    assert (ws + [w])[..|ws|] == ws;
    AddTokensSpec(m, id, ws);
    assert InMap(before, w, id);
    assert before[w] + {id} == before[w];
  }

  /** Which IDs the index holds for which words, and that its keys are tokens. */
  lemma {:induction false} BuildSpec(rows: seq<Row>)
    ensures WellFormed(Build(rows))
    ensures forall w, x :: InMap(Build(rows), w, x) <==> Mentions(rows, w, x)
  {
    if rows != [] {
      var init, last := rows[..|rows| - 1], rows[|rows| - 1];
      BuildSpec(init);
      AddTokensWellFormed(Build(init), last.index, Tokens(TextOf(last)));
      AddTokensSpec(Build(init), last.index, Tokens(TextOf(last)));
      forall w, x
        ensures Mentions(rows, w, x) <==> Mentions(init, w, x) || (x == last.index && w in Tokens(TextOf(last)))
      {
        if Mentions(rows, w, x) {
          var j :| 0 <= j < |rows| && rows[j].index == x && w in Tokens(TextOf(rows[j]));
          if j < |init| {
            assert init[j] == rows[j];
          }
        }
        if Mentions(init, w, x) {
          var j :| 0 <= j < |init| && init[j].index == x && w in Tokens(TextOf(init[j]));
          assert rows[j] == init[j];
        }
        if x == last.index && w in Tokens(TextOf(last)) {
          assert rows[|rows| - 1] == last;
        }
      }
    }
  }

  /** Processing the same row twice in a row leaves the index unchanged. */
  lemma SameRowTwice(rows: seq<Row>, r: Row)
    ensures Build(rows + [r, r]) == Build(rows + [r])
  {
    assert (rows + [r, r])[..|rows| + 1] == rows + [r];
    assert (rows + [r])[..|rows|] == rows;
    AddTokensTwice(Build(rows), r.index, Tokens(TextOf(r)));
  }

  // ---------------------------------------------------------------------
  // The returned dict

  /** `id` is listed under `w`. */
  predicate Listed(pl: PostingsList, w: string, id: int)
  {
    w in pl.lists && id in pl.lists[w]
  }

  /**
   * What the returned index promises about a corpus: terms in ascending
   * order and exactly the keys; every key a lower-case word with a non-empty,
   * strictly ascending list; and `id` listed under `w` iff a row with index
   * `id` has `w` among its tokens.
   */
  ghost predicate IsPostingsOf(pl: PostingsList, rows: seq<Row>)
  {
    && TermsAscending(pl.terms)
    && (forall w :: w in pl.terms <==> w in pl.lists)
    && (forall w :: w in pl.lists ==>
          IsWord(w) && IsLowerString(w) && |pl.lists[w]| > 0 && IdsAscending(pl.lists[w]))
    && (forall w, x :: Listed(pl, w, x) <==> Mentions(rows, w, x))
  }

  /**
   * `{word: sorted(list(ids)) for word, ids in sorted(postings_list.items())}`
   */
  method Freeze(m: map<string, set<int>>) returns (pl: PostingsList)
    ensures TermsAscending(pl.terms)
    ensures forall w :: w in pl.terms <==> w in m
    ensures pl.lists.Keys == m.Keys
    ensures forall w :: w in pl.lists ==> IdsAscending(pl.lists[w])
    ensures forall w, x :: Listed(pl, w, x) <==> InMap(m, w, x)
  {
    var terms := SortTerms(m.Keys);
    var lists: map<string, seq<int>> := map[];
    for k := 0 to |terms|
      invariant lists.Keys == set i | 0 <= i < k :: terms[i]
      invariant forall w :: w in lists ==> w in m && IdsAscending(lists[w])
      invariant forall w, x :: w in lists ==> (x in lists[w] <==> x in m[w])
    {
      var w := terms[k];
      var ids := SortIds(m[w]);
      lists := lists[w := ids];
    }
    assert forall w :: w in m ==> w in terms;
    pl := PostingsList(terms, lists);
  }

  /**
   * `create_postings_list`: the inverted index of the rows' tokens, or
   * `None` when a row has no `review_text` (`row['review_text']` fails).
   */
  method CreatePostingsList(rows: seq<Row>) returns (r: Option<PostingsList>)
    ensures r.None? <==> !HasTexts(rows)
    ensures r.Some? ==> IsPostingsOf(r.value, rows)
  {
    var m: map<string, set<int>> := map[];
    var i := 0;
    while i < |rows|
      invariant 0 <= i <= |rows|
      invariant forall j :: 0 <= j < i ==> rows[j].text.Some?
      invariant m == Build(rows[..i])
    {
      if rows[i].text.None? {
        return None;
      }
      var index := rows[i].index;
      var words := Tokens(rows[i].text.value);
      var j := 0;
      while j < |words|
        invariant 0 <= j <= |words|
        invariant m == AddTokens(Build(rows[..i]), index, words[..j])
      {
        assert words[..j + 1][..j] == words[..j];
        m := Add(m, words[j], index);
        j := j + 1;
      }
      assert words[..j] == words;
      assert rows[..i + 1][..i] == rows[..i];
      i := i + 1;
    }
    assert rows[..i] == rows;
    BuildSpec(rows);
    var pl := Freeze(m);
    forall w | w in pl.lists
      ensures |pl.lists[w]| > 0
    {
      assert w in m && m[w] != {};
      var x := Element(m[w]);
      assert Listed(pl, w, x);
    }
    return Some(pl);
  }

  // ---------------------------------------------------------------------
  // The metadata store

  /** The entry `create_review_metadata` stores for a row. */
  function EntryOf(r: Row): Entry
  {
    Entry(r.rating, Some(TextOf(r)), None)
  }

  /** The dict's key order after the loop over `rows`: first occurrences, in order. */
  function MetadataKeys(rows: seq<Row>): seq<int>
  {
    if rows == [] then []
    else
      var keys, id := MetadataKeys(rows[..|rows| - 1]), rows[|rows| - 1].index;
      if id in keys then keys else keys + [id]
  }

  /** The dict's contents after the loop over `rows`: the last row with an index wins. */
  function MetadataEntries(rows: seq<Row>): map<int, Entry>
  {
    if rows == [] then map[]
    else MetadataEntries(rows[..|rows| - 1])[rows[|rows| - 1].index := EntryOf(rows[|rows| - 1])]
  }

  /** No later row has the same index as row `j`. */
  predicate IsLastWithIndex(rows: seq<Row>, j: int)
    requires 0 <= j < |rows|
  {
    forall k :: j < k < |rows| ==> rows[k].index != rows[j].index
  }

  function Indices(rows: seq<Row>): (ids: seq<int>)
    ensures |ids| == |rows|
  {
    seq(|rows|, j requires 0 <= j < |rows| => rows[j].index)
  }

  /** A row index of `rows` is a row index of its front or the last row's. */
  lemma RowIndexOfInit(rows: seq<Row>, id: int)
    requires rows != []
    ensures IsRowIndex(rows, id) <==> IsRowIndex(rows[..|rows| - 1], id) || id == rows[|rows| - 1].index
  {
    var init := rows[..|rows| - 1];
    if IsRowIndex(rows, id) {
      var j :| 0 <= j < |rows| && rows[j].index == id;
      if j < |init| { assert init[j] == rows[j]; }
    }
    if IsRowIndex(init, id) {
      var j :| 0 <= j < |init| && init[j].index == id;
      assert rows[j] == init[j];
    }
    if id == rows[|rows| - 1].index {
      assert rows[|rows| - 1].index == id;
    }
  }

  /** The metadata keys are exactly the row indices, without repetition. */
  lemma {:induction false} MetadataKeysSpec(rows: seq<Row>)
    ensures Distinct(MetadataKeys(rows))
    ensures forall id :: id in MetadataKeys(rows) <==> IsRowIndex(rows, id)
  {
    if rows != [] {
      var init, last := rows[..|rows| - 1], rows[|rows| - 1];
      MetadataKeysSpec(init);
      var keys := MetadataKeys(init);
      if last.index !in keys {
        assert MetadataKeys(rows) == keys + [last.index];
        forall i, j | 0 <= i < j < |keys| + 1
          ensures (keys + [last.index])[i] != (keys + [last.index])[j]
        {
          if j == |keys| {
            assert keys[i] in keys;
          }
        }
      }
      forall id
        ensures id in MetadataKeys(rows) <==> IsRowIndex(rows, id)
      {
        RowIndexOfInit(rows, id);
      }
    }
  }

  /**
   * The metadata entries are keyed by exactly the row indices, and each
   * key's entry holds the rating and text of the last row with that index.
   */
  lemma {:induction false} MetadataEntriesSpec(rows: seq<Row>)
    ensures forall id :: id in MetadataEntries(rows) <==> IsRowIndex(rows, id)
    ensures forall j :: 0 <= j < |rows| && IsLastWithIndex(rows, j) ==>
              rows[j].index in MetadataEntries(rows) &&
              MetadataEntries(rows)[rows[j].index] == EntryOf(rows[j])
  {
    if rows != [] {
      var init, last := rows[..|rows| - 1], rows[|rows| - 1];
      MetadataEntriesSpec(init);
      assert MetadataEntries(rows) == MetadataEntries(init)[last.index := EntryOf(last)];
      forall id
        ensures id in MetadataEntries(rows) <==> IsRowIndex(rows, id)
      {
        RowIndexOfInit(rows, id);
      }
      forall j | 0 <= j < |rows| && IsLastWithIndex(rows, j)
        ensures rows[j].index in MetadataEntries(rows)
        ensures MetadataEntries(rows)[rows[j].index] == EntryOf(rows[j])
      {
        if j < |init| {
          assert init[j] == rows[j];
          assert IsLastWithIndex(init, j);
        }
      }
    }
  }

  /**
   * The metadata keys are exactly the row indices, without repetition, and
   * each key's entry holds the rating and text of the last row with that
   * index.
   */
  lemma MetadataSpec(rows: seq<Row>)
    ensures Distinct(MetadataKeys(rows))
    ensures forall id :: id in MetadataKeys(rows) <==> IsRowIndex(rows, id)
    ensures forall id :: id in MetadataEntries(rows) <==> IsRowIndex(rows, id)
    ensures forall j :: 0 <= j < |rows| && IsLastWithIndex(rows, j) ==>
              rows[j].index in MetadataEntries(rows) &&
              MetadataEntries(rows)[rows[j].index] == EntryOf(rows[j])
  {
    MetadataKeysSpec(rows);
    MetadataEntriesSpec(rows);
  }

  /** With distinct row indices the metadata keys are the row indices in row order. */
  lemma {:induction false} MetadataKeysInRowOrder(rows: seq<Row>)
    requires Distinct(Indices(rows))
    ensures MetadataKeys(rows) == Indices(rows)
  {
    if rows != [] {
      var init := rows[..|rows| - 1];
      assert Indices(init) == Indices(rows)[..|rows| - 1];
      MetadataKeysInRowOrder(init);
      forall k | 0 <= k < |init|
        ensures Indices(init)[k] != rows[|rows| - 1].index
      {
        assert Indices(init)[k] == Indices(rows)[k];
        assert Indices(rows)[|rows| - 1] == rows[|rows| - 1].index;
      }
      assert Indices(rows) == Indices(init) + [rows[|rows| - 1].index];
    }
  }

  /** `create_review_metadata`: the metadata store of the rows. */
  method CreateReviewMetadata(rows: seq<Row>) returns (md: ReviewMetadata)
    ensures fresh(md) && md.Valid()
    ensures md.keys == MetadataKeys(rows)
    ensures md.entries == MetadataEntries(rows)
  {
    md := new ReviewMetadata();
    for i := 0 to |rows|
      invariant md.Valid()
      invariant md.keys == MetadataKeys(rows[..i])
      invariant md.entries == MetadataEntries(rows[..i])
    {
      assert rows[..i + 1][..i] == rows[..i];
      md.Put(rows[i].index, EntryOf(rows[i]));
    }
    assert rows[..|rows|] == rows;
  }

  // ---------------------------------------------------------------------
  // The ID-consistency check of `main`

  /** Every review ID the index lists under some term. */
  function PostingIds(pl: PostingsList): set<int>
  {
    set w, x | w in pl.lists && x in pl.lists[w] :: x
  }

  /** `set(postings IDs) == set(review_metadata.keys())`, the assertion of `main`. */
  function IdsConsistent(pl: PostingsList, metadata: map<int, Entry>): bool
  {
    PostingIds(pl) == metadata.Keys
  }

  /** Some row with index `id` has at least one token. */
  predicate HasTokens(rows: seq<Row>, id: int)
  {
    exists j | 0 <= j < |rows| :: rows[j].index == id && Tokens(TextOf(rows[j])) != []
  }

  lemma PostingIdsMember(pl: PostingsList, x: int)
    ensures x in PostingIds(pl) <==> exists w :: Listed(pl, w, x)
  {
    if exists w :: Listed(pl, w, x) {
      var w :| Listed(pl, w, x);
      assert w in pl.lists && x in pl.lists[w];
      assert x in PostingIds(pl);
    }
    if x in PostingIds(pl) {
      var w :| w in pl.lists && x in pl.lists[w];
      assert Listed(pl, w, x);
    }
  }

  /** The index of `rows` lists exactly the IDs of rows that have a token. */
  lemma PostingIdsHaveTokens(pl: PostingsList, rows: seq<Row>)
    requires IsPostingsOf(pl, rows)
    ensures forall x :: x in PostingIds(pl) <==> HasTokens(rows, x)
  {
    forall x
      ensures x in PostingIds(pl) <==> HasTokens(rows, x)
    {
      PostingIdsMember(pl, x);
      if x in PostingIds(pl) {
        var w :| Listed(pl, w, x);
        assert Mentions(rows, w, x);
        var j :| 0 <= j < |rows| && rows[j].index == x && w in Tokens(TextOf(rows[j]));
        assert Tokens(TextOf(rows[j])) != [];
      }
      if HasTokens(rows, x) {
        var j :| 0 <= j < |rows| && rows[j].index == x && Tokens(TextOf(rows[j])) != [];
        var w := Tokens(TextOf(rows[j]))[0];
        assert Mentions(rows, w, x);
        assert Listed(pl, w, x);
      }
    }
  }

  /** Every ID the index of `rows` lists is a key of the metadata of `rows`. */
  lemma PostingIdsWithinMetadata(pl: PostingsList, rows: seq<Row>)
    requires IsPostingsOf(pl, rows)
    ensures PostingIds(pl) <= MetadataEntries(rows).Keys
  {
    MetadataSpec(rows);
    PostingIdsHaveTokens(pl, rows);
    forall x | HasTokens(rows, x)
      ensures IsRowIndex(rows, x)
    {
      var j :| 0 <= j < |rows| && rows[j].index == x && Tokens(TextOf(rows[j])) != [];
    }
  }

  /**
   * The consistency assertion holds exactly when every row index has a row
   * whose text has at least one token.
   */
  lemma ConsistencyIff(pl: PostingsList, rows: seq<Row>)
    requires IsPostingsOf(pl, rows)
    ensures IdsConsistent(pl, MetadataEntries(rows)) <==>
              forall id :: IsRowIndex(rows, id) ==> HasTokens(rows, id)
  {
    var posted, keys := PostingIds(pl), MetadataEntries(rows).Keys;
    PostingIdsHaveTokens(pl, rows);
    MetadataSpec(rows);
    assert forall x :: x in keys <==> IsRowIndex(rows, x);
    if posted == keys {
      forall id | IsRowIndex(rows, id)
        ensures HasTokens(rows, id)
      {
        assert id in keys;
      }
    }
    if forall id :: IsRowIndex(rows, id) ==> HasTokens(rows, id) {
      forall x
        ensures x in posted <==> x in keys
      {
        if HasTokens(rows, x) {
          var j :| 0 <= j < |rows| && rows[j].index == x && Tokens(TextOf(rows[j])) != [];
          assert IsRowIndex(rows, x);
        }
      }
    }
  }

  /** With distinct row indices, every row index has a token row iff every row has a token. */
  lemma EveryIdHasTokensIff(rows: seq<Row>)
    requires Distinct(Indices(rows))
    ensures (forall id :: IsRowIndex(rows, id) ==> HasTokens(rows, id)) <==>
              forall j :: 0 <= j < |rows| ==> Tokens(TextOf(rows[j])) != []
  {
    if forall j :: 0 <= j < |rows| ==> Tokens(TextOf(rows[j])) != [] {
      forall id | IsRowIndex(rows, id)
        ensures HasTokens(rows, id)
      {
        var j :| 0 <= j < |rows| && rows[j].index == id;
      }
    }
    if forall id :: IsRowIndex(rows, id) ==> HasTokens(rows, id) {
      forall j | 0 <= j < |rows|
        ensures Tokens(TextOf(rows[j])) != []
      {
        assert IsRowIndex(rows, rows[j].index);
        var k :| 0 <= k < |rows| && rows[k].index == rows[j].index && Tokens(TextOf(rows[k])) != [];
        assert Indices(rows)[k] == Indices(rows)[j];
      }
    }
  }

  /**
   * With distinct row indices, the consistency assertion of `main` holds
   * exactly when every review text contains at least one word token.
   */
  lemma ConsistencyIffEveryTextHasToken(pl: PostingsList, rows: seq<Row>)
    requires IsPostingsOf(pl, rows)
    requires Distinct(Indices(rows))
    ensures IdsConsistent(pl, MetadataEntries(rows)) <==>
              forall j :: 0 <= j < |rows| ==> Tokens(TextOf(rows[j])) != []
  {
    ConsistencyIff(pl, rows);
    EveryIdHasTokensIff(rows);
  }
}

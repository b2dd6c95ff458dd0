/**
 * The classifier side of the refinement pipeline: the labelling rule for
 * training data, text preprocessing (tokenize, drop stop words), the
 * preprocessing pass over the metadata store, and the filter that keeps the
 * boolean-search results whose predicted sentiment matches the requested
 * polarity.
 *
 * The TF-IDF vectorizer and the Naive Bayes model are one predictor
 * `predict: string -> int` applied to each preprocessed text on its own;
 * the English stop-word list is a parameter `stop`.
 */
module Classifier {
  import opened Options
  import opened Tokenizer
  import opened Sequences
  import opened Reviews

  // ---------------------------------------------------------------------
  // prepare_labeled_data

  /** The entry's text, `""` when it has none (`.get('text', "")`). */
  function TextOrEmpty(e: Entry): string
  {
    e.text.GetOr("")
  }

  /** The labelling rule: 1 (positive) when the rating is above 3, else 0 (negative). */
  function Label(rating: int): int
  {
    if rating > 3 then 1 else 0
  }

  /** Every key has an entry. */
  predicate KeysHaveEntries(keys: seq<int>, entries: map<int, Entry>)
  {
    forall k :: 0 <= k < |keys| ==> keys[k] in entries
  }

  /** In a consistent store every key has an entry. */
  lemma StoreKeysHaveEntries(keys: seq<int>, entries: map<int, Entry>)
    requires forall id :: id in entries <==> id in keys
    ensures KeysHaveEntries(keys, entries)
  {
    forall k | 0 <= k < |keys|
      ensures keys[k] in entries
    {
      assert keys[k] in keys;
      assert forall id :: id in entries <==> id in keys;
    }
  }

  /** The labelled pairs of the entries `keys` names, in key order. */
  function LabeledData(keys: seq<int>, entries: map<int, Entry>): seq<(string, int)>
    requires KeysHaveEntries(keys, entries)
  {
    if keys == [] then []
    else
      var e := entries[keys[|keys| - 1]];
      LabeledData(keys[..|keys| - 1], entries) +
        (if e.rating.Some? then [(TextOrEmpty(e), Label(e.rating.value))] else [])
  }

  /** How many of the entries `keys` names have a rating. */
  function RatedCount(keys: seq<int>, entries: map<int, Entry>): nat
    requires KeysHaveEntries(keys, entries)
  {
    if keys == [] then 0
    else RatedCount(keys[..|keys| - 1], entries) + (if entries[keys[|keys| - 1]].rating.Some? then 1 else 0)
  }

  /**
   * The labelled data has one pair per rated entry, in key order: the pair
   * of the `j`-th key, when rated, sits after the pairs of the rated keys
   * before it, holds the entry's text (or `""`), and is labelled 1 exactly
   * when the rating is above 3, else 0. Unrated entries contribute nothing.
   */
  lemma {:induction false} LabeledDataSpec(keys: seq<int>, entries: map<int, Entry>)
    requires KeysHaveEntries(keys, entries)
    ensures |LabeledData(keys, entries)| == RatedCount(keys, entries)
    ensures forall j :: 0 <= j < |keys| && entries[keys[j]].rating.Some? ==>
              var p := RatedCount(keys[..j], entries);
              var e := entries[keys[j]];
              && p < |LabeledData(keys, entries)|
              && LabeledData(keys, entries)[p].0 == TextOrEmpty(e)
              && (LabeledData(keys, entries)[p].1 == 1 <==> e.rating.value > 3)
              && (LabeledData(keys, entries)[p].1 == 0 <==> e.rating.value <= 3)
  {
    if keys != [] {
      var init := keys[..|keys| - 1];
      LabeledDataSpec(init, entries);
      forall j | 0 <= j < |keys| && entries[keys[j]].rating.Some?
        ensures RatedCount(keys[..j], entries) < |LabeledData(keys, entries)|
        ensures LabeledData(keys, entries)[RatedCount(keys[..j], entries)] ==
                  (TextOrEmpty(entries[keys[j]]), Label(entries[keys[j]].rating.value))
      {
        if j < |init| {
          assert keys[..j] == init[..j];
          assert init[j] == keys[j];
        } else {
          assert keys[..j] == init;
        }
      }
    }
  }

  /** `prepare_labeled_data`: the (text, label) pairs used for training. */
  method PrepareLabeledData(md: ReviewMetadata) returns (data: seq<(string, int)>)
    requires md.Valid()
    ensures KeysHaveEntries(md.keys, md.entries)
    ensures data == LabeledData(md.keys, md.entries)
  {
    data := [];
    var keys := md.keys;
    StoreKeysHaveEntries(keys, md.entries);
    for i := 0 to |keys|
      invariant KeysHaveEntries(keys, md.entries)
      invariant data == LabeledData(keys[..i], md.entries)
    {
      assert keys[..i + 1][..i] == keys[..i];
      var e := md.entries[keys[i]];
      if e.rating.Some? {
        data := data + [(TextOrEmpty(e), Label(e.rating.value))];
      }
    }
    assert keys[..|keys|] == keys;
  }

  // ---------------------------------------------------------------------
  // preprocess_text

  /** `[w for w in tokens if w not in stop]` */
  function RemoveStopWords(tokens: seq<string>, stop: set<string>): (r: seq<string>)
    ensures forall k :: 0 <= k < |r| ==> r[k] !in stop && r[k] in tokens
    ensures IsSubsequence(r, tokens)
  {
    if tokens == [] then []
    else
      var rest := RemoveStopWords(tokens[1..], stop);
      assert tokens == [tokens[0]] + tokens[1..];
      if tokens[0] in stop then
        SubsequenceOfTail(rest, tokens[0], tokens[1..]);
        rest
      else
        assert ([tokens[0]] + rest)[1..] == rest;
        [tokens[0]] + rest
  }

  /**
   * Every token that is not a stop word is kept as often as it occurs, and
   * every stop word is dropped.
   */
  lemma {:induction false} RemoveStopWordsCounts(tokens: seq<string>, stop: set<string>)
    ensures forall w :: multiset(RemoveStopWords(tokens, stop))[w] == if w in stop then 0 else multiset(tokens)[w]
  {
    if tokens != [] {
      RemoveStopWordsCounts(tokens[1..], stop);
      assert tokens == [tokens[0]] + tokens[1..];
    }
  }

  /** `preprocess_text`: the tokens of the text, stop words removed, joined by single spaces. */
  function PreprocessText(text: string, stop: set<string>): string
  {
    Join(RemoveStopWords(Tokens(text), stop))
  }

  /**
   * Round trip: the tokens of the preprocessed text are exactly the tokens
   * of the original text that are not stop words, in order; the
   * preprocessed text is lower case.
   */
  lemma PreprocessTextTokens(text: string, stop: set<string>)
    ensures Tokens(PreprocessText(text, stop)) == RemoveStopWords(Tokens(text), stop)
    ensures IsLowerString(PreprocessText(text, stop))
  {
    var kept := RemoveStopWords(Tokens(text), stop);
    JoinIsLower(kept);
    LowerOfLowerString(Join(kept));
    TokenizeJoin(kept);
  }

  /** Removing stop words from a list that has none leaves it as it is. */
  lemma {:induction false} RemoveStopWordsNone(tokens: seq<string>, stop: set<string>)
    requires forall k :: 0 <= k < |tokens| ==> tokens[k] !in stop
    ensures RemoveStopWords(tokens, stop) == tokens
  {
    if tokens != [] {
      RemoveStopWordsNone(tokens[1..], stop);
    }
  }

  /** `preprocess_text(preprocess_text(s)) == preprocess_text(s)` */
  lemma PreprocessTextIdempotent(text: string, stop: set<string>)
    ensures PreprocessText(PreprocessText(text, stop), stop) == PreprocessText(text, stop)
  {
    var kept := RemoveStopWords(Tokens(text), stop);
    PreprocessTextTokens(text, stop);
    RemoveStopWordsNone(kept, stop);
  }

  // ---------------------------------------------------------------------
  // preprocess_metadata

  /**
   * The position of the first key whose entry has no text, or `|keys|` when
   * every entry has one. `data["text"]` fails there, after the entries
   * before it have already been updated.
   */
  function FirstMissingText(keys: seq<int>, entries: map<int, Entry>): (n: nat)
    requires KeysHaveEntries(keys, entries)
    ensures n <= |keys|
    ensures forall k :: 0 <= k < n ==> entries[keys[k]].text.Some?
    ensures n < |keys| ==> entries[keys[n]].text.None?
  {
    if keys == [] || entries[keys[0]].text.None? then 0
    else 1 + FirstMissingText(keys[1..], entries)
  }

  /** `preprocess_text` with the stop words fixed. */
  function Preprocessor(stop: set<string>): string -> string
  {
    t => PreprocessText(t, stop)
  }

  /** The entry with `preprocessed_text` set by `pre` from its text. */
  function Preprocessed(e: Entry, pre: string -> string): Entry
    requires e.text.Some?
  {
    e.(preprocessed := Some(pre(e.text.value)))
  }

  /** The entries after the first `n` keys have been preprocessed, in key order. */
  function PreprocessedUpTo(keys: seq<int>, entries: map<int, Entry>, n: nat, pre: string -> string): (r: map<int, Entry>)
    requires KeysHaveEntries(keys, entries)
    requires n <= FirstMissingText(keys, entries)
    ensures forall id :: id in r <==> id in entries
  {
    if n == 0 then entries
    else PreprocessedUpTo(keys, entries, n - 1, pre)[keys[n - 1] := Preprocessed(entries[keys[n - 1]], pre)]
  }

  /** After the first `n` keys have been processed, the later keys' entries are untouched. */
  lemma {:induction false} PreprocessedUpToKeepsLater(keys: seq<int>, entries: map<int, Entry>, n: nat, pre: string -> string)
    requires Distinct(keys)
    requires KeysHaveEntries(keys, entries)
    requires n <= FirstMissingText(keys, entries)
    ensures forall k :: n <= k < |keys| ==>
              PreprocessedUpTo(keys, entries, n, pre)[keys[k]] == entries[keys[k]]
  {
    if n > 0 {
      PreprocessedUpToKeepsLater(keys, entries, n - 1, pre);
      var prev := PreprocessedUpTo(keys, entries, n - 1, pre);
      var cur := PreprocessedUpTo(keys, entries, n, pre);
      forall k | n <= k < |keys|
        ensures cur[keys[k]] == entries[keys[k]]
      {
        assert keys[k] != keys[n - 1];
        assert cur[keys[k]] == prev[keys[k]];
      }
    }
  }

  /**
   * After the first `n` keys (all distinct) have been processed, each of
   * them holds its preprocessed entry and the later keys' entries are untouched.
   */
  lemma {:induction false} PreprocessedUpToSpec(keys: seq<int>, entries: map<int, Entry>, n: nat, pre: string -> string)
    requires Distinct(keys)
    requires KeysHaveEntries(keys, entries)
    requires n <= FirstMissingText(keys, entries)
    ensures forall k :: 0 <= k < n ==>
              PreprocessedUpTo(keys, entries, n, pre)[keys[k]] == Preprocessed(entries[keys[k]], pre)
    ensures forall k :: n <= k < |keys| ==>
              PreprocessedUpTo(keys, entries, n, pre)[keys[k]] == entries[keys[k]]
  {
    PreprocessedUpToKeepsLater(keys, entries, n, pre);
    if n > 0 {
      PreprocessedUpToSpec(keys, entries, n - 1, pre);
      var prev := PreprocessedUpTo(keys, entries, n - 1, pre);
      var cur := PreprocessedUpTo(keys, entries, n, pre);
      var last := keys[n - 1];
      forall k | 0 <= k < n - 1
        ensures cur[keys[k]] == prev[keys[k]]
      {
        assert keys[k] != last;
      }
    }
  }

  /**
   * When every entry of a consistent store has a text, the complete pass
   * leaves the ids, ratings and texts unchanged and gives every entry its
   * preprocessed text.
   */
  lemma PreprocessAll(keys: seq<int>, entries: map<int, Entry>, stop: set<string>)
    requires Distinct(keys)
    requires forall id :: id in entries <==> id in keys
    requires forall id :: id in entries ==> entries[id].text.Some?
    ensures KeysHaveEntries(keys, entries)
    ensures FirstMissingText(keys, entries) == |keys|
    ensures var result := PreprocessedUpTo(keys, entries, |keys|, Preprocessor(stop));
            && (forall id :: id in result <==> id in entries)
            && (forall id :: id in result ==>
                  && result[id].rating == entries[id].rating
                  && result[id].text == entries[id].text
                  && result[id].preprocessed == Some(PreprocessText(entries[id].text.value, stop)))
  {
    StoreKeysHaveEntries(keys, entries);
    assert forall k :: 0 <= k < |keys| ==> entries[keys[k]].text.Some?;
    PreprocessedUpToSpec(keys, entries, |keys|, Preprocessor(stop));
    var result := PreprocessedUpTo(keys, entries, |keys|, Preprocessor(stop));
    forall id | id in result
      ensures result[id].rating == entries[id].rating
      ensures result[id].text == entries[id].text
      ensures result[id].preprocessed == Some(PreprocessText(entries[id].text.value, stop))
    {
      assert id in keys;
      var k :| 0 <= k < |keys| && keys[k] == id;
    }
  }

  /**
   * One step of the pass: the next key's entry is still the original one;
   * without a text the pass stops there, otherwise the step preprocesses it.
   */
  lemma PreprocessStep(keys: seq<int>, entries: map<int, Entry>, i: nat, pre: string -> string)
    requires Distinct(keys) && KeysHaveEntries(keys, entries)
    requires i < |keys| && i <= FirstMissingText(keys, entries)
    ensures PreprocessedUpTo(keys, entries, i, pre)[keys[i]] == entries[keys[i]]
    ensures entries[keys[i]].text.None? ==> i == FirstMissingText(keys, entries)
    ensures entries[keys[i]].text.Some? ==>
              && i + 1 <= FirstMissingText(keys, entries)
              && PreprocessedUpTo(keys, entries, i + 1, pre) ==
                 PreprocessedUpTo(keys, entries, i, pre)[keys[i] := Preprocessed(entries[keys[i]], pre)]
  {
    PreprocessedUpToKeepsLater(keys, entries, i, pre);
  }

  /**
   * What the pass over `keys` leaves behind: it succeeds iff no entry lacks
   * a text, and the entries are those processed up to the first failure.
   */
  predicate PassOutcome(keys: seq<int>, before: map<int, Entry>, pre: string -> string, ok: bool, after: map<int, Entry>)
  {
    && KeysHaveEntries(keys, before)
    && (ok <==> FirstMissingText(keys, before) == |keys|)
    && after == PreprocessedUpTo(keys, before, FirstMissingText(keys, before), pre)
  }

  /**
   * `preprocess_metadata`: preprocesses the entries in key order, in place.
   * The result is false when an entry has no text: the pass stops there,
   * with the entries before it already updated.
   */
  method PreprocessMetadata(md: ReviewMetadata, stop: set<string>) returns (ok: bool)
    requires md.Valid()
    modifies md
    ensures md.Valid() && md.keys == old(md.keys)
    ensures PassOutcome(md.keys, old(md.entries), Preprocessor(stop), ok, md.entries)
  {
    var keys := md.keys;
    ghost var entries := md.entries;
    StoreKeysHaveEntries(keys, entries);
    ghost var stopAt := FirstMissingText(keys, entries);
    var pre := Preprocessor(stop);
    var i := 0;
    while i < |keys|
      invariant i <= stopAt
      invariant md.Valid() && md.keys == keys
      invariant md.entries == PreprocessedUpTo(keys, entries, i, pre)
    {
      PreprocessStep(keys, entries, i, pre);
      assert keys[i] in entries;
      var e := md.entries[keys[i]];
      if e.text.None? {
        return false;
      }
      md.Put(keys[i], Preprocessed(e, pre));
      i := i + 1;
    }
    return true;
  }

  // ---------------------------------------------------------------------
  // filter_results_with_classifier

  /** Every result id has an entry. */
  predicate IdsHaveEntries(ids: seq<int>, entries: map<int, Entry>)
  {
    forall k :: 0 <= k < |ids| ==> ids[k] in entries
  }

  /** The positions of the result ids whose entry has a preprocessed text. */
  function TextPositions(ids: seq<int>, entries: map<int, Entry>): set<int>
    requires IdsHaveEntries(ids, entries)
  {
    set k | 0 <= k < |ids| && entries[ids[k]].preprocessed.Some?
  }

  /** Some result id's entry has `t` as its preprocessed text. */
  predicate TextOfSome(ids: seq<int>, entries: map<int, Entry>, t: string)
    requires IdsHaveEntries(ids, entries)
  {
    exists k :: 0 <= k < |ids| && entries[ids[k]].preprocessed == Some(t)
  }

  /** Shifting a set of integers by one keeps its size. */
  lemma {:induction false} ShiftedSize(a: set<int>)
    ensures |set k | k in a :: k + 1| == |a|
    decreases |a|
  {
    if a != {} {
      var x := Element(a);
      ShiftedSize(a - {x});
      var shifted, rest := set k | k in a :: k + 1, set k | k in a - {x} :: k + 1;
      assert shifted == rest + {x + 1} by {
        forall y | y in shifted
          ensures y in rest + {x + 1}
        {
          assert y - 1 in a;
          if y - 1 != x {
            assert y - 1 in a - {x};
          }
        }
      }
      assert x + 1 !in rest;
    }
  }

  /** The result ids after the first still have entries. */
  lemma TailHasEntries(ids: seq<int>, entries: map<int, Entry>)
    requires ids != [] && IdsHaveEntries(ids, entries)
    ensures IdsHaveEntries(ids[1..], entries)
  {
    forall k | 0 <= k < |ids[1..]|
      ensures ids[1..][k] in entries
    {
      assert ids[1..][k] == ids[k + 1];
    }
  }

  /** The positions of `ids` with a text are those of `ids[1..]`, shifted, and maybe 0. */
  lemma TextPositionsShift(ids: seq<int>, entries: map<int, Entry>)
    requires ids != [] && IdsHaveEntries(ids, entries)
    ensures IdsHaveEntries(ids[1..], entries)
    ensures TextPositions(ids, entries) ==
            (set k | k in TextPositions(ids[1..], entries) :: k + 1) +
            (if entries[ids[0]].preprocessed.Some? then {0} else {})
  {
    TailHasEntries(ids, entries);
    var rest := TextPositions(ids[1..], entries);
    var shifted := set k | k in rest :: k + 1;
    var head: set<int> := if entries[ids[0]].preprocessed.Some? then {0} else {};
    forall k | k in TextPositions(ids, entries)
      ensures k in shifted + head
    {
      if k > 0 {
        assert ids[1..][k - 1] == ids[k];
        assert k - 1 in rest;
      }
    }
    forall k | k in shifted
      ensures k in TextPositions(ids, entries)
    {
      var j :| j in rest && k == j + 1;
      assert ids[1..][j] == ids[k];
    }
  }

  /** Counting the positions with a text from the front. */
  lemma TextPositionsFront(ids: seq<int>, entries: map<int, Entry>)
    requires ids != [] && IdsHaveEntries(ids, entries)
    ensures IdsHaveEntries(ids[1..], entries)
    ensures |TextPositions(ids, entries)| ==
            |TextPositions(ids[1..], entries)| + (if entries[ids[0]].preprocessed.Some? then 1 else 0)
  {
    TextPositionsShift(ids, entries);
    var rest := TextPositions(ids[1..], entries);
    var shifted := set k | k in rest :: k + 1;
    ShiftedSize(rest);
    assert 0 !in shifted;
  }

  /**
   * The preprocessed texts of the result ids that have one, in result
   * order: one text per such id, and every text is the preprocessed text
   * of some result id.
   */
  function ReviewTexts(ids: seq<int>, entries: map<int, Entry>): (r: seq<string>)
    requires IdsHaveEntries(ids, entries)
    ensures |r| == |TextPositions(ids, entries)| <= |ids|
    ensures forall t :: t in r <==> TextOfSome(ids, entries, t)
  {
    if ids == [] then
      assert TextPositions(ids, entries) == {};
      []
    else
      TextPositionsFront(ids, entries);
      var rest := ReviewTexts(ids[1..], entries);
      var e := entries[ids[0]];
      assert forall t :: TextOfSome(ids, entries, t) <==>
                         e.preprocessed == Some(t) || TextOfSome(ids[1..], entries, t) by {
        forall t | TextOfSome(ids[1..], entries, t)
          ensures TextOfSome(ids, entries, t)
        {
          var k :| 0 <= k < |ids[1..]| && entries[ids[1..][k]].preprocessed == Some(t);
          assert ids[k + 1] == ids[1..][k];
        }
        forall t | TextOfSome(ids, entries, t) && e.preprocessed != Some(t)
          ensures TextOfSome(ids[1..], entries, t)
        {
          var k :| 0 <= k < |ids| && entries[ids[k]].preprocessed == Some(t);
          assert ids[1..][k - 1] == ids[k];
        }
        if e.preprocessed.Some? {
          assert TextOfSome(ids, entries, e.preprocessed.value) by {
            assert entries[ids[0]].preprocessed == Some(e.preprocessed.value);
          }
        }
      }
      (if e.preprocessed.Some? then [e.preprocessed.value] else []) + rest
  }

  /**
   * Where a result id's text lands: the preprocessed text of `ids[j]` sits
   * in the text list right after the texts of the ids before it.
   */
  lemma {:induction false} ReviewTextsAt(ids: seq<int>, entries: map<int, Entry>, j: int)
    requires IdsHaveEntries(ids, entries)
    requires 0 <= j < |ids| && entries[ids[j]].preprocessed.Some?
    ensures IdsHaveEntries(ids[..j], entries)
    ensures |ReviewTexts(ids[..j], entries)| < |ReviewTexts(ids, entries)|
    ensures ReviewTexts(ids, entries)[|ReviewTexts(ids[..j], entries)|] == entries[ids[j]].preprocessed.value
  {
    assert IdsHaveEntries(ids[..j], entries) by {
      forall k | 0 <= k < |ids[..j]|
        ensures ids[..j][k] in entries
      {
        assert ids[..j][k] == ids[k];
      }
    }
    TailHasEntries(ids, entries);
    if j > 0 {
      assert ids[1..][j - 1] == ids[j];
      ReviewTextsAt(ids[1..], entries, j - 1);
      assert ids[..j][1..] == ids[1..][..j - 1];
    }
  }

  /** One prediction per text. */
  function Predictions(predict: string -> int, texts: seq<string>): (r: seq<int>)
    ensures |r| == |texts|
    ensures forall k :: 0 <= k < |texts| ==> r[k] == predict(texts[k])
  {
    seq(|texts|, k requires 0 <= k < |texts| => predict(texts[k]))
  }

  /** The kept polarity: 1 when positivity is requested, 0 otherwise. */
  predicate Wanted(sentiment: int, positivity: bool)
  {
    (positivity && sentiment == 1) || (!positivity && sentiment == 0)
  }

  /** Some position `k` pairs the id `x` with a wanted sentiment. */
  predicate PairedWanted(ids: seq<int>, sentiments: seq<int>, x: int, positivity: bool)
  {
    exists k :: 0 <= k < |ids| && k < |sentiments| && ids[k] == x && Wanted(sentiments[k], positivity)
  }

  /** `[ID for ID, s in zip(ids, sentiments) if Wanted(s)]`: zip stops at the shorter list. */
  function ZipSelect(ids: seq<int>, sentiments: seq<int>, positivity: bool): (r: seq<int>)
    ensures IsSubsequence(r, ids)
    ensures |r| <= |sentiments|
    ensures forall x :: x in r <==> PairedWanted(ids, sentiments, x, positivity)
  {
    if ids == [] || sentiments == [] then []
    else
      var rest := ZipSelect(ids[1..], sentiments[1..], positivity);
      assert ids == [ids[0]] + ids[1..];
      assert forall x :: PairedWanted(ids[1..], sentiments[1..], x, positivity) ==> PairedWanted(ids, sentiments, x, positivity) by {
        forall x | PairedWanted(ids[1..], sentiments[1..], x, positivity)
          ensures PairedWanted(ids, sentiments, x, positivity)
        {
          var k :| 0 <= k < |ids[1..]| && k < |sentiments[1..]| && ids[1..][k] == x && Wanted(sentiments[1..][k], positivity);
          assert ids[k + 1] == x && sentiments[k + 1] == sentiments[1..][k];
        }
      }
      assert forall x :: PairedWanted(ids, sentiments, x, positivity) ==>
        (x == ids[0] && Wanted(sentiments[0], positivity)) || PairedWanted(ids[1..], sentiments[1..], x, positivity) by {
        forall x | PairedWanted(ids, sentiments, x, positivity) && !(x == ids[0] && Wanted(sentiments[0], positivity))
          ensures PairedWanted(ids[1..], sentiments[1..], x, positivity)
        {
          var k :| 0 <= k < |ids| && k < |sentiments| && ids[k] == x && Wanted(sentiments[k], positivity);
          assert ids[1..][k - 1] == x && sentiments[1..][k - 1] == sentiments[k];
        }
      }
      if Wanted(sentiments[0], positivity) then
        assert PairedWanted(ids, sentiments, ids[0], positivity) by {
          assert ids[0] == ids[0];
        }
        assert ([ids[0]] + rest)[1..] == rest;
        [ids[0]] + rest
      else
        SubsequenceOfTail(rest, ids[0], ids[1..]);
        rest
  }

  /**
   * `filter_results_with_classifier` as written: the k-th prediction, made
   * for the k-th id that has a preprocessed text, decides whether the k-th
   * result id is kept. `None` is the KeyError of an id without an entry.
   */
  function FilterResultsWithClassifier(predict: string -> int, ids: seq<int>, entries: map<int, Entry>, positivity: bool): (r: Option<seq<int>>)
    ensures r.None? <==> exists k :: 0 <= k < |ids| && ids[k] !in entries
    ensures r.Some? ==>
              var sentiments := Predictions(predict, ReviewTexts(ids, entries));
              && IsSubsequence(r.value, ids)
              && |r.value| <= |ReviewTexts(ids, entries)|
              && forall x :: x in r.value <==> PairedWanted(ids, sentiments, x, positivity)
  {
    if !IdsHaveEntries(ids, entries) then None
    else Some(ZipSelect(ids, Predictions(predict, ReviewTexts(ids, entries)), positivity))
  }

  /**
   * The shift of the filter as written: with `k` the number of texts of the
   * ids before `ids[j]`, the prediction for `ids[j]`'s text is the `k`-th
   * one, so it decides about `ids[k]`, which is kept when that prediction
   * is the wanted one.
   */
  lemma FilterJudgesShifted(predict: string -> int, ids: seq<int>, entries: map<int, Entry>, positivity: bool, j: int)
    requires IdsHaveEntries(ids, entries)
    requires 0 <= j < |ids| && entries[ids[j]].preprocessed.Some?
    ensures IdsHaveEntries(ids[..j], entries)
    ensures var k := |ReviewTexts(ids[..j], entries)|;
            var sentiments := Predictions(predict, ReviewTexts(ids, entries));
            && k <= j
            && k < |sentiments|
            && sentiments[k] == predict(entries[ids[j]].preprocessed.value)
            && (Wanted(sentiments[k], positivity) ==> ids[k] in FilterResultsWithClassifier(predict, ids, entries, positivity).value)
  {
    ReviewTextsAt(ids, entries, j);
    var k := |ReviewTexts(ids[..j], entries)|;
    var sentiments := Predictions(predict, ReviewTexts(ids, entries));
    assert k <= j;
    if Wanted(sentiments[k], positivity) {
      assert PairedWanted(ids, sentiments, ids[k], positivity);
    }
  }

  /** The ids that have a preprocessed text whose own prediction is the wanted one, in result order. */
  function KeepAligned(predict: string -> int, ids: seq<int>, entries: map<int, Entry>, positivity: bool): (r: seq<int>)
    requires IdsHaveEntries(ids, entries)
    ensures IsSubsequence(r, ids)
    ensures forall x :: x in r <==>
              x in ids && entries[x].preprocessed.Some? && Wanted(predict(entries[x].preprocessed.value), positivity)
  {
    if ids == [] then []
    else
      var e := entries[ids[0]];
      assert forall x :: x in ids <==> x == ids[0] || x in ids[1..] by {
        assert ids == [ids[0]] + ids[1..];
      }
      var rest := KeepAligned(predict, ids[1..], entries, positivity);
      if e.preprocessed.Some? && Wanted(predict(e.preprocessed.value), positivity) then
        assert ([ids[0]] + rest)[1..] == rest;
        [ids[0]] + rest
      else
        SubsequenceOfTail(rest, ids[0], ids[1..]);
        rest
  }

  /** The intended filter: every id is judged by the prediction for its own text. */
  function AlignedFilter(predict: string -> int, ids: seq<int>, entries: map<int, Entry>, positivity: bool): (r: Option<seq<int>>)
    ensures r.None? <==> exists k :: 0 <= k < |ids| && ids[k] !in entries
    ensures r.Some? ==>
              && IsSubsequence(r.value, ids)
              && forall x :: x in r.value <==>
                   x in ids && entries[x].preprocessed.Some? && Wanted(predict(entries[x].preprocessed.value), positivity)
  {
    if !IdsHaveEntries(ids, entries) then None
    else Some(KeepAligned(predict, ids, entries, positivity))
  }

  /** Every result id has an entry with a preprocessed text. */
  predicate AllPreprocessed(ids: seq<int>, entries: map<int, Entry>)
  {
    forall k :: 0 <= k < |ids| ==> ids[k] in entries && entries[ids[k]].preprocessed.Some?
  }

  lemma {:induction false} ZipSelectAligned(predict: string -> int, ids: seq<int>, entries: map<int, Entry>, positivity: bool)
    requires AllPreprocessed(ids, entries)
    ensures IdsHaveEntries(ids, entries)
    ensures ZipSelect(ids, Predictions(predict, ReviewTexts(ids, entries)), positivity) ==
            KeepAligned(predict, ids, entries, positivity)
  {
    if ids != [] {
      assert AllPreprocessed(ids[1..], entries) by {
        forall k | 0 <= k < |ids[1..]|
          ensures ids[1..][k] in entries && entries[ids[1..][k]].preprocessed.Some?
        {
          assert ids[1..][k] == ids[k + 1];
        }
      }
      ZipSelectAligned(predict, ids[1..], entries, positivity);
      var texts := ReviewTexts(ids, entries);
      assert texts == [entries[ids[0]].preprocessed.value] + ReviewTexts(ids[1..], entries);
      assert Predictions(predict, texts)[1..] == Predictions(predict, ReviewTexts(ids[1..], entries));
    }
  }

  /**
   * When every result id has a preprocessed text the filter as written is
   * the aligned one: an id is kept exactly when the prediction for its own
   * text is the wanted one.
   */
  lemma FilterAlignedWhenAllPreprocessed(predict: string -> int, ids: seq<int>, entries: map<int, Entry>, positivity: bool)
    requires AllPreprocessed(ids, entries)
    ensures FilterResultsWithClassifier(predict, ids, entries, positivity) == AlignedFilter(predict, ids, entries, positivity)
    ensures FilterResultsWithClassifier(predict, ids, entries, positivity).Some?
  {
    ZipSelectAligned(predict, ids, entries, positivity);
  }

  lemma {:induction false} KeepAlignedPartition(predict: string -> int, ids: seq<int>, entries: map<int, Entry>)
    requires AllPreprocessed(ids, entries)
    requires forall t :: predict(t) == 0 || predict(t) == 1
    ensures IdsHaveEntries(ids, entries)
    ensures multiset(KeepAligned(predict, ids, entries, true)) + multiset(KeepAligned(predict, ids, entries, false)) == multiset(ids)
  {
    if ids != [] {
      assert AllPreprocessed(ids[1..], entries) by {
        forall k | 0 <= k < |ids[1..]|
          ensures ids[1..][k] in entries && entries[ids[1..][k]].preprocessed.Some?
        {
          assert ids[1..][k] == ids[k + 1];
        }
      }
      KeepAlignedPartition(predict, ids[1..], entries);
      var pos, neg := KeepAligned(predict, ids[1..], entries, true), KeepAligned(predict, ids[1..], entries, false);
      var sentiment := predict(entries[ids[0]].preprocessed.value);
      if sentiment == 1 {
        assert KeepAligned(predict, ids, entries, true) == [ids[0]] + pos;
        assert KeepAligned(predict, ids, entries, false) == neg;
      } else {
        assert KeepAligned(predict, ids, entries, true) == pos;
        assert KeepAligned(predict, ids, entries, false) == [ids[0]] + neg;
      }
      ConsPartition(ids, pos, neg, KeepAligned(predict, ids, entries, true), KeepAligned(predict, ids, entries, false));
    }
  }

  /** Putting the first id on one side keeps a partition of the tail a partition of the whole. */
  lemma ConsPartition(ids: seq<int>, pos: seq<int>, neg: seq<int>, pos': seq<int>, neg': seq<int>)
    requires ids != [] && multiset(pos) + multiset(neg) == multiset(ids[1..])
    requires (pos' == [ids[0]] + pos && neg' == neg) || (pos' == pos && neg' == [ids[0]] + neg)
    ensures multiset(pos') + multiset(neg') == multiset(ids)
  {
    assert ids == [ids[0]] + ids[1..];
  }

  /**
   * With binary predictions and every result id preprocessed, the positive
   * and the negative filter results are disjoint and together are
   * `result_ids`, counting repetitions.
   */
  lemma PolarityPartition(predict: string -> int, ids: seq<int>, entries: map<int, Entry>)
    requires AllPreprocessed(ids, entries)
    requires forall t :: predict(t) == 0 || predict(t) == 1
    ensures var pos := FilterResultsWithClassifier(predict, ids, entries, true);
            var neg := FilterResultsWithClassifier(predict, ids, entries, false);
            && pos.Some? && neg.Some?
            && multiset(pos.value) + multiset(neg.value) == multiset(ids)
            && forall x :: !(x in pos.value && x in neg.value)
  {
    FilterAlignedWhenAllPreprocessed(predict, ids, entries, true);
    FilterAlignedWhenAllPreprocessed(predict, ids, entries, false);
    KeepAlignedPartition(predict, ids, entries);
  }

  lemma {:induction false} ZipSelectPrefix(ids: seq<int>, sentiments: seq<int>, positivity: bool)
    requires |sentiments| <= |ids|
    ensures ZipSelect(ids, sentiments, positivity) == ZipSelect(ids[..|sentiments|], sentiments, positivity)
  {
    if sentiments != [] {
      ZipSelectPrefix(ids[1..], sentiments[1..], positivity);
      assert ids[..|sentiments|][1..] == ids[1..][..|sentiments| - 1];
    }
  }

  /** Fewer texts than ids when some id lacks a preprocessed text. */
  lemma {:induction false} ReviewTextsShorter(ids: seq<int>, entries: map<int, Entry>, j: int)
    requires IdsHaveEntries(ids, entries)
    requires 0 <= j < |ids| && entries[ids[j]].preprocessed.None?
    ensures |ReviewTexts(ids, entries)| < |ids|
  {
    assert IdsHaveEntries(ids[1..], entries) by {
      forall k | 0 <= k < |ids[1..]|
        ensures ids[1..][k] in entries
      {
        assert ids[1..][k] == ids[k + 1];
      }
    }
    if j > 0 {
      assert ids[1..][j - 1] == ids[j];
      ReviewTextsShorter(ids[1..], entries, j - 1);
    }
  }

  /**
   * When some result id lacks a preprocessed text, the filter as written
   * can only return ids from the first `|texts|` positions: `zip` drops the
   * tail of `result_ids`, and the predictions of later texts move onto
   * earlier ids.
   */
  lemma FilterTruncatedWhenSomeMissing(predict: string -> int, ids: seq<int>, entries: map<int, Entry>, positivity: bool, j: int)
    requires IdsHaveEntries(ids, entries)
    requires 0 <= j < |ids| && entries[ids[j]].preprocessed.None?
    ensures var n := |ReviewTexts(ids, entries)|;
            && n < |ids|
            && IsSubsequence(FilterResultsWithClassifier(predict, ids, entries, positivity).value, ids[..n])
  {
    ReviewTextsShorter(ids, entries, j);
    ZipSelectPrefix(ids, Predictions(predict, ReviewTexts(ids, entries)), positivity);
  }

  /** A predictor for the example below: positive exactly for the text "great". */
  function GreatIsPositive(t: string): int
  {
    if t == "great" then 1 else 0
  }

  /**
   * A concrete misalignment: review 7 has no preprocessed text, review 8's
   * text is predicted positive. Asked for positive reviews, the filter as
   * written pairs review 7 with review 8's prediction and keeps 7; the
   * aligned filter keeps 8.
   */
  lemma MisalignmentExample()
    ensures var entries := map[7 := Entry(Some(5), Some("meh"), None),
                               8 := Entry(Some(5), Some("great"), Some("great"))];
            && FilterResultsWithClassifier(GreatIsPositive, [7, 8], entries, true) == Some([7])
            && AlignedFilter(GreatIsPositive, [7, 8], entries, true) == Some([8])
  {
    var entries := map[7 := Entry(Some(5), Some("meh"), None),
                       8 := Entry(Some(5), Some("great"), Some("great"))];
    var ids := [7, 8];
    assert ids[1..] == [8];
    assert ReviewTexts([8], entries) == ["great"];
    assert ReviewTexts(ids, entries) == ["great"];
    assert Predictions(GreatIsPositive, ["great"]) == [1];
    assert ZipSelect(ids, [1], true) == [7];
    assert KeepAligned(GreatIsPositive, [8], entries, true) == [8];
    assert KeepAligned(GreatIsPositive, ids, entries, true) == [8];
  }
}

/**
 * The three boolean combinators over the review frame (`method1`, `method2`,
 * `method3`) and the query step of the command line: case-insensitive
 * choice of the combinator and the name of the result file.
 *
 * A term matches a review when its lower-cased form occurs in the
 * lower-cased review text (`Series.str.contains(term, case=False)`), the
 * term taken as a literal string.
 */
module BooleanSearch {
  import opened Options
  import opened Tokenizer
  import opened Sequences
  import Reviews
  import PostingsListGenerator

  /** The review frame as the search sees it: (row index, `review_text`) per row, in frame order. */
  type Frame = seq<(int, string)>

  /** `text` contains `term`, ignoring case. */
  predicate ContainsTerm(text: string, term: string)
  {
    Contains(Lower(text), Lower(term))
  }

  /** The mask of `method1` (any term), `method2` (all terms) and `method3` (either aspect, and the opinion). */
  datatype Combinator = AnyTerm | AllTerms | AspectAndOpinion

  predicate Matches(c: Combinator, text: string, aspect1: string, aspect2: string, opinion: string)
  {
    match c
    case AnyTerm =>
      ContainsTerm(text, aspect1) || ContainsTerm(text, aspect2) || ContainsTerm(text, opinion)
    case AllTerms =>
      ContainsTerm(text, aspect1) && ContainsTerm(text, aspect2) && ContainsTerm(text, opinion)
    case AspectAndOpinion =>
      (ContainsTerm(text, aspect1) || ContainsTerm(text, aspect2)) && ContainsTerm(text, opinion)
  }

  /** The row indices of the frame, in frame order (`review_df.index`). */
  function RowIds(frame: Frame): (ids: seq<int>)
    ensures |ids| == |frame|
  {
    seq(|frame|, k requires 0 <= k < |frame| => frame[k].0)
  }

  /** Some row with index `x` satisfies the mask. */
  predicate Hit(frame: Frame, x: int, c: Combinator, aspect1: string, aspect2: string, opinion: string)
  {
    exists k | 0 <= k < |frame| :: frame[k].0 == x && Matches(c, frame[k].1, aspect1, aspect2, opinion)
  }

  /**
   * `review_df[mask].index.tolist()`: the indices of the rows the mask
   * selects, in frame order.
   */
  function Select(frame: Frame, c: Combinator, aspect1: string, aspect2: string, opinion: string): (r: seq<int>)
    ensures forall x :: x in r <==> Hit(frame, x, c, aspect1, aspect2, opinion)
    ensures IsSubsequence(r, RowIds(frame))
  {
    if frame == [] then []
    else
      var rest := Select(frame[1..], c, aspect1, aspect2, opinion);
      assert RowIds(frame)[1..] == RowIds(frame[1..]);
      assert forall x :: Hit(frame[1..], x, c, aspect1, aspect2, opinion) ==> Hit(frame, x, c, aspect1, aspect2, opinion) by {
        forall x | Hit(frame[1..], x, c, aspect1, aspect2, opinion)
          ensures Hit(frame, x, c, aspect1, aspect2, opinion)
        {
          var k :| 0 <= k < |frame[1..]| && frame[1..][k].0 == x && Matches(c, frame[1..][k].1, aspect1, aspect2, opinion);
          assert frame[k + 1] == frame[1..][k];
        }
      }
      assert forall x :: Hit(frame, x, c, aspect1, aspect2, opinion) ==>
        (x == frame[0].0 && Matches(c, frame[0].1, aspect1, aspect2, opinion)) || Hit(frame[1..], x, c, aspect1, aspect2, opinion) by {
        forall x | Hit(frame, x, c, aspect1, aspect2, opinion) && !(x == frame[0].0 && Matches(c, frame[0].1, aspect1, aspect2, opinion))
          ensures Hit(frame[1..], x, c, aspect1, aspect2, opinion)
        {
          var k :| 0 <= k < |frame| && frame[k].0 == x && Matches(c, frame[k].1, aspect1, aspect2, opinion);
          assert frame[1..][k - 1] == frame[k];
        }
      }
      if Matches(c, frame[0].1, aspect1, aspect2, opinion) then
        assert Hit(frame, frame[0].0, c, aspect1, aspect2, opinion) by {
          assert frame[0].0 == frame[0].0;
        }
        [frame[0].0] + rest
      else
        rest
  }

  /**
   * Selection works row by row: the result over two frames one after the
   * other is the result over the first followed by the result over the
   * second, so an index repeated on several matching rows is listed once
   * per row.
   */
  lemma {:induction false} SelectAppend(f: Frame, g: Frame, c: Combinator, aspect1: string, aspect2: string, opinion: string)
    ensures Select(f + g, c, aspect1, aspect2, opinion) == Select(f, c, aspect1, aspect2, opinion) + Select(g, c, aspect1, aspect2, opinion)
    decreases |f|
  {
    if f != [] {
      assert (f + g)[0] == f[0] && (f + g)[1..] == f[1..] + g;
      SelectAppend(f[1..], g, c, aspect1, aspect2, opinion);
    } else {
      assert f + g == g;
    }
  }

  /** One row is listed once if the mask selects it and not at all otherwise. */
  lemma SelectRow(row: (int, string), c: Combinator, aspect1: string, aspect2: string, opinion: string)
    ensures Select([row], c, aspect1, aspect2, opinion) == if Matches(c, row.1, aspect1, aspect2, opinion) then [row.0] else []
  {
    assert [row][1..] == [];
  }

  /** `method1`: the rows whose text contains aspect1, aspect2 or the opinion. */
  function Method1(frame: Frame, aspect1: string, aspect2: string, opinion: string): (r: seq<int>)
    ensures forall x :: x in r <==>
      exists k | 0 <= k < |frame| :: frame[k].0 == x &&
        (ContainsTerm(frame[k].1, aspect1) || ContainsTerm(frame[k].1, aspect2) || ContainsTerm(frame[k].1, opinion))
    ensures IsSubsequence(r, RowIds(frame))
  {
    Select(frame, AnyTerm, aspect1, aspect2, opinion)
  }

  /** `method2`: the rows whose text contains aspect1, aspect2 and the opinion. */
  function Method2(frame: Frame, aspect1: string, aspect2: string, opinion: string): (r: seq<int>)
    ensures forall x :: x in r <==>
      exists k | 0 <= k < |frame| :: frame[k].0 == x &&
        ContainsTerm(frame[k].1, aspect1) && ContainsTerm(frame[k].1, aspect2) && ContainsTerm(frame[k].1, opinion)
    ensures IsSubsequence(r, RowIds(frame))
  {
    Select(frame, AllTerms, aspect1, aspect2, opinion)
  }

  /** `method3`: the rows whose text contains aspect1 or aspect2, and the opinion. */
  function Method3(frame: Frame, aspect1: string, aspect2: string, opinion: string): (r: seq<int>)
    ensures forall x :: x in r <==>
      exists k | 0 <= k < |frame| :: frame[k].0 == x &&
        (ContainsTerm(frame[k].1, aspect1) || ContainsTerm(frame[k].1, aspect2)) && ContainsTerm(frame[k].1, opinion)
    ensures IsSubsequence(r, RowIds(frame))
  {
    Select(frame, AspectAndOpinion, aspect1, aspect2, opinion)
  }

  /** Each of `method1`–`method3` over two frames is its result over the first followed by its result over the second. */
  lemma MethodsAppend(f: Frame, g: Frame, aspect1: string, aspect2: string, opinion: string)
    ensures Method1(f + g, aspect1, aspect2, opinion) == Method1(f, aspect1, aspect2, opinion) + Method1(g, aspect1, aspect2, opinion)
    ensures Method2(f + g, aspect1, aspect2, opinion) == Method2(f, aspect1, aspect2, opinion) + Method2(g, aspect1, aspect2, opinion)
    ensures Method3(f + g, aspect1, aspect2, opinion) == Method3(f, aspect1, aspect2, opinion) + Method3(g, aspect1, aspect2, opinion)
  {
    SelectAppend(f, g, AnyTerm, aspect1, aspect2, opinion);
    SelectAppend(f, g, AllTerms, aspect1, aspect2, opinion);
    SelectAppend(f, g, AspectAndOpinion, aspect1, aspect2, opinion);
  }

  /** On one row each method lists the row's index once when its condition holds, and nothing otherwise. */
  lemma MethodsOnRow(row: (int, string), aspect1: string, aspect2: string, opinion: string)
    ensures var t := row.1;
            Method1([row], aspect1, aspect2, opinion) ==
              if ContainsTerm(t, aspect1) || ContainsTerm(t, aspect2) || ContainsTerm(t, opinion) then [row.0] else []
    ensures var t := row.1;
            Method2([row], aspect1, aspect2, opinion) ==
              if ContainsTerm(t, aspect1) && ContainsTerm(t, aspect2) && ContainsTerm(t, opinion) then [row.0] else []
    ensures var t := row.1;
            Method3([row], aspect1, aspect2, opinion) ==
              if (ContainsTerm(t, aspect1) || ContainsTerm(t, aspect2)) && ContainsTerm(t, opinion) then [row.0] else []
  {
    SelectRow(row, AnyTerm, aspect1, aspect2, opinion);
    SelectRow(row, AllTerms, aspect1, aspect2, opinion);
    SelectRow(row, AspectAndOpinion, aspect1, aspect2, opinion);
  }

  // ---------------------------------------------------------------------
  // Relations between the combinators

  /**
   * A mask that selects no more rows than another gives a subsequence of
   * the other's result.
   */
  lemma {:induction false} SelectMonotone(frame: Frame, c1: Combinator, c2: Combinator,
                                          aspect1: string, aspect2: string, opinion: string)
    requires forall t :: Matches(c1, t, aspect1, aspect2, opinion) ==> Matches(c2, t, aspect1, aspect2, opinion)
    ensures IsSubsequence(Select(frame, c1, aspect1, aspect2, opinion), Select(frame, c2, aspect1, aspect2, opinion))
  {
    if frame != [] {
      SelectMonotone(frame[1..], c1, c2, aspect1, aspect2, opinion);
      var r1 := Select(frame[1..], c1, aspect1, aspect2, opinion);
      var r2 := Select(frame[1..], c2, aspect1, aspect2, opinion);
      var x := frame[0].0;
      if Matches(c1, frame[0].1, aspect1, aspect2, opinion) {
        assert ([x] + r1)[1..] == r1 && ([x] + r2)[1..] == r2;
      } else if Matches(c2, frame[0].1, aspect1, aspect2, opinion) {
        SubsequenceOfTail(r1, x, r2);
      }
    }
  }

  /** Two masks that agree on every text select the same rows. */
  lemma {:induction false} SelectAgree(frame: Frame, c1: Combinator, a1: string, a2: string, o: string,
                                       c2: Combinator, b1: string, b2: string, p: string)
    requires forall t :: Matches(c1, t, a1, a2, o) <==> Matches(c2, t, b1, b2, p)
    ensures Select(frame, c1, a1, a2, o) == Select(frame, c2, b1, b2, p)
  {
    if frame != [] {
      SelectAgree(frame[1..], c1, a1, a2, o, c2, b1, b2, p);
    }
  }

  /** `method2` ⊆ `method3` ⊆ `method1`, each a subsequence of the next. */
  lemma StrictWithinMixedWithinBroad(frame: Frame, aspect1: string, aspect2: string, opinion: string)
    ensures IsSubsequence(Method2(frame, aspect1, aspect2, opinion), Method3(frame, aspect1, aspect2, opinion))
    ensures IsSubsequence(Method3(frame, aspect1, aspect2, opinion), Method1(frame, aspect1, aspect2, opinion))
  {
    SelectMonotone(frame, AllTerms, AspectAndOpinion, aspect1, aspect2, opinion);
    SelectMonotone(frame, AspectAndOpinion, AnyTerm, aspect1, aspect2, opinion);
  }

  /**
   * `method1` and `method2` do not depend on the order of the three terms
   * (the two swaps generate every permutation); `method3` does not depend on
   * the order of the two aspects.
   */
  lemma TermOrderIrrelevant(frame: Frame, aspect1: string, aspect2: string, opinion: string)
    ensures Method1(frame, aspect1, aspect2, opinion) == Method1(frame, aspect2, aspect1, opinion)
    ensures Method1(frame, aspect1, aspect2, opinion) == Method1(frame, aspect1, opinion, aspect2)
    ensures Method2(frame, aspect1, aspect2, opinion) == Method2(frame, aspect2, aspect1, opinion)
    ensures Method2(frame, aspect1, aspect2, opinion) == Method2(frame, aspect1, opinion, aspect2)
    ensures Method3(frame, aspect1, aspect2, opinion) == Method3(frame, aspect2, aspect1, opinion)
  {
    SelectAgree(frame, AnyTerm, aspect1, aspect2, opinion, AnyTerm, aspect2, aspect1, opinion);
    SelectAgree(frame, AnyTerm, aspect1, aspect2, opinion, AnyTerm, aspect1, opinion, aspect2);
    SelectAgree(frame, AllTerms, aspect1, aspect2, opinion, AllTerms, aspect2, aspect1, opinion);
    SelectAgree(frame, AllTerms, aspect1, aspect2, opinion, AllTerms, aspect1, opinion, aspect2);
    SelectAgree(frame, AspectAndOpinion, aspect1, aspect2, opinion, AspectAndOpinion, aspect2, aspect1, opinion);
  }

  /** A homogeneous query (one term three times) gives the same rows under all three combinators. */
  lemma HomogeneousQueryCoincides(frame: Frame, term: string)
    ensures Method1(frame, term, term, term) == Method2(frame, term, term, term)
    ensures Method2(frame, term, term, term) == Method3(frame, term, term, term)
  {
    SelectAgree(frame, AnyTerm, term, term, term, AllTerms, term, term, term);
    SelectAgree(frame, AllTerms, term, term, term, AspectAndOpinion, term, term, term);
  }

  /**
   * When the frame's index is strictly ascending (so without repeats), so is
   * every result.
   */
  lemma ResultsAscending(frame: Frame, aspect1: string, aspect2: string, opinion: string)
    requires IdsAscending(RowIds(frame))
    ensures IdsAscending(Method1(frame, aspect1, aspect2, opinion))
    ensures IdsAscending(Method2(frame, aspect1, aspect2, opinion))
    ensures IdsAscending(Method3(frame, aspect1, aspect2, opinion))
  {
    SubsequenceAscending(Method1(frame, aspect1, aspect2, opinion), RowIds(frame));
    SubsequenceAscending(Method2(frame, aspect1, aspect2, opinion), RowIds(frame));
    SubsequenceAscending(Method3(frame, aspect1, aspect2, opinion), RowIds(frame));
  }

  /** A token of a text is contained in it, ignoring case. */
  lemma TokenIsContained(text: string, t: string)
    requires t in Tokens(text)
    ensures ContainsTerm(text, t)
  {
    TokenOccurs(Lower(text), t);
    LowerOfLowerString(t);
  }

  /**
   * Token hits are substring hits: every row with the word `t` among its
   * tokens is in `method1(t, t, t)`.
   */
  lemma TokenHitsWithinHomogeneousSearch(frame: Frame, t: string)
    ensures forall k :: 0 <= k < |frame| && t in Tokens(frame[k].1) ==> frame[k].0 in Method1(frame, t, t, t)
  {
    forall k | 0 <= k < |frame| && t in Tokens(frame[k].1)
      ensures frame[k].0 in Method1(frame, t, t, t)
    {
      TokenIsContained(frame[k].1, t);
    }
  }

  /** The search frame of review rows that all carry a text. */
  function FrameOf(rows: seq<Reviews.Row>): (frame: Frame)
    requires PostingsListGenerator.HasTexts(rows)
    ensures |frame| == |rows|
  {
    seq(|rows|, j requires 0 <= j < |rows| => (rows[j].index, rows[j].text.value))
  }

  /**
   * Every review ID the index lists under a word `t` is found by the
   * homogeneous search `method1(t, t, t)` over the same reviews: the count
   * of the postings list never exceeds the count of the search result.
   */
  lemma PostingsWithinHomogeneousSearch(pl: PostingsListGenerator.PostingsList, rows: seq<Reviews.Row>, t: string)
    requires PostingsListGenerator.HasTexts(rows)
    requires PostingsListGenerator.IsPostingsOf(pl, rows)
    ensures t in pl.lists ==> forall x :: x in pl.lists[t] ==> x in Method1(FrameOf(rows), t, t, t)
    ensures t in pl.lists ==> |pl.lists[t]| <= |Method1(FrameOf(rows), t, t, t)|
  {
    var frame := FrameOf(rows);
    if t in pl.lists {
      forall x | x in pl.lists[t]
        ensures x in Method1(frame, t, t, t)
      {
        assert PostingsListGenerator.Listed(pl, t, x);
        var j :| 0 <= j < |rows| && rows[j].index == x && t in Tokens(PostingsListGenerator.TextOf(rows[j]));
        assert frame[j] == (x, PostingsListGenerator.TextOf(rows[j]));
        TokenHitsWithinHomogeneousSearch(frame, t);
      }
      AscendingWithin(pl.lists[t], Method1(frame, t, t, t));
    }
  }

  // ---------------------------------------------------------------------
  // The query step of the command line

  /** The combinator a `--method` name selects, compared in lower case; `None` for any other name. */
  function Dispatch(name: string): Option<Combinator>
  {
    var m := Lower(name);
    if m == "method1" then Some(AnyTerm)
    else if m == "method2" then Some(AllTerms)
    else if m == "method3" then Some(AspectAndOpinion)
    else None
  }

  function Search(frame: Frame, c: Combinator, aspect1: string, aspect2: string, opinion: string): seq<int>
  {
    match c
    case AnyTerm => Method1(frame, aspect1, aspect2, opinion)
    case AllTerms => Method2(frame, aspect1, aspect2, opinion)
    case AspectAndOpinion => Method3(frame, aspect1, aspect2, opinion)
  }

  /** `f"{aspect1}_{aspect2}_{opinion}_{method}.pkl"`, the method name as typed. */
  function OutputFilename(aspect1: string, aspect2: string, opinion: string, name: string): string
  {
    aspect1 + "_" + aspect2 + "_" + opinion + "_" + name + ".pkl"
  }

  /** What one query writes: the result file's name and its `review_index` column. */
  datatype SearchOutput = SearchOutput(filename: string, reviewIndex: seq<int>)

  /**
   * The query step: choose the combinator by name, evaluate it, and name the
   * result file; an unsupported name produces no output.
   */
  function RunQuery(frame: Frame, aspect1: string, aspect2: string, opinion: string, name: string): (r: Option<SearchOutput>)
    ensures r.None? <==> Lower(name) !in ["method1", "method2", "method3"]
    ensures Lower(name) == "method1" ==> r == Some(SearchOutput(OutputFilename(aspect1, aspect2, opinion, name), Method1(frame, aspect1, aspect2, opinion)))
    ensures Lower(name) == "method2" ==> r == Some(SearchOutput(OutputFilename(aspect1, aspect2, opinion, name), Method2(frame, aspect1, aspect2, opinion)))
    ensures Lower(name) == "method3" ==> r == Some(SearchOutput(OutputFilename(aspect1, aspect2, opinion, name), Method3(frame, aspect1, aspect2, opinion)))
  {
    match Dispatch(name)
    case None => None
    case Some(c) => Some(SearchOutput(OutputFilename(aspect1, aspect2, opinion, name), Search(frame, c, aspect1, aspect2, opinion)))
  }

  /**
   * The method name is compared without regard to case: any spelling of a
   * name selects the same combinator, and gives the same result, as its
   * lower-case form (only the file name keeps the spelling typed).
   */
  lemma RunQueryIgnoresCase(frame: Frame, aspect1: string, aspect2: string, opinion: string, name: string)
    ensures Dispatch(name) == Dispatch(Lower(name))
    ensures RunQuery(frame, aspect1, aspect2, opinion, name).Some? == RunQuery(frame, aspect1, aspect2, opinion, Lower(name)).Some?
    ensures RunQuery(frame, aspect1, aspect2, opinion, name).Some? ==>
              RunQuery(frame, aspect1, aspect2, opinion, name).value.reviewIndex ==
              RunQuery(frame, aspect1, aspect2, opinion, Lower(name)).value.reviewIndex
  {
    LowerIsLower(name);
    LowerOfLowerString(Lower(name));
  }

  /**
   * The result file is not determined by the query alone: terms that
   * contain `_` can make two different queries write the same file.
   */
  lemma FilenameCollision()
    ensures OutputFilename("a_b", "c", "d", "method1") == OutputFilename("a", "b_c", "d", "method1")
  {
  }
}

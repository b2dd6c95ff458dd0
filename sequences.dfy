/**
 * Orderings and subsequences of lists, and Python's `sorted()` as the index
 * builder uses it: on a set of review IDs (numeric order) and on the set of
 * terms (string order, character code by character code, a proper prefix
 * first).
 */
module Sequences {

  predicate IdsAscending(s: seq<int>)
  {
    forall i, j :: 0 <= i < j < |s| ==> s[i] < s[j]
  }

  /** Python's `<` on `str`. */
  predicate StrLt(a: string, b: string)
    decreases |a|
  {
    if a == [] then b != []
    else if b == [] then false
    else if a[0] != b[0] then a[0] < b[0]
    else StrLt(a[1..], b[1..])
  }

  predicate TermsAscending(s: seq<string>)
  {
    forall i, j :: 0 <= i < j < |s| ==> StrLt(s[i], s[j])
  }

  lemma {:induction false} StrLtIrreflexive(a: string)
    ensures !StrLt(a, a)
    decreases |a|
  {
    if a != [] {
      StrLtIrreflexive(a[1..]);
    }
  }

  lemma {:induction false} StrLtTransitive(a: string, b: string, c: string)
    requires StrLt(a, b) && StrLt(b, c)
    ensures StrLt(a, c)
    decreases |a|
  {
    if a != [] && a[0] == b[0] && b[0] == c[0] {
      StrLtTransitive(a[1..], b[1..], c[1..]);
    }
  }

  lemma {:induction false} StrLtTotal(a: string, b: string)
    requires a != b
    ensures StrLt(a, b) || StrLt(b, a)
    decreases |a|
  {
    if a != [] && b != [] && a[0] == b[0] {
      assert a == [a[0]] + a[1..] && b == [b[0]] + b[1..];
      StrLtTotal(a[1..], b[1..]);
    }
  }

  /** An ID smaller than every element of an ascending list may be put in front of it. */
  lemma PrependId(x: int, s: seq<int>)
    requires IdsAscending(s)
    requires forall y :: y in s ==> x < y
    ensures IdsAscending([x] + s)
  {
    assert forall j :: 0 <= j < |s| ==> s[j] in s;
  }

  /** Inserting into an ascending, duplicate-free list of IDs (a set). */
  function InsertId(s: seq<int>, x: int): (r: seq<int>)
    requires IdsAscending(s)
    ensures IdsAscending(r)
    ensures forall y :: y in r <==> y in s || y == x
  {
    if s == [] then [x]
    else if x == s[0] then s
    else if x < s[0] then PrependId(x, s); [x] + s
    else
      var r := InsertId(s[1..], x);
      PrependId(s[0], r);
      [s[0]] + r
  }

  /** A term smaller than every element of an ascending list may be put in front of it. */
  lemma PrependTerm(w: string, s: seq<string>)
    requires TermsAscending(s)
    requires forall v :: v in s ==> StrLt(w, v)
    ensures TermsAscending([w] + s)
  {
    assert forall j :: 0 <= j < |s| ==> s[j] in s;
  }

  /** Inserting into an ascending, duplicate-free list of terms (a set). */
  function InsertTerm(s: seq<string>, w: string): (r: seq<string>)
    requires TermsAscending(s)
    ensures TermsAscending(r)
    ensures forall v :: v in r <==> v in s || v == w
  {
    if s == [] then [w]
    else if w == s[0] then s
    else if StrLt(w, s[0]) then
      forall v | v in s
        ensures StrLt(w, v)
      {
        if v != s[0] { StrLtTransitive(w, s[0], v); }
      }
      PrependTerm(w, s);
      [w] + s
    else
      StrLtTotal(w, s[0]);
      var r := InsertTerm(s[1..], w);
      PrependTerm(s[0], r);
      [s[0]] + r
  }

  /** Some element of a non-empty set. */
  lemma Element<T>(s: set<T>) returns (x: T)
    requires s != {}
    ensures x in s
  {
    x :| x in s;
  }

  /** `sorted(list(ids))`: the elements of the set in ascending order. */
  method SortIds(ids: set<int>) returns (r: seq<int>)
    ensures IdsAscending(r)
    ensures forall x :: x in r <==> x in ids
  {
    r := [];
    var rest := ids;
    while rest != {}
      invariant rest <= ids
      invariant IdsAscending(r)
      invariant forall x :: x in r <==> x in ids && x !in rest
      decreases rest
    {
      ghost var y := Element(rest);
      var x: int :| x in rest;
      r := InsertId(r, x);
      rest := rest - {x};
    }
  }

  /** `sorted(terms)`: the elements of the set in ascending string order. */
  method SortTerms(terms: set<string>) returns (r: seq<string>)
    ensures TermsAscending(r)
    ensures forall w :: w in r <==> w in terms
  {
    r := [];
    var rest := terms;
    while rest != {}
      invariant rest <= terms
      invariant TermsAscending(r)
      invariant forall w :: w in r <==> w in terms && w !in rest
      decreases rest
    {
      var w :| w in rest;
      r := InsertTerm(r, w);
      rest := rest - {w};
    }
  }

  /** `a` is `b` with some elements left out, the rest in the same order. */
  predicate IsSubsequence<T(==)>(a: seq<T>, b: seq<T>)
    decreases |b|
  {
    if a == [] then true
    else if b == [] then false
    else (a[0] == b[0] && IsSubsequence(a[1..], b[1..])) || IsSubsequence(a, b[1..])
  }

  lemma {:induction false} SubsequenceOfTail<T>(a: seq<T>, x: T, b: seq<T>)
    requires IsSubsequence(a, b)
    ensures IsSubsequence(a, [x] + b)
  {
    assert ([x] + b)[1..] == b;
  }

  /** Elements of a subsequence of `b` are elements of `b`. */
  lemma {:induction false} SubsequenceElements<T>(a: seq<T>, b: seq<T>)
    requires IsSubsequence(a, b)
    ensures forall x :: x in a ==> x in b
    decreases |b|
  {
    if a != [] {
      assert forall x :: x in b[1..] ==> x in b;
      if a[0] == b[0] && IsSubsequence(a[1..], b[1..]) {
        SubsequenceElements(a[1..], b[1..]);
        assert forall x :: x in a ==> x == a[0] || x in a[1..];
      } else {
        SubsequenceElements(a, b[1..]);
      }
    }
  }

  /** A strictly ascending list has as many distinct elements as positions. */
  lemma {:induction false} AscendingCard(a: seq<int>)
    requires IdsAscending(a)
    ensures |set x | x in a| == |a|
  {
    if a != [] {
      var tail := a[1..];
      assert IdsAscending(tail) by {
        forall i, j | 0 <= i < j < |tail|
          ensures tail[i] < tail[j]
        {
          assert tail[i] == a[i + 1] && tail[j] == a[j + 1];
        }
      }
      AscendingCard(tail);
      var all, rest := set x | x in a, set x | x in tail;
      assert a == [a[0]] + tail;
      assert all == {a[0]} + rest;
      HeadNotInTail(a);
    }
  }

  /** The first element of a strictly ascending list does not occur again. */
  lemma HeadNotInTail(a: seq<int>)
    requires a != [] && IdsAscending(a)
    ensures a[0] !in a[1..]
  {
    forall j | 0 <= j < |a[1..]|
      ensures a[1..][j] != a[0]
    {
      assert a[1..][j] == a[j + 1];
    }
  }

  /** A list has at most as many distinct elements as positions. */
  lemma {:induction false} ElementsCard<T>(b: seq<T>)
    ensures |set x | x in b| <= |b|
  {
    if b != [] {
      ElementsCard(b[1..]);
      assert (set x | x in b) == {b[0]} + (set x | x in b[1..]) by {
        assert b == [b[0]] + b[1..];
      }
    }
  }

  /** A strictly ascending list whose elements all occur in `b` is no longer than `b`. */
  lemma AscendingWithin(a: seq<int>, b: seq<int>)
    requires IdsAscending(a)
    requires forall x :: x in a ==> x in b
    ensures |a| <= |b|
  {
    AscendingCard(a);
    ElementsCard(b);
    var sa, sb := set x | x in a, set x | x in b;
    assert sb == sa + (sb - sa);
  }

  /** A subsequence of a strictly ascending list is strictly ascending. */
  lemma {:induction false} SubsequenceAscending(a: seq<int>, b: seq<int>)
    requires IsSubsequence(a, b) && IdsAscending(b)
    ensures IdsAscending(a)
    decreases |b|
  {
    if a != [] {
      assert IdsAscending(b[1..]);
      if a[0] == b[0] && IsSubsequence(a[1..], b[1..]) {
        SubsequenceAscending(a[1..], b[1..]);
        SubsequenceElements(a[1..], b[1..]);
        forall j | 0 < j < |a|
          ensures a[0] < a[j]
        {
          assert a[1..][j - 1] in b[1..];
        }
      } else {
        SubsequenceAscending(a, b[1..]);
      }
    }
  }

}

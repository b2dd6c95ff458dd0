/**
 * The tokenizer shared by the index builder and the classifier's text
 * preprocessing: `re.findall(r'\b\w+\b', text.lower())`, which yields the
 * maximal runs of word characters of the lower-cased text, left to right.
 *
 * Word characters and lower-casing are those of ASCII: letters, digits and
 * underscore; upper-case ASCII letters are mapped to lower case and every
 * other character is left as it is.
 */
module Tokenizer {

  /** `\w`, restricted to ASCII. */
  predicate IsWordChar(c: char)
  {
    ('a' <= c <= 'z') || ('A' <= c <= 'Z') || ('0' <= c <= '9') || c == '_'
  }

  function ToLower(c: char): char
  {
    if 'A' <= c <= 'Z' then (c as int + 32) as char else c
  }

  /** `str.lower()` */
  function Lower(s: string): (r: string)
    ensures |r| == |s|
    ensures forall i :: 0 <= i < |s| ==> r[i] == ToLower(s[i])
  {
    seq(|s|, i requires 0 <= i < |s| => ToLower(s[i]))
  }

  /** A string that lower-casing leaves unchanged. */
  predicate IsLowerString(s: string)
  {
    forall i :: 0 <= i < |s| ==> ToLower(s[i]) == s[i]
  }

  /** What `\w+` matches: a non-empty run of word characters. */
  predicate IsWord(s: string)
  {
    |s| > 0 && forall i :: 0 <= i < |s| ==> IsWordChar(s[i])
  }

  /** Length of the run of word characters at the front of `s`. */
  function RunLength(s: string): (n: nat)
    ensures n <= |s|
    ensures forall i :: 0 <= i < n ==> IsWordChar(s[i])
    ensures n == |s| || !IsWordChar(s[n])
  {
    if s == [] || !IsWordChar(s[0]) then 0 else 1 + RunLength(s[1..])
  }

  /**
   * The maximal runs of word characters of `s`, in order. Every token is a
   * word, and tokens of a lower-case string are lower case.
   */
  function Tokenize(s: string): (ts: seq<string>)
    ensures forall k :: 0 <= k < |ts| ==> IsWord(ts[k])
    ensures IsLowerString(s) ==> forall k :: 0 <= k < |ts| ==> IsLowerString(ts[k])
    decreases |s|
  {
    if s == [] then []
    else if !IsWordChar(s[0]) then Tokenize(s[1..])
    else
      var n := RunLength(s);
      [s[..n]] + Tokenize(s[n..])
  }

  /** The tokens of `re.findall(r'\b\w+\b', text.lower())`. */
  function Tokens(text: string): (ts: seq<string>)
    ensures forall k :: 0 <= k < |ts| ==> IsWord(ts[k]) && IsLowerString(ts[k])
  {
    LowerIsLower(text);
    Tokenize(Lower(text))
  }

  /** `" ".join(ts)` */
  function Join(ts: seq<string>): string
  {
    if ts == [] then ""
    else if |ts| == 1 then ts[0]
    else ts[0] + " " + Join(ts[1..])
  }

  lemma LowerIsLower(s: string)
    ensures IsLowerString(Lower(s))
  {
  }

  /** Lower-casing a string that is already lower case changes nothing. */
  lemma LowerOfLowerString(s: string)
    requires IsLowerString(s)
    ensures Lower(s) == s
  {
  }

  /** Joining lower-case strings with spaces gives a lower-case string. */
  lemma {:induction false} JoinIsLower(ts: seq<string>)
    requires forall k :: 0 <= k < |ts| ==> IsLowerString(ts[k])
    ensures IsLowerString(Join(ts))
  {
    if |ts| > 1 {
      JoinIsLower(ts[1..]);
      var rest := Join(ts[1..]);
      assert Join(ts) == ts[0] + " " + rest;
      forall i | 0 <= i < |Join(ts)|
        ensures ToLower(Join(ts)[i]) == Join(ts)[i]
      {
        if i < |ts[0]| {
          assert Join(ts)[i] == ts[0][i];
        } else if i > |ts[0]| {
          assert Join(ts)[i] == rest[i - |ts[0]| - 1];
        }
      }
    }
  }

  /** The run at the front of a word followed by a non-word character is the word. */
  lemma {:induction false} RunLengthOfWord(w: string, rest: string)
    requires forall i :: 0 <= i < |w| ==> IsWordChar(w[i])
    requires rest == [] || !IsWordChar(rest[0])
    ensures RunLength(w + rest) == |w|
  {
    if w != [] {
      assert (w + rest)[1..] == w[1..] + rest;
      RunLengthOfWord(w[1..], rest);
    }
  }

  /**
   * Round trip: tokenizing words joined by single spaces gives back exactly
   * those words, in order.
   */
  lemma {:induction false} TokenizeJoin(ts: seq<string>)
    requires forall k :: 0 <= k < |ts| ==> IsWord(ts[k])
    ensures Tokenize(Join(ts)) == ts
  {
    if ts == [] {
    } else if |ts| == 1 {
      var t := ts[0];
      RunLengthOfWord(t, []);
      assert t + [] == t;
      assert t[..|t|] == t && t[|t|..] == [];
    } else {
      var t, rest := ts[0], Join(ts[1..]);
      var s := t + " " + rest;
      assert Join(ts) == s;
      assert s == t + (" " + rest);
      RunLengthOfWord(t, " " + rest);
      assert s[..|t|] == t;
      assert s[|t|..] == " " + rest;
      assert (" " + rest)[1..] == rest;
      TokenizeJoin(ts[1..]);
    }
  }

  /**
   * A non-word character separates the matches on its two sides: the
   * tokens of `a + [c] + b` are those of `a` followed by those of `b`, in
   * order and with repeats. With `TokenizeJoin` on a single word this
   * fixes the whole token list of any string.
   */
  lemma {:induction false} TokenizeSplit(a: string, c: char, b: string)
    requires !IsWordChar(c)
    ensures Tokenize(a + [c] + b) == Tokenize(a) + Tokenize(b)
    decreases |a|
  {
    var s := a + [c] + b;
    if a == [] {
      assert s == [c] + b && s[1..] == b;
    } else if !IsWordChar(a[0]) {
      assert s[1..] == a[1..] + [c] + b;
      TokenizeSplit(a[1..], c, b);
    } else {
      var n := RunLength(a);
      var word, tail := a[..n], a[n..] + [c] + b;
      assert s == word + tail;
      assert tail[0] == if n < |a| then a[n] else c;
      RunLengthOfWord(word, tail);
      assert s[..n] == word && s[n..] == tail;
      assert Tokenize(s) == [word] + Tokenize(tail);
      assert Tokenize(a) == [word] + Tokenize(a[n..]);
      TokenizeSplit(a[n..], c, b);
    }
  }

  /** The same split for the tokens of the lower-cased text. */
  lemma TokensSplit(a: string, c: char, b: string)
    requires !IsWordChar(c)
    ensures Tokens(a + [c] + b) == Tokens(a) + Tokens(b)
  {
    assert Lower(a + [c] + b) == Lower(a) + [c] + Lower(b);
    TokenizeSplit(Lower(a), c, Lower(b));
  }

  /** `t` occurs in `s` starting at position `i`. */
  predicate OccursAt(s: string, t: string, i: int)
  {
    0 <= i <= |s| - |t| && s[i..i + |t|] == t
  }

  /** Substring containment, `t in s`. */
  predicate Contains(s: string, t: string)
  {
    exists i | 0 <= i <= |s| - |t| :: OccursAt(s, t, i)
  }

  /** A slice of a slice is a slice. */
  lemma OccursShift(s: string, t: string, n: nat, i: int)
    requires n <= |s| && OccursAt(s[n..], t, i)
    ensures OccursAt(s, t, i + n)
  {
    assert s[i + n..i + n + |t|] == s[n..][i..i + |t|];
  }

  /** Every token of `s` occurs in `s` as a contiguous slice. */
  lemma {:induction false} TokenOccurs(s: string, t: string)
    requires t in Tokenize(s)
    ensures Contains(s, t)
    decreases |s|
  {
    if !IsWordChar(s[0]) {
      TokenOccurs(s[1..], t);
      var i :| OccursAt(s[1..], t, i);
      OccursShift(s, t, 1, i);
    } else {
      var n := RunLength(s);
      if t == s[..n] {
        assert OccursAt(s, t, 0);
      } else {
        TokenOccurs(s[n..], t);
        var i :| OccursAt(s[n..], t, i);
        OccursShift(s, t, n, i);
      }
    }
  }

  /**
   * A maximal run of word characters of `s`, starting at `i`: `t` is a
   * word occurring at `i`, with no word character just before or just
   * after it. These are the matches of `\b\w+\b`.
   */
  predicate IsRunAt(s: string, t: string, i: int)
  {
    && IsWord(t)
    && OccursAt(s, t, i)
    && (i == 0 || !IsWordChar(s[i - 1]))
    && (i + |t| == |s| || !IsWordChar(s[i + |t|]))
  }

  /** A run of `s` at or after position `n` is a run of the suffix `s[n..]`. */
  lemma RunAtSuffix(s: string, t: string, n: nat, i: int)
    requires n <= i && IsRunAt(s, t, i)
    ensures IsRunAt(s[n..], t, i - n)
  {
    assert s[n..][i - n..i - n + |t|] == s[i..i + |t|];
    if i - n > 0 {
      assert s[n..][i - n - 1] == s[i - 1];
    }
    if i + |t| < |s| {
      assert s[n..][i - n + |t|] == s[i + |t|];
    }
  }

  /**
   * A run of the suffix `s[n..]` is a run of `s`, unless it starts the
   * suffix right after a word character.
   */
  lemma RunAtFromSuffix(s: string, t: string, n: nat, i: int)
    requires n <= |s| && IsRunAt(s[n..], t, i)
    requires i > 0 || n == 0 || !IsWordChar(s[n - 1])
    ensures IsRunAt(s, t, i + n)
  {
    assert s[i + n..i + n + |t|] == s[n..][i..i + |t|];
    if i > 0 {
      assert s[n..][i - 1] == s[i + n - 1];
    }
    if i + n + |t| < |s| {
      assert s[n..][i + |t|] == s[i + n + |t|];
    }
  }

  /** Just after the leading run of word characters, no run can start. */
  lemma NoRunAtRunEnd(s: string, t: string, i: int)
    requires IsRunAt(s[RunLength(s)..], t, i)
    ensures i > 0
  {
    var n := RunLength(s);
    assert s[n..][i] == t[0];
  }

  /** A run at the front of `s` is the leading run of word characters. */
  lemma FirstRun(s: string, t: string)
    requires IsRunAt(s, t, 0)
    ensures t == s[..RunLength(s)]
  {
    var n := RunLength(s);
    assert forall j :: 0 <= j < |t| ==> s[j] == t[j];
  }

  /** A run that does not start `s` starts after the leading run. */
  lemma LaterRun(s: string, t: string, i: int)
    requires s != [] && IsWordChar(s[0])
    requires IsRunAt(s, t, i) && i > 0
    ensures i > RunLength(s)
  {
    var n := RunLength(s);
    assert s[i] == t[0];
  }

  /**
   * The tokens of `s` are exactly its maximal runs of word characters: a
   * string is a token iff it is a word occurring in `s` with no word
   * character on either side.
   */
  lemma {:induction false} TokenizeRuns(s: string, t: string)
    ensures t in Tokenize(s) <==> exists i :: IsRunAt(s, t, i)
    decreases |s|
  {
    if s == [] {
    } else if !IsWordChar(s[0]) {
      TokenizeRuns(s[1..], t);
      if exists i :: IsRunAt(s, t, i) {
        var i :| IsRunAt(s, t, i);
        assert t[0] == s[i];
        RunAtSuffix(s, t, 1, i);
      }
      if exists i :: IsRunAt(s[1..], t, i) {
        var i :| IsRunAt(s[1..], t, i);
        RunAtFromSuffix(s, t, 1, i);
      }
    } else {
      var n := RunLength(s);
      TokenizeRuns(s[n..], t);
      assert Tokenize(s) == [s[..n]] + Tokenize(s[n..]);
      if t == s[..n] {
        assert IsRunAt(s, t, 0);
      }
      if exists i :: IsRunAt(s[n..], t, i) {
        var i :| IsRunAt(s[n..], t, i);
        NoRunAtRunEnd(s, t, i);
        RunAtFromSuffix(s, t, n, i);
      }
      if exists i :: IsRunAt(s, t, i) {
        var i :| IsRunAt(s, t, i);
        if i == 0 {
          FirstRun(s, t);
        } else {
          LaterRun(s, t, i);
          RunAtSuffix(s, t, n, i);
        }
      }
    }
  }

  /** The tokens of a text are exactly the maximal word runs of its lower-cased form. */
  lemma TokensRuns(text: string, t: string)
    ensures t in Tokens(text) <==> exists i :: IsRunAt(Lower(text), t, i)
  {
    TokenizeRuns(Lower(text), t);
  }
}

/**
 * The string operations the parameter map relies on, stated the way Python 2
 * byte strings behave: `str.split()` with no separator, `str.split(sep)[0]`,
 * `str.endswith(sfx)`, and `sep.join(...)` as its inverse.
 */
module Strings {

  /** The whitespace characters recognised by `str.split()` on byte strings. */
  predicate IsSpace(c: char) {
    c == ' ' || c == '\t' || c == '\n' || c == '\r' || c == '\U{000B}' || c == '\U{000C}'
  }

  /** True when `s` holds no whitespace character. */
  predicate NoSpace(s: string) {
    forall i :: 0 <= i < |s| ==> !IsSpace(s[i])
  }

  /** True when every element of `toks` is a non-empty, whitespace-free word. */
  predicate AreWords(toks: seq<string>) {
    forall i :: 0 <= i < |toks| ==> toks[i] != [] && NoSpace(toks[i])
  }

  /** `s` with every whitespace character removed. */
  function DropSpace(s: string): (r: string)
    ensures NoSpace(r)
    ensures |r| <= |s|
  {
    if |s| == 0 then []
    else if IsSpace(s[0]) then DropSpace(s[1..])
    else [s[0]] + DropSpace(s[1..])
  }

  /** The concatenation of all words, with nothing between them. */
  function Concat(toks: seq<string>): string {
    if |toks| == 0 then [] else toks[0] + Concat(toks[1..])
  }

  /** The words joined by single spaces, as `" ".join(toks)`. */
  function Join(toks: seq<string>): string {
    if |toks| == 0 then []
    else if |toks| == 1 then toks[0]
    else toks[0] + " " + Join(toks[1..])
  }

  /** The list holding the pending word, if any. */
  function Flush(cur: string): seq<string> {
    if cur == [] then [] else [cur]
  }

  /**
   * Splits `s` at runs of whitespace, where `cur` is the part of the current
   * word that has already been read.
   */
  function SplitFrom(s: string, cur: string): (r: seq<string>)
    ensures NoSpace(cur) ==> AreWords(r)
    decreases |s|
  {
    if |s| == 0 then Flush(cur)
    else if IsSpace(s[0]) then Flush(cur) + SplitFrom(s[1..], [])
    else SplitFrom(s[1..], cur + [s[0]])
  }

  /**
   * Python's `s.split()`: the maximal whitespace-free runs of `s`, in order.
   * No word is empty and no word holds whitespace; together, the words are
   * exactly the non-whitespace characters of `s`. That the runs are maximal
   * is stated by `SplitAtSpace` and `SplitWord`, which with `Split([]) == []`
   * determine the result on every input.
   */
  function Split(s: string): (r: seq<string>)
    ensures AreWords(r)
    ensures Concat(r) == DropSpace(s)
  {
    SplitFromConcat(s, []);
    SplitFrom(s, [])
  }

  lemma {:induction false} SplitFromConcat(s: string, cur: string)
    ensures Concat(SplitFrom(s, cur)) == cur + DropSpace(s)
    decreases |s|
  {
    if |s| == 0 {
      assert cur + DropSpace(s) == cur;
    } else if IsSpace(s[0]) {
      SplitFromConcat(s[1..], []);
      ConcatAppend(Flush(cur), SplitFrom(s[1..], []));
      assert [] + DropSpace(s[1..]) == DropSpace(s[1..]);
    } else {
      SplitFromConcat(s[1..], cur + [s[0]]);
      assert (cur + [s[0]]) + DropSpace(s[1..]) == cur + ([s[0]] + DropSpace(s[1..]));
    }
  }

  lemma {:induction false} ConcatAppend(a: seq<string>, b: seq<string>)
    ensures Concat(a + b) == Concat(a) + Concat(b)
    decreases |a|
  {
    if |a| == 0 {
      assert a + b == b;
    } else {
      assert (a + b)[1..] == a[1..] + b;
      ConcatAppend(a[1..], b);
    }
  }

  /** Reading a whitespace-free word only extends the pending word. */
  lemma {:induction false} SplitFromWord(w: string, rest: string, cur: string)
    requires NoSpace(w)
    ensures SplitFrom(w + rest, cur) == SplitFrom(rest, cur + w)
    decreases |w|
  {
    if |w| == 0 {
      assert w + rest == rest;
      assert cur + w == cur;
    } else {
      assert (w + rest)[0] == w[0];
      assert (w + rest)[1..] == w[1..] + rest;
      SplitFromWord(w[1..], rest, cur + [w[0]]);
      assert (cur + [w[0]]) + w[1..] == cur + w;
    }
  }

  /**
   * A whitespace character ends the pending word: what precedes it and what
   * follows it are split independently.
   */
  lemma {:induction false} SplitFromAtSpace(a: string, c: char, b: string, cur: string)
    requires IsSpace(c)
    ensures SplitFrom(a + [c] + b, cur) == SplitFrom(a, cur) + SplitFrom(b, [])
    decreases |a|
  {
    var s := a + [c] + b;
    if |a| == 0 {
      assert s[0] == c && s[1..] == b;
    } else if IsSpace(a[0]) {
      assert s[0] == a[0] && s[1..] == a[1..] + [c] + b;
      SplitFromAtSpace(a[1..], c, b, []);
    } else {
      assert s[0] == a[0] && s[1..] == a[1..] + [c] + b;
      SplitFromAtSpace(a[1..], c, b, cur + [a[0]]);
    }
  }

  /** `split()` cuts at every whitespace character. */
  lemma SplitAtSpace(a: string, c: char, b: string)
    requires IsSpace(c)
    ensures Split(a + [c] + b) == Split(a) + Split(b)
  {
    SplitFromAtSpace(a, c, b, []);
  }

  /** A non-empty run without whitespace is one word. */
  lemma SplitWord(w: string)
    requires w != [] && NoSpace(w)
    ensures Split(w) == [w]
  {
    SplitFromWord(w, [], []);
    assert w + [] == w && [] + w == w;
  }

  /** Splitting words joined by single spaces gives the words back. */
  lemma {:induction false} SplitJoin(toks: seq<string>)
    requires AreWords(toks)
    ensures Split(Join(toks)) == toks
    decreases |toks|
  {
    if |toks| == 0 {
    } else if |toks| == 1 {
      SplitFromWord(toks[0], [], []);
      assert toks[0] + [] == toks[0];
      assert [] + toks[0] == toks[0];
    } else {
      var rest := " " + Join(toks[1..]);
      assert Join(toks) == toks[0] + rest;
      SplitFromWord(toks[0], rest, []);
      assert [] + toks[0] == toks[0];
      assert rest[0] == ' ' && rest[1..] == Join(toks[1..]);
      SplitJoin(toks[1..]);
      assert SplitFrom(rest, toks[0]) == [toks[0]] + Split(Join(toks[1..]));
    }
  }

  /** True when `sub` occurs in `s` starting at position `i`. */
  predicate OccursAt(s: string, sub: string, i: nat) {
    i + |sub| <= |s| && s[i..i + |sub|] == sub
  }

  /** True when `sub` occurs somewhere in `s` (Python's `sub in s`). */
  predicate Contains(s: string, sub: string) {
    exists i: nat :: i <= |s| && OccursAt(s, sub, i)
  }

  /** Python's `s.endswith(sfx)`. */
  predicate EndsWith(s: string, sfx: string) {
    |sfx| <= |s| && s[|s| - |sfx|..] == sfx
  }

  /** `s.endswith(sfx)` holds exactly when `s` is some prefix followed by `sfx`. */
  lemma EndsWithMeans(s: string, sfx: string)
    ensures EndsWith(s, sfx) <==> |sfx| <= |s| && s[..|s| - |sfx|] + sfx == s
  {
    if |sfx| <= |s| {
      assert s == s[..|s| - |sfx|] + s[|s| - |sfx|..];
    }
  }

  lemma EndsWithContains(s: string, sfx: string)
    requires EndsWith(s, sfx)
    ensures Contains(s, sfx)
  {
    assert s[|s| - |sfx|..|s| - |sfx| + |sfx|] == s[|s| - |sfx|..];
    assert OccursAt(s, sfx, |s| - |sfx|);
  }

  /**
   * Python's `s.split(sep)[0]`: the part of `s` before the first occurrence
   * of `sep`, or all of `s` when `sep` does not occur. Python rejects an
   * empty separator.
   */
  function Before(s: string, sep: string): (r: string)
    requires sep != []
    ensures r <= s
    decreases |s|
  {
    if |s| < |sep| then s
    else if s[..|sep|] == sep then []
    else [s[0]] + Before(s[1..], sep)
  }

  /**
   * `Before` stops at the first occurrence: `sep` starts nowhere before the
   * cut, starts right at it unless nothing was cut, and does not occur in
   * the part kept.
   */
  lemma {:induction false} BeforeFirstOccurrence(s: string, sep: string)
    requires sep != []
    ensures forall i: nat :: i < |Before(s, sep)| ==> !OccursAt(s, sep, i)
    ensures Before(s, sep) == s || OccursAt(s, sep, |Before(s, sep)|)
    ensures !Contains(Before(s, sep), sep)
    decreases |s|
  {
    var r := Before(s, sep);
    if |s| < |sep| {
      NoOccurrenceInPrefix(r, s, sep);
    } else if s[..|sep|] == sep {
      assert s[0..|sep|] == s[..|sep|];
    } else {
      var t := Before(s[1..], sep);
      assert r == [s[0]] + t;
      BeforeFirstOccurrence(s[1..], sep);
      forall i: nat | i < |r|
        ensures !OccursAt(s, sep, i)
      {
        if i == 0 {
          assert s[0..|sep|] == s[..|sep|];
        } else {
          OccursAtShift(s, sep, i - 1);
        }
      }
      if t != s[1..] {
        OccursAtShift(s, sep, |t|);
      }
      NoOccurrenceInPrefix(r, s, sep);
    }
  }

  /** An occurrence in the tail of `s` is an occurrence in `s`, one position later. */
  lemma OccursAtShift(s: string, sep: string, i: nat)
    requires |s| > 0
    ensures OccursAt(s[1..], sep, i) <==> OccursAt(s, sep, i + 1)
  {
    if i + 1 + |sep| <= |s| {
      assert s[1..][i..i + |sep|] == s[i + 1..i + 1 + |sep|];
    }
  }

  /** A prefix of `s` with no occurrence of `sep` starting in it does not contain `sep`. */
  lemma NoOccurrenceInPrefix(r: string, s: string, sep: string)
    requires sep != [] && r <= s
    requires forall i: nat :: i < |r| ==> !OccursAt(s, sep, i)
    ensures !Contains(r, sep)
  {
    forall i: nat | i <= |r| && OccursAt(r, sep, i)
      ensures false
    {
      assert r[i..i + |sep|] == s[i..i + |sep|];
      assert OccursAt(s, sep, i);
    }
  }
}

/**
 * Substring search, joining and splitting of strings, shared by the client-side
 * formatter (JavaScript `includes`, `split`, `join`) and the server-side helpers
 * (Python `in`, `str.split(sep)`, `sep.join`).
 */
module Text {
  import opened Wrappers

  /** `pat` occurs in `s` starting at index `i`. */
  predicate OccursAt(s: string, pat: string, i: nat) {
    i + |pat| <= |s| && s[i..i + |pat|] == pat
  }

  /** JavaScript `s.includes(pat)`, Python `pat in s`. */
  predicate Contains(s: string, pat: string) {
    exists i: nat | i <= |s| :: OccursAt(s, pat, i)
  }

  /** JavaScript `s.startsWith(pat)`. */
  predicate StartsWith(s: string, pat: string) {
    OccursAt(s, pat, 0)
  }

  /** The leftmost occurrence of `pat` in `s` at or after `from`. */
  function Find(s: string, pat: string, from: nat): (r: Option<nat>)
    decreases |s| - from
    ensures r.Some? ==> from <= r.value && OccursAt(s, pat, r.value)
    ensures forall j: nat :: from <= j && OccursAt(s, pat, j) ==> r.Some? && r.value <= j
  {
    if from + |pat| > |s| then None
    else if OccursAt(s, pat, from) then Some(from)
    else Find(s, pat, from + 1)
  }

  /** `sep.join(xs)` in Python, `xs.join(sep)` in JavaScript. */
  function Join(xs: seq<string>, sep: string): string {
    if |xs| == 0 then ""
    else if |xs| == 1 then xs[0]
    else xs[0] + sep + Join(xs[1..], sep)
  }

  /** `xs.join('')`. */
  function Concat(xs: seq<string>): string {
    Join(xs, "")
  }

  /**
   * Python `s.split(sep)` with a non-empty separator: the pieces between the
   * non-overlapping occurrences of `sep`, found left to right.
   */
  function Split(s: string, sep: string): (xs: seq<string>)
    requires sep != []
    decreases |s|
    ensures |xs| >= 1 && Join(xs, sep) == s
    ensures forall i :: 0 <= i < |xs| - 1 ==> !Contains(xs[i] + sep[..|sep| - 1], sep)
    ensures !Contains(xs[|xs| - 1], sep)
  {
    match Find(s, sep, 0)
    case None =>
      NotFound(s, sep);
      [s]
    case Some(i) =>
      var rest := Split(s[i + |sep|..], sep);
      SplitCons(s, sep, i, rest);
      [s[..i]] + rest
  }

  /** A search from the start that finds nothing means there is no occurrence. */
  lemma NotFound(s: string, pat: string)
    requires Find(s, pat, 0) == None
    ensures !Contains(s, pat)
  {
  }

  /** The step of `Split`: the piece before the leftmost separator, then the pieces of what follows it. */
  lemma SplitCons(s: string, sep: string, i: nat, rest: seq<string>)
    requires sep != [] && Find(s, sep, 0) == Some(i)
    requires |rest| >= 1 && Join(rest, sep) == s[i + |sep|..]
    requires forall k :: 0 <= k < |rest| - 1 ==> !Contains(rest[k] + sep[..|sep| - 1], sep)
    requires !Contains(rest[|rest| - 1], sep)
    ensures Join([s[..i]] + rest, sep) == s
    ensures forall k :: 0 <= k < |rest| ==> !Contains(([s[..i]] + rest)[k] + sep[..|sep| - 1], sep)
    ensures !Contains(([s[..i]] + rest)[|rest|], sep)
  {
    JoinCons(s[..i], rest, sep);
    RejoinAt(s, sep, i);
    LeftmostPrefix(s, sep, i);
    PiecesCons(s[..i], rest, sep);
  }

  /** A piece that hides no separator, put in front of pieces that hide none either. */
  lemma PiecesCons(x: string, rest: seq<string>, sep: string)
    requires sep != [] && |rest| >= 1
    requires !Contains(x + sep[..|sep| - 1], sep)
    requires forall i :: 0 <= i < |rest| - 1 ==> !Contains(rest[i] + sep[..|sep| - 1], sep)
    requires !Contains(rest[|rest| - 1], sep)
    ensures forall i :: 0 <= i < |rest| ==> !Contains(([x] + rest)[i] + sep[..|sep| - 1], sep)
    ensures !Contains(([x] + rest)[|rest|], sep)
  {
    var xs := [x] + rest;
    forall i | 1 <= i < |rest|
      ensures !Contains(xs[i] + sep[..|sep| - 1], sep)
    {
      assert xs[i] == rest[i - 1];
    }
    assert xs[|rest|] == rest[|rest| - 1];
  }

  /** Cutting out an occurrence and putting it back gives the string again. */
  lemma RejoinAt(s: string, pat: string, i: nat)
    requires OccursAt(s, pat, i)
    ensures s[..i] + pat + s[i + |pat|..] == s
  {
    assert s == s[..i] + s[i..i + |pat|] + s[i + |pat|..];
  }

  /** Joining one more piece in front. */
  lemma JoinCons(x: string, xs: seq<string>, sep: string)
    requires |xs| >= 1
    ensures Join([x] + xs, sep) == x + sep + Join(xs, sep)
  {
    assert ([x] + xs)[1..] == xs;
  }

  /** Appending one more piece at the end. */
  lemma {:induction false} JoinSnoc(xs: seq<string>, x: string, sep: string)
    requires |xs| >= 1
    ensures Join(xs + [x], sep) == Join(xs, sep) + sep + x
  {
    if |xs| == 1 {
      assert xs + [x] == [xs[0], x];
    } else {
      assert (xs + [x])[1..] == xs[1..] + [x];
      JoinSnoc(xs[1..], x, sep);
    }
  }

  /** An occurrence inside a slice is an occurrence in the whole string, shifted. */
  lemma OccursInSlice(s: string, pat: string, lo: nat, hi: nat, j: nat)
    requires lo <= hi <= |s| && lo + j + |pat| <= hi
    ensures OccursAt(s[lo..hi], pat, j) <==> OccursAt(s, pat, lo + j)
  {
    var inSlice, inWhole := s[lo..hi][j..j + |pat|], s[lo + j..lo + j + |pat|];
    assert forall k :: 0 <= k < |pat| ==> inSlice[k] == inWhole[k];
    assert inSlice == inWhole;
  }

  /**
   * The text before the leftmost occurrence of `pat`, followed by all but the
   * last character of `pat`, holds no occurrence of `pat`.
   */
  lemma LeftmostPrefix(s: string, pat: string, i: nat)
    requires pat != [] && OccursAt(s, pat, i)
    requires forall j: nat :: j < i ==> !OccursAt(s, pat, j)
    ensures !Contains(s[..i] + pat[..|pat| - 1], pat)
  {
    var w := s[..i] + pat[..|pat| - 1];
    assert w == s[..i + |pat| - 1];
    forall j: nat | j <= |w| && OccursAt(w, pat, j)
      ensures false
    {
      OccursInSlice(s, pat, 0, i + |pat| - 1, j);
    }
  }

  /** An occurrence in the right operand of a concatenation, shifted. */
  lemma OccursInRight(a: string, b: string, pat: string, j: nat)
    ensures OccursAt(a + b, pat, |a| + j) <==> OccursAt(b, pat, j)
  {
    if |a| + j + |pat| <= |a + b| {
      assert (a + b)[|a| + j..|a| + j + |pat|] == b[j..j + |pat|];
    }
  }

  /** An occurrence that lies inside the left operand of a concatenation. */
  lemma OccursInLeft(a: string, b: string, pat: string, j: nat)
    ensures OccursAt(a, pat, j) ==> OccursAt(a + b, pat, j)
  {
    if j + |pat| <= |a| {
      assert (a + b)[j..j + |pat|] == a[j..j + |pat|];
    }
  }

  /**
   * When `x` followed by all but the last character of `pat` holds no `pat`,
   * and `y` starts with `pat`, then no occurrence of `pat` in `x + y` starts inside `x`.
   */
  lemma NoEarlyOccurrence(x: string, pat: string, y: string)
    requires pat != [] && StartsWith(y, pat)
    requires !Contains(x + pat[..|pat| - 1], pat)
    ensures forall j: nat :: j < |x| ==> !OccursAt(x + y, pat, j)
  {
    forall j: nat | j < |x| && OccursAt(x + y, pat, j)
      ensures false
    {
      var w := x + pat[..|pat| - 1];
      assert y[..|pat| - 1] == pat[..|pat| - 1];
      assert (x + y)[j..j + |pat|] == w[j..j + |pat|];
      assert OccursAt(w, pat, j);
    }
  }

  /** Pinning the result of `Find` from one known occurrence and no earlier one. */
  lemma FindIs(s: string, pat: string, from: nat, k: nat)
    requires from <= k && OccursAt(s, pat, k)
    requires forall j: nat :: from <= j < k ==> !OccursAt(s, pat, j)
    ensures Find(s, pat, from) == Some(k)
  {
  }

  /**
   * `Split` is the inverse of `Join`: it gives back exactly the pieces it was
   * joined from, provided no piece holds an occurrence of the separator that the
   * left-to-right search would find first.
   */
  lemma {:induction false} SplitJoin(xs: seq<string>, sep: string)
    requires sep != [] && |xs| >= 1
    requires forall i :: 0 <= i < |xs| - 1 ==> !Contains(xs[i] + sep[..|sep| - 1], sep)
    requires !Contains(xs[|xs| - 1], sep)
    ensures Split(Join(xs, sep), sep) == xs
  {
    if |xs| >= 2 {
      PiecesOfTail(xs, sep);
      SplitJoin(xs[1..], sep);
      SplitJoinStep(xs, sep);
    }
  }

  /** The conditions of `SplitJoin` carry over from a list of pieces to its tail. */
  lemma PiecesOfTail(xs: seq<string>, sep: string)
    requires sep != [] && |xs| >= 2
    requires forall i :: 0 <= i < |xs| - 1 ==> !Contains(xs[i] + sep[..|sep| - 1], sep)
    requires !Contains(xs[|xs| - 1], sep)
    ensures var rest := xs[1..];
      && (forall i :: 0 <= i < |rest| - 1 ==> !Contains(rest[i] + sep[..|sep| - 1], sep))
      && !Contains(rest[|rest| - 1], sep)
      && !Contains(xs[0] + sep[..|sep| - 1], sep)
  {
    var rest := xs[1..];
    forall i | 0 <= i < |rest| - 1
      ensures !Contains(rest[i] + sep[..|sep| - 1], sep)
    {
      assert rest[i] == xs[i + 1];
    }
    assert rest[|rest| - 1] == xs[|xs| - 1];
  }

  /** The step of `SplitJoin`: splitting recovers the first piece, then the rest as before. */
  lemma SplitJoinStep(xs: seq<string>, sep: string)
    requires sep != [] && |xs| >= 2
    requires !Contains(xs[0] + sep[..|sep| - 1], sep)
    requires Split(Join(xs[1..], sep), sep) == xs[1..]
    ensures Split(Join(xs, sep), sep) == xs
  {
    FirstSeparator(xs, sep);
    SplitAt(Join(xs, sep), sep, |xs[0]|);
    JoinFirst(xs, sep);
    HeadAndTail(xs);
  }

  /** A non-empty list is its first element followed by the rest. */
  lemma HeadAndTail<T>(xs: seq<T>)
    requires |xs| >= 1
    ensures xs == [xs[0]] + xs[1..]
  {
  }

  /** Dropping the first element of a concatenation drops it from the left operand. */
  lemma TailOfConcat<T>(p: seq<T>, q: seq<T>)
    requires |p| >= 1
    ensures (p + q)[1..] == p[1..] + q
  {
  }

  /** In a join, the leftmost separator is the one after the first piece, when that piece cannot hide one. */
  lemma FirstSeparator(xs: seq<string>, sep: string)
    requires sep != [] && |xs| >= 2
    requires !Contains(xs[0] + sep[..|sep| - 1], sep)
    ensures Find(Join(xs, sep), sep, 0) == Some(|xs[0]|)
  {
    var x, tail := xs[0], sep + Join(xs[1..], sep);
    JoinFirst(xs, sep);
    NoEarlyOccurrence(x, sep, tail);
    OccursInRight(x, tail, sep, 0);
    FindIs(Join(xs, sep), sep, 0, |x|);
  }

  /** Where the leftmost separator is, `Split` cuts off the first piece. */
  lemma SplitAt(s: string, sep: string, i: nat)
    requires sep != [] && Find(s, sep, 0) == Some(i)
    ensures Split(s, sep) == [s[..i]] + Split(s[i + |sep|..], sep)
  {
  }

  /** A join of two or more pieces: the first piece, the separator, then the join of the rest. */
  lemma JoinFirst(xs: seq<string>, sep: string)
    requires |xs| >= 2
    ensures var s, tail := Join(xs, sep), sep + Join(xs[1..], sep);
      && s == xs[0] + tail && StartsWith(tail, sep)
      && s[..|xs[0]|] == xs[0] && s[|xs[0]| + |sep|..] == Join(xs[1..], sep)
  {
    var tail := sep + Join(xs[1..], sep);
    assert tail[..|sep|] == sep;
  }

  /** An occurrence fixes the characters it covers. */
  lemma OccursAtChar(s: string, pat: string, j: nat, k: nat)
    requires k < |pat|
    ensures OccursAt(s, pat, j) ==> s[j + k] == pat[k]
  {
    if OccursAt(s, pat, j) {
      assert s[j..j + |pat|][k] == s[j + k];
    }
  }
}

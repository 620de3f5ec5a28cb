/**
 * The handful of Python `str` operations that app.py relies on, stated over
 * Dafny strings (`seq<char>`, one element per Python code point):
 * `startswith`, `endswith`, slicing `s[:n]`, `sep in s`, `sep.join(pieces)`
 * and `s.split(sep)` together with the `[-1]` that picks its last piece.
 */
module PyStrings {

  datatype Option<T> = None | Some(value: T)

  /** `s.startswith(p)` */
  predicate StartsWith(s: string, p: string) {
    |p| <= |s| && s[..|p|] == p
  }

  /** `s.endswith(p)` */
  predicate EndsWith(s: string, p: string) {
    |p| <= |s| && s[|s| - |p|..] == p
  }

  /** The slice `s[:n]` for a non-negative `n`: Python clamps `n` to the length. */
  function Take(s: string, n: nat): (r: string)
    ensures |r| == if n < |s| then n else |s|
    ensures StartsWith(s, r)
  {
    if n < |s| then s[..n] else s
  }

  /** `sep` occurs in `s` starting at index `i`. */
  predicate OccursAt(s: string, sep: string, i: nat) {
    i + |sep| <= |s| && s[i..i + |sep|] == sep
  }

  /** `sep in s` */
  ghost predicate Contains(s: string, sep: string) {
    exists i: nat :: OccursAt(s, sep, i)
  }

  /**
   * The leftmost occurrence of `sep` in `s`, the position `s.find(sep)`
   * reports (Python's -1 is `None` here).
   */
  function FirstOccurrence(s: string, sep: string): (r: Option<nat>)
    ensures r.Some? ==> OccursAt(s, sep, r.value)
    ensures r.Some? ==> forall j: nat :: j < r.value ==> !OccursAt(s, sep, j)
    ensures r.None? <==> !Contains(s, sep)
    decreases |s|
  {
    if |s| < |sep| then None
    else if s[..|sep|] == sep then Some(0)
    else
      var rest := FirstOccurrence(s[1..], sep);
      ShiftOccurrence(s, sep);
      match rest
      case None => None
      case Some(k) => Some(k + 1)
  }

  /**
   * Occurrences in `s` are the one at the front, if any, and those in
   * `s[1..]`, each one place further on.
   */
  lemma ShiftOccurrence(s: string, sep: string)
    requires s != []
    ensures OccursAt(s, sep, 0) <==> |sep| <= |s| && s[..|sep|] == sep
    ensures forall j: nat :: OccursAt(s[1..], sep, j) <==> OccursAt(s, sep, j + 1)
    ensures forall j: nat :: 0 < j ==> (OccursAt(s, sep, j) <==> OccursAt(s[1..], sep, j - 1))
    ensures Contains(s, sep) <==> OccursAt(s, sep, 0) || Contains(s[1..], sep)
  {
    forall j: nat
      ensures OccursAt(s[1..], sep, j) <==> OccursAt(s, sep, j + 1)
    {
      if j + 1 + |sep| <= |s| {
        assert s[1..][j..j + |sep|] == s[j + 1..j + 1 + |sep|];
      }
    }
    forall j: nat | 0 < j
      ensures OccursAt(s, sep, j) <==> OccursAt(s[1..], sep, j - 1)
    {
      assert OccursAt(s[1..], sep, j - 1) <==> OccursAt(s, sep, (j - 1) + 1);
    }
    if Contains(s, sep) && !OccursAt(s, sep, 0) {
      var i: nat :| OccursAt(s, sep, i);
      assert i != 0;
      assert OccursAt(s[1..], sep, i - 1);
    }
    if Contains(s[1..], sep) {
      var i: nat :| OccursAt(s[1..], sep, i);
      assert OccursAt(s, sep, i + 1);
    }
  }

  /** `sep.join(pieces)` */
  function JoinWith(sep: string, pieces: seq<string>): string {
    if pieces == [] then ""
    else if |pieces| == 1 then pieces[0]
    else pieces[0] + sep + JoinWith(sep, pieces[1..])
  }

  /**
   * `s.split(sep)`: scan left to right, cut at the leftmost occurrence of
   * `sep`, and carry on after it, so that matches never overlap. Python
   * raises ValueError for an empty separator.
   */
  function Split(s: string, sep: string): (pieces: seq<string>)
    requires sep != ""
    ensures |pieces| >= 1
    ensures JoinWith(sep, pieces) == s
    decreases |s|
  {
    match FirstOccurrence(s, sep)
    case None => [s]
    case Some(i) =>
      var rest := Split(s[i + |sep|..], sep);
      CutAtFirstOccurrence(s, sep, i);
      assert ([s[..i]] + rest)[1..] == rest;
      [s[..i]] + rest
  }

  /**
   * `pieces` is cut where a left-to-right scan cuts: every piece but the last
   * ends at the leftmost occurrence of `sep` in the text that remains from
   * that piece on, and the last piece holds no `sep`.
   */
  ghost predicate LeftmostCuts(sep: string, pieces: seq<string>)
    requires pieces != []
  {
    (forall k :: 0 <= k < |pieces| - 1 ==>
      FirstOccurrence(JoinWith(sep, pieces[k..]), sep) == Some(|pieces[k]|)) &&
    !Contains(Last(pieces), sep)
  }

  /** Every cut `split` makes is at the leftmost occurrence in what remains. */
  lemma {:induction false} SplitCutsAreLeftmost(s: string, sep: string)
    requires sep != ""
    ensures LeftmostCuts(sep, Split(s, sep))
    decreases |s|
  {
    match FirstOccurrence(s, sep)
    case None =>
    case Some(i) =>
      var t := s[i + |sep|..];
      var rest := Split(t, sep);
      var pieces := Split(s, sep);
      SplitCutsAreLeftmost(t, sep);
      SplitAtFirstOccurrence(s, sep, i);
      LastOfConcat([s[..i]], rest);
      assert pieces[0..] == pieces;
      forall k | 1 <= k < |pieces| - 1
        ensures FirstOccurrence(JoinWith(sep, pieces[k..]), sep) == Some(|pieces[k]|)
      {
        assert pieces[k..] == rest[k - 1..];
        assert pieces[k] == rest[k - 1];
      }
  }

  /**
   * The leftmost cuts determine the split: any list of pieces that joins
   * back to `s` and is cut at the leftmost occurrences is `s.split(sep)`.
   */
  lemma {:induction false} SplitIsUnique(s: string, sep: string, pieces: seq<string>)
    requires sep != "" && pieces != []
    requires JoinWith(sep, pieces) == s
    requires LeftmostCuts(sep, pieces)
    ensures pieces == Split(s, sep)
    decreases |pieces|
  {
    if |pieces| == 1 {
      assert s == pieces[0] == Last(pieces);
    } else {
      var i := |pieces[0]|;
      var tail := pieces[1..];
      var t := JoinWith(sep, tail);
      assert FirstOccurrence(JoinWith(sep, pieces[0..]), sep) == Some(i);
      assert pieces[0..] == pieces;
      assert s == pieces[0] + sep + t;
      assert s[..i] == pieces[0];
      assert s[i + |sep|..] == t;
      forall k | 0 <= k < |tail| - 1
        ensures FirstOccurrence(JoinWith(sep, tail[k..]), sep) == Some(|tail[k]|)
      {
        assert tail[k..] == pieces[k + 1..];
      }
      assert Last(tail) == Last(pieces);
      SplitIsUnique(t, sep, tail);
      SplitAtFirstOccurrence(s, sep, i);
      assert pieces == [pieces[0]] + tail;
    }
  }

  /**
   * No piece of a split contains the separator, and the split has more than
   * one piece exactly when the separator occurs.
   */
  lemma {:induction false} SplitPiecesAreFree(s: string, sep: string)
    requires sep != ""
    ensures forall k :: 0 <= k < |Split(s, sep)| ==> !Contains(Split(s, sep)[k], sep)
    ensures |Split(s, sep)| == 1 <==> !Contains(s, sep)
    decreases |s|
  {
    match FirstOccurrence(s, sep)
    case None =>
    case Some(i) =>
      var rest := s[i + |sep|..];
      SplitPiecesAreFree(rest, sep);
      CutAtFirstOccurrence(s, sep, i);
      SplitAtFirstOccurrence(s, sep, i);
  }

  /**
   * Cutting `s` at the leftmost occurrence `i` of `sep`: the text before it
   * does not contain `sep`, and the two sides with `sep` between give `s` back.
   */
  lemma CutAtFirstOccurrence(s: string, sep: string, i: nat)
    requires sep != ""
    requires OccursAt(s, sep, i)
    requires forall j: nat :: j < i ==> !OccursAt(s, sep, j)
    ensures s == s[..i] + sep + s[i + |sep|..]
    ensures !Contains(s[..i], sep)
    ensures Contains(s, sep)
  {
    assert s == s[..i] + s[i..i + |sep|] + s[i + |sep|..];
    forall j: nat | OccursAt(s[..i], sep, j)
      ensures false
    {
      assert s[..i][j..j + |sep|] == s[j..j + |sep|];
      assert OccursAt(s, sep, j);
    }
  }

  /** The index `[-1]` of a non-empty Python list. */
  function Last<T>(xs: seq<T>): T
    requires xs != []
  {
    xs[|xs| - 1]
  }

  /** A suffix of a suffix of `s` is a suffix of `s`. */
  lemma EndsWithDrop(s: string, k: nat, p: string)
    requires k <= |s|
    ensures EndsWith(s[k..], p) ==> EndsWith(s, p)
  {
    if EndsWith(s[k..], p) {
      assert s[|s| - |p|..] == s[k..][|s| - k - |p|..];
    }
  }

  /** A string that ends with `p + q` ends with `q`. */
  lemma EndsWithTail(s: string, p: string, q: string)
    ensures EndsWith(s, p + q) ==> EndsWith(s, q)
  {
    if EndsWith(s, p + q) {
      assert s[|s| - |q|..] == s[|s| - |p + q|..][|p|..];
    }
  }

  /** `a + p` ends with `p`. */
  lemma EndsWithConcat(a: string, p: string)
    ensures EndsWith(a + p, p)
  {
    assert (a + p)[|a|..] == p;
  }

  /** Dropping a prefix of the left operand of a concatenation. */
  lemma DropFromConcat(a: string, b: string, k: nat)
    requires k <= |a|
    ensures (a + b)[k..] == a[k..] + b
  {
  }

  /** One step of the split: the piece before the leftmost occurrence, then the split of the rest. */
  lemma SplitAtFirstOccurrence(s: string, sep: string, i: nat)
    requires sep != ""
    requires FirstOccurrence(s, sep) == Some(i)
    ensures Split(s, sep) == [s[..i]] + Split(s[i + |sep|..], sep)
  {
  }

  /** After a cut at the leftmost occurrence, the last piece comes from the rest. */
  lemma LastPieceAfterCut(s: string, sep: string, i: nat)
    requires sep != ""
    requires FirstOccurrence(s, sep) == Some(i)
    ensures Last(Split(s, sep)) == Last(Split(s[i + |sep|..], sep))
  {
    SplitAtFirstOccurrence(s, sep, i);
    LastOfConcat([s[..i]], Split(s[i + |sep|..], sep));
  }

  /** The last element of `xs + ys` for a non-empty `ys` is the last of `ys`. */
  lemma LastOfConcat<T>(xs: seq<T>, ys: seq<T>)
    requires ys != []
    ensures Last(xs + ys) == Last(ys)
  {
  }

  /**
   * What `s.split(sep)[-1]` is: the whole of `s` when `sep` does not occur
   * in it, and otherwise a suffix of `s` that `sep` immediately precedes;
   * either way it does not contain `sep`.
   */
  lemma {:induction false} LastPieceOfSplit(s: string, sep: string)
    requires sep != ""
    ensures !Contains(Last(Split(s, sep)), sep)
    ensures !Contains(s, sep) ==> Last(Split(s, sep)) == s
    ensures Contains(s, sep) ==> EndsWith(s, sep + Last(Split(s, sep)))
    decreases |s|
  {
    match FirstOccurrence(s, sep)
    case None =>
    case Some(i) =>
      var t := s[i + |sep|..];
      LastPieceAfterCut(s, sep, i);
      var r := Last(Split(t, sep));
      LastPieceOfSplit(t, sep);
      if Contains(t, sep) {
        EndsWithDrop(s, i + |sep|, sep + r);
      } else {
        EndsWithOccurrenceAndRest(s, sep, i);
      }
  }

  /** An occurrence of `sep` and everything after it form a suffix of `s`. */
  lemma EndsWithOccurrenceAndRest(s: string, sep: string, i: nat)
    requires OccursAt(s, sep, i)
    ensures EndsWith(s, sep + s[i + |sep|..])
  {
    assert s[i..] == s[i..i + |sep|] + s[i + |sep|..];
  }
}

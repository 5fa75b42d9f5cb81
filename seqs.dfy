/** Sequence operations behind `find_all`, `select` and the `[::2]` slice. */
module Seqs {

  /** The elements of `s` that `keep` accepts, in their original order: what
      a document search returns, in document order. */
  function Filter<T(!new)>(keep: T -> bool, s: seq<T>): (r: seq<T>)
    ensures |r| <= |s|
    ensures forall x :: x in r <==> x in s && keep(x)
  {
    if s == [] then []
    else (if keep(s[0]) then [s[0]] else []) + Filter(keep, s[1..])
  }

  /** Filtering a concatenation filters each part: the result keeps the
      order of the input. */
  lemma {:induction false} FilterAppend<T(!new)>(keep: T -> bool, a: seq<T>, b: seq<T>)
    ensures Filter(keep, a + b) == Filter(keep, a) + Filter(keep, b)
    decreases |a|
  {
    if a != [] {
      assert (a + b)[1..] == a[1..] + b;
      FilterAppend(keep, a[1..], b);
    } else {
      assert a + b == b;
    }
  }

  /** The first element of a non-empty filter result is the first accepted
      element of the input. */
  lemma {:induction false} FilterHead<T(!new)>(keep: T -> bool, s: seq<T>) returns (i: nat)
    requires Filter(keep, s) != []
    ensures i < |s| && s[i] == Filter(keep, s)[0] && keep(s[i])
    ensures forall j :: 0 <= j < i ==> !keep(s[j])
    decreases |s|
  {
    if keep(s[0]) {
      i := 0;
    } else {
      var k := FilterHead(keep, s[1..]);
      i := k + 1;
    }
  }

  /** Python's `s[::2]`: the elements at even indices. */
  function EveryOther<T>(s: seq<T>): (r: seq<T>)
    ensures |r| == (|s| + 1) / 2
    ensures forall i :: 0 <= i < |r| ==> r[i] == s[2 * i]
  {
    if |s| <= 1 then s else [s[0]] + EveryOther(s[2..])
  }

  /** Each element of `t` twice in a row, as the index page renders its links. */
  function Doubled<T>(t: seq<T>): (r: seq<T>)
    ensures |r| == 2 * |t|
    ensures forall i :: 0 <= i < |r| ==> r[i] == t[i / 2]
  {
    if t == [] then [] else [t[0], t[0]] + Doubled(t[1..])
  }

  /** Taking every other element undoes the doubling: one entry per article,
      in the original order. */
  lemma EveryOtherUndoesDoubled<T>(t: seq<T>)
    ensures EveryOther(Doubled(t)) == t
  {
    var r := EveryOther(Doubled(t));
    assert forall i :: 0 <= i < |r| ==> r[i] == t[i];
  }
}

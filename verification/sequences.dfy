/** Facts about sequences that the record store relies on: order-preserving
    subsequences, and the sorted list of distinct characters. */
module Sequences {

  /** `xs` can be obtained from `ys` by deleting elements, without reordering. */
  predicate SubseqOf<T(==)>(xs: seq<T>, ys: seq<T>)
    decreases |ys|
  {
    if |xs| == 0 then true
    else if |ys| == 0 then false
    else (xs[0] == ys[0] && SubseqOf(xs[1..], ys[1..])) || SubseqOf(xs, ys[1..])
  }

  /** Strictly increasing characters: sorted, and therefore free of duplicates. */
  predicate StrictlyIncreasing(xs: seq<char>) {
    forall i, j :: 0 <= i < j < |xs| ==> xs[i] < xs[j]
  }

  /** Inserts `c` into a strictly increasing sequence, unless it is already there. */
  function Insert(xs: seq<char>, c: char): (r: seq<char>)
    requires StrictlyIncreasing(xs)
    ensures StrictlyIncreasing(r)
    ensures forall x :: x in r <==> x in xs || x == c
    decreases |xs|
  {
    if |xs| == 0 then [c]
    else if c < xs[0] then [c] + xs
    else if c == xs[0] then xs
    else
      var tail := Insert(xs[1..], c);
      assert forall x :: x in xs <==> x == xs[0] || x in xs[1..];
      assert forall k :: 0 <= k < |tail| ==> xs[0] < tail[k] by {
        forall k | 0 <= k < |tail| ensures xs[0] < tail[k] {
          assert tail[k] in tail;
        }
      }
      [xs[0]] + tail
  }

  /** The distinct characters of `cs` in increasing order: Python's `sorted(set(cs))`. */
  function SortedDistinct(cs: seq<char>): (r: seq<char>)
    ensures StrictlyIncreasing(r)
    ensures forall x :: x in r <==> x in cs
    decreases |cs|
  {
    if |cs| == 0 then []
    else
      var r := Insert(SortedDistinct(cs[..|cs| - 1]), cs[|cs| - 1]);
      assert forall x :: x in cs <==> x in cs[..|cs| - 1] || x == cs[|cs| - 1] by {
        assert cs == cs[..|cs| - 1] + [cs[|cs| - 1]];
      }
      r
  }

  /** A strictly increasing sequence is fixed by the characters it holds:
      `sorted(set(...))` has exactly one possible answer. */
  lemma {:induction false} StrictlyIncreasingUnique(xs: seq<char>, ys: seq<char>)
    requires StrictlyIncreasing(xs) && StrictlyIncreasing(ys)
    requires forall x :: x in xs <==> x in ys
    ensures xs == ys
    decreases |xs|
  {
    if |ys| != 0 {
      assert ys[0] in ys;
    }
    if |xs| != 0 {
      assert xs[0] in xs;
      assert |ys| != 0;
      assert ys[0] in ys;
      assert xs[0] == ys[0] by {
        var i :| 0 <= i < |ys| && ys[i] == xs[0];
        var j :| 0 <= j < |xs| && xs[j] == ys[0];
        assert ys[0] <= xs[0];
        assert xs[0] <= ys[0];
      }
      forall x ensures x in xs[1..] <==> x in ys[1..] {
        if x in xs[1..] {
          var i :| 1 <= i < |xs| && xs[i] == x;
          assert x in ys;
          var j :| 0 <= j < |ys| && ys[j] == x;
          assert j != 0;
          assert ys[1..][j - 1] == x;
        }
        if x in ys[1..] {
          var j :| 1 <= j < |ys| && ys[j] == x;
          assert x in xs;
          var i :| 0 <= i < |xs| && xs[i] == x;
          assert i != 0;
          assert xs[1..][i - 1] == x;
        }
      }
      StrictlyIncreasingUnique(xs[1..], ys[1..]);
      assert xs == [xs[0]] + xs[1..];
      assert ys == [ys[0]] + ys[1..];
    }
  }
}

/** Sequence vocabulary for Python's insertion-ordered dicts: the keys of a
    dict filled by a loop are the loop's keys with repeats dropped, in the
    order each key was first seen. */
module Sequences {

  predicate Distinct<T(==)>(s: seq<T>) {
    forall i, j :: 0 <= i < j < |s| ==> s[i] != s[j]
  }

  /** The elements of `xs`, each kept at its first occurrence only. Defined
      on the last element, the way a loop over `xs` extends it. */
  function FirstSeen<T(==)>(xs: seq<T>): (r: seq<T>)
    ensures forall i :: 0 <= i < |r| ==> r[i] in xs
    ensures forall i :: 0 <= i < |xs| ==> xs[i] in r
    ensures Distinct(r)
    ensures |r| <= |xs|
  {
    if xs == [] then []
    else
      var prefix := FirstSeen(xs[..|xs| - 1]);
      var x := xs[|xs| - 1];
      if x in xs[..|xs| - 1] then prefix else prefix + [x]
  }

  /** The position of the first occurrence of `x` in `xs`. */
  function FirstIndex<T(==)>(xs: seq<T>, x: T): (i: nat)
    requires x in xs
    ensures i < |xs| && xs[i] == x
    ensures forall j :: 0 <= j < i ==> xs[j] != x
  {
    if xs[0] == x then 0 else 1 + FirstIndex(xs[1..], x)
  }

  lemma {:induction false} FirstIndexSnoc<T>(xs: seq<T>, y: T, x: T)
    requires x in xs
    ensures FirstIndex(xs + [y], x) == FirstIndex(xs, x)
  {
    if xs[0] != x {
      assert (xs + [y])[1..] == xs[1..] + [y];
      FirstIndexSnoc(xs[1..], y, x);
    }
  }

  /** Every element keeps a place in FirstSeen. */
  lemma FirstSeenCovers<T>(xs: seq<T>, x: nat) returns (i: nat)
    requires x < |xs|
    ensures i < |FirstSeen(xs)| && FirstSeen(xs)[i] == xs[x]
  {
    assert xs[x] in FirstSeen(xs);
    i :| 0 <= i < |FirstSeen(xs)| && FirstSeen(xs)[i] == xs[x];
  }

  lemma FirstSeenSnoc<T>(xs: seq<T>, x: T)
    ensures FirstSeen(xs + [x]) == if x in xs then FirstSeen(xs) else FirstSeen(xs) + [x]
  {
    assert (xs + [x])[..|xs|] == xs;
  }

  /** FirstSeen keeps the order of first occurrences: an earlier element of
      the result was seen earlier in the input. */
  lemma {:induction false} FirstSeenOrder<T>(xs: seq<T>)
    ensures forall i, j :: 0 <= i < j < |FirstSeen(xs)| ==>
      FirstIndex(xs, FirstSeen(xs)[i]) < FirstIndex(xs, FirstSeen(xs)[j])
  {
    if xs != [] {
      var p, x := xs[..|xs| - 1], xs[|xs| - 1];
      assert xs == p + [x];
      FirstSeenOrder(p);
      FirstSeenSnoc(p, x);
      var r := FirstSeen(xs);
      forall i, j | 0 <= i < j < |r|
        ensures FirstIndex(xs, r[i]) < FirstIndex(xs, r[j])
      {
        FirstIndexSnoc(p, x, r[i]);
        if j < |FirstSeen(p)| {
          FirstIndexSnoc(p, x, r[j]);
        } else {
          assert r[j] == x && x !in p;
        }
      }
    }
  }

  /** A sequence without repeats is its own FirstSeen. */
  lemma {:induction false} FirstSeenOfDistinct<T>(xs: seq<T>)
    requires Distinct(xs)
    ensures FirstSeen(xs) == xs
  {
    if xs != [] {
      var p, x := xs[..|xs| - 1], xs[|xs| - 1];
      assert xs == p + [x];
      FirstSeenOfDistinct(p);
      FirstSeenSnoc(p, x);
    }
  }

  /** FirstSeen has one entry per distinct element. */
  lemma {:induction false} FirstSeenCount<T>(xs: seq<T>)
    ensures |FirstSeen(xs)| == |set x | x in xs|
  {
    if xs != [] {
      var p, x := xs[..|xs| - 1], xs[|xs| - 1];
      assert xs == p + [x];
      FirstSeenCount(p);
      FirstSeenSnoc(p, x);
      assert (set y | y in xs) == (set y | y in p) + {x};
    }
  }

  /** Sum of a sequence of naturals, defined on the last element. */
  function Sum(s: seq<nat>): nat {
    if s == [] then 0 else Sum(s[..|s| - 1]) + s[|s| - 1]
  }

  lemma SumSnoc(s: seq<nat>, v: nat)
    ensures Sum(s + [v]) == Sum(s) + v
  {
    assert (s + [v])[..|s|] == s;
  }

  /** Changing one summand changes the sum by the difference. */
  lemma {:induction false} SumUpdate(s: seq<nat>, i: nat, v: nat)
    requires i < |s|
    ensures Sum(s[i := v]) == Sum(s) - s[i] + v
  {
    var n := |s| - 1;
    if i == n {
      assert s[i := v][..n] == s[..n];
    } else {
      SumUpdate(s[..n], i, v);
      assert s[i := v][..n] == s[..n][i := v];
    }
  }
  /** Raising one summand by `delta` raises the sum by `delta`. */
  lemma SumChangeAt(c: seq<nat>, c': seq<nat>, idx: nat, delta: nat)
    requires |c'| == |c| && idx < |c| && c'[idx] == c[idx] + delta
    requires forall j | 0 <= j < |c| && j != idx :: c'[j] == c[j]
    ensures Sum(c') == Sum(c) + delta
  {
    assert c' == c[idx := c'[idx]];
    SumUpdate(c, idx, c'[idx]);
  }

  /** Appending a summand 1 raises the sum by 1. */
  lemma SumGrowsByOne(c: seq<nat>, c': seq<nat>)
    requires |c'| == |c| + 1 && c'[|c|] == 1
    requires forall j | 0 <= j < |c| :: c'[j] == c[j]
    ensures Sum(c') == Sum(c) + 1
  {
    assert c' == c + [1];
    SumSnoc(c, 1);
  }

  /** The parts joined end to end (`list.extend` part after part). */
  function Concat<T>(parts: seq<seq<T>>): seq<T> {
    if parts == [] then [] else parts[0] + Concat(parts[1..])
  }

  /** Joining one more part extends the result by that part. */
  lemma {:induction false} ConcatSnoc<T>(parts: seq<seq<T>>, x: seq<T>)
    ensures Concat(parts + [x]) == Concat(parts) + x
  {
    if parts == [] {
      assert [] + [x] == [x];
      assert [x][1..] == [];
    } else {
      ConcatSnoc(parts[1..], x);
      assert (parts + [x])[1..] == parts[1..] + [x];
    }
  }

  lemma ConcatFour<T>(parts: seq<seq<T>>)
    requires |parts| >= 4
    ensures Concat(parts) == parts[0] + (parts[1] + (parts[2] + (parts[3] + Concat(parts[4..]))))
  {
    assert Concat(parts) == parts[0] + Concat(parts[1..]);
    assert parts[1..][1..] == parts[2..];
    assert Concat(parts[1..]) == parts[1] + Concat(parts[2..]);
    assert parts[2..][1..] == parts[3..];
    assert Concat(parts[2..]) == parts[2] + Concat(parts[3..]);
    assert parts[3..][1..] == parts[4..];
    assert Concat(parts[3..]) == parts[3] + Concat(parts[4..]);
  }

  /** Thirteen parts joined, written out. */
  lemma Concat13<T>(parts: seq<seq<T>>)
    requires |parts| == 13
    ensures Concat(parts) == parts[0] + (parts[1] + (parts[2] + (parts[3] + (parts[4] + (parts[5] + (parts[6]
      + (parts[7] + (parts[8] + (parts[9] + (parts[10] + (parts[11] + parts[12])))))))))))
  {
    ConcatFour(parts);
    var p4 := parts[4..];
    ConcatFour(p4);
    var p8 := p4[4..];
    ConcatFour(p8);
    var p12 := p8[4..];
    assert p12 == [parts[12]];
    assert Concat(p12) == parts[12] + Concat([]);
  }

  lemma AppendAssoc<T>(a: seq<T>, b: seq<T>, c: seq<T>)
    ensures a + (b + c) == (a + b) + c
  {
  }

  /** A prefix one longer is the prefix and the next element. */
  lemma TakeSnoc<T>(s: seq<T>, i: nat)
    requires i < |s|
    ensures s[..i + 1] == s[..i] + [s[i]]
  {
  }

  /** The two halves of a concatenation. */
  lemma Split<T>(a: seq<T>, b: seq<T>)
    ensures (a + b)[..|a|] == a && (a + b)[|a|..] == b
  {
  }

  /** Slicing a suffix is slicing the whole. */
  lemma SuffixSlices<T>(s: seq<T>, i: nat, k: nat)
    requires i + k <= |s|
    ensures s[i..][..k] == s[i..i + k] && s[i..][k..] == s[i + k..]
  {
  }

  /** A slice of a suffix is a slice of the whole. */
  lemma ShiftSlice<T>(s: seq<T>, i: nat, j: nat, k: nat)
    requires j <= k && i + k <= |s|
    ensures s[i..][j..k] == s[i + j..i + k]
  {
  }

  /** Three consecutive parts of a concatenation. */
  lemma ThreeParts<T>(s: seq<T>, x: seq<T>, y: seq<T>, z: seq<T>)
    requires s == x + (y + z)
    ensures s[..|x|] == x && s[|x|..|x| + |y|] == y && s[|x| + |y|..] == z
  {
    Split(x, y + z);
    Split(y, z);
    SuffixSlices(s, |x|, |y|);
  }
}

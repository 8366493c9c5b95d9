/** Types and ring arithmetic shared by the models. */
module Basics {

  type byte = x: nat | x < 256

  datatype Option<T> = None | Some(value: T)

  function Min(a: int, b: int): int { if a < b then a else b }

  function Max(a: int, b: int): int { if a > b then a else b }

  /** A ring offset that may have run past the end once. */
  function Wrap(offset: nat, size: nat): (r: nat)
    requires offset < 2 * size
    ensures r < size
  {
    if offset >= size then offset - size else offset
  }

  lemma ModIsWrap(offset: nat, size: nat)
    requires 0 < size && offset < 2 * size
    ensures offset % size == Wrap(offset, size)
  {
    if offset >= size {
      assert offset == 1 * size + (offset - size);
    }
  }

  /** How far ahead of `from` the ring slot `to` lies. */
  function Distance(from: nat, to: nat, size: nat): (d: nat)
    requires from < size && to < size
    ensures d < size && Wrap(from + d, size) == to
  {
    if to >= from then to - from else to + size - from
  }

  /** All of `a` occurs in `b`, in the same order. */
  ghost predicate Subsequence<T>(a: seq<T>, b: seq<T>)
    decreases |b|
  {
    a == [] ||
    (b != [] && ((a[|a| - 1] == b[|b| - 1] && Subsequence(a[..|a| - 1], b[..|b| - 1])) || Subsequence(a, b[..|b| - 1])))
  }

  lemma SubsequenceAppend<T>(a: seq<T>, b: seq<T>, e: T)
    requires Subsequence(a, b)
    ensures Subsequence(a + [e], b + [e]) && Subsequence(a, b + [e])
  {
    assert (a + [e])[..|a|] == a && (b + [e])[..|b|] == b;
  }

  lemma LastApart<T>(a: seq<T>, s: seq<T>)
    requires s != []
    ensures a + s == (a + s[..|s| - 1]) + [s[|s| - 1]]
  {
  }

  lemma {:induction false} SubsequenceExtend<T>(a: seq<T>, b: seq<T>, s: seq<T>)
    requires Subsequence(a, b)
    ensures Subsequence(a + s, b + s) && Subsequence(a, b + s)
    decreases |s|
  {
    hide Subsequence;
    if s == [] {
      assert a + s == a && b + s == b;
    } else {
      var front, last := s[..|s| - 1], s[|s| - 1];
      SubsequenceExtend(a, b, front);
      SubsequenceAppend(a + front, b + front, last);
      SubsequenceAppend(a, b + front, last);
      LastApart(a, s);
      LastApart(b, s);
    }
  }

  /** A subsequence that is as long as the whole is the whole. */
  lemma {:induction false} SubsequenceIsShorter<T>(a: seq<T>, b: seq<T>)
    requires Subsequence(a, b)
    ensures |a| <= |b| && (|a| == |b| ==> a == b)
    decreases |b|
  {
    if a != [] {
      var n, m := |a| - 1, |b| - 1;
      assert a == a[..n] + [a[n]] && b == b[..m] + [b[m]];
      if a[n] == b[m] && Subsequence(a[..n], b[..m]) {
        SubsequenceIsShorter(a[..n], b[..m]);
      } else {
        SubsequenceIsShorter(a, b[..m]);
      }
    }
  }
}

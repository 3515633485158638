// Facts about sequences that several components share.
module Seqs {

  datatype Option<+T> = None | Some(value: T) {
    function GetOr(default: T): T {
      match this
      case None => default
      case Some(v) => v
    }
  }

  /** The elements of s that satisfy keep, in their original order. */
  function Filter<T>(s: seq<T>, keep: T -> bool): (r: seq<T>)
    ensures forall x | x in r :: x in s && keep(x)
    ensures forall x | x in s && keep(x) :: x in r
    ensures |r| <= |s|
  {
    if s == [] then []
    else (if keep(s[0]) then [s[0]] else []) + Filter(s[1..], keep)
  }

  lemma FilterHead<T>(s: seq<T>, keep: T -> bool)
    requires s != []
    ensures Filter(s, keep) == (if keep(s[0]) then [s[0]] else []) + Filter(s[1..], keep)
  {
  }

  lemma {:induction false} FilterConcat<T>(a: seq<T>, b: seq<T>, keep: T -> bool)
    ensures Filter(a + b, keep) == Filter(a, keep) + Filter(b, keep)
  {
    if a == [] {
      assert a + b == b;
    } else {
      assert (a + b)[1..] == a[1..] + b;
      FilterConcat(a[1..], b, keep);
    }
  }

  /** Filtering keeps every accepted element as often as it occurs, and drops the rest. */
  lemma {:induction false} FilterCount<T>(s: seq<T>, keep: T -> bool, x: T)
    ensures multiset(Filter(s, keep))[x] == if keep(x) then multiset(s)[x] else 0
  {
    if s != [] {
      assert s == [s[0]] + s[1..];
      FilterCount(s[1..], keep, x);
    }
  }

  lemma {:induction false} FilterNone<T>(s: seq<T>, keep: T -> bool)
    requires forall x | x in s :: !keep(x)
    ensures Filter(s, keep) == []
  {
    if s != [] {
      FilterNone(s[1..], keep);
    }
  }

  lemma {:induction false} FilterSame<T>(s: seq<T>, keep: T -> bool, other: T -> bool)
    requires forall x | x in s :: keep(x) == other(x)
    ensures Filter(s, keep) == Filter(s, other)
  {
    if s != [] {
      FilterSame(s[1..], keep, other);
    }
  }

  /** A second filter that implies the first makes the first redundant. */
  lemma {:induction false} FilterTwice<T>(s: seq<T>, coarse: T -> bool, fine: T -> bool)
    requires forall x | x in s && fine(x) :: coarse(x)
    ensures Filter(Filter(s, coarse), fine) == Filter(s, fine)
  {
    if s != [] {
      FilterTwice(s[1..], coarse, fine);
      FilterConcat(if coarse(s[0]) then [s[0]] else [], Filter(s[1..], coarse), fine);
    }
  }

  lemma SwapKeepsMultiset<T>(s: seq<T>, i: nat, j: nat)
    requires i < |s| && j < |s|
    ensures multiset(s[i := s[j]][j := s[i]]) == multiset(s)
  {
  }

  lemma {:induction false} FilterPrefix<T>(s: seq<T>, i: nat, keep: T -> bool)
    requires i < |s|
    ensures Filter(s[..i + 1], keep) == Filter(s[..i], keep) + if keep(s[i]) then [s[i]] else []
  {
    assert s[..i + 1] == s[..i] + [s[i]];
    FilterConcat(s[..i], [s[i]], keep);
  }

  function Without<T>(s: seq<T>, i: nat): (r: seq<T>)
    requires i < |s|
    ensures |r| == |s| - 1
  {
    s[..i] + s[i + 1..]
  }

  function InsertedAt<T>(s: seq<T>, at: nat, x: T): (r: seq<T>)
    requires at <= |s|
    ensures |r| == |s| + 1
  {
    s[..at] + [x] + s[at..]
  }

  lemma WithoutConcat<T>(a: seq<T>, b: seq<T>, i: nat)
    requires i < |a| + |b|
    ensures Without(a + b, i) == if i < |a| then Without(a, i) + b else a + Without(b, i - |a|)
  {
  }

  /** The position of the first element that satisfies p, or |s|. */
  function FirstIndex<T>(s: seq<T>, p: T -> bool): (i: nat)
    ensures i <= |s|
    ensures i < |s| ==> p(s[i])
    ensures forall j | 0 <= j < i :: !p(s[j])
  {
    if s == [] then 0 else if p(s[0]) then 0 else 1 + FirstIndex(s[1..], p)
  }

  ghost predicate NoDuplicates<T>(s: seq<T>) {
    forall i, j | 0 <= i < j < |s| :: s[i] != s[j]
  }
}

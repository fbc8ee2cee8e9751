/**
 * Sequence operations shared by the helpers: Python's prefix slice `s[:n]`,
 * filtering, counting and order-preserving de-duplication.
 */
module Seqs {

  /** Extending a prefix by one element. */
  lemma TakeNext<T>(s: seq<T>, i: nat)
    requires i < |s|
    ensures s[..i + 1] == s[..i] + [s[i]]
  {
  }

  /** `x in xs`, written as a search from the front of `xs`. */
  predicate Among<T(==)>(x: T, xs: seq<T>)
  {
    xs != [] && (xs[0] == x || Among(x, xs[1..]))
  }

  lemma {:induction false} AmongIsIn<T>(x: T, xs: seq<T>)
    ensures Among(x, xs) <==> x in xs
  {
    if xs != [] {
      AmongIsIn(x, xs[1..]);
      assert xs == [xs[0]] + xs[1..];
    }
  }

  /** Python's `s[:n]` for any integer `n` (a negative `n` counts from the end). */
  function Prefix<T>(s: seq<T>, n: int): (r: seq<T>)
    ensures |r| <= |s| && r == s[..|r|]
    ensures n >= 0 ==> |r| == if n < |s| then n else |s|
    ensures n < 0 ==> |r| == if |s| + n > 0 then |s| + n else 0
  {
    if n >= 0 then (if n < |s| then s[..n] else s)
    else (if |s| + n > 0 then s[..|s| + n] else [])
  }

  /** The elements of `s` that satisfy `p`, in their original order. */
  function Filter<T>(s: seq<T>, p: T -> bool): (r: seq<T>)
    ensures |r| <= |s|
    ensures forall x :: x in r ==> x in s && p(x)
  {
    if s == [] then [] else (if p(s[0]) then [s[0]] else []) + Filter(s[1..], p)
  }

  /** `Filter` on a single element. */
  function FilterOne<T>(x: T, p: T -> bool): (r: seq<T>)
    ensures r == Filter([x], p)
  {
    assert [x][1..] == [];
    if p(x) then [x] else []
  }

  /** Filtering one more element of `s`. */
  lemma FilterStep<T>(s: seq<T>, i: nat, p: T -> bool)
    requires i < |s|
    ensures Filter(s[..i + 1], p) == Filter(s[..i], p) + FilterOne(s[i], p)
  {
    TakeNext(s, i);
    FilterConcat(s[..i], [s[i]], p);
  }

  /** The pieces `f(x)` of the elements `x` of `s`, one after the other. */
  function FlatMap<T, U>(s: seq<T>, f: T -> seq<U>): seq<U>
  {
    if s == [] then [] else f(s[0]) + FlatMap(s[1..], f)
  }

  lemma {:induction false} FlatMapConcat<T, U>(a: seq<T>, b: seq<T>, f: T -> seq<U>)
    ensures FlatMap(a + b, f) == FlatMap(a, f) + FlatMap(b, f)
  {
    if a == [] {
      assert a + b == b;
    } else {
      assert (a + b)[1..] == a[1..] + b;
      FlatMapConcat(a[1..], b, f);
    }
  }

  lemma FlatMapStep<T, U>(s: seq<T>, i: nat, f: T -> seq<U>)
    requires i < |s|
    ensures FlatMap(s[..i + 1], f) == FlatMap(s[..i], f) + f(s[i])
  {
    TakeNext(s, i);
    FlatMapConcat(s[..i], [s[i]], f);
    assert FlatMap([s[i]], f) == f(s[i]) + FlatMap([], f);
  }

  lemma {:induction false} FlatMapMembership<T, U>(s: seq<T>, f: T -> seq<U>, y: U)
    ensures y in FlatMap(s, f) <==> exists x :: x in s && y in f(x)
  {
    if s != [] {
      FlatMapMembership(s[1..], f, y);
      assert s == [s[0]] + s[1..];
    }
  }

  lemma {:induction false} FlatMapLength<T, U>(s: seq<T>, f: T -> seq<U>)
    requires forall x :: x in s ==> |f(x)| <= 1
    ensures |FlatMap(s, f)| <= |s|
  {
    if s != [] {
      assert forall x :: x in s[1..] ==> x in s;
      FlatMapLength(s[1..], f);
    }
  }

  lemma {:induction false} FilterMembership<T>(s: seq<T>, p: T -> bool, x: T)
    ensures x in Filter(s, p) <==> x in s && p(x)
  {
    if s != [] {
      FilterMembership(s[1..], p, x);
      assert s == [s[0]] + s[1..];
    }
  }

  /** A filter every element passes keeps the sequence. */
  lemma {:induction false} FilterAll<T>(s: seq<T>, p: T -> bool)
    requires forall x :: x in s ==> p(x)
    ensures Filter(s, p) == s
  {
    if s != [] {
      FilterAll(s[1..], p);
      assert s == [s[0]] + s[1..];
    }
  }

  lemma {:induction false} FilterConcat<T>(a: seq<T>, b: seq<T>, p: T -> bool)
    ensures Filter(a + b, p) == Filter(a, p) + Filter(b, p)
  {
    if a == [] {
      assert a + b == b;
    } else {
      assert (a + b)[1..] == a[1..] + b;
      FilterConcat(a[1..], b, p);
    }
  }

  /** `a` can be obtained from `b` by deleting elements. */
  ghost predicate IsSubsequence<T>(a: seq<T>, b: seq<T>)
  {
    a == [] || (b != [] && ((a[0] == b[0] && IsSubsequence(a[1..], b[1..])) || IsSubsequence(a, b[1..])))
  }

  lemma {:induction false} FilterIsSubsequence<T>(s: seq<T>, p: T -> bool)
    ensures IsSubsequence(Filter(s, p), s)
  {
    if s != [] {
      FilterIsSubsequence(s[1..], p);
      if p(s[0]) {
        assert Filter(s, p) == [s[0]] + Filter(s[1..], p);
        assert Filter(s, p)[1..] == Filter(s[1..], p);
      } else {
        assert Filter(s, p) == Filter(s[1..], p);
      }
    }
  }

  /** The number of occurrences of `x` in `s`. */
  function Count<T(==)>(s: seq<T>, x: T): nat
  {
    if s == [] then 0 else Count(s[..|s| - 1], x) + (if s[|s| - 1] == x then 1 else 0)
  }

  lemma {:induction false} CountPositive<T>(s: seq<T>, x: T)
    ensures Count(s, x) > 0 <==> x in s
  {
    if s != [] {
      CountPositive(s[..|s| - 1], x);
      assert s == s[..|s| - 1] + [s[|s| - 1]];
    }
  }

  predicate Distinct<T(==)>(s: seq<T>)
  {
    forall i, j :: 0 <= i < j < |s| ==> s[i] != s[j]
  }

  /** The index of the first occurrence of `x` in `s`. */
  function FirstIndex<T(==)>(s: seq<T>, x: T): (i: nat)
    requires x in s
    ensures i < |s| && s[i] == x && x !in s[..i]
  {
    if s[0] == x then 0 else FirstIndex(s[1..], x) + 1
  }

  /**
   * The elements of `s` that satisfy `keep`, each once, in the order of their
   * first occurrence: what appending to a list after a `not in` test builds.
   */
  function Dedup<T(==)>(s: seq<T>, keep: T -> bool): seq<T>
  {
    if s == [] then []
    else
      var d := Dedup(s[..|s| - 1], keep);
      var x := s[|s| - 1];
      if keep(x) && x !in d then d + [x] else d
  }

  lemma {:induction false} DedupMembership<T>(s: seq<T>, keep: T -> bool)
    ensures forall x :: x in Dedup(s, keep) <==> x in s && keep(x)
  {
    if s != [] {
      DedupMembership(s[..|s| - 1], keep);
      assert s == s[..|s| - 1] + [s[|s| - 1]];
    }
  }

  lemma {:induction false} DedupDistinct<T>(s: seq<T>, keep: T -> bool)
    ensures Distinct(Dedup(s, keep))
  {
    if s != [] {
      DedupDistinct(s[..|s| - 1], keep);
    }
  }

  lemma FirstIndexOfExtension<T>(s: seq<T>, y: T, x: T)
    requires x in s
    ensures x in s + [y] && FirstIndex(s + [y], x) == FirstIndex(s, x)
  {
    if s[0] != x {
      assert (s + [y])[1..] == s[1..] + [y];
      FirstIndexOfExtension(s[1..], y, x);
    }
  }

  /** Dedup lists the kept elements in the order in which they first occur in `s`. */
  lemma {:induction false} DedupFirstOccurrenceOrder<T>(s: seq<T>, keep: T -> bool)
    ensures forall x :: x in Dedup(s, keep) ==> x in s
    ensures forall i, j :: 0 <= i < j < |Dedup(s, keep)| ==>
              FirstIndex(s, Dedup(s, keep)[i]) < FirstIndex(s, Dedup(s, keep)[j])
  {
    DedupMembership(s, keep);
    if s != [] {
      var p, x := s[..|s| - 1], s[|s| - 1];
      assert s == p + [x];
      var d := Dedup(p, keep);
      DedupFirstOccurrenceOrder(p, keep);
      DedupMembership(p, keep);
      forall y | y in d ensures FirstIndex(s, y) == FirstIndex(p, y) {
        FirstIndexOfExtension(p, x, y);
      }
      if keep(x) && x !in d {
        assert x !in p;
        assert FirstIndex(s, x) == |p|;
      }
    }
  }
}

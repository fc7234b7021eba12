/** Shared result types. */
module Common {

  datatype Option<+T> = None | Some(value: T)

  /** The outcome of an operation that may raise an exception in the Python program. */
  datatype Result<+T, +E> = Ok(value: T) | Err(error: E)

  /** No element occurs twice. */
  ghost predicate Distinct<T>(s: seq<T>) {
    forall i, j :: 0 <= i < j < |s| ==> s[i] != s[j]
  }

  lemma {:induction false} DistinctWithinSet<T>(s: seq<T>, bound: set<T>)
    requires Distinct(s)
    requires forall x :: x in s ==> x in bound
    ensures |s| <= |bound|
  {
    if s != [] {
      var x := s[|s| - 1];
      assert x !in s[..|s| - 1];
      DistinctWithinSet(s[..|s| - 1], bound - {x});
    }
  }

  lemma WithoutOne<T>(s: seq<T>, i: nat)
    requires i < |s|
    ensures s == s[..i] + [s[i]] + s[i + 1..]
    ensures multiset(s) == multiset(s[..i] + s[i + 1..]) + multiset{s[i]}
  {
    var l, r := s[..i], s[i + 1..];
    assert s == l + [s[i]] + r;
    assert multiset(s) == multiset(l) + multiset{s[i]} + multiset(r);
    assert multiset(l + r) == multiset(l) + multiset(r);
  }

  /** In a permutation of `a`, the last element of `a` can be taken out. */
  lemma TakeOut<T>(a: seq<T>, b: seq<T>) returns (l: seq<T>, r: seq<T>)
    requires a != [] && multiset(a) == multiset(b)
    ensures b == l + [a[|a| - 1]] + r
    ensures multiset(a[..|a| - 1]) == multiset(l + r)
  {
    var n := |a| - 1;
    WithoutOne(a, n);
    assert a[..n] + a[n + 1..] == a[..n];
    assert a[n] in multiset(b);
    var i :| 0 <= i < |b| && b[i] == a[n];
    WithoutOne(b, i);
    l, r := b[..i], b[i + 1..];
    assert multiset(a[..n]) == multiset(a) - multiset{a[n]};
    assert multiset(l + r) == multiset(b) - multiset{a[n]};
  }

  lemma {:induction false} DistinctCount<T>(s: seq<T>, x: T)
    requires Distinct(s)
    ensures multiset(s)[x] == if x in s then 1 else 0
  {
    if s != [] {
      var t := s[1..];
      DistinctCount(t, x);
      assert s == [s[0]] + t;
      assert s[0] !in t;
    }
  }

  /** Two lists without repeats that have the same members are permutations of each other. */
  lemma SameMembersPermute<T>(s: seq<T>, t: seq<T>)
    requires Distinct(s) && Distinct(t)
    requires forall x :: x in s <==> x in t
    ensures multiset(s) == multiset(t)
  {
    forall x ensures multiset(s)[x] == multiset(t)[x] {
      DistinctCount(s, x);
      DistinctCount(t, x);
    }
  }

  /** A list has no repeats exactly when it counts nothing twice. */
  lemma {:induction false} DistinctIffCountedOnce<T>(s: seq<T>)
    ensures Distinct(s) <==> forall x :: multiset(s)[x] <= 1
  {
    if Distinct(s) {
      forall x ensures multiset(s)[x] <= 1 { DistinctCount(s, x); }
    } else {
      var i, j :| 0 <= i < j < |s| && s[i] == s[j];
      WithoutOne(s, j);
      assert s[i] in s[..j] + s[j + 1..] by { assert (s[..j] + s[j + 1..])[i] == s[i]; }
      assert multiset(s)[s[i]] >= 2;
    }
  }
}

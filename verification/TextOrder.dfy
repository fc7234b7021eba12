/** Python's order on strings (by code point) and `sorted` on lists ordered by a text key. */
module TextOrder {

  predicate Leq(a: string, b: string) {
    a == [] || (b != [] && (a[0] < b[0] || (a[0] == b[0] && Leq(a[1..], b[1..]))))
  }

  lemma LeqTotal(a: string, b: string)
    ensures Leq(a, b) || Leq(b, a)
  {
  }

  lemma {:induction false} LeqAntisymmetric(a: string, b: string)
    requires Leq(a, b) && Leq(b, a)
    ensures a == b
  {
    if a != [] {
      LeqAntisymmetric(a[1..], b[1..]);
      assert a == [a[0]] + a[1..] && b == [b[0]] + b[1..];
    }
  }

  lemma {:induction false} LeqTransitive(a: string, b: string, c: string)
    requires Leq(a, b) && Leq(b, c)
    ensures Leq(a, c)
  {
    if a != [] && a[0] == b[0] == c[0] {
      LeqTransitive(a[1..], b[1..], c[1..]);
    }
  }

  lemma LeqRefl(a: string)
    ensures Leq(a, a)
  {
  }

  // ----- Sorting by a key -----

  ghost predicate SortedBy<T>(key: T -> string, s: seq<T>) {
    forall i, j :: 0 <= i < j < |s| ==> Leq(key(s[i]), key(s[j]))
  }

  function InsertBy<T>(key: T -> string, x: T, s: seq<T>): (r: seq<T>)
    ensures multiset(r) == multiset{x} + multiset(s)
  {
    if s == [] then [x]
    else if Leq(key(x), key(s[0])) then [x] + s
    else
      assert s == [s[0]] + s[1..];
      [s[0]] + InsertBy(key, x, s[1..])
  }

  function SortBy<T>(key: T -> string, s: seq<T>): (r: seq<T>)
    ensures multiset(r) == multiset(s)
  {
    if s == [] then []
    else
      assert s == [s[0]] + s[1..];
      InsertBy(key, s[0], SortBy(key, s[1..]))
  }

  lemma {:induction false} InsertBySorted<T>(key: T -> string, x: T, s: seq<T>)
    requires SortedBy(key, s)
    ensures SortedBy(key, InsertBy(key, x, s))
  {
    if s == [] {
    } else if Leq(key(x), key(s[0])) {
      forall j | 0 <= j < |s| ensures Leq(key(x), key(s[j])) {
        if j > 0 { LeqTransitive(key(x), key(s[0]), key(s[j])); }
      }
    } else {
      InsertBySorted(key, x, s[1..]);
      LeqTotal(key(x), key(s[0]));
      var tail := InsertBy(key, x, s[1..]);
      forall j | 0 <= j < |tail| ensures Leq(key(s[0]), key(tail[j])) {
        assert tail[j] in multiset(tail);
        assert tail[j] == x || tail[j] in s[1..];
      }
    }
  }

  lemma {:induction false} SortBySorted<T>(key: T -> string, s: seq<T>)
    ensures SortedBy(key, SortBy(key, s))
  {
    if s != [] {
      SortBySorted(key, s[1..]);
      InsertBySorted(key, s[0], SortBy(key, s[1..]));
    }
  }

  /** An element of `s` is known by its key. */
  ghost predicate KeysDecide<T>(key: T -> string, s: seq<T>) {
    forall x, y :: x in s && y in s && key(x) == key(y) ==> x == y
  }

  lemma HeadIsLeast<T>(key: T -> string, a: seq<T>, x: T)
    requires SortedBy(key, a) && x in a
    ensures Leq(key(a[0]), key(x))
  {
    LeqRefl(key(x));
  }

  lemma SplitFirst<T>(a: seq<T>)
    requires a != []
    ensures a == [a[0]] + a[1..]
    ensures multiset(a[1..]) == multiset(a) - multiset{a[0]}
  {
    assert a == [a[0]] + a[1..];
  }

  lemma HeadsEqual<T>(key: T -> string, a: seq<T>, b: seq<T>)
    requires SortedBy(key, a) && SortedBy(key, b) && multiset(a) == multiset(b) && KeysDecide(key, a)
    requires a != [] && b != []
    ensures a[0] == b[0]
  {
    assert a[0] in multiset(b) && b[0] in multiset(a);
    HeadIsLeast(key, a, b[0]);
    HeadIsLeast(key, b, a[0]);
    LeqAntisymmetric(key(a[0]), key(b[0]));
  }

  /** Elements known by their keys have one sorted arrangement. */
  lemma {:induction false} SortedByUnique<T>(key: T -> string, a: seq<T>, b: seq<T>)
    requires SortedBy(key, a) && SortedBy(key, b) && multiset(a) == multiset(b) && KeysDecide(key, a)
    ensures a == b
  {
    assert |multiset(a)| == |a| && |multiset(b)| == |b|;
    if a != [] {
      HeadsEqual(key, a, b);
      SplitFirst(a);
      SplitFirst(b);
      SortedByUnique(key, a[1..], b[1..]);
    }
  }

  lemma {:induction false} SortByDecides<T>(key: T -> string, s: seq<T>)
    requires KeysDecide(key, s)
    ensures KeysDecide(key, SortBy(key, s))
  {
    forall x | x in SortBy(key, s) ensures x in s {
      assert x in multiset(SortBy(key, s));
      assert x in multiset(s);
    }
  }

  /** Two lists whose members are known by their keys sort alike exactly when they are permutations. */
  lemma {:induction false} SortByEqualIffPermutation<T>(key: T -> string, a: seq<T>, b: seq<T>)
    requires KeysDecide(key, a)
    ensures SortBy(key, a) == SortBy(key, b) <==> multiset(a) == multiset(b)
  {
    hide SortBy, SortedBy, KeysDecide;
    if multiset(a) == multiset(b) {
      SortBySorted(key, a);
      SortBySorted(key, b);
      SortByDecides(key, a);
      SortedByUnique(key, SortBy(key, a), SortBy(key, b));
    }
  }

  // ----- `sorted` on strings -----

  function Itself(s: string): string { s }

  function Sort(s: seq<string>): (r: seq<string>)
    ensures multiset(r) == multiset(s)
  {
    SortBy(Itself, s)
  }

  /** `sorted(a) == sorted(b)` compares the two lists as multisets. */
  lemma SortEqualIffPermutation(a: seq<string>, b: seq<string>)
    ensures Sort(a) == Sort(b) <==> multiset(a) == multiset(b)
  {
    SortByEqualIffPermutation(Itself, a, b);
  }
}

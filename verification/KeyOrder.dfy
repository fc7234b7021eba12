/**
  Where the printer's key order parts from RFC 8785: the code sorts keys by code point, section 3.2.3 sorts them
  by UTF-16 code unit.
 */
module KeyOrder {
  import opened TextOrder

  predicate Astral(c: char) {
    c as int >= 0x10000
  }

  /** A character of the basic plane above the surrogates. */
  predicate AboveSurrogates(c: char) {
    0xE000 <= c as int < 0x10000
  }

  /** The UTF-16 code units of a character. */
  function Units(c: char): (u: seq<nat>)
    ensures |u| == if Astral(c) then 2 else 1
  {
    if !Astral(c) then [c as int]
    else
      var n := c as int - 0x10000;
      [0xD800 + n / 0x400, 0xDC00 + n % 0x400]
  }

  function Utf16(s: string): seq<nat> {
    if s == [] then [] else Units(s[0]) + Utf16(s[1..])
  }

  predicate UnitsLeq(a: seq<nat>, b: seq<nat>) {
    a == [] || (b != [] && (a[0] < b[0] || (a[0] == b[0] && UnitsLeq(a[1..], b[1..]))))
  }

  /** The first characters in which the keys differ are one above the surrogates and one astral. */
  predicate Swapped(a: string, b: string) {
    a != [] && b != []
    && if a[0] == b[0] then Swapped(a[1..], b[1..])
       else (AboveSurrogates(a[0]) && Astral(b[0])) || (Astral(a[0]) && AboveSurrogates(b[0]))
  }

  lemma SamePrefix(u: seq<nat>, a: seq<nat>, b: seq<nat>)
    requires 1 <= |u| <= 2
    ensures UnitsLeq(u + a, u + b) <==> UnitsLeq(a, b)
  {
    if |u| == 1 {
      assert (u + a)[1..] == a && (u + b)[1..] == b;
    } else {
      assert (u + a)[1..] == [u[1]] + a && (u + b)[1..] == [u[1]] + b;
      assert ([u[1]] + a)[1..] == a && ([u[1]] + b)[1..] == b;
    }
  }

  /** Two different characters compare in UTF-16 as in code points, unless one is astral and the other above the
      surrogates. */
  lemma HeadsDiffer(c: char, d: char, a: seq<nat>, b: seq<nat>)
    requires c != d
    ensures UnitsLeq(Units(c) + a, Units(d) + b) <==>
            if (AboveSurrogates(c) && Astral(d)) || (Astral(c) && AboveSurrogates(d)) then d < c else c < d
  {
    var u, v := Units(c), Units(d);
    var x, y := u + a, v + b;
    assert x[0] == u[0] && y[0] == v[0];
    if Astral(c) && Astral(d) {
      assert x[1..][0] == u[1] && y[1..][0] == v[1];
    }
  }

  /** Both orders agree on two keys exactly when these do not first differ in a character above the surrogates
      against an astral one. */
  lemma {:induction false} OrdersAgreeIff(a: string, b: string)
    ensures (Leq(a, b) <==> UnitsLeq(Utf16(a), Utf16(b))) <==> !Swapped(a, b)
  {
    if a != [] && b != [] {
      if a[0] == b[0] {
        OrdersAgreeIff(a[1..], b[1..]);
        SamePrefix(Units(a[0]), Utf16(a[1..]), Utf16(b[1..]));
      } else {
        HeadsDiffer(a[0], b[0], Utf16(a[1..]), Utf16(b[1..]));
      }
    }
  }

  ghost predicate UnitSorted<T>(key: T -> string, s: seq<T>) {
    forall i, j :: 0 <= i < j < |s| ==> UnitsLeq(Utf16(key(s[i])), Utf16(key(s[j])))
  }

  /** What the printer sorts is in the order of RFC 8785 exactly when no two keys are swapped. */
  lemma SortedOrderIsRfcIff<T>(key: T -> string, entries: seq<T>)
    ensures var s := SortBy(key, entries);
            UnitSorted(key, s) <==> forall i, j :: 0 <= i < j < |s| ==> !Swapped(key(s[i]), key(s[j]))
  {
    hide Leq, UnitsLeq, Utf16, Swapped;
    var s := SortBy(key, entries);
    SortBySorted(key, entries);
    forall i, j | 0 <= i < j < |s|
      ensures UnitsLeq(Utf16(key(s[i])), Utf16(key(s[j]))) <==> !Swapped(key(s[i]), key(s[j]))
    {
      assert Leq(key(s[i]), key(s[j]));
      OrdersAgreeIff(key(s[i]), key(s[j]));
    }
  }
}

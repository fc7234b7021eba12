/** Decimal numerals as Python's `str(int)` writes and `int(str)` reads them. */
module Decimal {

  predicate IsDigit(c: char) {
    '0' <= c <= '9'
  }

  function DigitValue(c: char): (d: nat)
    requires IsDigit(c)
    ensures d < 10
  {
    c as int - '0' as int
  }

  function NatStr(n: nat): (s: string)
    ensures |s| > 0
    ensures forall i :: 0 <= i < |s| ==> IsDigit(s[i])
  {
    if n < 10 then ["0123456789"[n]] else NatStr(n / 10) + ["0123456789"[n % 10]]
  }

  function IntStr(n: int): (s: string)
    ensures |s| > 0 && (s[0] == '-' <==> n < 0)
    ensures forall i :: 0 < i < |s| ==> IsDigit(s[i])
  {
    if n < 0 then "-" + NatStr(-n) else NatStr(n)
  }

  /** Number of leading digits of `s`. */
  function Span(s: string): (n: nat)
    ensures n <= |s|
    ensures forall i :: 0 <= i < n ==> IsDigit(s[i])
    ensures n < |s| ==> !IsDigit(s[n])
  {
    if s == [] || !IsDigit(s[0]) then 0 else 1 + Span(s[1..])
  }

  /** The value of a digit string. */
  function NatVal(s: string): nat
    requires forall i :: 0 <= i < |s| ==> IsDigit(s[i])
  {
    if s == [] then 0 else 10 * NatVal(s[..|s| - 1]) + DigitValue(s[|s| - 1])
  }

  /** Nothing in `s` would lengthen a numeral printed just before it. */
  predicate Stops(s: string) {
    s == [] || !IsDigit(s[0])
  }

  lemma {:induction false} NatRoundTrip(n: nat)
    ensures NatVal(NatStr(n)) == n
  {
    if n >= 10 {
      NatRoundTrip(n / 10);
      var s := NatStr(n);
      assert s[..|s| - 1] == NatStr(n / 10);
    }
  }

  /** A numeral ends where the digits end, so what follows it can be split off. */
  lemma SpanOfNumeral(n: nat, rest: string)
    requires Stops(rest)
    ensures Span(NatStr(n) + rest) == |NatStr(n)|
  {
    var whole := NatStr(n) + rest;
    assert forall i :: 0 <= i < |NatStr(n)| ==> whole[i] == NatStr(n)[i];
    assert rest != [] ==> whole[|NatStr(n)|] == rest[0];
  }

  lemma NatCancel(a: nat, b: nat, s: string, t: string)
    requires NatStr(a) + s == NatStr(b) + t
    requires Stops(s) && Stops(t)
    ensures a == b && s == t
  {
    SpanOfNumeral(a, s);
    SpanOfNumeral(b, t);
    assert NatStr(a) == (NatStr(a) + s)[..|NatStr(a)|] == (NatStr(b) + t)[..|NatStr(b)|] == NatStr(b);
    NatRoundTrip(a);
    NatRoundTrip(b);
    assert s == (NatStr(a) + s)[|NatStr(a)|..] == (NatStr(b) + t)[|NatStr(b)|..] == t;
  }

  /** Two numerals followed by non-digits agree only if the numbers and the rests agree. */
  lemma IntCancel(a: int, b: int, s: string, t: string)
    requires IntStr(a) + s == IntStr(b) + t
    requires Stops(s) && Stops(t)
    ensures a == b && s == t
  {
    hide NatStr, Stops;
    SignShows(a, s);
    SignShows(b, t);
    if a < 0 {
      NegativeTail(a, s);
      NegativeTail(b, t);
      NatCancel(-a, -b, s, t);
    } else {
      NatCancel(a, b, s, t);
    }
  }

  lemma SignShows(a: int, s: string)
    ensures IntStr(a) + s != [] && ((IntStr(a) + s)[0] == '-' <==> a < 0)
  {
    hide IntStr;
    assert (IntStr(a) + s)[0] == IntStr(a)[0];
  }

  lemma NegativeTail(a: int, s: string)
    requires a < 0
    ensures (IntStr(a) + s)[1..] == NatStr(-a) + s
  {
  }
}

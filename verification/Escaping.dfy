/** JSON string literals as `json.dumps(..., ensure_ascii=True)` writes them. */
module Escaping {

  predicate IsHex(c: char) {
    '0' <= c <= '9' || 'a' <= c <= 'f'
  }

  function HexDigit(d: nat): (c: char)
    requires d < 16
    ensures IsHex(c) && HexValue(c) == d
  {
    if d < 10 then '0' + d as char else 'a' + (d - 10) as char
  }

  function HexValue(c: char): (d: nat)
    requires IsHex(c)
  {
    if c <= '9' then c as int - '0' as int else 10 + (c as int - 'a' as int)
  }

  /** `\u` and the four hexadecimal digits of a UTF-16 code unit, then `rest`. */
  function UnitThen(u: nat, rest: string): (s: string)
    requires u < 0x10000
    ensures |s| == 6 + |rest| && s[0] == '\\' && s[1] == 'u'
  {
    ['\\', 'u', HexDigit(u / 0x1000), HexDigit(u / 0x100 % 16), HexDigit(u / 16 % 16), HexDigit(u % 16)] + rest
  }

  lemma FourDigits(u: nat)
    requires u < 0x10000
    ensures u == 0x1000 * (u / 0x1000) + 0x100 * (u / 0x100 % 16) + 16 * (u / 16 % 16) + u % 16
  {
    assert u / 0x100 == 16 * (u / 0x1000) + u / 0x100 % 16;
    assert u / 16 == 16 * (u / 0x100) + u / 16 % 16;
  }

  lemma UnitCancel(a: nat, b: nat, x: string, y: string)
    requires a < 0x10000 && b < 0x10000
    requires UnitThen(a, x) == UnitThen(b, y)
    ensures a == b && x == y
  {
    var l, r := UnitThen(a, x), UnitThen(b, y);
    assert l[2] == r[2] && l[3] == r[3] && l[4] == r[4] && l[5] == r[5];
    FourDigits(a);
    FourDigits(b);
    assert x == l[6..] && y == r[6..];
  }

  /** The two-character escapes; characters without one give `'u'`. */
  function Short(c: char): char {
    if c == '"' || c == '\\' then c
    else if c == '\n' then 'n'
    else if c == '\r' then 'r'
    else if c == '\t' then 't'
    else if c == 12 as char then 'f'
    else if c == 8 as char then 'b'
    else 'u'
  }

  predicate Plain(c: char) {
    ' ' <= c <= '~' && Short(c) == 'u'
  }

  /** The `\u` escape of a scalar value, a surrogate pair above the BMP, then `rest`. */
  function WideThen(n: nat, rest: string): (s: string)
    requires n < 0xd800 || 0xe000 <= n < 0x110000
    ensures |s| > |rest| + 1 && s[0] == '\\' && s[1] == 'u'
  {
    if n < 0x10000 then UnitThen(n, rest)
    else UnitThen(0xd800 + (n - 0x10000) / 0x400, UnitThen(0xdc00 + (n - 0x10000) % 0x400, rest))
  }

  /** The escape of one Unicode scalar value, then `rest`. */
  function EscThen(c: char, rest: string): (s: string)
    ensures |s| > |rest| && s[0] != '"'
  {
    if Plain(c) then [c] + rest
    else if Short(c) != 'u' then ['\\', Short(c)] + rest
    else WideThen(c as int, rest)
  }

  lemma UnitsCancel(a: nat, b: nat, c: nat, d: nat, x: string, y: string)
    requires a < 0x10000 && b < 0x10000 && c < 0x10000 && d < 0x10000
    requires UnitThen(a, UnitThen(c, x)) == UnitThen(b, UnitThen(d, y))
    ensures a == b && c == d && x == y
  {
    UnitCancel(a, b, UnitThen(c, x), UnitThen(d, y));
    UnitCancel(c, d, x, y);
  }

  lemma PairCancel(m: int, n: int, x: string, y: string)
    requires 0x10000 <= m < 0x110000 && 0x10000 <= n < 0x110000
    requires WideThen(m, x) == WideThen(n, y)
    ensures m == n && x == y
  {
    var p, q := (m - 0x10000) / 0x400, (n - 0x10000) / 0x400;
    var i, j := (m - 0x10000) % 0x400, (n - 0x10000) % 0x400;
    assert m == 0x10000 + 0x400 * p + i && n == 0x10000 + 0x400 * q + j;
    UnitsCancel(0xd800 + p, 0xd800 + q, 0xdc00 + i, 0xdc00 + j, x, y);
  }

  /** A BMP scalar is never a surrogate, so its escape is not the start of a pair. */
  lemma BmpIsNotLead(m: nat, n: nat, x: string, y: string)
    requires (m < 0xd800 || 0xe000 <= m < 0x10000) && 0x10000 <= n < 0x110000
    ensures WideThen(m, x) != WideThen(n, y)
  {
    if WideThen(m, x) == WideThen(n, y) {
      UnitCancel(m, 0xd800 + (n - 0x10000) / 0x400, x, UnitThen(0xdc00 + (n - 0x10000) % 0x400, y));
    }
  }

  lemma WideCancel(m: nat, n: nat, x: string, y: string)
    requires m < 0xd800 || 0xe000 <= m < 0x110000
    requires n < 0xd800 || 0xe000 <= n < 0x110000
    requires WideThen(m, x) == WideThen(n, y)
    ensures m == n && x == y
  {
    if m < 0x10000 && n < 0x10000 {
      UnitCancel(m, n, x, y);
    } else if m < 0x10000 {
      BmpIsNotLead(m, n, x, y);
    } else if n < 0x10000 {
      BmpIsNotLead(n, m, y, x);
    } else {
      PairCancel(m, n, x, y);
    }
  }

  lemma ShortCancel(c: char, d: char, x: string, y: string)
    requires Short(c) != 'u' && Short(d) != 'u'
    requires ['\\', Short(c)] + x == ['\\', Short(d)] + y
    ensures c == d && x == y
  {
    var l, r := ['\\', Short(c)] + x, ['\\', Short(d)] + y;
    assert l[1] == r[1];
    assert x == l[2..] && y == r[2..];
  }

  lemma SameForm(c: char, d: char, x: string, y: string)
    requires EscThen(c, x) == EscThen(d, y)
    ensures Plain(c) <==> Plain(d)
    ensures Short(c) == 'u' <==> Short(d) == 'u'
  {
    var l, r := EscThen(c, x), EscThen(d, y);
    assert l[0] == r[0];
    assert Plain(c) ==> l[0] == c != '\\';
    assert Plain(d) ==> r[0] == d != '\\';
    assert !Plain(c) ==> l[1] == Short(c);
    assert !Plain(d) ==> r[1] == Short(d);
  }

  /** Escapes form a prefix code over the Unicode scalar values. */
  lemma EscCancel(c: char, d: char, x: string, y: string)
    requires EscThen(c, x) == EscThen(d, y)
    ensures c == d && x == y
  {
    SameForm(c, d, x, y);
    if Plain(c) {
      assert x == EscThen(c, x)[1..] && y == EscThen(d, y)[1..];
      assert [c][0] == EscThen(c, x)[0];
    } else if Short(c) != 'u' {
      ShortCancel(c, d, x, y);
    } else {
      WideCancel(c as int, d as int, x, y);
    }
  }

  /** The body and closing quote of a literal, then `rest`. */
  function BodyThen(s: string, rest: string): (r: string)
    ensures |r| > |rest|
  {
    if s == [] then ['"'] + rest else EscThen(s[0], BodyThen(s[1..], rest))
  }

  function QuoteThen(s: string, rest: string): (r: string)
    ensures |r| > |rest| && r[0] == '"'
  {
    ['"'] + BodyThen(s, rest)
  }

  lemma {:induction false} BodyCancel(s: string, t: string, x: string, y: string)
    requires BodyThen(s, x) == BodyThen(t, y)
    ensures s == t && x == y
  {
    assert BodyThen(s, x)[0] == BodyThen(t, y)[0];
    if s != [] && t != [] {
      EscCancel(s[0], t[0], BodyThen(s[1..], x), BodyThen(t[1..], y));
      BodyCancel(s[1..], t[1..], x, y);
      assert s == [s[0]] + s[1..] && t == [t[0]] + t[1..];
    } else if s == [] && t == [] {
      assert x == BodyThen(s, x)[1..] && y == BodyThen(t, y)[1..];
    }
  }

  /** The closing quote ends a literal: literals with tails agree only part by part. */
  lemma QuoteCancel(s: string, t: string, x: string, y: string)
    requires QuoteThen(s, x) == QuoteThen(t, y)
    ensures s == t && x == y
  {
    assert QuoteThen(s, x)[1..] == BodyThen(s, x);
    assert QuoteThen(t, y)[1..] == BodyThen(t, y);
    BodyCancel(s, t, x, y);
  }

  lemma UnitAppend(u: nat, x: string, y: string)
    requires u < 0x10000
    ensures UnitThen(u, x) + y == UnitThen(u, x + y)
  {
  }

  lemma WideAppend(n: nat, x: string, y: string)
    requires n < 0xd800 || 0xe000 <= n < 0x110000
    ensures WideThen(n, x) + y == WideThen(n, x + y)
  {
    if n < 0x10000 {
      UnitAppend(n, x, y);
    } else {
      var lo := 0xdc00 + (n - 0x10000) % 0x400;
      UnitAppend(lo, x, y);
      UnitAppend(0xd800 + (n - 0x10000) / 0x400, UnitThen(lo, x), y);
    }
  }

  lemma EscAppend(c: char, x: string, y: string)
    ensures EscThen(c, x) + y == EscThen(c, x + y)
  {
    if Plain(c) {
    } else if Short(c) != 'u' {
    } else {
      WideAppend(c as int, x, y);
    }
  }

  lemma {:induction false} BodyAppend(s: string, x: string, y: string)
    ensures BodyThen(s, x) + y == BodyThen(s, x + y)
  {
    if s != [] {
      BodyAppend(s[1..], x, y);
      EscAppend(s[0], BodyThen(s[1..], x), y);
    }
  }

  lemma QuoteAppend(s: string, x: string, y: string)
    ensures QuoteThen(s, x) + y == QuoteThen(s, x + y)
  {
    BodyAppend(s, x, y);
  }

  ghost predicate Printable(s: string) {
    forall c :: c in s ==> ' ' <= c <= '~'
  }

  lemma UnitPrintable(u: nat, rest: string)
    requires u < 0x10000 && Printable(rest)
    ensures Printable(UnitThen(u, rest))
  {
  }

  lemma EscPrintable(c: char, rest: string)
    requires Printable(rest)
    ensures Printable(EscThen(c, rest))
  {
    var n := c as int;
    if Plain(c) {
    } else if Short(c) != 'u' {
    } else if n < 0x10000 {
      UnitPrintable(n, rest);
    } else {
      var lo := 0xdc00 + (n - 0x10000) % 0x400;
      UnitPrintable(lo, rest);
      UnitPrintable(0xd800 + (n - 0x10000) / 0x400, UnitThen(lo, rest));
    }
  }

  lemma {:induction false} BodyPrintable(s: string, rest: string)
    requires Printable(rest)
    ensures Printable(BodyThen(s, rest))
  {
    if s != [] {
      BodyPrintable(s[1..], rest);
      EscPrintable(s[0], BodyThen(s[1..], rest));
    }
  }
}

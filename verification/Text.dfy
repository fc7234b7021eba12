/** Splitting text at a separator, as Python's `str.split` does. */
module Text {

  /** `s.split(c)`. */
  function Split(s: string, c: char): (parts: seq<string>)
    ensures |parts| > 0
  {
    if s == [] then [[]]
    else
      var rest := Split(s[1..], c);
      if s[0] == c then [[]] + rest else [[s[0]] + rest[0]] + rest[1..]
  }

  function Last(parts: seq<string>): string
    requires parts != []
  {
    parts[|parts| - 1]
  }

  lemma {:induction false} SplitFree(a: string, c: char)
    requires c !in a
    ensures Split(a, c) == [a]
  {
    if a != [] {
      SplitFree(a[1..], c);
      assert a == [a[0]] + a[1..];
    }
  }

  lemma {:induction false} SplitHead(a: string, c: char, b: string)
    requires c !in a
    ensures Split(a + [c] + b, c) == [a] + Split(b, c)
  {
    var s := a + [c] + b;
    if a == [] {
      assert s[1..] == b;
    } else {
      SplitHead(a[1..], c, b);
      assert s[1..] == a[1..] + [c] + b;
      assert a == [a[0]] + a[1..];
    }
  }

  lemma {:induction false} SplitLastFree(s: string, c: char)
    ensures c !in Last(Split(s, c))
    ensures |Split(s, c)| == 1 ==> c !in s
  {
    if s != [] {
      SplitLastFree(s[1..], c);
    }
  }

  lemma SplitCons(d: char, s: string, c: char)
    ensures |Split([d] + s, c)| == |Split(s, c)| + if d == c then 1 else 0
    ensures d == c || |Split(s, c)| >= 2 ==> Last(Split([d] + s, c)) == Last(Split(s, c))
  {
    assert ([d] + s)[1..] == s;
  }

  /** What follows a separator is split on its own: the last part and the number of parts. */
  lemma {:induction false} SplitAfter(a: string, c: char, b: string)
    ensures Last(Split(a + [c] + b, c)) == Last(Split(b, c))
    ensures |Split(a + [c] + b, c)| == |Split(a, c)| + |Split(b, c)|
    decreases |a|, 0
  {
    if a == [] {
      SplitCons(c, b, c);
      assert a + [c] + b == [c] + b;
    } else {
      SplitAfterStep(a[0], a[1..], c, b);
      assert a == [a[0]] + a[1..];
    }
  }

  lemma {:induction false} SplitAfterStep(d: char, a: string, c: char, b: string)
    ensures Last(Split([d] + a + [c] + b, c)) == Last(Split(b, c))
    ensures |Split([d] + a + [c] + b, c)| == |Split([d] + a, c)| + |Split(b, c)|
    decreases |a|, 1
  {
    SplitAfter(a, c, b);
    SplitCons(d, a + [c] + b, c);
    SplitCons(d, a, c);
    assert [d] + a + [c] + b == [d] + (a + [c] + b);
  }

  /** Equal texts agree before and after their first separator. */
  lemma CutFirst(c: char, a: string, b: string, x: string, y: string)
    requires c !in a && c !in b
    requires a + [c] + x == b + [c] + y
    ensures a == b && x == y
  {
    var l, r := a + [c] + x, b + [c] + y;
    assert l[|a|] == c && r[|b|] == c;
    assert forall k :: 0 <= k < |a| ==> l[k] == a[k];
    assert forall k :: 0 <= k < |b| ==> r[k] == b[k];
    assert a == l[..|a|] && b == r[..|b|];
    assert x == l[|a| + 1..] && y == r[|b| + 1..];
  }

  /** Equal texts agree before and after their last separator. */
  lemma CutLast(c: char, a: string, b: string, x: string, y: string)
    requires c !in x && c !in y
    requires a + [c] + x == b + [c] + y
    ensures a == b && x == y
  {
    var l, r := a + [c] + x, b + [c] + y;
    assert l[|a|] == c && r[|b|] == c;
    assert forall j :: |a| < j < |l| ==> l[j] == x[j - |a| - 1] != c;
    assert forall j :: |b| < j < |r| ==> r[j] == y[j - |b| - 1] != c;
    assert a == l[..|a|] && b == r[..|b|];
    assert x == l[|a| + 1..] && y == r[|b| + 1..];
  }

  function Join(parts: seq<string>, c: char): string {
    if |parts| == 0 then "" else if |parts| == 1 then parts[0] else parts[0] + [c] + Join(parts[1..], c)
  }

  /** The parts have no separator in them, and put together with it they are the text. */
  lemma {:induction false} SplitJoins(s: string, c: char)
    ensures Join(Split(s, c), c) == s
    ensures forall k :: 0 <= k < |Split(s, c)| ==> c !in Split(s, c)[k]
  {
    if s != [] {
      SplitJoins(s[1..], c);
      var rest := Split(s[1..], c);
      assert s == [s[0]] + s[1..];
      if s[0] == c {
        assert ([[]] + rest)[1..] == rest;
      } else {
        assert ([[s[0]] + rest[0]] + rest[1..])[1..] == rest[1..];
      }
    }
  }

  lemma {:induction false} JoinLast(parts: seq<string>, c: char) returns (head: string)
    requires |parts| >= 2
    ensures Join(parts, c) == head + [c] + Last(parts)
  {
    var rest := parts[1..];
    if |rest| == 1 {
      head := parts[0];
    } else {
      var more := JoinLast(rest, c);
      head := parts[0] + [c] + more;
    }
  }

  // ----- White space -----

  /** `str.isspace` for one character. */
  predicate IsSpace(c: char) {
    var n := c as int;
    9 <= n <= 13 || 28 <= n <= 32 || n == 0x85 || n == 0xa0 || n == 0x1680 || 0x2000 <= n <= 0x200a
    || n == 0x2028 || n == 0x2029 || n == 0x202f || n == 0x205f || n == 0x3000
  }

  function StripLeft(s: string): string {
    if s != [] && IsSpace(s[0]) then StripLeft(s[1..]) else s
  }

  function StripRight(s: string): string {
    if s != [] && IsSpace(s[|s| - 1]) then StripRight(s[..|s| - 1]) else s
  }

  function Strip(s: string): string {
    StripRight(StripLeft(s))
  }

  ghost predicate AllSpace(s: string) {
    forall i :: 0 <= i < |s| ==> IsSpace(s[i])
  }

  lemma {:induction false} StripLeftLeaves(s: string) returns (before: string)
    ensures s == before + StripLeft(s) && AllSpace(before)
    ensures StripLeft(s) != "" ==> !IsSpace(StripLeft(s)[0])
  {
    before := "";
    if s != "" && IsSpace(s[0]) {
      before := StripLeftLeaves(s[1..]);
      before := [s[0]] + before;
    }
  }

  lemma {:induction false} StripRightLeaves(s: string) returns (after: string)
    ensures s == StripRight(s) + after && AllSpace(after)
    ensures StripRight(s) != "" ==> !IsSpace(StripRight(s)[|StripRight(s)| - 1])
  {
    after := "";
    if s != "" && IsSpace(s[|s| - 1]) {
      after := StripRightLeaves(s[..|s| - 1]);
      after := after + [s[|s| - 1]];
    }
  }

  /** Stripping takes white space off both ends, all of it and nothing else. */
  lemma StripLeaves(s: string) returns (before: string, after: string)
    ensures s == before + Strip(s) + after && AllSpace(before) && AllSpace(after)
    ensures var t := Strip(s); t != "" ==> !IsSpace(t[0]) && !IsSpace(t[|t| - 1])
  {
    before := StripLeftLeaves(s);
    after := StripRightLeaves(StripLeft(s));
    assert Strip(s) != "" ==> Strip(s)[0] == StripLeft(s)[0];
  }
}

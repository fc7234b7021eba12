/** What the redaction of hub/coherence/evidence.py achieves, and what its re-check before sealing can see. */
module Redaction {
  import opened Common
  import opened Escaping
  import opened Canon
  import opened Digests
  import opened Assertions
  import opened Evidence

  // ----- Occurrences -----

  /** `r` stands in `s` from position `j` on. */
  ghost predicate Stands(s: string, r: string, j: nat) {
    j + |r| <= |s| && s[j..j + |r|] == r
  }

  lemma {:induction false} StandsContains(s: string, r: string, j: nat)
    requires Stands(s, r, j)
    ensures Contains(s, r)
  {
    if j > 0 {
      assert s[1..][j - 1..j - 1 + |r|] == s[j..j + |r|];
      StandsContains(s[1..], r, j - 1);
    }
  }

  lemma {:induction false} ContainsStands(s: string, r: string) returns (j: nat)
    requires Contains(s, r)
    ensures Stands(s, r, j)
  {
    if s[..|r|] == r {
      j := 0;
    } else {
      j := ContainsStands(s[1..], r);
      assert s[1..][j..j + |r|] == s[j + 1..j + 1 + |r|];
      j := j + 1;
    }
  }

  lemma ContainsAfter(p: string, s: string, r: string)
    requires Contains(s, r)
    ensures Contains(p + s, r)
  {
    var j := ContainsStands(s, r);
    assert (p + s)[|p| + j..|p| + j + |r|] == s[j..j + |r|];
    StandsContains(p + s, r, |p| + j);
  }

  // ----- Redacting once -----

  /** Laid `k` places behind the marker's first character, `r` agrees with it wherever the two overlap. */
  predicate Overlaps(r: string, k: int) {
    -|r| < k < |MARKER| && forall i :: 0 <= i < |r| && 0 <= i + k < |MARKER| ==> r[i] == MARKER[i + k]
  }

  /** `r` can be laid over a marker, wholly or in part, so that they agree. */
  predicate Touches(r: string) {
    exists k :: -|r| < k < |MARKER| && Overlaps(r, k)
  }

  /** What stands at the front of a redacted text and cannot be a marker's beginning was there before. */
  lemma {:induction false} FrontWasThere(s: string, p: string, r: string, i: nat)
    requires p != "" && !Touches(r) && i < |r|
    requires |r| - i <= |Replace(s, p)| && Replace(s, p)[..|r| - i] == r[i..]
    ensures |r| - i <= |s| && s[..|r| - i] == r[i..]
  {
    var o := Replace(s, p);
    if |s| >= |p| {
      if s[..|p|] == p {
        MarkerFront(s, p, r, i);
      } else {
        assert o[1..] == Replace(s[1..], p);
        assert o[..|r| - i][0] == r[i..][0];
        if i + 1 < |r| {
          assert o[1..][..|r| - i - 1] == o[..|r| - i][1..] == r[i + 1..];
          FrontWasThere(s[1..], p, r, i + 1);
          assert s[..|r| - i] == [s[0]] + s[1..][..|r| - i - 1];
          assert r[i..] == [r[i]] + r[i + 1..];
        }
      }
    }
  }

  lemma MarkerFront(s: string, p: string, r: string, i: nat)
    requires p != "" && |s| >= |p| && s[..|p|] == p && i < |r|
    requires |r| - i <= |Replace(s, p)| && Replace(s, p)[..|r| - i] == r[i..]
    ensures Overlaps(r, 0 - i as int)
  {
    var o := Replace(s, p);
    assert o == MARKER + Replace(s[|p|..], p);
    forall j: nat | i <= j < |r| && j - i < |MARKER| ensures r[j] == MARKER[j - i] {
      assert r[j] == r[i..][j - i] == o[..|r| - i][j - i] == o[j - i];
    }
  }

  /** Redacting `p` brings no `r` into being. */
  lemma {:induction false} ReplaceKeepsOut(s: string, p: string, r: string)
    requires p != "" && r != "" && !Touches(r)
    ensures Contains(Replace(s, p), r) ==> Contains(s, r) && p != r
  {
    hide Overlaps, Touches;
    var o := Replace(s, p);
    if |s| < |p| {
      TooShort(s, p);
    } else if s[..|p|] == p {
      ReplaceKeepsOut(s[|p|..], p, r);
      if Contains(o, r) {
        PastMarker(Replace(s[|p|..], p), r);
        ContainsAfter(s[..|p|], s[|p|..], r);
        assert s[..|p|] + s[|p|..] == s;
      }
    } else {
      ReplaceKeepsOut(s[1..], p, r);
      assert o[1..] == Replace(s[1..], p);
      if |r| <= |o| && o[..|r|] == r { FrontWasThere(s, p, r, 0); }
    }
  }

  lemma TooShort(s: string, r: string)
    requires |s| < |r|
    ensures !Contains(s, r)
  {
  }

  lemma PastMarker(rest: string, r: string)
    requires r != "" && !Touches(r) && Contains(MARKER + rest, r)
    ensures Contains(rest, r)
  {
    var s := MARKER + rest;
    var j := ContainsStands(s, r);
    if j < |MARKER| {
      forall i | 0 <= i < |r| && 0 <= i + j < |MARKER| ensures r[i] == MARKER[i + j] {
        assert r[i] == s[j..j + |r|][i];
      }
      assert Overlaps(r, j);
    } else {
      assert rest[j - |MARKER|..j - |MARKER| + |r|] == s[j..j + |r|];
      StandsContains(rest, r, j - |MARKER|);
    }
  }

  // ----- Redacting a list of secrets -----

  lemma {:induction false} ScrubKeepsOut(s: string, secrets: seq<string>, r: string)
    requires "" !in secrets && r != "" && !Touches(r)
    ensures Contains(Scrub(s, secrets), r) ==> Contains(s, r) && r !in secrets
    decreases |secrets|
  {
    if secrets != [] {
      ReplaceKeepsOut(s, secrets[0], r);
      ScrubKeepsOut(Replace(s, secrets[0]), secrets[1..], r);
    }
  }

  /** A text around another secret, whose redaction puts `r` together. */
  datatype Trap = Trap(before: string, secret: string, after: string)

  function TrapText(t: Trap): string {
    t.before + (t.secret + t.after)
  }

  predicate Fresh(c: char, r: string) {
    r != "" && c != r[0] && c != r[|r| - 1]
  }

  /** A control character that neither begins nor ends `r`, from `n` on. */
  function FreshChar(n: nat, r: string): (c: char)
    requires r != "" && n < 10
    ensures Fresh(c, r) && n <= c as int < n + 3
  {
    var last := (n + 2) as char;
    assert last as int == n + 2 && (n + 1) as char as int == n + 1 && n as char as int == n;
    if Fresh(n as char, r) then n as char else if Fresh((n + 1) as char, r) then (n + 1) as char else last
  }

  /** One character, then another as often as `r` is long. */
  function TrapSecret(r: string): (z: string)
    requires r != ""
    ensures |z| == |r| + 1 && z[0] < 4 as char
    ensures forall i :: 0 < i < |z| ==> Fresh(z[i], r) && 4 as char <= z[i] < 7 as char
    ensures Fresh(z[0], r)
  {
    var c := FreshChar(4, r);
    [FreshChar(1, r)] + seq(|r|, _ => c)
  }

  /** The parts of `r` that stand out over the marker when `r` is laid `k` places behind the marker's beginning. */
  function TrapFor(r: string, k: int): Trap
    requires r != "" && Overlaps(r, k)
  {
    Trap(if k < 0 then r[..-k] else "", TrapSecret(r), if |MARKER| < |r| + k then r[|MARKER| - k..] else "")
  }

  lemma TrapIsUntouched(r: string, k: int)
    requires r != "" && Overlaps(r, k)
    ensures !Contains(TrapText(TrapFor(r, k)), r)
  {
    var t := TrapFor(r, k);
    var s, n := TrapText(t), |t.before|;
    forall j: nat | j + |r| <= |s| ensures !Stands(s, r, j) {
      var piece, last := s[j..j + |r|], |r| - 1;
      assert piece[0] == s[j] && piece[last] == s[j + last];
      assert forall i :: n <= i < n + |t.secret| ==> s[i] == t.secret[i - n] && Fresh(s[i], r);
      assert Fresh(piece[0], r) || Fresh(piece[last], r);
    }
    NowhereIsNotContained(s, r);
  }

  lemma NowhereIsNotContained(s: string, r: string)
    requires forall j: nat | j + |r| <= |s| :: !Stands(s, r, j)
    ensures !Contains(s, r)
  {
    if Contains(s, r) { var _ := ContainsStands(s, r); }
  }

  lemma {:induction false} SkipsBefore(a: string, z: string, b: string)
    requires z != "" && |a| < |z| && forall i :: 0 < i < |z| ==> z[i] != z[0]
    ensures Replace(a + (z + b), z) == a + (MARKER + Replace(b, z))
  {
    hide Replace;
    var s := a + (z + b);
    if a == "" {
      assert s == z + b;
      FoundInFront(z, b);
      assert a + (MARKER + Replace(b, z)) == MARKER + Replace(b, z);
    } else {
      SkipsBefore(a[1..], z, b);
      assert s[1..] == a[1..] + (z + b);
      LaterStart(a, z, b);
      NotInFront(s, z);
      Rejoined(a, MARKER + Replace(b, z));
    }
  }

  lemma LaterStart(a: string, z: string, b: string)
    requires 0 < |a| < |z| && forall i :: 0 < i < |z| ==> z[i] != z[0]
    ensures (a + (z + b))[..|z|] != z
  {
    var s := a + (z + b);
    assert s[..|z|][|a|] == s[|a|] == z[0] != z[|a|];
  }

  lemma Rejoined(a: string, t: string)
    requires a != ""
    ensures [a[0]] + (a[1..] + t) == a + t
  {
  }

  lemma FoundInFront(z: string, b: string)
    requires z != ""
    ensures Replace(z + b, z) == MARKER + Replace(b, z)
  {
    assert (z + b)[..|z|] == z && (z + b)[|z|..] == b;
  }

  lemma NotInFront(s: string, z: string)
    requires z != "" && |s| >= |z| && s[..|z|] != z
    ensures Replace(s, z) == [s[0]] + Replace(s[1..], z)
  {
  }

  lemma TrapSprings(r: string, k: int)
    requires r != "" && Overlaps(r, k)
    ensures Contains(Replace(TrapText(TrapFor(r, k)), TrapSecret(r)), r)
  {
    hide Replace, Contains;
    var t := TrapFor(r, k);
    SkipsBefore(t.before, t.secret, t.after);
    ReplaceMissesShort(t.after, t.secret);
    LaidTogether(r, k);
  }

  lemma LaidTogether(r: string, k: int)
    requires r != "" && Overlaps(r, k)
    ensures Contains(TrapFor(r, k).before + (MARKER + TrapFor(r, k).after), r)
  {
    hide Contains, TrapFor, Overlaps;
    var t, j := TrapFor(r, k), if k < 0 then 0 else k;
    var o := t.before + (MARKER + t.after);
    forall i: nat | i < |r| ensures j + i < |o| && o[j + i] == r[i] {
      LaidChar(r, k, i);
    }
    LaidChar(r, k, |r| - 1);
    assert |o| >= j + |r| && o[j..j + |r|] == r;
    StandsContains(o, r, j);
  }

  lemma LaidChar(r: string, k: int, i: nat)
    requires i < |r| && Overlaps(r, k)
    ensures var t, j := TrapFor(r, k), if k < 0 then 0 else k;
            var o := t.before + (MARKER + t.after);
            j + i < |o| && o[j + i] == r[i]
  {
    hide TrapSecret;
    var t, o := TrapFor(r, k), i + k;
    if o < 0 {
      assert t.before[i] == r[i];
    } else if o < |MARKER| {
      assert MARKER[o] == r[i];
    } else {
      assert t.after[o - |MARKER|] == r[i];
    }
  }

  lemma ReplaceMissesShort(s: string, r: string)
    requires |s| < |r|
    ensures Replace(s, r) == s
  {
  }

  lemma ReplaceMisses(s: string, r: string)
    requires r != "" && !Contains(s, r)
    ensures Replace(s, r) == s
  {
    if |s| >= |r| { ReplaceMisses(s[1..], r); }
  }

  /** A secret that touches the marker can be put together by the redaction of another. */
  lemma TrapHolds(r: string, k: int)
    requires r != "" && Overlaps(r, k)
    ensures Contains(Scrub(TrapText(TrapFor(r, k)), [r, TrapSecret(r)]), r)
  {
    hide Replace, TrapFor, TrapText, Overlaps;
    var s, z := TrapText(TrapFor(r, k)), TrapSecret(r);
    TrapIsUntouched(r, k);
    TrapSprings(r, k);
    ReplaceMisses(s, r);
    assert [r, z][1..] == [z] && [z][1..] == [];
    assert Scrub(s, [r, z]) == Scrub(s, [z]) == Replace(s, z);
  }

  /** The secret is gone from the text after redaction. */
  ghost predicate Gone(s: string, secrets: seq<string>, r: string)
    requires "" !in secrets
  {
    !Contains(Scrub(s, secrets), r)
  }

  /** Redaction removes a granted secret from every text, whatever else is granted, exactly when it cannot overlap
      the marker. */
  lemma ScrubFinalIff(r: string)
    requires r != ""
    ensures (forall s, secrets :: "" !in secrets && r in secrets ==> Gone(s, secrets, r)) <==> !Touches(r)
  {
    hide Overlaps, Contains, Scrub;
    if k :| -|r| < k < |MARKER| && Overlaps(r, k) {
      TrapHolds(r, k);
      var secrets := [r, TrapSecret(r)];
      assert "" !in secrets && r in secrets && !Gone(TrapText(TrapFor(r, k)), secrets, r);
    } else {
      forall s, secrets | "" !in secrets && r in secrets ensures Gone(s, secrets, r) {
        ScrubKeepsOut(s, secrets, r);
      }
    }
  }

  lemma WithinBrackets(r: string, k: int)
    requires Overlaps(r, k)
    ensures k <= 0 ==> '[' in r
    ensures k > 0 && |r| + k >= |MARKER| ==> ']' in r
  {
    assert k <= 0 ==> r[-k] == MARKER[0] == '[';
    assert k > 0 && |r| + k >= 10 ==> r[9 - k] == MARKER[9] == ']';
  }

  /** Without square brackets, only a part of the word between them touches the marker. */
  lemma TouchesWithoutBrackets(r: string)
    requires r != "" && '[' !in r && ']' !in r
    ensures Touches(r) <==> Contains("REDACTED", r)
  {
    var inner := "REDACTED";
    assert MARKER[0] == '[' && MARKER[9] == ']' && forall i :: 0 <= i < 8 ==> MARKER[i + 1] == inner[i];
    forall k: int | -|r| < k < |MARKER| && Overlaps(r, k) ensures Contains(inner, r) {
      WithinBrackets(r, k);
      assert inner[k - 1..k - 1 + |r|] == r;
      StandsContains(inner, r, k - 1);
    }
    if Contains(inner, r) {
      var j := ContainsStands(inner, r);
      forall i | 0 <= i < |r| && 0 <= i + j + 1 < |MARKER| ensures r[i] == MARKER[i + j + 1] {
        assert r[i] == inner[j..j + |r|][i];
      }
      assert Overlaps(r, j + 1);
    }
  }

  // ----- What the re-check sees -----

  /** Some text or key in `v` holds `r`. */
  ghost predicate Shows(v: Value, r: string)
    decreases v
  {
    match v
    case Str(s) => Contains(s, r)
    case Arr(items) => exists k :: 0 <= k < |items| && Shows(items[k], r)
    case Obj(entries) => exists k :: 0 <= k < |entries| && (Contains(entries[k].key, r) || Shows(entries[k].value, r))
    case _ => false
  }

  ghost predicate AllPlain(r: string) {
    forall c :: c in r ==> Escaping.Plain(c)
  }

  lemma ContainsAfterEscape(c: char, rest: string, r: string)
    requires Contains(rest, r)
    ensures Contains(EscThen(c, rest), r)
  {
    hide EscThen;
    EscAppend(c, [], rest);
    assert [] + rest == rest;
    ContainsAfter(EscThen(c, []), rest, r);
  }

  lemma {:induction false} PlainFront(s: string, r: string, rest: string)
    requires AllPlain(r) && |r| <= |s| && s[..|r|] == r
    ensures |r| <= |BodyThen(s, rest)| && BodyThen(s, rest)[..|r|] == r
  {
    if r != [] {
      assert s[0] == s[..|r|][0] == r[0];
      assert s[1..][..|r| - 1] == s[..|r|][1..] == r[1..];
      PlainFront(s[1..], r[1..], rest);
      assert BodyThen(s, rest) == [r[0]] + BodyThen(s[1..], rest);
      assert r == [r[0]] + r[1..];
    }
  }

  /** Plain characters are printed as they are. */
  lemma {:induction false} QuotedShows(s: string, r: string, rest: string)
    requires AllPlain(r) && Contains(s, r)
    ensures Contains(BodyThen(s, rest), r)
  {
    if s[..|r|] == r {
      PlainFront(s, r, rest);
      StandsContains(BodyThen(s, rest), r, 0);
    } else {
      QuotedShows(s[1..], r, rest);
      ContainsAfterEscape(s[0], BodyThen(s[1..], rest), r);
    }
  }

  lemma ContainsAfterValue(v: Value, rest: string, r: string)
    requires Contains(rest, r)
    ensures Contains(PrintThen(v, rest), r)
  {
    hide PrintThen;
    PrintAppend(v, [], rest);
    assert [] + rest == rest;
    ContainsAfter(PrintThen(v, []), rest, r);
  }

  lemma ContainsAfterQuote(s: string, rest: string, r: string)
    requires Contains(rest, r)
    ensures Contains(QuoteThen(s, rest), r)
  {
    hide QuoteThen;
    QuoteAppend(s, [], rest);
    assert [] + rest == rest;
    ContainsAfter(QuoteThen(s, []), rest, r);
  }

  lemma {:induction false} PrintShows(v: Value, r: string, rest: string)
    requires AllPlain(r) && Shows(v, r)
    ensures Contains(PrintThen(v, rest), r)
    decreases v, 1
  {
    match v
    case Str(s) =>
      QuotedShows(s, r, rest);
      ContainsAfter(['"'], BodyThen(s, rest), r);
    case Arr(items) =>
      var k :| 0 <= k < |items| && Shows(items[k], r);
      ArrayShows(items, k, r, rest);
      ContainsAfter(['['], ArrayBody(items, rest), r);
    case Obj(entries) =>
      var k :| 0 <= k < |entries| && (Contains(entries[k].key, r) || Shows(entries[k].value, r));
      ObjectShows(entries, k, r, rest);
      ContainsAfter(['{'], ObjectBody(entries, rest), r);
  }

  lemma {:induction false} ArrayShows(items: seq<Value>, k: nat, r: string, rest: string)
    requires AllPlain(r) && k < |items| && Shows(items[k], r)
    ensures Contains(ArrayBody(items, rest), r)
    decreases items, 0
  {
    hide Contains;
    if k == 0 {
      PrintShows(items[0], r, ItemsThen(items[1..], rest));
    } else {
      ArrayShows(items[1..], k - 1, r, rest);
      ContainsAfter([','], ArrayBody(items[1..], rest), r);
      ContainsAfterValue(items[0], ItemsThen(items[1..], rest), r);
    }
  }

  lemma {:induction false} ObjectShows(entries: seq<Entry>, k: nat, r: string, rest: string)
    requires AllPlain(r) && k < |entries| && (Contains(entries[k].key, r) || Shows(entries[k].value, r))
    ensures Contains(ObjectBody(entries, rest), r)
    decreases entries, 0
  {
    hide Contains, Shows;
    var e, others := entries[0], MembersThen(entries[1..], rest);
    var printed := PrintThen(e.value, others);
    if k > 0 {
      ObjectShows(entries[1..], k - 1, r, rest);
      ContainsAfter([','], ObjectBody(entries[1..], rest), r);
      ContainsAfterValue(e.value, others, r);
    } else if Contains(e.key, r) {
      QuotedShows(e.key, r, [':'] + printed);
      ContainsAfter(['"'], BodyThen(e.key, [':'] + printed), r);
    } else {
      PrintShows(e.value, r, others);
    }
    if k > 0 || !Contains(e.key, r) {
      ContainsAfter([':'], printed, r);
      ContainsAfterQuote(e.key, [':'] + printed, r);
    }
  }

  lemma {:induction false} NormShows(v: Value, r: string)
    requires Shows(v, r)
    ensures Shows(Norm(v), r)
    decreases v
  {
    match v
    case Arr(items) =>
      var k :| 0 <= k < |items| && Shows(items[k], r);
      NormShows(items[k], r);
      assert Norm(v).items[k] == Norm(items[k]);
    case Obj(entries) =>
      var k :| 0 <= k < |entries| && (Contains(entries[k].key, r) || Shows(entries[k].value, r));
      if Shows(entries[k].value, r) { NormShows(entries[k].value, r); }
      var e := NormEntries(entries)[k];
      SortMember(NormEntries(entries), e);
      var j :| 0 <= j < |SortEntries(NormEntries(entries))| && SortEntries(NormEntries(entries))[j] == e;
      assert Norm(v).entries[j] == e;
    case _ =>
  }

  lemma CanonicalShows(v: Value, r: string)
    requires AllPlain(r) && Shows(v, r)
    ensures Contains(Canonical(v), r)
  {
    NormShows(v, r);
    PrintShows(Norm(v), r, []);
  }

  /** No canonical text holds a character that is not printable ASCII. */
  lemma CanonicalHides(v: Value, r: string)
    requires Contains(Canonical(v), r)
    ensures Printable(r)
  {
    hide Canonical;
    CanonPrintable(v);
    var j := ContainsStands(Canonical(v), r);
    forall c | c in r ensures c in Canonical(v) {
      var i :| 0 <= i < |r| && r[i] == c;
      assert Canonical(v)[j..j + |r|][i] == c;
    }
  }

  ghost predicate Unescaped(r: string) {
    '"' !in r && '\\' !in r
  }

  /** The re-check finds a secret that is left in any value exactly when the secret is printable ASCII. */
  lemma ReCheckSeesIff(r: string)
    requires r != "" && Unescaped(r)
    ensures (forall v :: Shows(v, r) ==> Contains(Canonical(v), r)) <==> Printable(r)
  {
    hide Canonical;
    if Printable(r) {
      forall v | Shows(v, r) ensures Contains(Canonical(v), r) {
        CanonicalShows(v, r);
      }
    } else {
      assert r[..|r|] == r;
      assert Shows(Str(r), r);
      if Contains(Canonical(Str(r)), r) { CanonicalHides(Str(r), r); }
    }
  }

  // ----- What is sealed -----

  /** The texts a finding hands to its evidence. */
  function Recorded(f: Finding): seq<string> {
    [f.assertionId, f.key, f.expected, f.observed] + f.locations
  }

  /** Some text of the evidence still holds `r`. */
  ghost predicate Kept(f: Finding, secrets: seq<string>, r: string)
    requires "" !in secrets
  {
    exists t :: t in Recorded(f) && !Gone(t, secrets, r)
  }

  lemma KeptShows(f: Finding, secrets: seq<string>, r: string)
    requires "" !in secrets && Kept(f, secrets, r)
    ensures Shows(EvidenceValue(f, secrets), r)
  {
    hide Contains, Scrub;
    var v := EvidenceValue(f, secrets);
    var t :| t in Recorded(f) && !Gone(t, secrets, r);
    if t in f.locations {
      var i :| 0 <= i < |f.locations| && f.locations[i] == t;
      var listed := v.entries[2].value;
      assert Shows(listed.items[i], r);
      assert Shows(listed, r);
    } else {
      assert Shows(v.entries[0].value, r) || Shows(v.entries[1].value, r) || Shows(v.entries[3].value, r)
             || Shows(v.entries[4].value, r);
    }
  }

  /** The finding is refused, or no text of its evidence holds the secret. */
  ghost predicate NotSilent(h: Hash, root: Path, f: Finding, secrets: seq<string>, r: string)
    requires "" !in secrets
  {
    Fault(h, root, f, secrets).None? ==> !Kept(f, secrets, r)
  }

  lemma VisibleIsNotSilent(h: Hash, root: Path, f: Finding, secrets: seq<string>, r: string)
    requires "" !in secrets && r in secrets && AllPlain(r)
    ensures NotSilent(h, root, f, secrets, r)
  {
    hide Contains, Scrub, Canonical, EvidenceValue, Locate, IsId;
    if Kept(f, secrets, r) {
      KeptShows(f, secrets, r);
      CanonicalShows(EvidenceValue(f, secrets), r);
      var k :| 0 <= k < |secrets| && secrets[k] == r;
      assert Leaks(EvidenceBytes(f, secrets), secrets);
    }
  }

  lemma FinalIsNotSilent(h: Hash, root: Path, f: Finding, secrets: seq<string>, r: string)
    requires "" !in secrets && r in secrets && !Touches(r)
    ensures NotSilent(h, root, f, secrets, r)
  {
    hide Contains, Scrub, Touches, Fault;
    forall t ensures Gone(t, secrets, r) {
      ScrubKeepsOut(t, secrets, r);
    }
  }

  /** A finding with nothing in it but what was observed. */
  function Observing(text: string): Finding {
    Finding("a", "", None, [], "", text, Block, None, None, NoFindingReason, [])
  }

  /** When no secret is printable ASCII, the re-check sees nothing. */
  lemma UnprintablePasses(h: Hash, root: Path, text: string, secrets: seq<string>)
    requires HexDigits(h) && "" !in secrets && forall k :: 0 <= k < |secrets| ==> !Printable(secrets[k])
    ensures Fault(h, root, Observing(text), secrets).None?
  {
    hide Contains, Scrub, Canonical, Fault, EvidenceValue, HexDigits;
    SealStaysInside(h, root, Observing(text), secrets);
    var v := EvidenceValue(Observing(text), secrets);
    forall k | 0 <= k < |secrets| ensures !Contains(Canonical(v), secrets[k]) {
      if Contains(Canonical(v), secrets[k]) { CanonicalHides(v, secrets[k]); }
    }
  }

  lemma SilentSeal(h: Hash, root: Path, r: string, k: int)
    requires HexDigits(h) && r != "" && Overlaps(r, k) && !Printable(r)
    ensures !NotSilent(h, root, Observing(TrapText(TrapFor(r, k))), [r, TrapSecret(r)], r)
  {
    hide Contains, Scrub, Fault, Overlaps, TrapFor, TrapText, HexDigits;
    var z := TrapSecret(r);
    var f, secrets := Observing(TrapText(TrapFor(r, k))), [r, z];
    TrapHolds(r, k);
    assert f.observed in Recorded(f) && !Gone(f.observed, secrets, r);
    assert z[0] in z && !Printable(z);
    UnprintablePasses(h, root, f.observed, secrets);
  }

  const E_ACUTE := "\U{e9}"
  const U_UMLAUT := "\U{fc}"

  /** Two secrets and a text with which it happens. */
  lemma SilentlySealed(h: Hash, root: Path)
    requires HexDigits(h)
    ensures var f, secrets := Observing(E_ACUTE + U_UMLAUT), [E_ACUTE + "[", U_UMLAUT];
            Fault(h, root, f, secrets).None? && Scrub(f.observed, secrets) == E_ACUTE + MARKER
  {
    hide Fault, HexDigits, Replace;
    var r, z, s := E_ACUTE + "[", U_UMLAUT, E_ACUTE + U_UMLAUT;
    assert E_ACUTE[0] in r && U_UMLAUT[0] in z;
    UnprintablePasses(h, root, s, [r, z]);
    assert s[1] == z[0] != r[1] && s[0] != z[0];
    TwoApart(s, r);
    OneOfTwo(s, z);
    assert [r, z][1..] == [z] && [z][1..] == [];
    assert Scrub(s, [r, z]) == Scrub(s, [z]) == Replace(s, z);
    assert [s[0]] == E_ACUTE;
  }

  lemma OneOfTwo(s: string, z: string)
    requires |s| == 2 && |z| == 1 && s[0] != z[0] == s[1]
    ensures Replace(s, z) == [s[0]] + MARKER
  {
    FoundInFront(z, "");
    assert z + "" == z && s[1..] == z && MARKER + "" == MARKER;
    NotInFront(s, z);
  }

  lemma TwoApart(s: string, r: string)
    requires |s| == 2 && |r| == 2 && s != r
    ensures Replace(s, r) == s
  {
    assert s[..2] == s && s == [s[0]] + s[1..];
  }

  /** No granted secret is ever sealed silently, whatever the findings and the other secrets, exactly when it cannot
      overlap the marker or is printable ASCII. */
  lemma NeverSilentIff(h: Hash, root: Path, r: string)
    requires HexDigits(h) && r != "" && Unescaped(r)
    ensures (forall f, secrets :: "" !in secrets && r in secrets ==> NotSilent(h, root, f, secrets, r)) <==>
            !Touches(r) || Printable(r)
  {
    hide NotSilent, HexDigits, Overlaps;
    if Printable(r) {
      assert AllPlain(r);
    }
    if !Touches(r) || Printable(r) {
      forall f, secrets | "" !in secrets && r in secrets ensures NotSilent(h, root, f, secrets, r) {
        if Printable(r) {
          VisibleIsNotSilent(h, root, f, secrets, r);
        } else {
          FinalIsNotSilent(h, root, f, secrets, r);
        }
      }
    } else {
      var k :| -|r| < k < |MARKER| && Overlaps(r, k);
      SilentSeal(h, root, r, k);
      var f, secrets := Observing(TrapText(TrapFor(r, k))), [r, TrapSecret(r)];
      assert "" !in secrets && r in secrets && !NotSilent(h, root, f, secrets, r);
    }
  }

  /** A secret without square brackets is never sealed silently: it cannot overlap the marker, or it is a part of its
      word and the re-check finds it. */
  lemma WithoutBracketsNotSilent(h: Hash, root: Path, f: Finding, secrets: seq<string>, r: string)
    requires "" !in secrets && r in secrets && '[' !in r && ']' !in r
    ensures NotSilent(h, root, f, secrets, r)
  {
    hide NotSilent, Touches;
    TouchesWithoutBrackets(r);
    if Touches(r) {
      PartIsPlain("REDACTED", r);
      VisibleIsNotSilent(h, root, f, secrets, r);
    } else {
      FinalIsNotSilent(h, root, f, secrets, r);
    }
  }

  lemma PartIsPlain(s: string, r: string)
    requires AllPlain(s) && Contains(s, r)
    ensures AllPlain(r)
  {
    var j := ContainsStands(s, r);
    forall c | c in r ensures c in s {
      var i :| 0 <= i < |r| && r[i] == c;
      assert s[j..j + |r|][i] == c;
    }
  }

  const FIELD_NAMES := ["assertion_id", "finding_key", "subject_locations", "expected", "observed"]

  /** A secret that is part of a field name lets nothing be sealed. */
  lemma FieldNameStopsSealing(h: Hash, root: Path, f: Finding, secrets: seq<string>, k: nat, r: string)
    requires "" !in secrets && r in secrets && k < |FIELD_NAMES| && Contains(FIELD_NAMES[k], r)
    ensures Fault(h, root, f, secrets).Some?
  {
    hide Contains, Shows, Scrub, Canonical, EvidenceValue, Locate, IsId, AllPlain;
    FieldNamesPlain();
    PartIsPlain(FIELD_NAMES[k], r);
    FieldNameShows(f, secrets, k, r);
    CanonicalShows(EvidenceValue(f, secrets), r);
    var i :| 0 <= i < |secrets| && secrets[i] == r;
    assert Leaks(EvidenceBytes(f, secrets), secrets);
  }

  lemma FieldNamesPlain()
    ensures forall k :: 0 <= k < |FIELD_NAMES| ==> AllPlain(FIELD_NAMES[k])
  {
    hide AllPlain;
    LettersPlain("assertion_id");
    LettersPlain("finding_key");
    LettersPlain("subject_locations");
    LettersPlain("expected");
    LettersPlain("observed");
  }

  lemma LettersPlain(s: string)
    requires forall i :: 0 <= i < |s| ==> s[i] == '_' || 'a' <= s[i] <= 'z'
    ensures AllPlain(s)
  {
  }

  lemma FieldNameShows(f: Finding, secrets: seq<string>, k: nat, r: string)
    requires "" !in secrets && k < |FIELD_NAMES| && Contains(FIELD_NAMES[k], r)
    ensures Shows(EvidenceValue(f, secrets), r)
  {
    hide Contains, Scrub;
    assert EvidenceValue(f, secrets).entries[k].key == FIELD_NAMES[k];
  }
}

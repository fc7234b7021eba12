/**
  The canonical printer of hub/coherence/canon.py and its domain-separated digests.

  Byte strings are modelled as strings in which every character stands for one byte:
  the printer writes printable ASCII only (`CanonPrintable`), so UTF-8 adds nothing.
 */
module Canon {
  import opened Common
  import opened Decimal
  import opened Escaping
  import opened TextOrder

  type Bytes = string

  /** A Python value. `Obj` lists its entries in insertion order; `Outside` is anything the
      profile refuses: a float, a non-JSON type, an object with a non-string key. */
  datatype Value =
    | Null
    | Bool(b: bool)
    | Int(i: int)
    | Str(s: string)
    | Arr(items: seq<Value>)
    | Obj(entries: seq<Entry>)
    | Outside

  datatype Entry = Entry(key: string, value: Value)

  const INT64_MIN := -0x8000_0000_0000_0000
  const INT64_MAX := 0x7fff_ffff_ffff_ffff

  /** What `_check` accepts. */
  predicate InProfile(v: Value) {
    match v
    case Outside => false
    case Int(i) => INT64_MIN <= i <= INT64_MAX
    case Arr(items) => forall k :: 0 <= k < |items| ==> InProfile(items[k])
    case Obj(entries) => forall k :: 0 <= k < |entries| ==> InProfile(entries[k].value)
    case _ => true
  }

  ghost predicate DistinctKeys(entries: seq<Entry>) {
    forall i, j :: 0 <= i < j < |entries| ==> entries[i].key != entries[j].key
  }

  /** A Python dict never holds a key twice. */
  ghost predicate Dict(v: Value) {
    match v
    case Arr(items) => forall k :: 0 <= k < |items| ==> Dict(items[k])
    case Obj(entries) => DistinctKeys(entries) && forall k :: 0 <= k < |entries| ==> Dict(entries[k].value)
    case _ => true
  }

  /** The compact JSON text of `v`, then `rest`; entries in the order they are listed. */
  function PrintThen(v: Value, rest: string): string
    decreases v
  {
    match v
    case Null => "null" + rest
    case Bool(b) => (if b then "true" else "false") + rest
    case Int(i) => IntStr(i) + rest
    case Str(s) => QuoteThen(s, rest)
    case Arr(items) => ['['] + ArrayBody(items, rest)
    case Obj(entries) => ['{'] + ObjectBody(entries, rest)
    case Outside => rest
  }

  function ArrayBody(items: seq<Value>, rest: string): string
    decreases items
  {
    if items == [] then [']'] + rest else PrintThen(items[0], ItemsThen(items[1..], rest))
  }

  function ObjectBody(entries: seq<Entry>, rest: string): string
    decreases entries
  {
    if entries == [] then ['}'] + rest
    else QuoteThen(entries[0].key, [':'] + PrintThen(entries[0].value, MembersThen(entries[1..], rest)))
  }

  function ItemsThen(items: seq<Value>, rest: string): (r: string)
    ensures Stops(r)
    decreases items
  {
    if items == [] then [']'] + rest else [','] + PrintThen(items[0], ItemsThen(items[1..], rest))
  }

  function MembersThen(entries: seq<Entry>, rest: string): (r: string)
    ensures Stops(r)
    decreases entries
  {
    if entries == [] then ['}'] + rest
    else [','] + QuoteThen(entries[0].key, [':'] + PrintThen(entries[0].value, MembersThen(entries[1..], rest)))
  }

  function KeyOf(e: Entry): string { e.key }

  /** `sort_keys=True`. */
  function SortEntries(s: seq<Entry>): (r: seq<Entry>)
    ensures multiset(r) == multiset(s)
  {
    SortBy(KeyOf, s)
  }

  /** `v` with the entries of every object sorted: the order in which they are printed. */
  function Norm(v: Value): Value
    decreases v
  {
    match v
    case Arr(items) => Arr(seq(|items|, k requires 0 <= k < |items| => Norm(items[k])))
    case Obj(entries) => Obj(SortEntries(NormEntries(entries)))
    case _ => v
  }

  function NormEntries(entries: seq<Entry>): (r: seq<Entry>)
    ensures |r| == |entries|
    ensures forall k :: 0 <= k < |r| ==> r[k] == Entry(entries[k].key, Norm(entries[k].value))
    decreases entries
  {
    if entries == [] then [] else [Entry(entries[0].key, Norm(entries[0].value))] + NormEntries(entries[1..])
  }

  datatype CanonError = OutsideProfile | UnknownRoleTag

  function Canonical(v: Value): Bytes {
    PrintThen(Norm(v), [])
  }

  /** `canon.canon`: the profile check, then the printer. */
  function TryCanon(v: Value): Result<Bytes, CanonError> {
    if InProfile(v) then Ok(Canonical(v)) else Err(OutsideProfile)
  }

  // ----- What is printed at all -----

  /** `w` is `v` or stands somewhere inside it. */
  ghost predicate Part(w: Value, v: Value)
    decreases v
  {
    w == v
    || match v
       case Arr(items) => exists k :: 0 <= k < |items| && Part(w, items[k])
       case Obj(entries) => exists k :: 0 <= k < |entries| && Part(w, entries[k].value)
       case _ => false
  }

  ghost predicate NothingOutside(v: Value) {
    forall w :: Part(w, v) ==>
      !w.Outside? && (w.Int? ==> -9_223_372_036_854_775_808 <= w.i <= 9_223_372_036_854_775_807)
  }

  /** What is printed at all: values with nothing foreign and no integer beyond 64 bits, at any depth. */
  lemma {:induction false} PrintedIff(v: Value)
    ensures TryCanon(v).Ok? <==> NothingOutside(v)
    decreases v
  {
    match v
    case Arr(items) =>
      forall k | 0 <= k < |items| ensures InProfile(items[k]) <==> NothingOutside(items[k]) { PrintedIff(items[k]); }
      ItemsOutside(items);
    case Obj(entries) =>
      forall k | 0 <= k < |entries| ensures InProfile(entries[k].value) <==> NothingOutside(entries[k].value) {
        PrintedIff(entries[k].value);
      }
      EntriesOutside(entries);
    case _ => assert Part(v, v);
  }

  lemma ItemsOutside(items: seq<Value>)
    ensures NothingOutside(Arr(items)) <==> forall k :: 0 <= k < |items| ==> NothingOutside(items[k])
  {
    forall k, w | 0 <= k < |items| && Part(w, items[k]) ensures Part(w, Arr(items)) {}
  }

  lemma EntriesOutside(entries: seq<Entry>)
    ensures NothingOutside(Obj(entries)) <==> forall k :: 0 <= k < |entries| ==> NothingOutside(entries[k].value)
  {
    forall k, w | 0 <= k < |entries| && Part(w, entries[k].value) ensures Part(w, Obj(entries)) {}
  }

  // ----- Printing is injective -----

  ghost predicate ItemsInProfile(items: seq<Value>) {
    forall k :: 0 <= k < |items| ==> InProfile(items[k])
  }

  ghost predicate EntriesInProfile(entries: seq<Entry>) {
    forall k :: 0 <= k < |entries| ==> InProfile(entries[k].value)
  }

  /** The first character tells the kinds of value apart. */
  function Mark(v: Value): char {
    match v
    case Null => 'n'
    case Bool(b) => if b then 't' else 'f'
    case Int(_) => '0'
    case Str(_) => '"'
    case Arr(_) => '['
    case Obj(_) => '{'
    case Outside => ' '
  }

  lemma MarkIsFirst(v: Value, rest: string)
    requires InProfile(v)
    ensures PrintThen(v, rest) != []
    ensures var c := PrintThen(v, rest)[0];
            if v.Int? then c == '-' || IsDigit(c) else c == Mark(v)
  {
  }

  lemma {:induction false} PrintCancel(v: Value, w: Value, s: string, t: string)
    requires InProfile(v) && InProfile(w)
    requires PrintThen(v, s) == PrintThen(w, t)
    requires v.Int? ==> Stops(s)
    requires w.Int? ==> Stops(t)
    ensures v == w && s == t
    decreases v
  {
    MarkIsFirst(v, s);
    MarkIsFirst(w, t);
    var l, r := PrintThen(v, s), PrintThen(w, t);
    match v
    case Null => assert s == l[4..] && t == r[4..];
    case Bool(b) =>
      var n := if b then 4 else 5;
      assert s == l[n..] && t == r[n..];
    case Int(i) => IntCancel(i, w.i, s, t);
    case Str(x) => QuoteCancel(x, w.s, s, t);
    case Arr(items) =>
      assert l[1..] == r[1..];
      ArrayCancel(items, w.items, s, t);
    case Obj(entries) =>
      assert l[1..] == r[1..];
      ObjectCancel(entries, w.entries, s, t);
  }

  lemma {:induction false} ArrayCancel(xs: seq<Value>, ys: seq<Value>, s: string, t: string)
    requires ItemsInProfile(xs) && ItemsInProfile(ys)
    requires ArrayBody(xs, s) == ArrayBody(ys, t)
    ensures xs == ys && s == t
    decreases xs, 1
  {
    if xs != [] { MarkIsFirst(xs[0], ItemsThen(xs[1..], s)); }
    if ys != [] { MarkIsFirst(ys[0], ItemsThen(ys[1..], t)); }
    if xs != [] && ys != [] {
      PrintCancel(xs[0], ys[0], ItemsThen(xs[1..], s), ItemsThen(ys[1..], t));
      ItemsCancel(xs[1..], ys[1..], s, t);
      assert xs == [xs[0]] + xs[1..] && ys == [ys[0]] + ys[1..];
    } else if xs == [] && ys == [] {
      assert s == ArrayBody(xs, s)[1..] && t == ArrayBody(ys, t)[1..];
    }
  }

  lemma {:induction false} ItemsCancel(xs: seq<Value>, ys: seq<Value>, s: string, t: string)
    requires ItemsInProfile(xs) && ItemsInProfile(ys)
    requires ItemsThen(xs, s) == ItemsThen(ys, t)
    ensures xs == ys && s == t
    decreases xs, 0
  {
    var l, r := ItemsThen(xs, s), ItemsThen(ys, t);
    assert l[0] == r[0] && l[1..] == r[1..];
    if xs != [] && ys != [] {
      PrintCancel(xs[0], ys[0], ItemsThen(xs[1..], s), ItemsThen(ys[1..], t));
      ItemsCancel(xs[1..], ys[1..], s, t);
      assert xs == [xs[0]] + xs[1..] && ys == [ys[0]] + ys[1..];
    } else if xs == [] && ys == [] {
      assert s == l[1..] && t == r[1..];
    }
  }

  lemma {:induction false} EntryCancel(e: Entry, f: Entry, s: string, t: string)
    requires InProfile(e.value) && InProfile(f.value) && Stops(s) && Stops(t)
    requires QuoteThen(e.key, [':'] + PrintThen(e.value, s)) == QuoteThen(f.key, [':'] + PrintThen(f.value, t))
    ensures e == f && s == t
    decreases e, 0
  {
    QuoteCancel(e.key, f.key, [':'] + PrintThen(e.value, s), [':'] + PrintThen(f.value, t));
    assert ([':'] + PrintThen(e.value, s))[1..] == PrintThen(e.value, s);
    assert ([':'] + PrintThen(f.value, t))[1..] == PrintThen(f.value, t);
    PrintCancel(e.value, f.value, s, t);
  }

  lemma {:induction false} ObjectCancel(xs: seq<Entry>, ys: seq<Entry>, s: string, t: string)
    requires EntriesInProfile(xs) && EntriesInProfile(ys)
    requires ObjectBody(xs, s) == ObjectBody(ys, t)
    ensures xs == ys && s == t
    decreases xs, 1
  {
    assert ObjectBody(xs, s)[0] == ObjectBody(ys, t)[0];
    if xs != [] && ys != [] {
      EntryCancel(xs[0], ys[0], MembersThen(xs[1..], s), MembersThen(ys[1..], t));
      MembersCancel(xs[1..], ys[1..], s, t);
      assert xs == [xs[0]] + xs[1..] && ys == [ys[0]] + ys[1..];
    } else if xs == [] && ys == [] {
      assert s == ObjectBody(xs, s)[1..] && t == ObjectBody(ys, t)[1..];
    }
  }

  lemma {:induction false} MembersCancel(xs: seq<Entry>, ys: seq<Entry>, s: string, t: string)
    requires EntriesInProfile(xs) && EntriesInProfile(ys)
    requires MembersThen(xs, s) == MembersThen(ys, t)
    ensures xs == ys && s == t
    decreases xs, 0
  {
    var l, r := MembersThen(xs, s), MembersThen(ys, t);
    assert l[0] == r[0] && l[1..] == r[1..];
    if xs != [] && ys != [] {
      EntryCancel(xs[0], ys[0], MembersThen(xs[1..], s), MembersThen(ys[1..], t));
      MembersCancel(xs[1..], ys[1..], s, t);
      assert xs == [xs[0]] + xs[1..] && ys == [ys[0]] + ys[1..];
    } else if xs == [] && ys == [] {
      assert s == l[1..] && t == r[1..];
    }
  }

  // ----- Sorting the entries -----

  lemma DistinctKeysDecide(s: seq<Entry>)
    requires DistinctKeys(s)
    ensures Distinct(s) && KeysDecide(KeyOf, s)
  {
  }

  // ----- Which values print alike -----

  ghost function Keys(entries: seq<Entry>): set<string> {
    set k | 0 <= k < |entries| :: entries[k].key
  }

  /** Equality of Python values: objects are compared as maps, whatever their insertion order. */
  ghost predicate Same(v: Value, w: Value)
    decreases v
  {
    match v
    case Arr(xs) =>
      w.Arr? && |xs| == |w.items| && forall k :: 0 <= k < |xs| ==> Same(xs[k], w.items[k])
    case Obj(es) =>
      w.Obj? && Keys(es) == Keys(w.entries)
      && forall i, j :: 0 <= i < |es| && 0 <= j < |w.entries| && es[i].key == w.entries[j].key
           ==> Same(es[i].value, w.entries[j].value)
    case _ => v == w
  }

  lemma NormKind(v: Value)
    ensures Norm(v).Arr? <==> v.Arr?
    ensures Norm(v).Obj? <==> v.Obj?
    ensures !v.Arr? && !v.Obj? ==> Norm(v) == v
  {
  }

  lemma SortMember(a: seq<Entry>, e: Entry)
    ensures e in SortEntries(a) <==> e in a
  {
    assert e in SortEntries(a) <==> e in multiset(SortEntries(a));
  }

  ghost predicate SameMembers(a: seq<Entry>, b: seq<Entry>) {
    forall e :: e in a <==> e in b
  }

  lemma SortedEqualGivesMembers(a: seq<Entry>, b: seq<Entry>)
    requires SortEntries(a) == SortEntries(b)
    ensures SameMembers(a, b)
  {
    forall e ensures e in a <==> e in b {
      SortMember(a, e);
      SortMember(b, e);
    }
  }

  lemma MembersGiveSortedEqual(a: seq<Entry>, b: seq<Entry>)
    requires DistinctKeys(a) && DistinctKeys(b) && SameMembers(a, b)
    ensures SortEntries(a) == SortEntries(b)
  {
    DistinctKeysDecide(a);
    DistinctKeysDecide(b);
    SameMembersPermute(a, b);
    SortByEqualIffPermutation(KeyOf, a, b);
  }

  /** Sorting forgets insertion order and nothing else. */
  lemma SortedEntriesEqualIff(a: seq<Entry>, b: seq<Entry>)
    requires DistinctKeys(a) && DistinctKeys(b)
    ensures SortEntries(a) == SortEntries(b) <==> SameMembers(a, b)
  {
    if SortEntries(a) == SortEntries(b) {
      SortedEqualGivesMembers(a, b);
    }
    if SameMembers(a, b) {
      MembersGiveSortedEqual(a, b);
    }
  }

  lemma {:induction false} NormEqualIffSame(v: Value, w: Value)
    requires Dict(v) && Dict(w)
    ensures Norm(v) == Norm(w) <==> Same(v, w)
    decreases v
  {
    NormKind(v);
    NormKind(w);
    match v
    case Arr(xs) =>
      if w.Arr? && |xs| == |w.items| {
        forall k | 0 <= k < |xs| ensures Norm(xs[k]) == Norm(w.items[k]) <==> Same(xs[k], w.items[k]) {
          NormEqualIffSame(xs[k], w.items[k]);
        }
        ArrNormEqualIff(xs, w.items);
      } else if w.Arr? {
        assert |Norm(v).items| != |Norm(w).items|;
      }
    case Obj(es) =>
      if w.Obj? {
        forall i, j | 0 <= i < |es| && 0 <= j < |w.entries|
          ensures Norm(es[i].value) == Norm(w.entries[j].value) <==> Same(es[i].value, w.entries[j].value)
        {
          NormEqualIffSame(es[i].value, w.entries[j].value);
        }
        ObjNormEqualIff(es, w.entries);
      }
    case _ =>
  }

  lemma ArrNormEqualIff(xs: seq<Value>, ys: seq<Value>)
    requires |xs| == |ys|
    ensures Norm(Arr(xs)) == Norm(Arr(ys)) <==> forall k :: 0 <= k < |xs| ==> Norm(xs[k]) == Norm(ys[k])
  {
    var a, b := Norm(Arr(xs)).items, Norm(Arr(ys)).items;
    assert |a| == |xs| && |b| == |ys|;
    assert forall k :: 0 <= k < |xs| ==> a[k] == Norm(xs[k]) && b[k] == Norm(ys[k]);
    assert a == b <==> forall k :: 0 <= k < |xs| ==> a[k] == b[k];
  }

  /** The entries of both objects agree after normalising. */
  ghost predicate EntriesAgree(es: seq<Entry>, fs: seq<Entry>) {
    Keys(es) == Keys(fs)
    && forall i, j :: 0 <= i < |es| && 0 <= j < |fs| && es[i].key == fs[j].key
         ==> Norm(es[i].value) == Norm(fs[j].value)
  }

  lemma ObjNormEqualIff(es: seq<Entry>, fs: seq<Entry>)
    requires DistinctKeys(es) && DistinctKeys(fs)
    ensures Norm(Obj(es)) == Norm(Obj(fs)) <==> EntriesAgree(es, fs)
  {
    SortedEntriesEqualIff(NormEntries(es), NormEntries(fs));
    MembersAgreeIff(es, fs);
  }

  lemma MembersAgreeIff(es: seq<Entry>, fs: seq<Entry>)
    requires DistinctKeys(es) && DistinctKeys(fs)
    ensures SameMembers(NormEntries(es), NormEntries(fs)) <==> EntriesAgree(es, fs)
  {
    if SameMembers(NormEntries(es), NormEntries(fs)) {
      MembersAgree(es, fs);
      MembersAgree(fs, es);
    }
    if EntriesAgree(es, fs) {
      AgreeMembers(es, fs);
      AgreeMembers(fs, es);
    }
  }

  lemma MemberAgrees(e: Entry, fs: seq<Entry>)
    requires DistinctKeys(fs)
    requires e in NormEntries(fs)
    ensures e.key in Keys(fs)
    ensures forall j :: 0 <= j < |fs| && e.key == fs[j].key ==> e.value == Norm(fs[j].value)
  {
    var k :| 0 <= k < |fs| && NormEntries(fs)[k] == e;
    assert fs[k].key == e.key;
  }

  lemma MembersAgree(es: seq<Entry>, fs: seq<Entry>)
    requires DistinctKeys(fs)
    requires forall e :: e in NormEntries(es) ==> e in NormEntries(fs)
    ensures Keys(es) <= Keys(fs)
    ensures forall i, j :: 0 <= i < |es| && 0 <= j < |fs| && es[i].key == fs[j].key
              ==> Norm(es[i].value) == Norm(fs[j].value)
  {
    var a := NormEntries(es);
    forall i | 0 <= i < |es|
      ensures es[i].key in Keys(fs)
      ensures forall j :: 0 <= j < |fs| && es[i].key == fs[j].key ==> a[i].value == Norm(fs[j].value)
    {
      MemberAgrees(a[i], fs);
    }
  }

  lemma AgreeMembers(es: seq<Entry>, fs: seq<Entry>)
    requires EntriesAgree(es, fs)
    ensures forall e :: e in NormEntries(es) ==> e in NormEntries(fs)
  {
    var a, b := NormEntries(es), NormEntries(fs);
    forall i | 0 <= i < |a| ensures a[i] in b {
      assert es[i].key in Keys(fs);
      var j :| 0 <= j < |fs| && fs[j].key == es[i].key;
      assert b[j] == a[i];
    }
  }

  lemma {:induction false} NormInProfile(v: Value)
    ensures InProfile(Norm(v)) <==> InProfile(v)
    decreases v
  {
    match v
    case Arr(items) =>
      forall k | 0 <= k < |items| ensures InProfile(Norm(items[k])) <==> InProfile(items[k]) {
        NormInProfile(items[k]);
      }
      ArrNormInProfile(items);
    case Obj(entries) =>
      forall k | 0 <= k < |entries| ensures InProfile(Norm(entries[k].value)) <==> InProfile(entries[k].value) {
        NormInProfile(entries[k].value);
      }
      ObjNormInProfile(entries);
    case _ =>
  }

  lemma ArrNormInProfile(items: seq<Value>)
    requires forall k :: 0 <= k < |items| ==> (InProfile(Norm(items[k])) <==> InProfile(items[k]))
    ensures InProfile(Norm(Arr(items))) <==> InProfile(Arr(items))
  {
    var a := Norm(Arr(items)).items;
    assert |a| == |items| && forall k :: 0 <= k < |items| ==> a[k] == Norm(items[k]);
    assert ItemsInProfile(a) <==> ItemsInProfile(items);
  }

  lemma ObjNormInProfile(entries: seq<Entry>)
    requires forall k :: 0 <= k < |entries| ==> (InProfile(Norm(entries[k].value)) <==> InProfile(entries[k].value))
    ensures InProfile(Norm(Obj(entries))) <==> InProfile(Obj(entries))
  {
    var a := NormEntries(entries);
    SortKeepsProfile(a);
    assert EntriesInProfile(a) <==> EntriesInProfile(entries);
    assert Norm(Obj(entries)) == Obj(SortEntries(a));
    assert InProfile(Obj(SortEntries(a))) <==> EntriesInProfile(SortEntries(a));
  }

  lemma SortKeepsProfile(a: seq<Entry>)
    ensures EntriesInProfile(SortEntries(a)) <==> EntriesInProfile(a)
  {
    var b := SortEntries(a);
    forall k | 0 <= k < |b| ensures b[k] in a { assert b[k] in multiset(b); }
    forall k | 0 <= k < |a| ensures a[k] in b { assert a[k] in multiset(b); }
  }

  // ----- Main results -----

  /** Canonical bytes decide equality of values: nothing else is forgotten, and insertion order is. */
  lemma CanonEqualIffSame(v: Value, w: Value)
    requires InProfile(v) && InProfile(w) && Dict(v) && Dict(w)
    ensures Canonical(v) == Canonical(w) <==> Same(v, w)
  {
    NormEqualIffSame(v, w);
    NormInProfile(v);
    NormInProfile(w);
    if Canonical(v) == Canonical(w) {
      PrintCancel(Norm(v), Norm(w), [], []);
    }
  }

  lemma {:induction false} PrintAppend(v: Value, s: string, t: string)
    ensures PrintThen(v, s) + t == PrintThen(v, s + t)
    decreases v, 1
  {
    match v
    case Str(x) => QuoteAppend(x, s, t);
    case Arr(items) =>
      if items != [] {
        ItemsAppend(items[1..], s, t);
        PrintAppend(items[0], ItemsThen(items[1..], s), t);
      }
    case Obj(entries) =>
      if entries != [] {
        EntryAppend(entries, s, t);
      }
    case _ =>
  }

  lemma {:induction false} ItemsAppend(items: seq<Value>, s: string, t: string)
    ensures ItemsThen(items, s) + t == ItemsThen(items, s + t)
    decreases items, 0
  {
    if items != [] {
      ItemsAppend(items[1..], s, t);
      PrintAppend(items[0], ItemsThen(items[1..], s), t);
    }
  }

  lemma {:induction false} EntryAppend(entries: seq<Entry>, s: string, t: string)
    requires entries != []
    ensures ObjectBody(entries, s) + t == ObjectBody(entries, s + t)
    decreases entries, 1
  {
    MembersAppend(entries[1..], s, t);
    var tail := MembersThen(entries[1..], s);
    PrintAppend(entries[0].value, tail, t);
    assert [':'] + PrintThen(entries[0].value, tail) + t == [':'] + PrintThen(entries[0].value, tail + t);
    QuoteAppend(entries[0].key, [':'] + PrintThen(entries[0].value, tail), t);
  }

  lemma {:induction false} MembersAppend(entries: seq<Entry>, s: string, t: string)
    ensures MembersThen(entries, s) + t == MembersThen(entries, s + t)
    decreases entries, 2
  {
    if entries != [] {
      EntryAppend(entries, s, t);
    }
  }

  /** Canonical objects are self-delimiting: whatever follows can be split off. */
  lemma ObjectsSelfDelimiting(v: Value, w: Value, s: string, t: string)
    requires InProfile(v) && InProfile(w) && Dict(v) && Dict(w) && v.Obj? && w.Obj?
    requires Canonical(v) + s == Canonical(w) + t
    ensures Same(v, w) && s == t
  {
    PrintAppend(Norm(v), [], s);
    PrintAppend(Norm(w), [], t);
    assert [] + s == s && [] + t == t;
    NormInProfile(v);
    NormInProfile(w);
    PrintCancel(Norm(v), Norm(w), s, t);
    NormEqualIffSame(v, w);
  }

  lemma {:induction false} PrintPrintable(v: Value, rest: string)
    requires Printable(rest)
    ensures Printable(PrintThen(v, rest))
    decreases v, 1
  {
    match v
    case Int(i) => assert forall k :: 0 <= k < |IntStr(i)| ==> ' ' <= IntStr(i)[k] <= '~';
    case Str(s) => BodyPrintable(s, rest);
    case Arr(items) =>
      if items != [] {
        ItemsPrintable(items[1..], rest);
        PrintPrintable(items[0], ItemsThen(items[1..], rest));
      }
    case Obj(entries) =>
      if entries != [] {
        EntryPrintable(entries, rest);
      }
    case _ =>
  }

  lemma {:induction false} ItemsPrintable(items: seq<Value>, rest: string)
    requires Printable(rest)
    ensures Printable(ItemsThen(items, rest))
    decreases items, 0
  {
    if items != [] {
      ItemsPrintable(items[1..], rest);
      PrintPrintable(items[0], ItemsThen(items[1..], rest));
    }
  }

  lemma {:induction false} EntryPrintable(entries: seq<Entry>, rest: string)
    requires entries != [] && Printable(rest)
    ensures Printable(ObjectBody(entries, rest))
    decreases entries, 1
  {
    MembersPrintable(entries[1..], rest);
    var tail := MembersThen(entries[1..], rest);
    PrintPrintable(entries[0].value, tail);
    BodyPrintable(entries[0].key, [':'] + PrintThen(entries[0].value, tail));
  }

  lemma {:induction false} MembersPrintable(entries: seq<Entry>, rest: string)
    requires Printable(rest)
    ensures Printable(MembersThen(entries, rest))
    decreases entries, 2
  {
    if entries != [] {
      EntryPrintable(entries, rest);
    }
  }

  /** Canonical text is printable ASCII, whatever the strings inside hold: one byte a character. */
  lemma CanonPrintable(v: Value)
    ensures Printable(Canonical(v))
  {
    PrintPrintable(Norm(v), []);
  }
}

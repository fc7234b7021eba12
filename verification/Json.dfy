/** A reader for JSON text without white space, by the grammar of RFC 8259, and what it reads from canonical text. */
module Json {
  import opened Common
  import opened Decimal
  import opened Escaping
  import opened TextOrder
  import opened Canon

  // ----- Strings (section 7) -----

  function Nibble(c: char): (d: Option<nat>)
    ensures d.Some? ==> d.value < 16
  {
    if '0' <= c <= '9' then Some(c as int - '0' as int)
    else if 'a' <= c <= 'f' then Some(10 + (c as int - 'a' as int))
    else if 'A' <= c <= 'F' then Some(10 + (c as int - 'A' as int))
    else None
  }

  /** Four hexadecimal digits. */
  function ReadUnit(s: string): (r: Option<(nat, string)>)
    ensures r.Some? ==> r.value.0 < 0x10000 && |r.value.1| < |s|
  {
    if |s| < 4 then None
    else
      var a, b, c, d := Nibble(s[0]), Nibble(s[1]), Nibble(s[2]), Nibble(s[3]);
      if a.None? || b.None? || c.None? || d.None? then None
      else Some((((a.value * 16 + b.value) * 16 + c.value) * 16 + d.value, s[4..]))
  }

  /** The code unit after `\u`, with a second one when it leads a surrogate pair. */
  function ReadScalar(s: string): (r: Option<(char, string)>)
    ensures r.Some? ==> |r.value.1| < |s|
  {
    var high := ReadUnit(s);
    if high.None? then None
    else if high.value.0 < 0xd800 || 0xe000 <= high.value.0 then Some((high.value.0 as char, high.value.1))
    else
      var rest := high.value.1;
      if high.value.0 >= 0xdc00 || |rest| < 2 || rest[0] != '\\' || rest[1] != 'u' then None
      else
        var low := ReadUnit(rest[2..]);
        if low.None? || low.value.0 < 0xdc00 || 0xe000 <= low.value.0 then None
        else Some(((0x10000 + (high.value.0 - 0xd800) * 0x400 + (low.value.0 - 0xdc00)) as char, low.value.1))
  }

  /** What follows a reverse solidus. */
  function ReadEscape(s: string): (r: Option<(char, string)>)
    ensures r.Some? ==> |r.value.1| < |s|
  {
    if s == [] then None
    else
      match s[0]
      case '"' => Some(('"', s[1..]))
      case '\\' => Some(('\\', s[1..]))
      case '/' => Some(('/', s[1..]))
      case 'b' => Some((8 as char, s[1..]))
      case 'f' => Some((12 as char, s[1..]))
      case 'n' => Some((10 as char, s[1..]))
      case 'r' => Some((13 as char, s[1..]))
      case 't' => Some((9 as char, s[1..]))
      case 'u' => ReadScalar(s[1..])
      case _ => None
  }

  function ReadChar(s: string): (r: Option<(char, string)>)
    ensures r.Some? ==> |r.value.1| < |s|
  {
    if s == [] || s[0] < ' ' then None else if s[0] == '\\' then ReadEscape(s[1..]) else Some((s[0], s[1..]))
  }

  /** The characters up to the closing quote. */
  function ReadChars(s: string): (r: Option<(string, string)>)
    ensures r.Some? ==> |r.value.1| < |s|
    decreases |s|
  {
    if s != [] && s[0] == '"' then Some(([], s[1..]))
    else
      var c := ReadChar(s);
      if c.None? then None
      else
        var more := ReadChars(c.value.1);
        if more.None? then None else Some(([c.value.0] + more.value.0, more.value.1))
  }

  // ----- Integers (section 6) -----

  predicate StartsFraction(s: string) {
    s != [] && s[0] in {'.', 'e', 'E'}
  }

  /** Digits without a leading zero; a fraction or an exponent is refused. */
  function ReadNat(s: string): (r: Option<(nat, string)>)
    ensures r.Some? ==> |r.value.1| < |s|
  {
    var n := Span(s);
    if n == 0 || (n > 1 && s[0] == '0') || StartsFraction(s[n..]) then None
    else Some((NatVal(s[..n]), s[n..]))
  }

  function ReadInt(s: string): (r: Option<(Value, string)>)
    ensures r.Some? ==> |r.value.1| < |s|
  {
    if s != [] && s[0] == '-' then
      var n := ReadNat(s[1..]);
      if n.None? then None else Some((Int(0 - n.value.0 as int), n.value.1))
    else
      var n := ReadNat(s);
      if n.None? then None else Some((Int(n.value.0), n.value.1))
  }

  // ----- Values (sections 3 to 5) -----

  predicate Keyed(entries: seq<Entry>, key: string) {
    exists i :: 0 <= i < |entries| && entries[i].key == key
  }

  predicate Next(s: string, c: char) {
    s != [] && s[0] == c
  }

  function ReadValue(s: string): (r: Option<(Value, string)>)
    ensures r.Some? ==> |r.value.1| < |s|
    decreases |s|, 0
  {
    if s == [] then None
    else
      match s[0]
      case 'n' => if "null" <= s then Some((Null, s[4..])) else None
      case 't' => if "true" <= s then Some((Bool(true), s[4..])) else None
      case 'f' => if "false" <= s then Some((Bool(false), s[5..])) else None
      case '"' =>
        var t := ReadChars(s[1..]);
        if t.None? then None else Some((Str(t.value.0), t.value.1))
      case '[' =>
        if Next(s[1..], ']') then Some((Arr([]), s[2..]))
        else
          var t := ReadItems(s[1..]);
          if t.None? then None else Some((Arr(t.value.0), t.value.1))
      case '{' =>
        if Next(s[1..], '}') then Some((Obj([]), s[2..]))
        else
          var t := ReadMembers(s[1..]);
          if t.None? then None else Some((Obj(t.value.0), t.value.1))
      case _ => ReadInt(s)
  }

  /** Values separated by commas, and the closing bracket. */
  function ReadItems(s: string): (r: Option<(seq<Value>, string)>)
    ensures r.Some? ==> |r.value.1| < |s|
    decreases |s|, 1
  {
    var v := ReadValue(s);
    if v.None? then None
    else if Next(v.value.1, ']') then Some(([v.value.0], v.value.1[1..]))
    else if Next(v.value.1, ',') then
      var more := ReadItems(v.value.1[1..]);
      if more.None? then None else Some(([v.value.0] + more.value.0, more.value.1))
    else None
  }

  /** A string, a colon and a value. */
  function ReadMember(s: string): (r: Option<(Entry, string)>)
    ensures r.Some? ==> |r.value.1| < |s|
    decreases |s|, 1
  {
    if !Next(s, '"') then None
    else
      var key := ReadChars(s[1..]);
      if key.None? || !Next(key.value.1, ':') then None
      else
        var v := ReadValue(key.value.1[1..]);
        if v.None? then None else Some((Entry(key.value.0, v.value.0), v.value.1))
  }

  /** Members separated by commas, and the closing brace; a name that occurs twice is refused. */
  function ReadMembers(s: string): (r: Option<(seq<Entry>, string)>)
    ensures r.Some? ==> |r.value.1| < |s|
    decreases |s|, 2
  {
    var e := ReadMember(s);
    if e.None? then None
    else if Next(e.value.1, '}') then Some(([e.value.0], e.value.1[1..]))
    else if Next(e.value.1, ',') then
      var more := ReadMembers(e.value.1[1..]);
      if more.None? || Keyed(more.value.0, e.value.0.key) then None
      else Some(([e.value.0] + more.value.0, more.value.1))
    else None
  }

  /** The value of a whole text. */
  function Read(text: string): Option<Value> {
    var r := ReadValue(text);
    if r.Some? && r.value.1 == [] then Some(r.value.0) else None
  }

  // ----- Printed strings are read back -----

  lemma NibbleOfDigit(d: nat)
    requires d < 16
    ensures Nibble(HexDigit(d)) == Some(d)
  {
  }

  lemma UnitReads(u: nat, rest: string)
    requires u < 0x10000
    ensures ReadUnit(UnitThen(u, rest)[2..]) == Some((u, rest))
  {
    FourDigits(u);
    NibbleOfDigit(u / 0x1000);
    NibbleOfDigit(u / 0x100 % 16);
    NibbleOfDigit(u / 16 % 16);
    NibbleOfDigit(u % 16);
    var s := UnitThen(u, rest)[2..];
    assert s[4..] == rest;
  }

  lemma WideReads(n: nat, rest: string)
    requires n < 0xd800 || 0xe000 <= n < 0x110000
    ensures ReadScalar(WideThen(n, rest)[2..]) == Some((n as char, rest))
  {
    if n < 0x10000 {
      UnitReads(n, rest);
    } else {
      var lo := 0xdc00 + (n - 0x10000) % 0x400;
      UnitReads(0xd800 + (n - 0x10000) / 0x400, UnitThen(lo, rest));
      UnitReads(lo, rest);
      assert 0x10000 + (n - 0x10000) / 0x400 * 0x400 + (n - 0x10000) % 0x400 == n;
    }
  }

  lemma EscReads(c: char, rest: string)
    ensures EscThen(c, rest) != [] && EscThen(c, rest)[0] != '"' && ReadChar(EscThen(c, rest)) == Some((c, rest))
  {
    var s := EscThen(c, rest);
    if Plain(c) {
      assert s[1..] == rest;
    } else if Short(c) != 'u' {
      assert s[1..][1..] == rest;
    } else {
      WideReads(c as int, rest);
      assert s[1..][1..] == WideThen(c as int, rest)[2..];
    }
  }

  lemma {:induction false} BodyReads(s: string, rest: string)
    ensures ReadChars(BodyThen(s, rest)) == Some((s, rest))
  {
    if s == [] {
      assert BodyThen(s, rest)[1..] == rest;
    } else {
      hide EscThen, ReadChar;
      EscReads(s[0], BodyThen(s[1..], rest));
      BodyReads(s[1..], rest);
      assert s == [s[0]] + s[1..];
    }
  }

  // ----- Printed integers are read back -----

  lemma {:induction false} NoLeadingZero(n: nat)
    ensures n > 0 ==> NatStr(n)[0] != '0'
    ensures n < 10 ==> |NatStr(n)| == 1
  {
    if n >= 10 { NoLeadingZero(n / 10); }
  }

  lemma NatReads(n: nat, rest: string)
    requires Stops(rest) && !StartsFraction(rest)
    ensures ReadNat(NatStr(n) + rest) == Some((n, rest))
  {
    hide NatStr, NatVal, Span;
    var s, k := NatStr(n) + rest, |NatStr(n)|;
    SpanOfNumeral(n, rest);
    NoLeadingZero(n);
    NatRoundTrip(n);
    assert s[..k] == NatStr(n) && s[k..] == rest;
    assert s[0] == NatStr(n)[0];
  }

  lemma IntReads(i: int, rest: string)
    requires Stops(rest) && !StartsFraction(rest)
    ensures ReadInt(IntStr(i) + rest) == Some((Int(i), rest))
  {
    hide NatStr, ReadNat;
    var s := IntStr(i) + rest;
    if i < 0 {
      NegativeTail(i, rest);
      NatReads(-i, rest);
    } else {
      assert IsDigit(NatStr(i)[0]);
      NatReads(i, rest);
    }
  }

  // ----- Printed values are read back -----

  /** What may follow a value. */
  predicate Closes(rest: string) {
    rest == [] || rest[0] in {',', ']', '}'}
  }

  lemma ItemsClose(items: seq<Value>, rest: string)
    ensures Closes(ItemsThen(items, rest))
  {
  }

  lemma MembersClose(entries: seq<Entry>, rest: string)
    ensures Closes(MembersThen(entries, rest))
  {
  }

  lemma {:induction false} ValueReads(v: Value, rest: string)
    requires InProfile(v) && Dict(v) && Closes(rest)
    ensures ReadValue(PrintThen(v, rest)) == Some((v, rest))
    decreases v, 2
  {
    hide ReadItems, ReadMembers;
    var s := PrintThen(v, rest);
    match v
    case Null => assert s[4..] == rest;
    case Bool(b) => assert s[if b then 4 else 5..] == rest;
    case Int(i) => IntIsNoLiteral(i, rest);
    case Str(x) =>
      BodyReads(x, rest);
      assert s[1..] == BodyThen(x, rest);
    case Arr(items) => ArrayReads(items, rest);
    case Obj(entries) => ObjectReads(entries, rest);
  }

  lemma IntIsNoLiteral(i: int, rest: string)
    requires Closes(rest)
    ensures ReadValue(IntStr(i) + rest) == Some((Int(i), rest))
  {
    hide IntStr, ReadInt, ReadItems, ReadMembers, ReadChars;
    var s := IntStr(i) + rest;
    IntReads(i, rest);
    FirstOfInt(i, rest);
  }

  lemma FirstOfInt(i: int, rest: string)
    ensures var s := IntStr(i) + rest; s != [] && (s[0] == '-' || IsDigit(s[0]))
  {
  }

  lemma {:induction false} ArrayReads(items: seq<Value>, rest: string)
    requires InProfile(Arr(items)) && Dict(Arr(items)) && Closes(rest)
    ensures ReadValue(PrintThen(Arr(items), rest)) == Some((Arr(items), rest))
    decreases items, 1
  {
    hide PrintThen, ReadItems;
    var s := ['['] + ArrayBody(items, rest);
    ArrayText(items, rest);
    if items == [] {
      assert s[2..] == rest;
    } else {
      ItemsRead(items, rest);
      FirstOfArray(items, rest);
      assert s[1..] == ArrayBody(items, rest);
    }
  }

  lemma ArrayText(items: seq<Value>, rest: string)
    ensures PrintThen(Arr(items), rest) == ['['] + ArrayBody(items, rest)
  {
  }

  lemma FirstOfArray(items: seq<Value>, rest: string)
    requires items != [] && InProfile(items[0])
    ensures ArrayBody(items, rest) != [] && ArrayBody(items, rest)[0] != ']'
  {
    MarkIsFirst(items[0], ItemsThen(items[1..], rest));
  }

  lemma {:induction false} ItemsRead(items: seq<Value>, rest: string)
    requires items != [] && ItemsInProfile(items) && (forall k :: 0 <= k < |items| ==> Dict(items[k])) && Closes(rest)
    ensures ReadItems(ArrayBody(items, rest)) == Some((items, rest))
    decreases items, 0
  {
    hide PrintThen, ReadValue, InProfile, Dict;
    var more := ItemsThen(items[1..], rest);
    ItemsClose(items[1..], rest);
    ValueReads(items[0], more);
    assert items == [items[0]] + items[1..];
    if items[1..] == [] {
      assert items == [items[0]];
      LastItem(ArrayBody(items, rest), items[0], rest);
    } else {
      ItemsRead(items[1..], rest);
      assert more == [','] + ArrayBody(items[1..], rest);
      AnotherItem(ArrayBody(items, rest), items[0], ArrayBody(items[1..], rest), items[1..], rest);
    }
  }

  lemma LastItem(s: string, v: Value, rest: string)
    requires ReadValue(s) == Some((v, [']'] + rest))
    ensures ReadItems(s) == Some(([v], rest))
  {
    hide ReadValue;
    assert ([']'] + rest)[1..] == rest;
  }

  lemma AnotherItem(s: string, v: Value, t: string, items: seq<Value>, rest: string)
    requires ReadValue(s) == Some((v, [','] + t)) && ReadItems(t) == Some((items, rest))
    ensures ReadItems(s) == Some(([v] + items, rest))
  {
    hide ReadValue;
    assert ([','] + t)[1..] == t;
  }

  lemma {:induction false} ObjectReads(entries: seq<Entry>, rest: string)
    requires InProfile(Obj(entries)) && Dict(Obj(entries)) && Closes(rest)
    ensures ReadValue(PrintThen(Obj(entries), rest)) == Some((Obj(entries), rest))
    decreases entries, 3
  {
    hide PrintThen, ReadMembers;
    var s := ['{'] + ObjectBody(entries, rest);
    ObjectText(entries, rest);
    if entries == [] {
      assert s[2..] == rest;
    } else {
      MembersRead(entries, rest);
      FirstOfObject(entries, rest);
      assert s[1..] == ObjectBody(entries, rest);
    }
  }

  lemma ObjectText(entries: seq<Entry>, rest: string)
    ensures PrintThen(Obj(entries), rest) == ['{'] + ObjectBody(entries, rest)
  {
  }

  lemma FirstOfObject(entries: seq<Entry>, rest: string)
    requires entries != []
    ensures ObjectBody(entries, rest) != [] && ObjectBody(entries, rest)[0] == '"'
  {
  }

  lemma {:induction false} MemberReads(e: Entry, rest: string)
    requires InProfile(e.value) && Dict(e.value) && Closes(rest)
    ensures ReadMember(QuoteThen(e.key, [':'] + PrintThen(e.value, rest))) == Some((e, rest))
    decreases e, 4
  {
    hide PrintThen, ReadValue, InProfile, Dict, ReadChars;
    var value := PrintThen(e.value, rest);
    BodyReads(e.key, [':'] + value);
    ValueReads(e.value, rest);
    assert QuoteThen(e.key, [':'] + value)[1..] == BodyThen(e.key, [':'] + value);
    assert ([':'] + value)[1..] == value;
  }

  lemma LastMember(s: string, e: Entry, rest: string)
    requires ReadMember(s) == Some((e, ['}'] + rest))
    ensures ReadMembers(s) == Some(([e], rest))
  {
    hide ReadMember;
    assert (['}'] + rest)[1..] == rest;
  }

  lemma AnotherMember(s: string, e: Entry, t: string, entries: seq<Entry>, rest: string)
    requires ReadMember(s) == Some((e, [','] + t)) && ReadMembers(t) == Some((entries, rest))
    requires !Keyed(entries, e.key)
    ensures ReadMembers(s) == Some(([e] + entries, rest))
  {
    hide ReadMember;
    assert ([','] + t)[1..] == t;
  }

  lemma {:induction false} MembersRead(entries: seq<Entry>, rest: string)
    requires entries != [] && EntriesInProfile(entries) && DistinctKeys(entries)
    requires (forall k :: 0 <= k < |entries| ==> Dict(entries[k].value)) && Closes(rest)
    ensures ReadMembers(ObjectBody(entries, rest)) == Some((entries, rest))
    decreases entries, 2
  {
    hide PrintThen, ReadMember, InProfile, Dict, QuoteThen;
    var more := MembersThen(entries[1..], rest);
    MembersClose(entries[1..], rest);
    MemberReads(entries[0], more);
    assert entries == [entries[0]] + entries[1..];
    if entries[1..] == [] {
      assert entries == [entries[0]];
      LastMember(ObjectBody(entries, rest), entries[0], rest);
    } else {
      MembersRead(entries[1..], rest);
      assert more == [','] + ObjectBody(entries[1..], rest);
      AnotherMember(ObjectBody(entries, rest), entries[0], ObjectBody(entries[1..], rest), entries[1..], rest);
    }
  }

  // ----- Canonical text is the JSON text of its value -----

  /** In every object, at any depth, the names ascend strictly in code-point order. */
  ghost predicate NamesAscend(v: Value)
    decreases v
  {
    match v
    case Arr(items) => forall k :: 0 <= k < |items| ==> NamesAscend(items[k])
    case Obj(entries) =>
      && (forall i, j :: 0 <= i < j < |entries| ==>
            entries[i].key != entries[j].key && Leq(entries[i].key, entries[j].key))
      && forall k :: 0 <= k < |entries| ==> NamesAscend(entries[k].value)
    case _ => true
  }

  lemma {:induction false} NormAscends(v: Value)
    requires Dict(v)
    ensures NamesAscend(Norm(v)) && Dict(Norm(v))
    decreases v
  {
    match v
    case Arr(items) =>
      forall k | 0 <= k < |items| ensures NamesAscend(Norm(items[k])) && Dict(Norm(items[k])) {
        NormAscends(items[k]);
      }
      ArrAscends(items);
    case Obj(entries) =>
      forall k | 0 <= k < |entries| ensures NamesAscend(Norm(entries[k].value)) && Dict(Norm(entries[k].value)) {
        NormAscends(entries[k].value);
      }
      ObjAscends(entries);
    case _ =>
  }

  lemma ArrAscends(items: seq<Value>)
    requires forall k :: 0 <= k < |items| ==> NamesAscend(Norm(items[k])) && Dict(Norm(items[k]))
    ensures NamesAscend(Norm(Arr(items))) && Dict(Norm(Arr(items)))
  {
    var a := Norm(Arr(items)).items;
    assert |a| == |items| && forall k :: 0 <= k < |items| ==> a[k] == Norm(items[k]);
  }

  lemma ObjAscends(entries: seq<Entry>)
    requires DistinctKeys(entries)
    requires forall k :: 0 <= k < |entries| ==> NamesAscend(Norm(entries[k].value)) && Dict(Norm(entries[k].value))
    ensures NamesAscend(Norm(Obj(entries))) && Dict(Norm(Obj(entries)))
  {
    hide Leq, DistinctKeys, Norm, NormEntries;
    var a := NormEntries(entries);
    var b := SortEntries(a);
    EntriesAscend(entries);
    forall k | 0 <= k < |b| ensures NamesAscend(b[k].value) && Dict(b[k].value) {
      SortMember(a, b[k]);
      var j :| 0 <= j < |a| && a[j] == b[k];
      assert a[j].value == Norm(entries[j].value);
    }
    NormOfObject(entries);
    AscendingObject(b);
  }

  lemma NormOfObject(entries: seq<Entry>)
    ensures Norm(Obj(entries)) == Obj(SortEntries(NormEntries(entries)))
  {
  }

  lemma AscendingObject(b: seq<Entry>)
    requires DistinctKeys(b) && forall i, j :: 0 <= i < j < |b| ==> Leq(b[i].key, b[j].key)
    requires forall k :: 0 <= k < |b| ==> NamesAscend(b[k].value) && Dict(b[k].value)
    ensures NamesAscend(Obj(b)) && Dict(Obj(b))
  {
    hide Leq;
  }

  lemma EntriesAscend(entries: seq<Entry>)
    requires DistinctKeys(entries)
    ensures var b := SortEntries(NormEntries(entries));
            DistinctKeys(b) && forall i, j :: 0 <= i < j < |b| ==> Leq(b[i].key, b[j].key)
  {
    hide Leq, Norm;
    var a := NormEntries(entries);
    var b := SortEntries(a);
    SortBySorted(KeyOf, a);
    assert DistinctKeys(a);
    SortKeepsDistinct(a);
    forall i, j | 0 <= i < j < |b| ensures Leq(b[i].key, b[j].key) {
      assert Leq(KeyOf(b[i]), KeyOf(b[j]));
    }
  }

  lemma SortKeepsDistinct(a: seq<Entry>)
    requires DistinctKeys(a)
    ensures DistinctKeys(SortEntries(a))
  {
    var b := SortEntries(a);
    DistinctKeysDecide(a);
    DistinctIffCountedOnce(a);
    DistinctIffCountedOnce(b);
    forall i, j | 0 <= i < j < |b| ensures b[i].key != b[j].key {
      assert b[i] in multiset(b) && b[j] in multiset(b);
      assert b[i] != b[j];
    }
  }

  /** Sorting the keys changes nothing else. */
  lemma {:induction false} NormIsSame(v: Value)
    requires Dict(v)
    ensures Same(Norm(v), v)
    decreases v
  {
    NormKind(v);
    match v
    case Arr(items) =>
      var a := Norm(v).items;
      forall k | 0 <= k < |items| ensures a[k] == Norm(items[k]) && Same(a[k], items[k]) { NormIsSame(items[k]); }
    case Obj(entries) =>
      forall k | 0 <= k < |entries| ensures Same(Norm(entries[k].value), entries[k].value) {
        NormIsSame(entries[k].value);
      }
      ObjIsSame(entries);
    case _ =>
  }

  lemma ObjIsSame(entries: seq<Entry>)
    requires DistinctKeys(entries)
    requires forall k :: 0 <= k < |entries| ==> Same(Norm(entries[k].value), entries[k].value)
    ensures Same(Norm(Obj(entries)), Obj(entries))
  {
    hide Norm, NormEntries, Same, DistinctKeys, Keys;
    var b := SortEntries(NormEntries(entries));
    SortedKeys(entries);
    forall i, j | 0 <= i < |b| && 0 <= j < |entries| && b[i].key == entries[j].key
      ensures Same(b[i].value, entries[j].value)
    {
      SortMember(NormEntries(entries), b[i]);
      var k :| 0 <= k < |entries| && NormEntries(entries)[k] == b[i];
      SameKeySamePlace(entries, j, k);
    }
    NormOfObject(entries);
    SameObjects(b, entries);
  }

  lemma SameKeySamePlace(entries: seq<Entry>, j: nat, k: nat)
    requires DistinctKeys(entries) && j < |entries| && k < |entries| && entries[j].key == entries[k].key
    ensures j == k
  {
  }

  lemma SortedKeys(entries: seq<Entry>)
    ensures Keys(SortEntries(NormEntries(entries))) == Keys(entries)
  {
    hide Norm;
    var a := NormEntries(entries);
    var b := SortEntries(a);
    forall key ensures key in Keys(b) <==> key in Keys(entries) {
      if key in Keys(entries) {
        var k :| 0 <= k < |entries| && entries[k].key == key;
        SortMember(a, a[k]);
      }
      if key in Keys(b) {
        var i :| 0 <= i < |b| && b[i].key == key;
        SortMember(a, b[i]);
      }
    }
  }

  lemma SameObjects(b: seq<Entry>, entries: seq<Entry>)
    requires Keys(b) == Keys(entries)
    requires forall i, j :: 0 <= i < |b| && 0 <= j < |entries| && b[i].key == entries[j].key ==>
               Same(b[i].value, entries[j].value)
    ensures Same(Obj(b), Obj(entries))
  {
  }

  /**
    The canonical text of a value is JSON text for it: reading it consumes all of it and yields an equal value, in
    which the names of every object ascend. The grammar that is read has no white space.
   */
  lemma CanonicalReads(v: Value)
    requires InProfile(v) && Dict(v)
    ensures var r := Read(Canonical(v));
            r.Some? && Same(r.value, v) && NamesAscend(r.value) && Dict(r.value) && InProfile(r.value)
  {
    hide ReadValue;
    NormIsSame(v);
    NormAscends(v);
    NormInProfile(v);
    ValueReads(Norm(v), []);
  }

  // ----- Reading yields dicts -----

  lemma {:induction false} ValueIsDict(s: string)
    ensures ReadValue(s).Some? ==> Dict(ReadValue(s).value.0)
    decreases |s|, 0
  {
    hide ReadInt, ReadChars, ReadItems, ReadMembers;
    if s != [] && s[0] == '[' {
      ItemsAreDicts(s[1..]);
    } else if s != [] && s[0] == '{' {
      MembersAreDict(s[1..]);
    } else {
      PlainIsDict(s);
    }
  }

  lemma PlainIsDict(s: string)
    requires !Next(s, '[') && !Next(s, '{')
    ensures ReadValue(s).Some? ==> !ReadValue(s).value.0.Arr? && !ReadValue(s).value.0.Obj?
  {
  }

  lemma {:induction false} ItemsAreDicts(s: string)
    ensures ReadItems(s).Some? ==> forall k :: 0 <= k < |ReadItems(s).value.0| ==> Dict(ReadItems(s).value.0[k])
    decreases |s|, 1
  {
    hide ReadValue, Dict;
    ValueIsDict(s);
    var v := ReadValue(s);
    if v.Some? && v.value.1 != [] {
      ItemsAreDicts(v.value.1[1..]);
    }
  }

  lemma {:induction false} MembersAreDict(s: string)
    ensures ReadMembers(s).Some? ==> Dict(Obj(ReadMembers(s).value.0))
    decreases |s|, 2
  {
    hide ReadMember;
    MemberIsDict(s);
    var e := ReadMember(s);
    if e.Some? && e.value.1 != [] {
      MembersAreDict(e.value.1[1..]);
    }
  }

  lemma {:induction false} MemberIsDict(s: string)
    ensures ReadMember(s).Some? ==> Dict(ReadMember(s).value.0.value)
    decreases |s|, 1
  {
    hide ReadValue, ReadChars, Dict;
    if Next(s, '"') {
      var key := ReadChars(s[1..]);
      if key.Some? && key.value.1 != [] {
        ValueIsDict(key.value.1[1..]);
      }
    }
  }
}

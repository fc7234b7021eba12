/** Time stamps as a signer set writes them, their text order, and the instants they stand for. */
module Stamps {
  import opened TextOrder

  /** A local time to the second, in the proleptic Gregorian calendar. */
  datatype Local = Local(year: nat, month: nat, day: nat, hour: nat, minute: nat, second: nat)

  /** How the offset from UTC is written. */
  datatype Zone = Zulu | East(hours: nat, minutes: nat) | West(hours: nat, minutes: nat)

  /** How a stamp is written: the offset, and how many digits of a second; none is no fraction at all. */
  datatype Layout = Layout(zone: Zone, digits: nat)

  /** A local time, a number of `digits`-digit parts of a second, and the way both are written. */
  datatype Stamp = Stamp(local: Local, part: nat, layout: Layout)

  // ----- The calendar -----

  predicate Leap(year: nat) {
    year % 4 == 0 && (year % 100 != 0 || year % 400 == 0)
  }

  function MonthLength(year: nat, month: nat): (n: nat)
    ensures 28 <= n <= 31
  {
    if month == 2 then (if Leap(year) then 29 else 28)
    else if month == 4 || month == 6 || month == 9 || month == 11 then 30 else 31
  }

  /** Days of the year before the month. */
  function MonthStart(year: nat, month: nat): nat {
    if month <= 1 then 0 else MonthStart(year, month - 1) + MonthLength(year, month - 1)
  }

  function YearLength(year: nat): nat {
    MonthStart(year, 13)
  }

  /** Days before the year. */
  function YearStart(year: nat): nat {
    if year <= 1 then 0 else YearStart(year - 1) + YearLength(year - 1)
  }

  predicate ValidLocal(l: Local) {
    1 <= l.year <= 9999 && 1 <= l.month <= 12 && 1 <= l.day <= MonthLength(l.year, l.month)
    && l.hour < 24 && l.minute < 60 && l.second < 60
  }

  predicate ValidZone(z: Zone) {
    !z.Zulu? ==> z.hours < 24 && z.minutes < 60
  }

  predicate ValidPart(part: nat, layout: Layout) {
    part < Power(layout.digits)
  }

  /** A local time and a part of a second that exist. */
  predicate ValidTime(s: Stamp) {
    ValidLocal(s.local) && ValidPart(s.part, s.layout)
  }

  predicate ValidStamp(s: Stamp) {
    ValidTime(s) && ValidZone(s.layout.zone)
  }

  function Days(l: Local): nat {
    YearStart(l.year) + MonthStart(l.year, l.month) + l.day
  }

  function Seconds(l: Local): nat {
    Days(l) * 86400 + l.hour * 3600 + l.minute * 60 + l.second
  }

  /** Minutes ahead of UTC. */
  function Offset(z: Zone): int {
    match z
    case Zulu => 0
    case East(h, m) => h * 60 + m
    case West(h, m) => -(h * 60 + m)
  }

  function Power(w: nat): (p: nat)
    ensures p > 0
  {
    if w == 0 then 1 else 10 * Power(w - 1)
  }

  /** The part of a second. */
  function Fraction(part: nat, digits: nat): real {
    part as real / Power(digits) as real
  }

  /** The whole seconds before the instant. */
  function Whole(s: Stamp): int {
    Seconds(s.local) - 60 * Offset(s.layout.zone)
  }

  /** The instant a stamp stands for, in seconds. */
  function At(s: Stamp): real {
    Whole(s) as real + Fraction(s.part, s.layout.digits)
  }

  // ----- Text -----

  /** `n` in `w` digits. */
  function Pad(n: nat, w: nat): (s: string)
    ensures |s| == w
  {
    if w == 0 then "" else Pad(n / 10, w - 1) + ["0123456789"[n % 10]]
  }

  /** A field of a stamp: its value, its width and what follows it. */
  datatype Field = Field(value: nat, width: nat, mark: string)

  function FieldText(fields: seq<Field>): string {
    if fields == [] then "" else Pad(fields[0].value, fields[0].width) + (fields[0].mark + FieldText(fields[1..]))
  }

  function Fields(l: Local): seq<Field> {
    [Field(l.year, 4, "-"), Field(l.month, 2, "-"), Field(l.day, 2, "T"),
     Field(l.hour, 2, ":"), Field(l.minute, 2, ":"), Field(l.second, 2, "")]
  }

  function ZoneText(z: Zone): string {
    match z
    case Zulu => "Z"
    case East(h, m) => "+" + Pad(h, 2) + ":" + Pad(m, 2)
    case West(h, m) => "-" + Pad(h, 2) + ":" + Pad(m, 2)
  }

  function PartText(part: nat, digits: nat): string {
    if digits == 0 then "" else "." + Pad(part, digits)
  }

  /** What follows the seconds. */
  function Tail(part: nat, layout: Layout): string {
    PartText(part, layout.digits) + ZoneText(layout.zone)
  }

  /** `YYYY-MM-DDTHH:MM:SS`, the fraction if there is one, and the offset. */
  function Written(s: Stamp): string {
    FieldText(Fields(s.local)) + Tail(s.part, s.layout)
  }

  // ----- Text order of equally laid out stamps -----

  lemma {:induction false} CompareParts(a: string, b: string, s: string, t: string)
    requires |a| == |b|
    ensures Leq(a + s, b + t) <==> if a == b then Leq(s, t) else Leq(a, b)
  {
    if a == [] {
      assert a + s == s && b + t == t;
    } else {
      CompareParts(a[1..], b[1..], s, t);
      assert (a + s)[1..] == a[1..] + s && (b + t)[1..] == b[1..] + t;
      assert a == [a[0]] + a[1..] && b == [b[0]] + b[1..];
    }
  }

  lemma DigitOrder(a: nat, b: nat)
    requires a < 10 && b < 10
    ensures Leq(["0123456789"[a]], ["0123456789"[b]]) <==> a <= b
    ensures "0123456789"[a] == "0123456789"[b] <==> a == b
  {
    assert "0123456789"[a] as int == '0' as int + a && "0123456789"[b] as int == '0' as int + b;
  }

  /** Padded numerals compare as numbers. */
  lemma {:induction false} PadOrder(n: nat, m: nat, w: nat)
    requires n < Power(w) && m < Power(w)
    ensures Leq(Pad(n, w), Pad(m, w)) <==> n <= m
    ensures Pad(n, w) == Pad(m, w) <==> n == m
  {
    if w > 0 {
      PadOrder(n / 10, m / 10, w - 1);
      var a, b := Pad(n / 10, w - 1), Pad(m / 10, w - 1);
      var s, t := ["0123456789"[n % 10]], ["0123456789"[m % 10]];
      CompareParts(a, b, s, t);
      DigitOrder(n % 10, m % 10);
      assert (a + s)[..w - 1] == a && (b + t)[..w - 1] == b && (a + s)[w - 1] == s[0] && (b + t)[w - 1] == t[0];
    }
  }

  /** Same widths and marks, values that fit. */
  ghost predicate Aligned(a: seq<Field>, b: seq<Field>) {
    |a| == |b| && forall i :: 0 <= i < |a| ==>
      a[i].width == b[i].width && a[i].mark == b[i].mark && a[i].value < Power(a[i].width)
      && b[i].value < Power(a[i].width)
  }

  /** The first field in which they differ is smaller in `a`. */
  predicate Before(a: seq<Field>, b: seq<Field>) {
    a != [] && b != [] && (a[0].value < b[0].value || (a[0].value == b[0].value && Before(a[1..], b[1..])))
  }

  lemma FieldOrder(f: Field, g: Field, s: string, t: string)
    requires f.width == g.width && f.mark == g.mark && f.value < Power(f.width) && g.value < Power(f.width)
    ensures Leq(Pad(f.value, f.width) + (f.mark + s), Pad(g.value, g.width) + (g.mark + t)) <==>
            if f.value == g.value then Leq(s, t) else f.value < g.value
  {
    CompareParts(Pad(f.value, f.width), Pad(g.value, g.width), f.mark + s, g.mark + t);
    PadOrder(f.value, g.value, f.width);
    CompareParts(f.mark, g.mark, s, t);
  }

  lemma FirstField(a: seq<Field>, s: string)
    requires a != []
    ensures FieldText(a) + s == Pad(a[0].value, a[0].width) + (a[0].mark + (FieldText(a[1..]) + s))
  {
    hide Pad;
  }

  lemma AlignedRest(a: seq<Field>, b: seq<Field>)
    requires Aligned(a, b) && a != []
    ensures b != [] && Aligned(a[1..], b[1..])
    ensures a[0].width == b[0].width && a[0].mark == b[0].mark
    ensures a[0].value < Power(a[0].width) && b[0].value < Power(a[0].width)
    ensures a == b <==> a[0].value == b[0].value && a[1..] == b[1..]
  {
    hide Power;
    assert a == [a[0]] + a[1..] && b == [b[0]] + b[1..];
  }

  lemma NoFields(s: string)
    ensures FieldText([]) + s == s
  {
  }

  lemma {:induction false} FieldsOrder(a: seq<Field>, b: seq<Field>, s: string, t: string)
    requires Aligned(a, b)
    ensures Leq(FieldText(a) + s, FieldText(b) + t) <==> if a == b then Leq(s, t) else Before(a, b)
  {
    if a == [] {
      NoFields(s);
      NoFields(t);
    } else {
      hide Leq, Pad, Power, FieldText, Aligned;
      AlignedRest(a, b);
      FieldsOrder(a[1..], b[1..], s, t);
      FirstField(a, s);
      FirstField(b, t);
      FieldOrder(a[0], b[0], FieldText(a[1..]) + s, FieldText(b[1..]) + t);
    }
  }

  lemma LocalsAligned(l: Local, m: Local)
    requires ValidLocal(l) && ValidLocal(m)
    ensures Aligned(Fields(l), Fields(m))
    ensures Fields(l) == Fields(m) <==> l == m
  {
    assert Power(2) == 100 && Power(4) == 10000 by {
      assert Power(1) == 10;
      assert Power(3) == 1000;
    }
    if Fields(l) == Fields(m) {
      assert Fields(l)[0].value == l.year && Fields(l)[1].value == l.month && Fields(l)[2].value == l.day
             && Fields(l)[3].value == l.hour && Fields(l)[4].value == l.minute && Fields(l)[5].value == l.second;
      assert Fields(m)[0].value == m.year && Fields(m)[1].value == m.month && Fields(m)[2].value == m.day
             && Fields(m)[3].value == m.hour && Fields(m)[4].value == m.minute && Fields(m)[5].value == m.second;
    }
  }

  // ----- Local times in order -----

  /** The first part in which the local times differ is smaller in `l`. */
  predicate Earlier(l: Local, m: Local) {
    l.year < m.year || (l.year == m.year &&
    (l.month < m.month || (l.month == m.month &&
    (l.day < m.day || (l.day == m.day &&
    (l.hour < m.hour || (l.hour == m.hour &&
    (l.minute < m.minute || (l.minute == m.minute && l.second < m.second)))))))))
  }

  lemma BeforeIsEarlier(l: Local, m: Local)
    ensures Before(Fields(l), Fields(m)) <==> Earlier(l, m)
  {
    var a, b := Fields(l), Fields(m);
    assert a[1..][1..] == a[2..] && b[1..][1..] == b[2..];
    assert a[2..][1..] == a[3..] && b[2..][1..] == b[3..];
    assert a[3..][1..] == a[4..] && b[3..][1..] == b[4..];
    assert a[4..][1..] == a[5..] && b[4..][1..] == b[5..];
    assert a[5..][1..] == [] && b[5..][1..] == [];
    assert Before(a[5..], b[5..]) <==> l.second < m.second;
    assert Before(a[4..], b[4..]) <==> l.minute < m.minute || (l.minute == m.minute && Before(a[5..], b[5..]));
    assert Before(a[3..], b[3..]) <==> l.hour < m.hour || (l.hour == m.hour && Before(a[4..], b[4..]));
    assert Before(a[2..], b[2..]) <==> l.day < m.day || (l.day == m.day && Before(a[3..], b[3..]));
    assert Before(a[1..], b[1..]) <==> l.month < m.month || (l.month == m.month && Before(a[2..], b[2..]));
  }

  lemma {:induction false} MonthsPass(year: nat, m: nat, n: nat)
    requires 1 <= m < n
    ensures MonthStart(year, m) + MonthLength(year, m) <= MonthStart(year, n)
  {
    if m + 1 < n { MonthsPass(year, m, n - 1); }
  }

  lemma {:induction false} YearsPass(y: nat, z: nat)
    requires 1 <= y < z
    ensures YearStart(y) + YearLength(y) <= YearStart(z)
  {
    hide YearLength;
    if y + 1 < z { YearsPass(y, z - 1); }
  }

  lemma DaysPass(l: Local, m: Local)
    requires ValidLocal(l) && ValidLocal(m)
    requires l.year < m.year || (l.year == m.year && (l.month < m.month || (l.month == m.month && l.day < m.day)))
    ensures Days(l) < Days(m)
  {
    hide YearStart, MonthStart, MonthLength;
    MonthsPass(l.year, l.month, 13);
    if l.year < m.year {
      YearsPass(l.year, m.year);
    } else if l.month < m.month {
      MonthsPass(l.year, l.month, m.month);
    }
  }

  lemma EarlierIsLess(l: Local, m: Local)
    requires ValidLocal(l) && ValidLocal(m)
    ensures Earlier(l, m) <==> Seconds(l) < Seconds(m)
  {
    hide Days;
    if l.year < m.year || (l.year == m.year && (l.month < m.month || (l.month == m.month && l.day < m.day))) {
      DaysPass(l, m);
    } else if m.year < l.year || (m.year == l.year && (m.month < l.month || (m.month == l.month && m.day < l.day))) {
      DaysPass(m, l);
    } else {
      SameDay(l, m);
    }
  }

  lemma SameDay(l: Local, m: Local)
    requires l.year == m.year && l.month == m.month && l.day == m.day
    ensures Days(l) == Days(m)
  {
  }

  /** Stamps compare as text by local time first, and by what follows the seconds when the local times are equal. */
  lemma TextComparesLocals(s: Stamp, t: Stamp)
    requires ValidLocal(s.local) && ValidLocal(t.local)
    ensures Leq(Written(s), Written(t)) <==>
            Seconds(s.local) < Seconds(t.local)
            || (s.local == t.local && Leq(Tail(s.part, s.layout), Tail(t.part, t.layout)))
  {
    hide Fields, FieldText, Tail, Seconds, Leq, Before, Aligned;
    LocalsAligned(s.local, t.local);
    FieldsOrder(Fields(s.local), Fields(t.local), Tail(s.part, s.layout), Tail(t.part, t.layout));
    BeforeIsEarlier(s.local, t.local);
    EarlierIsLess(s.local, t.local);
  }

  lemma EqualSeconds(l: Local, m: Local)
    requires ValidLocal(l) && ValidLocal(m) && Seconds(l) == Seconds(m)
    ensures l == m
  {
    hide Seconds;
    EarlierIsLess(l, m);
    EarlierIsLess(m, l);
  }

  // ----- The calendar in closed form -----

  /** Days before each month of a common year. */
  const BEFORE_MONTH: seq<nat> := [0, 31, 59, 90, 120, 151, 181, 212, 243, 273, 304, 334]

  lemma MonthStartIs(year: nat, month: nat)
    requires 1 <= month <= 13
    ensures month <= 12 ==>
              MonthStart(year, month) == BEFORE_MONTH[month - 1] + if month > 2 && Leap(year) then 1 else 0
    ensures month == 13 ==> MonthStart(year, 13) == 365 + if Leap(year) then 1 else 0
  {
    hide Leap;
    if month > 1 {
      MonthStartIs(year, month - 1);
      MonthStep(year, month);
    }
  }

  lemma MonthStep(year: nat, month: nat)
    requires month > 1
    ensures MonthStart(year, month) == MonthStart(year, month - 1) + MonthLength(year, month - 1)
  {
  }

  lemma {:induction false} YearStartIs(year: nat)
    requires year >= 1
    ensures YearStart(year) == 365 * (year - 1) + (year - 1) / 4 - (year - 1) / 100 + (year - 1) / 400
  {
    hide Leap, MonthStart;
    if year > 1 {
      YearStartIs(year - 1);
      MonthStartIs(year - 1, 13);
      LeapStep(year - 1);
      YearStep(year);
    }
  }

  lemma YearStep(year: nat)
    requires year > 1
    ensures YearStart(year) == YearStart(year - 1) + MonthStart(year - 1, 13)
  {
    hide MonthStart;
  }

  lemma LeapStep(y: nat)
    requires y >= 1
    ensures y / 4 - y / 100 + y / 400 == (y - 1) / 4 - (y - 1) / 100 + (y - 1) / 400 + if Leap(y) then 1 else 0
  {
    Quotient(y, 4);
    Quotient(y, 100);
    Quotient(y, 400);
    Multiples(y);
  }

  lemma Quotient(y: nat, n: nat)
    requires y >= 1 && n in {4, 100, 400}
    ensures y / n == (y - 1) / n + if y % n == 0 then 1 else 0
  {
  }

  lemma Multiples(y: nat)
    ensures y % 400 == 0 ==> y % 100 == 0
    ensures y % 100 == 0 ==> y % 4 == 0
  {
    assert y % 400 == 0 ==> y == 100 * (4 * (y / 400));
    assert y % 100 == 0 ==> y == 4 * (25 * (y / 100));
  }

  /** Days are counted as in the proleptic Gregorian calendar. */
  lemma DaysAreOrdinals(l: Local)
    requires ValidLocal(l)
    ensures var y := l.year - 1;
            Days(l) == 365 * y + y / 4 - y / 100 + y / 400 + BEFORE_MONTH[l.month - 1]
                       + (if l.month > 2 && l.year % 4 == 0 && (l.year % 100 == 0 ==> l.year % 400 == 0) then 1 else 0)
                       + l.day
  {
    hide YearStart, MonthStart;
    YearStartIs(l.year);
    MonthStartIs(l.year, l.month);
  }

  /** 1 January 1970 is day 719,163. */
  lemma EpochIsDay()
    ensures Days(Local(1970, 1, 1, 0, 0, 0)) == 719_163
  {
    hide YearStart, MonthStart, MonthLength;
    assert ValidLocal(Local(1970, 1, 1, 0, 0, 0));
    DaysAreOrdinals(Local(1970, 1, 1, 0, 0, 0));
  }

  // ----- Parts of a second -----

  lemma Scaled(a: real, p: real, q: real)
    requires p > 0.0 && q > 0.0
    ensures p * q > 0.0 && a / p == (a * q) / (p * q)
  {
  }

  lemma SameDivisor(a: real, b: real, p: real)
    requires p > 0.0
    ensures a / p <= b / p <==> a <= b
  {
    if a <= b {
      assert (b - a) / p >= 0.0;
      assert (b - a) / p == b / p - a / p;
    } else {
      assert (a - b) / p > 0.0;
      assert (a - b) / p == a / p - b / p;
    }
  }

  lemma {:induction false} PowerSum(a: nat, b: nat)
    ensures Power(a + b) == Power(a) * Power(b)
  {
    if b > 0 {
      PowerSum(a, b - 1);
      var p, q := Power(a), Power(b - 1);
      assert Power(a + b) == 10 * (p * q) == p * (10 * q);
    }
  }

  lemma FractionBounds(part: nat, digits: nat)
    requires part < Power(digits)
    ensures 0.0 <= Fraction(part, digits) < 1.0
    ensures Fraction(0, digits) == 0.0
  {
    var p := Power(digits) as real;
    SameDivisor(0.0, part as real, p);
    SameDivisor(p, part as real, p);
    assert p / p == 1.0 && 0.0 / p == 0.0;
  }

  lemma RatiosCompare(a: nat, p: nat, b: nat, q: nat)
    requires p > 0 && q > 0
    ensures p * q > 0
    ensures a as real / p as real <= b as real / (p * q) as real <==> a * q <= b
    ensures b as real / (p * q) as real <= a as real / p as real <==> b <= a * q
  {
    Product(p, q);
    Product(a, q);
    Scaled(a as real, p as real, q as real);
    var aq, pq := a * q, p * q;
    assert a as real / p as real == aq as real / pq as real;
    SameDivisor(aq as real, b as real, pq as real);
    SameDivisor(b as real, aq as real, pq as real);
  }

  lemma Product(p: nat, q: nat)
    ensures (p * q) as real == p as real * q as real
    ensures p > 0 && q > 0 ==> p * q > 0
  {
  }

  /** Fractions of different precision compare after the shorter has been filled up. */
  lemma FractionsCompare(a: nat, k: nat, b: nat, d: nat)
    ensures Fraction(a, k) <= Fraction(b, k + d) <==> a * Power(d) <= b
    ensures Fraction(b, k + d) <= Fraction(a, k) <==> b <= a * Power(d)
  {
    hide Power;
    PowerSum(k, d);
    RatiosCompare(a, Power(k), b, Power(d));
  }

  lemma DecimalStep(hi: nat, lo: nat, q: nat)
    ensures (hi * (10 * q) + lo) / 10 == hi * q + lo / 10
    ensures (hi * (10 * q) + lo) % 10 == lo % 10
  {
    var x := hi * q;
    assert hi * (10 * q) == 10 * x;
    assert 10 * x + lo == 10 * (x + lo / 10) + lo % 10;
  }

  /** The text of a longer part begins with that of its first digits. */
  lemma {:induction false} PadSplits(hi: nat, lo: nat, k: nat, d: nat)
    requires lo < Power(d)
    ensures Pad(hi * Power(d) + lo, k + d) == Pad(hi, k) + Pad(lo, d)
  {
    hide Pad, Power;
    PowerStep(d);
    if d == 0 {
      PadNothing(lo);
      assert Pad(hi, k) + "" == Pad(hi, k);
    } else {
      PadSplits(hi, lo / 10, k, d - 1);
      DecimalStep(hi, lo, Power(d - 1));
      PadStep(hi * Power(d) + lo, k + d);
      PadStep(lo, d);
      AppendAssociates(Pad(hi, k), Pad(lo / 10, d - 1), ["0123456789"[lo % 10]]);
    }
  }

  lemma PowerStep(d: nat)
    ensures Power(d) == if d == 0 then 1 else 10 * Power(d - 1)
  {
  }

  lemma PadNothing(n: nat)
    ensures Pad(n, 0) == ""
  {
  }

  lemma AppendAssociates(a: string, b: string, c: string)
    ensures (a + b) + c == a + (b + c)
  {
  }

  lemma PadStep(n: nat, w: nat)
    requires w > 0
    ensures Pad(n, w) == Pad(n / 10, w - 1) + ["0123456789"[n % 10]]
  {
  }

  lemma DivisionFits(b: nat, p: nat, q: nat)
    requires q > 0 && b < p * q
    ensures b == b / q * q + b % q && b % q < q && b / q < p
  {
    TimesMonotone(p, b / q, q);
  }

  lemma TimesMonotone(a: nat, b: nat, q: nat)
    ensures a <= b ==> a * q <= b * q
  {
    if a <= b { assert b * q == a * q + (b - a) * q; }
  }

  /** The first digits of a part and the rest. */
  lemma FirstDigits(b: nat, k: nat, d: nat) returns (hi: nat, lo: nat)
    requires b < Power(k + d)
    ensures b == hi * Power(d) + lo && lo < Power(d) && hi < Power(k)
  {
    hide Power;
    PowerSum(k, d);
    DivisionFits(b, Power(k), Power(d));
    hi, lo := b / Power(d), b % Power(d);
  }

  // ----- When the text order is the order of instants -----

  /** The offsets are the same; either both write the same number of digits of a second and the first offset, as
      written, does not sort after the second, or the first writes fewer digits and its offset is not `Z`. */
  predicate SameClock(x: Layout, y: Layout) {
    && Offset(x.zone) == Offset(y.zone)
    && if x.digits == y.digits then Leq(ZoneText(x.zone), ZoneText(y.zone)) else x.digits < y.digits && !x.zone.Zulu?
  }

  /** What follows the seconds sorts as the parts of a second compare. */
  ghost predicate TailsAgree(a: nat, x: Layout, b: nat, y: Layout) {
    Leq(Tail(a, x), Tail(b, y)) <==> Fraction(a, x.digits) <= Fraction(b, y.digits)
  }

  lemma FirstDiffers(s: string, t: string)
    requires s != [] && t != [] && s[0] != t[0]
    ensures Leq(s, t) <==> s[0] < t[0]
  {
  }

  lemma ZoneFirst(z: Zone)
    ensures ZoneText(z) != [] && ZoneText(z)[0] ==
                match z case Zulu => 'Z' case East(_, _) => '+' case West(_, _) => '-'
  {
  }

  lemma {:induction false} PadDigits(n: nat, w: nat)
    ensures forall i :: 0 <= i < w ==> '0' <= Pad(n, w)[i] <= '9'
  {
    if w > 0 {
      PadDigits(n / 10, w - 1);
      assert "0123456789"[n % 10] as int == '0' as int + n % 10;
    }
  }

  /** As many digits on both sides. */
  lemma EqualDigits(a: nat, x: Layout, b: nat, y: Layout)
    requires ValidPart(a, x) && ValidPart(b, y) && x.digits == y.digits
    ensures Leq(Tail(a, x), Tail(b, y)) <==> if a == b then Leq(ZoneText(x.zone), ZoneText(y.zone)) else a < b
    ensures Fraction(a, x.digits) <= Fraction(b, y.digits) <==> a <= b
  {
    hide Leq, ZoneText, Pad;
    var k := x.digits;
    SameDivisor(a as real, b as real, Power(k) as real);
    CompareParts(PartText(a, k), PartText(b, k), ZoneText(x.zone), ZoneText(y.zone));
    if k == 0 {
      assert a == 0 && b == 0;
    } else {
      PadOrder(a, b, k);
      CompareParts(".", ".", Pad(a, k), Pad(b, k));
      assert PartText(a, k)[1..] == Pad(a, k) && PartText(b, k)[1..] == Pad(b, k);
    }
  }

  /** Where the shorter part ends, its offset meets a dot or a digit. */
  predicate Meets(c: char) {
    c == '.' || '0' <= c <= '9'
  }

  lemma ZoneMeets(z: Zone, s: string, t: string)
    requires t != [] && Meets(t[0])
    ensures Leq(ZoneText(z) + s, t) <==> !z.Zulu?
    ensures Leq(t, ZoneText(z) + s) <==> z.Zulu?
  {
    hide Leq, ZoneText;
    ZoneFirst(z);
    FirstDiffers(ZoneText(z) + s, t);
    FirstDiffers(t, ZoneText(z) + s);
  }

  /** The texts after the seconds, up to where the shorter part ends: equal so far, or decided. */
  lemma LongerTail(a: nat, x: Layout, b: nat, y: Layout) returns (hi: nat, lo: nat, rest: string)
    requires ValidPart(a, x) && ValidPart(b, y) && x.digits < y.digits
    ensures b == hi * Power(y.digits - x.digits) + lo && lo < Power(y.digits - x.digits) && hi < Power(x.digits)
    ensures rest != [] && Meets(rest[0])
    ensures Leq(Tail(a, x), Tail(b, y)) <==> if a == hi then Leq(ZoneText(x.zone), rest) else a < hi
    ensures Leq(Tail(b, y), Tail(a, x)) <==> if a == hi then Leq(rest, ZoneText(x.zone)) else hi < a
  {
    hide Leq, ZoneText, Power, Pad;
    var k, d := x.digits, y.digits - x.digits;
    hi, lo := FirstDigits(b, k, d);
    PadSplits(hi, lo, k, d);
    PadDigits(lo, d);
    var before := PartText(hi, k);
    rest := (if k == 0 then "." else "") + Pad(lo, d) + ZoneText(y.zone);
    LongText(hi, lo, k, d, b, y.zone, rest);
    CompareParts(PartText(a, k), before, ZoneText(x.zone), rest);
    CompareParts(before, PartText(a, k), rest, ZoneText(x.zone));
    PartOrder(a, hi, k);
    PartOrder(hi, a, k);
  }

  lemma LongText(hi: nat, lo: nat, k: nat, d: nat, b: nat, z: Zone, rest: string)
    requires d > 0 && Pad(b, k + d) == Pad(hi, k) + Pad(lo, d) && (k == 0 ==> hi == 0)
    requires rest == (if k == 0 then "." else "") + Pad(lo, d) + ZoneText(z)
    ensures PartText(b, k + d) + ZoneText(z) == PartText(hi, k) + rest
  {
    hide Pad, ZoneText;
    if k == 0 {
      assert Pad(hi, 0) == [];
      assert Pad(hi, k) + Pad(lo, d) == Pad(lo, d);
    }
  }

  lemma PartOrder(a: nat, b: nat, k: nat)
    requires a < Power(k) && b < Power(k)
    ensures |PartText(a, k)| == |PartText(b, k)|
    ensures PartText(a, k) == PartText(b, k) <==> a == b
    ensures Leq(PartText(a, k), PartText(b, k)) <==> a <= b
  {
    hide Leq, Pad;
    if k == 0 {
      assert a == 0 && b == 0;
      EmptyLeq();
    } else {
      PadOrder(a, b, k);
      CompareParts(".", ".", Pad(a, k), Pad(b, k));
      assert PartText(a, k)[1..] == Pad(a, k) && PartText(b, k)[1..] == Pad(b, k);
    }
  }

  lemma EmptyLeq()
    ensures Leq("", "")
  {
  }

  lemma SameClockTails(a: nat, x: Layout, b: nat, y: Layout)
    requires ValidPart(a, x) && ValidPart(b, y) && SameClock(x, y)
    ensures TailsAgree(a, x, b, y)
  {
    hide Leq, Power, Tail, ZoneText, Fraction;
    if x.digits == y.digits {
      EqualDigits(a, x, b, y);
    } else {
      var d := y.digits - x.digits;
      var hi, lo, rest := LongerTail(a, x, b, y);
      FractionsCompare(a, x.digits, b, d);
      FilledUp(a, hi, lo, Power(d));
      ZoneMeets(x.zone, "", rest);
      assert ZoneText(x.zone) + "" == ZoneText(x.zone);
    }
  }

  lemma FilledUp(a: nat, hi: nat, lo: nat, q: nat)
    requires lo < q
    ensures a * q <= hi * q + lo <==> a <= hi
  {
    TimesMonotone(a, hi, q);
    TimesMonotone(hi + 1, a, q);
    assert (hi + 1) * q == hi * q + q;
  }

  /** For these two stamps, the text order is the order of instants. */
  ghost predicate AgreesAt(s: Stamp, t: Stamp) {
    Leq(Written(s), Written(t)) <==> At(s) <= At(t)
  }

  /** Whole seconds come first. */
  lemma WholeDecides(s: Stamp, t: Stamp)
    requires ValidTime(s) && ValidTime(t)
    ensures At(s) <= At(t) <==>
            Whole(s) < Whole(t)
            || (Whole(s) == Whole(t) && Fraction(s.part, s.layout.digits) <= Fraction(t.part, t.layout.digits))
  {
    hide Whole, Fraction, Power, ValidLocal;
    FractionBounds(s.part, s.layout.digits);
    FractionBounds(t.part, t.layout.digits);
  }

  lemma SameClockAgrees(s: Stamp, t: Stamp)
    requires ValidTime(s) && ValidTime(t) && SameClock(s.layout, t.layout)
    ensures AgreesAt(s, t)
  {
    hide Written, Tail, ZoneText, Seconds, Leq, At, Fraction, Power;
    TextComparesLocals(s, t);
    WholeDecides(s, t);
    SameClockTails(s.part, s.layout, t.part, t.layout);
    if Seconds(s.local) == Seconds(t.local) { EqualSeconds(s.local, t.local); }
  }

  /** The k-th second of the year 2026. */
  function Early(k: nat): Local {
    Local(2026, 1, 1, 0, 0, k)
  }

  lemma EarlySeconds()
    ensures ValidLocal(Early(0)) && ValidLocal(Early(1)) && Seconds(Early(1)) == Seconds(Early(0)) + 1
  {
    hide YearStart, MonthStart;
  }

  /** On different clocks, the first two seconds of 2026, in whole or by the least part more, tell the orders apart. */
  lemma OtherClockDisagrees(x: Layout, y: Layout) returns (s: Stamp, t: Stamp)
    requires !SameClock(x, y)
    ensures s.layout == x && t.layout == y && s.local.year == 2026 && t.local.year == 2026
    ensures ValidTime(s) && ValidTime(t) && !AgreesAt(s, t)
  {
    hide Written, Tail, ZoneText, Seconds, Leq, At, Fraction, Power, ValidLocal;
    EarlySeconds();
    if Offset(x.zone) != Offset(y.zone) {
      s := Stamp(if Offset(x.zone) > Offset(y.zone) then Early(1) else Early(0), 0, x);
      t := Stamp(if Offset(x.zone) < Offset(y.zone) then Early(1) else Early(0), 0, y);
      TextComparesLocals(s, t);
      WholeDecides(s, t);
    } else {
      var a := OtherTails(x, y);
      s, t := Stamp(Early(0), a, x), Stamp(Early(0), 0, y);
      TextComparesLocals(s, t);
      WholeDecides(s, t);
    }
  }

  /** With one offset written in two ways, a part of no more than one is enough. */
  lemma OtherTails(x: Layout, y: Layout) returns (a: nat)
    requires Offset(x.zone) == Offset(y.zone) && !SameClock(x, y)
    ensures ValidPart(a, x) && ValidPart(0, y) && !TailsAgree(a, x, 0, y)
  {
    hide Leq, Power, Tail, ZoneText, Fraction;
    a := if x.digits > y.digits && y.zone.Zulu? then 1 else 0;
    if x.digits == y.digits {
      EqualDigits(a, x, 0, y);
    } else if x.digits < y.digits {
      ShorterFirst(x, y);
    } else {
      LongerFirst(a, x, y);
    }
  }

  /** In `Z`, the stamp of fewer digits sorts after the equal one of more. */
  lemma ShorterFirst(x: Layout, y: Layout)
    requires x.digits < y.digits && x.zone.Zulu?
    ensures !TailsAgree(0, x, 0, y)
  {
    hide Leq, Power, Tail, ZoneText, Fraction;
    var hi, lo, rest := LongerTail(0, x, 0, y);
    NothingSplits(hi, lo, Power(y.digits - x.digits));
    ZoneMeets(x.zone, "", rest);
    assert ZoneText(x.zone) + "" == ZoneText(x.zone);
    FractionBounds(0, x.digits);
    FractionBounds(0, y.digits);
  }

  /** The stamp of more digits sorts before a later one of fewer in `Z`, and after an equal one otherwise. */
  lemma LongerFirst(a: nat, x: Layout, y: Layout)
    requires x.digits > y.digits && a == if y.zone.Zulu? then 1 else 0
    ensures ValidPart(a, x) && !TailsAgree(a, x, 0, y)
  {
    hide Leq, Power, Tail, ZoneText, Fraction;
    var d := x.digits - y.digits;
    PowerStep(x.digits);
    PowerStep(d);
    var hi, lo, rest := LongerTail(0, y, a, x);
    LeastSplits(a, hi, lo, Power(d));
    ZoneMeets(y.zone, "", rest);
    assert ZoneText(y.zone) + "" == ZoneText(y.zone);
    FractionsCompare(0, y.digits, a, d);
  }

  lemma NothingSplits(hi: nat, lo: nat, q: nat)
    requires q > 0 && hi * q + lo == 0
    ensures hi == 0
  {
    TimesMonotone(1, hi, q);
  }

  lemma LeastSplits(a: nat, hi: nat, lo: nat, q: nat)
    requires q > 1 && a <= 1 && a == hi * q + lo
    ensures hi == 0
  {
    TimesMonotone(1, hi, q);
  }

  /** All stamps of a layout. */
  ghost predicate Of(s: Stamp, x: Layout) {
    s.layout == x && ValidTime(s)
  }

  /** Comparing stamps as text is comparing instants, for all times, exactly on the same clock. */
  lemma TextIsTimeIff(x: Layout, y: Layout)
    ensures (forall s, t :: Of(s, x) && Of(t, y) ==> AgreesAt(s, t)) <==> SameClock(x, y)
  {
    hide AgreesAt, SameClock, ValidTime;
    if SameClock(x, y) {
      forall s, t | Of(s, x) && Of(t, y) ensures AgreesAt(s, t) {
        SameClockAgrees(s, t);
      }
    } else {
      var s, t := OtherClockDisagrees(x, y);
      assert Of(s, x) && Of(t, y);
    }
  }

  // ----- Validity windows -----

  /** The signer window test, on text and on instants. */
  ghost predicate OpenAsText(from: Stamp, asOf: Stamp, until: Stamp) {
    Leq(Written(from), Written(asOf)) && Leq(Written(asOf), Written(until))
  }

  ghost predicate OpenInTime(from: Stamp, asOf: Stamp, until: Stamp) {
    At(from) <= At(asOf) <= At(until)
  }

  ghost predicate WindowAgreesAt(r: Stamp, s: Stamp, t: Stamp) {
    OpenAsText(r, s, t) <==> OpenInTime(r, s, t)
  }

  /** Years apart, neither the text nor the offset can be in doubt. */
  lemma YearsApart(s: Stamp, t: Stamp)
    requires ValidStamp(s) && ValidStamp(t) && s.local.year + 1 < t.local.year
    ensures Leq(Written(s), Written(t)) && At(s) <= At(t)
  {
    hide Written, Tail, ZoneText, Leq, At, Fraction, YearStart, MonthStart, MonthLength, ValidPart;
    var l, m := s.local, t.local;
    MonthsPass(l.year, l.month, 13);
    YearsPass(l.year, l.year + 1);
    YearsPass(l.year + 1, m.year);
    MonthsPass(l.year + 1, 1, 13);
    assert Days(l) + 28 <= Days(m);
    TextComparesLocals(s, t);
    WholeDecides(s, t);
  }

  /** The window test compares instants, for all times, exactly when all three stamps are on the same clock. */
  lemma WindowIsTimeIff(x: Layout, y: Layout, z: Layout)
    requires ValidZone(x.zone) && ValidZone(y.zone) && ValidZone(z.zone)
    ensures (forall r, s, t :: Of(r, x) && Of(s, y) && Of(t, z) ==> WindowAgreesAt(r, s, t)) <==>
            SameClock(x, y) && SameClock(y, z)
  {
    hide SameClock, Written, Leq, At, ValidZone, ValidLocal, ValidPart;
    if SameClock(x, y) && SameClock(y, z) {
      forall r, s, t | Of(r, x) && Of(s, y) && Of(t, z) ensures WindowAgreesAt(r, s, t) {
        SameClockAgrees(r, s);
        SameClockAgrees(s, t);
      }
    } else if SameClock(x, y) {
      var s, t := OtherClockDisagrees(y, z);
      var r := Stamp(Local(1, 1, 1, 0, 0, 0), 0, x);
      AnyYear(1, x);
      YearsApart(r, s);
      assert Of(r, x) && Of(s, y) && Of(t, z) && !WindowAgreesAt(r, s, t);
    } else {
      var r, s := OtherClockDisagrees(x, y);
      var t := Stamp(Local(9999, 1, 1, 0, 0, 0), 0, z);
      AnyYear(9999, z);
      YearsApart(s, t);
      assert Of(r, x) && Of(s, y) && Of(t, z) && !WindowAgreesAt(r, s, t);
    }
  }

  lemma AnyYear(year: nat, x: Layout)
    requires 1 <= year <= 9999
    ensures ValidTime(Stamp(Local(year, 1, 1, 0, 0, 0), 0, x))
  {
  }

  // ----- Windows that are closed and read as open -----

  const HALF_PAST_MIDNIGHT_WEST := Stamp(Local(2026, 1, 1, 0, 30, 0), 0, Layout(West(5, 0), 0))
  const ONE_O_CLOCK_UTC := Stamp(Local(2026, 1, 1, 1, 0, 0), 0, Layout(Zulu, 0))
  const HALF_A_SECOND_LATER := Stamp(Local(2026, 1, 1, 1, 0, 0), 5, Layout(Zulu, 1))
  const SIX_YEARS_BEFORE := Stamp(Local(2020, 1, 1, 0, 0, 0), 0, Layout(Zulu, 0))

  /** Four and a half hours after its end, the window still reads as open. */
  lemma ClosedWindowReadsOpen()
    ensures ValidStamp(HALF_PAST_MIDNIGHT_WEST) && ValidStamp(ONE_O_CLOCK_UTC) && ValidStamp(SIX_YEARS_BEFORE)
    ensures At(HALF_PAST_MIDNIGHT_WEST) == At(ONE_O_CLOCK_UTC) + 16200.0
    ensures OpenAsText(SIX_YEARS_BEFORE, HALF_PAST_MIDNIGHT_WEST, ONE_O_CLOCK_UTC)
    ensures !OpenInTime(SIX_YEARS_BEFORE, HALF_PAST_MIDNIGHT_WEST, ONE_O_CLOCK_UTC)
  {
    hide Written, Tail, Leq, YearStart, MonthStart;
    YearsApart(SIX_YEARS_BEFORE, HALF_PAST_MIDNIGHT_WEST);
    TextComparesLocals(HALF_PAST_MIDNIGHT_WEST, ONE_O_CLOCK_UTC);
  }

  /** With every stamp in `Z`, half a second after its end, the window still reads as open. */
  lemma HalfSecondReadsOpen()
    ensures ValidStamp(HALF_A_SECOND_LATER) && ValidStamp(ONE_O_CLOCK_UTC) && ValidStamp(SIX_YEARS_BEFORE)
    ensures At(HALF_A_SECOND_LATER) == At(ONE_O_CLOCK_UTC) + 0.5
    ensures OpenAsText(SIX_YEARS_BEFORE, HALF_A_SECOND_LATER, ONE_O_CLOCK_UTC)
    ensures !OpenInTime(SIX_YEARS_BEFORE, HALF_A_SECOND_LATER, ONE_O_CLOCK_UTC)
  {
    hide Written, Leq, YearStart, MonthStart;
    assert Power(1) == 10;
    YearsApart(SIX_YEARS_BEFORE, HALF_A_SECOND_LATER);
    TextComparesLocals(HALF_A_SECOND_LATER, ONE_O_CLOCK_UTC);
    FirstDiffers(Tail(5, Layout(Zulu, 1)), Tail(0, Layout(Zulu, 0)));
  }
}

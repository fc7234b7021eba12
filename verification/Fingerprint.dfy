/** Finding keys, violation classes and baseline fingerprints. */
module Fingerprint {
  import opened Common
  import opened Decimal
  import opened Text
  import opened Assertions

  /** `_loc` of evaluators.py. */
  function Location(s: Subject): string {
    if s.path != "" then s.path else if s.selector != "" then s.selector else "?"
  }

  function SubjectLocations(subjects: seq<Subject>): (r: seq<string>)
    ensures |r| == |subjects|
  {
    seq(|subjects|, i requires 0 <= i < |subjects| => Location(subjects[i]))
  }

  function FirstOr(s: seq<string>, otherwise: string): string {
    if s == [] then otherwise else s[0]
  }

  /** What a built-in evaluator reports: the arguments of `_mk`. */
  datatype Report = Report(violationClass: string, expected: string, observed: string, locations: seq<string>)

  function FindingKey(id: string, location: string, violationClass: string): string {
    id + "|" + location + "|" + violationClass
  }

  /** `_mk` of evaluators.py. */
  function Mk(a: Assertion, r: Report): (f: Finding)
    ensures f.assertionId == a.id && f.violationClass == Some(r.violationClass)
  {
    var locs := if r.locations != [] then r.locations else SubjectLocations(a.subjects);
    Finding(a.id, FindingKey(a.id, FirstOr(locs, "?"), r.violationClass), Some(r.violationClass), locs,
            r.expected, r.observed, Block, None, None, NoFindingReason, [])
  }

  function Of(id: string, version: int, location: string, violationClass: string): string {
    id + "|" + "v" + IntStr(version) + "|" + location + "|" + violationClass
  }

  /** `_vclass` of adoption.py: the recorded class, else the last segment of the key. */
  function ViolationClass(f: Finding): string {
    if f.violationClass.Some? && f.violationClass.value != "" then f.violationClass.value
    else
      var parts := Split(f.key, '|');
      if |parts| >= 3 then Last(parts) else "unknown"
  }

  lemma VersionHasNoBar(version: int)
    ensures '|' !in "v" + IntStr(version)
  {
    var s := IntStr(version);
    assert forall i :: 0 <= i < |s| ==> s[i] == '-' || IsDigit(s[i]);
  }

  /** With bar-free ids and classes a fingerprint names one (id, version, location, class). */
  lemma Injective(id: string, v: int, loc: string, cls: string, id': string, v': int, loc': string, cls': string)
    requires '|' !in id && '|' !in id' && '|' !in cls && '|' !in cls'
    ensures Of(id, v, loc, cls) == Of(id', v', loc', cls') <==> id == id' && v == v' && loc == loc' && cls == cls'
  {
    hide Of, IntStr;
    if Of(id, v, loc, cls) == Of(id', v', loc', cls') {
      var mid, mid' := "v" + IntStr(v), "v" + IntStr(v');
      OfParts(id, v, loc, cls);
      OfParts(id', v', loc', cls');
      CutLast('|', id + ['|'] + mid + ['|'] + loc, id' + ['|'] + mid' + ['|'] + loc', cls, cls');
      VersionHasNoBar(v);
      VersionHasNoBar(v');
      PrefixInjective(id, mid, loc, id', mid', loc');
      VersionCancel(v, v');
    }
  }

  lemma OfParts(id: string, v: int, loc: string, cls: string)
    ensures Of(id, v, loc, cls) == (id + ['|'] + ("v" + IntStr(v)) + ['|'] + loc) + ['|'] + cls
  {
  }

  lemma VersionCancel(v: int, v': int)
    requires "v" + IntStr(v) == "v" + IntStr(v')
    ensures v == v'
  {
    hide IntStr;
    assert IntStr(v) + [] == ("v" + IntStr(v))[1..] == ("v" + IntStr(v'))[1..] == IntStr(v') + [];
    IntCancel(v, v', [], []);
  }

  lemma PrefixInjective(id: string, mid: string, loc: string, id': string, mid': string, loc': string)
    requires '|' !in id && '|' !in id' && '|' !in mid && '|' !in mid'
    requires id + ['|'] + mid + ['|'] + loc == id' + ['|'] + mid' + ['|'] + loc'
    ensures id == id' && mid == mid' && loc == loc'
  {
    assert id + ['|'] + mid + ['|'] + loc == id + ['|'] + (mid + ['|'] + loc);
    assert id' + ['|'] + mid' + ['|'] + loc' == id' + ['|'] + (mid' + ['|'] + loc');
    CutFirst('|', id, id', mid + ['|'] + loc, mid' + ['|'] + loc');
    CutFirst('|', mid, mid', loc, loc');
  }

  /** Every class holding a bar shares its fingerprints: the bar may as well belong to the location. */
  lemma BarInClassIsAmbiguous(id: string, v: int, loc: string, cls: string)
    requires '|' in cls
    ensures exists loc', cls' :: loc' != loc && cls' != cls && Of(id, v, loc', cls') == Of(id, v, loc, cls)
  {
    var k :| 0 <= k < |cls| && cls[k] == '|';
    var head, tail := cls[..k], cls[k + 1..];
    assert cls == head + "|" + tail;
    var loc' := loc + "|" + head;
    assert |loc'| > |loc| && |tail| < |cls|;
    assert id + "|" + "v" + IntStr(v) + "|" + loc' + "|" + tail == id + "|" + "v" + IntStr(v) + "|" + loc + "|" + cls;
    assert Of(id, v, loc', tail) == Of(id, v, loc, cls);
  }

  /** A finding key without its class field still yields the class `_mk` printed, exactly when that class has no bar. */
  lemma ClassRecoveredIff(a: Assertion, r: Report)
    ensures ViolationClass(Mk(a, r)) == r.violationClass
    ensures ViolationClass(Mk(a, r).(violationClass := None)) == r.violationClass <==> '|' !in r.violationClass
  {
    var f := Mk(a, r).(violationClass := None);
    var locs := if r.locations != [] then r.locations else SubjectLocations(a.subjects);
    var loc := FirstOr(locs, "?");
    assert f.key == (a.id + ['|'] + loc) + ['|'] + r.violationClass;
    SplitAfter(a.id, '|', loc);
    SplitAfter(a.id + ['|'] + loc, '|', r.violationClass);
    SplitLastFree(r.violationClass, '|');
    if '|' !in r.violationClass {
      SplitFree(r.violationClass, '|');
    }
  }

  /** Without a recorded class, a key of three or more fields gives what follows its last bar, any other `unknown`. */
  lemma ClassFallback(f: Finding)
    requires f.violationClass.None? || f.violationClass == Some("")
    ensures |Split(f.key, '|')| < 3 ==> ViolationClass(f) == "unknown"
    ensures |Split(f.key, '|')| >= 3 ==>
              '|' !in ViolationClass(f) && exists head :: f.key == head + "|" + ViolationClass(f)
  {
    var parts := Split(f.key, '|');
    if |parts| >= 3 {
      SplitJoins(f.key, '|');
      var head := JoinLast(parts, '|');
      assert f.key == head + "|" + ViolationClass(f);
    }
  }
}

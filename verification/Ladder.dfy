/** The adoption ladder of hub/coherence/adoption.py: baselines, exceptions and stages. Instants are integers. */
module Ladder {
  import opened Common
  import opened Assertions
  import opened Fingerprint
  import opened Severity

  /** What a baseline entry or an exception names. */
  datatype Debt = Debt(assertionId: string, version: int, location: string, violationClass: string)

  datatype BaselineEntry = BaselineEntry(names: Debt, isOpen: bool, severity: string)

  /** Absent scopes are the empty string. */
  datatype Exemption = Exemption(id: string, assertionId: string, subjectRef: string, names: Debt, expiresAt: int)

  datatype Policy = Policy(
    baseline: seq<BaselineEntry>,
    exceptions: seq<Exemption>,
    stage: int,
    now: int,
    core: Option<set<string>>,
    floor: map<string, string>,
    advisoryExpired: bool)

  datatype LadderError = WildcardException

  const DEFAULT_ENFORCED_CORE: set<string> := {
    "devgate.builtin.identity-consistency",
    "devgate.builtin.traceability-completeness",
    "devgate.builtin.release-claim-consistency"}

  function Print(d: Debt): string {
    Of(d.assertionId, d.version, d.location, d.violationClass)
  }

  predicate Wildcard(scope: string) {
    scope == "" || scope == "*"
  }

  /** The exception is bounded to an assertion and to a subject. */
  ghost predicate Scoped(e: Exemption) {
    e.assertionId !in {"", "*"} && e.subjectRef !in {"", "*"}
  }

  // ----- What the ladder looks up -----

  /** The version of the last planned assertion with this id, or 1. */
  function VersionOf(planned: seq<Assertion>, id: string): int {
    if planned == [] then 1
    else if planned[|planned| - 1].id == id then planned[|planned| - 1].version
    else VersionOf(planned[..|planned| - 1], id)
  }

  function EvaluatorOf(planned: seq<Assertion>, id: string): Option<string> {
    if planned == [] then None
    else if planned[|planned| - 1].id == id then Some(planned[|planned| - 1].evaluator)
    else EvaluatorOf(planned[..|planned| - 1], id)
  }

  /** What a finding is an instance of. */
  function DebtOf(planned: seq<Assertion>, f: Finding): Debt {
    Debt(f.assertionId, VersionOf(planned, f.assertionId), FirstOr(f.locations, "?"), ViolationClass(f))
  }

  ghost predicate InBaseline(p: Policy, fp: string) {
    exists b :: b in p.baseline && b.isOpen && Print(b.names) == fp
  }

  /** Central policy has raised the floor above the severity this debt was adopted at. */
  predicate Raised(p: Policy, b: BaselineEntry) {
    b.names.assertionId in p.floor && Above(p.floor[b.names.assertionId], b.severity)
  }

  ghost predicate Escalated(p: Policy, fp: string) {
    exists b :: b in p.baseline && b.isOpen && Raised(p, b) && Print(b.names) == fp
  }

  ghost predicate Expired(p: Policy, fp: string) {
    exists e :: e in p.exceptions && e.expiresAt <= p.now && Print(e.names) == fp
  }

  /** The id of the last unexpired exception with this fingerprint. */
  function ActiveIn(exceptions: seq<Exemption>, now: int, fp: string): Option<string> {
    if exceptions == [] then None
    else
      var e := exceptions[|exceptions| - 1];
      if e.expiresAt > now && Print(e.names) == fp then Some(e.id)
      else ActiveIn(exceptions[..|exceptions| - 1], now, fp)
  }

  function Active(p: Policy, fp: string): Option<string> {
    ActiveIn(p.exceptions, p.now, fp)
  }

  /** `_shelter_ends`. */
  predicate ShelterEnds(p: Policy, planned: seq<Assertion>, id: string) {
    if p.stage >= 4 then true
    else if p.stage == 3 then
      var evaluator := EvaluatorOf(planned, id);
      evaluator.Some? && evaluator.value in (if p.core.Some? then p.core.value else DEFAULT_ENFORCED_CORE)
    else false
  }

  ghost predicate Sheltered(p: Policy, planned: seq<Assertion>, id: string, fp: string) {
    InBaseline(p, fp) && !Escalated(p, fp) && !p.advisoryExpired && !ShelterEnds(p, planned, id)
  }

  // ----- The verdict on one finding -----

  ghost function Verdict(p: Policy, planned: seq<Assertion>, f: Finding): Enforcement {
    var fp := Print(DebtOf(planned, f));
    if p.stage < 2 then Advisory
    else if Expired(p, fp) then Block
    else if Active(p, fp).Some? then ExceptionAdvisory
    else if Sheltered(p, planned, f.assertionId, fp) then Advisory
    else Block
  }

  /** Why a blocked finding is not a plain regression. */
  ghost function VerdictReason(p: Policy, planned: seq<Assertion>, f: Finding): FindingReason {
    var fp := Print(DebtOf(planned, f));
    if p.stage >= 2 && !Expired(p, fp) && Active(p, fp).None? && p.advisoryExpired && InBaseline(p, fp) then
      if Escalated(p, fp) then ExpiredSeverityEscalated else ExpiredExistingDebt
    else f.reason
  }

  ghost function Ruled(p: Policy, planned: seq<Assertion>, f: Finding): (r: Finding)
    ensures r.assertionId == f.assertionId
  {
    var fp := Print(DebtOf(planned, f));
    var e := Verdict(p, planned, f);
    f.(fingerprint := Some(fp),
       enforcement := e,
       exceptionId := if e == ExceptionAdvisory then Active(p, fp) else f.exceptionId,
       reason := VerdictReason(p, planned, f))
  }

  ghost function RuledAll(p: Policy, planned: seq<Assertion>, findings: seq<Finding>): (r: seq<Finding>)
    ensures |r| == |findings| && forall i :: 0 <= i < |r| ==> r[i] == Ruled(p, planned, findings[i])
  {
    seq(|findings|, i requires 0 <= i < |findings| => Ruled(p, planned, findings[i]))
  }

  // ----- How a row mirrors its findings -----

  function FindingsOf(findings: seq<Finding>, id: string): (r: seq<Finding>)
    ensures forall f :: f in r <==> f in findings && f.assertionId == id
  {
    if findings == [] then []
    else
      var n := |findings| - 1;
      assert findings == findings[..n] + [findings[n]];
      FindingsOf(findings[..n], id) + if findings[n].assertionId == id then [findings[n]] else []
  }

  function Stricter(a: Enforcement, b: Enforcement): (r: Enforcement)
    ensures Rank(r) == if Rank(a) >= Rank(b) then Rank(a) else Rank(b)
  {
    if Rank(a) >= Rank(b) then a else b
  }

  function Strictest(fs: seq<Finding>): Enforcement {
    if fs == [] then Advisory else Stricter(Strictest(fs[..|fs| - 1]), fs[|fs| - 1].enforcement)
  }

  function Count(fs: seq<Finding>, e: Enforcement): nat {
    if fs == [] then 0 else Count(fs[..|fs| - 1], e) + if fs[|fs| - 1].enforcement == e then 1 else 0
  }

  /** The enforcements other than the row's own that occur among its findings, softest first, with their counts. */
  function Softer(fs: seq<Finding>, own: Enforcement): seq<(Enforcement, nat)> {
    (if own != Advisory && Count(fs, Advisory) > 0 then [(Advisory, Count(fs, Advisory))] else [])
    + (if own != ExceptionAdvisory && Count(fs, ExceptionAdvisory) > 0
       then [(ExceptionAdvisory, Count(fs, ExceptionAdvisory))] else [])
    + (if own != Block && Count(fs, Block) > 0 then [(Block, Count(fs, Block))] else [])
  }

  function Mirror(stage: int, findings: seq<Finding>, row: Row): (r: Row)
    ensures r.outcome == row.outcome && r.assertionId == row.assertionId
  {
    match row.outcome
    case Satisfied => row.(enforcement := Advisory)
    case Unresolved => row.(enforcement := if stage >= 2 then Block else Advisory)
    case Violated =>
      var fs := FindingsOf(findings, row.assertionId);
      if fs == [] then row.(enforcement := Block, reason := WithoutFindingDetail)
      else
        var own := Strictest(fs);
        var softer := Softer(fs, own);
        row.(enforcement := own, reason := if softer == [] then row.reason else MultiFinding(|fs|, own, softer))
  }

  function MirrorAll(stage: int, findings: seq<Finding>, ledger: seq<Row>): (r: seq<Row>)
    ensures |r| == |ledger| && forall i :: 0 <= i < |r| ==> r[i] == Mirror(stage, findings, ledger[i])
  {
    seq(|ledger|, i requires 0 <= i < |ledger| => Mirror(stage, findings, ledger[i]))
  }

  ghost predicate SomeFindingBlocks(findings: seq<Finding>) {
    exists i :: 0 <= i < |findings| && findings[i].enforcement == Block
  }

  ghost predicate SomeRowBlocks(ledger: seq<Row>) {
    exists i :: 0 <= i < |ledger| && ledger[i].enforcement == Block
  }

  // ----- The imperative ladder -----

  /** `validate_exceptions`. */
  method ValidateExceptions(exceptions: seq<Exemption>) returns (ok: bool)
    ensures ok <==> forall e :: e in exceptions ==> Scoped(e)
  {
    for i := 0 to |exceptions|
      invariant forall k :: 0 <= k < i ==> Scoped(exceptions[k])
    {
      if Wildcard(exceptions[i].assertionId) || Wildcard(exceptions[i].subjectRef) {
        assert exceptions[i] in exceptions;
        return false;
      }
    }
    ok := true;
  }

  lemma BaselineStep(p: Policy, i: nat, fp: string)
    requires i < |p.baseline|
    ensures var b := p.baseline[i];
            InBaseline(p.(baseline := p.baseline[..i + 1]), fp) <==>
            InBaseline(p.(baseline := p.baseline[..i]), fp) || (b.isOpen && Print(b.names) == fp)
    ensures var b := p.baseline[i];
            Escalated(p.(baseline := p.baseline[..i + 1]), fp) <==>
            Escalated(p.(baseline := p.baseline[..i]), fp) || (b.isOpen && Raised(p, b) && Print(b.names) == fp)
  {
    var before, after := p.(baseline := p.baseline[..i]), p.(baseline := p.baseline[..i + 1]);
    var b := p.baseline[i];
    assert after.baseline == before.baseline + [b];
    assert forall x :: x in after.baseline <==> x in before.baseline || x == b;
    if InBaseline(before, fp) {
      var x :| x in before.baseline && x.isOpen && Print(x.names) == fp;
      assert x in after.baseline;
    }
    if Escalated(before, fp) {
      var x :| x in before.baseline && x.isOpen && Raised(before, x) && Print(x.names) == fp;
      assert x in after.baseline;
    }
  }

  /** `baseline_fps` and `escalated_fps`. */
  method ReadBaseline(p: Policy) returns (known: set<string>, escalated: set<string>)
    ensures forall fp :: fp in known <==> InBaseline(p, fp)
    ensures forall fp :: fp in escalated <==> Escalated(p, fp)
  {
    hide Print, Raised;
    known, escalated := {}, {};
    for i := 0 to |p.baseline|
      invariant forall fp :: fp in known <==> InBaseline(p.(baseline := p.baseline[..i]), fp)
      invariant forall fp :: fp in escalated <==> Escalated(p.(baseline := p.baseline[..i]), fp)
    {
      var b := p.baseline[i];
      var fp := Print(b.names);
      if b.isOpen {
        known := known + {fp};
        if Raised(p, b) {
          escalated := escalated + {fp};
        }
      }
      forall x
        ensures x in known <==> InBaseline(p.(baseline := p.baseline[..i + 1]), x)
        ensures x in escalated <==> Escalated(p.(baseline := p.baseline[..i + 1]), x)
      {
        BaselineStep(p, i, x);
      }
    }
    assert p.baseline[..|p.baseline|] == p.baseline;
  }

  lemma ExceptionStep(p: Policy, i: nat, fp: string)
    requires i < |p.exceptions|
    ensures var e := p.exceptions[i];
            Expired(p.(exceptions := p.exceptions[..i + 1]), fp) <==>
            Expired(p.(exceptions := p.exceptions[..i]), fp) || (e.expiresAt <= p.now && Print(e.names) == fp)
    ensures var e := p.exceptions[i];
            ActiveIn(p.exceptions[..i + 1], p.now, fp) ==
            if e.expiresAt > p.now && Print(e.names) == fp then Some(e.id) else ActiveIn(p.exceptions[..i], p.now, fp)
  {
    var before, after := p.(exceptions := p.exceptions[..i]), p.(exceptions := p.exceptions[..i + 1]);
    var e := p.exceptions[i];
    assert after.exceptions[..i] == before.exceptions;
    assert after.exceptions == before.exceptions + [e];
    assert forall x :: x in after.exceptions <==> x in before.exceptions || x == e;
    if Expired(before, fp) {
      var x :| x in before.exceptions && x.expiresAt <= p.now && Print(x.names) == fp;
      assert x in after.exceptions;
    }
  }

  /** `active_exc` and `expired_exc`. */
  method ReadExceptions(p: Policy) returns (active: map<string, string>, expired: set<string>)
    ensures forall fp :: fp in expired <==> Expired(p, fp)
    ensures forall fp :: Active(p, fp) == if fp in active then Some(active[fp]) else None
  {
    hide Print;
    active, expired := map[], {};
    for i := 0 to |p.exceptions|
      invariant forall fp :: fp in expired <==> Expired(p.(exceptions := p.exceptions[..i]), fp)
      invariant forall fp :: ActiveIn(p.exceptions[..i], p.now, fp) == if fp in active then Some(active[fp]) else None
    {
      var e := p.exceptions[i];
      var fp := Print(e.names);
      if e.expiresAt <= p.now {
        expired := expired + {fp};
      } else {
        active := active[fp := e.id];
      }
      forall x
        ensures x in expired <==> Expired(p.(exceptions := p.exceptions[..i + 1]), x)
        ensures ActiveIn(p.exceptions[..i + 1], p.now, x) == if x in active then Some(active[x]) else None
      {
        ExceptionStep(p, i, x);
      }
    }
    assert p.exceptions[..|p.exceptions|] == p.exceptions;
  }

  /** One pass of the loop over the findings. */
  method JudgeOne(p: Policy, planned: seq<Assertion>, f: Finding, known: set<string>, escalated: set<string>,
                  active: map<string, string>, expired: set<string>)
    returns (g: Finding, blocks: bool)
    requires forall fp :: fp in known <==> InBaseline(p, fp)
    requires forall fp :: fp in escalated <==> Escalated(p, fp)
    requires forall fp :: fp in expired <==> Expired(p, fp)
    requires forall fp :: Active(p, fp) == if fp in active then Some(active[fp]) else None
    ensures g == Ruled(p, planned, f)
    ensures blocks <==> g.enforcement == Block
  {
    var fp := Print(DebtOf(planned, f));
    g, blocks := f.(fingerprint := Some(fp)), false;
    if p.stage < 2 {
      g := g.(enforcement := Advisory);
    } else if fp in expired {
      g, blocks := g.(enforcement := Block), true;
    } else if fp in active {
      g := g.(enforcement := ExceptionAdvisory, exceptionId := Some(active[fp]));
    } else if fp in known && fp !in escalated && !p.advisoryExpired && !ShelterEnds(p, planned, f.assertionId) {
      g := g.(enforcement := Advisory);
    } else {
      g, blocks := g.(enforcement := Block), true;
      if p.advisoryExpired && fp in known {
        g := g.(reason := if fp !in escalated then ExpiredExistingDebt else ExpiredSeverityEscalated);
      }
    }
  }

  /** The loop over the findings: each is judged in place. */
  method JudgeFindings(p: Policy, planned: seq<Assertion>, findings: array<Finding>) returns (blocked: bool)
    modifies findings
    ensures findings[..] == RuledAll(p, planned, old(findings[..]))
    ensures blocked <==> SomeFindingBlocks(findings[..])
  {
    hide Ruled, Print, DebtOf;
    var known, escalated := ReadBaseline(p);
    var active, expired := ReadExceptions(p);
    blocked := false;
    for i := 0 to findings.Length
      invariant forall k :: 0 <= k < i ==> findings[k] == Ruled(p, planned, old(findings[k]))
      invariant forall k :: i <= k < findings.Length ==> findings[k] == old(findings[k])
      invariant blocked <==> exists k :: 0 <= k < i && findings[k].enforcement == Block
    {
      var g, blocks := JudgeOne(p, planned, findings[i], known, escalated, active, expired);
      findings[i] := g;
      blocked := blocked || blocks;
    }
  }

  /** `by_aid`. */
  method GroupByAssertion(findings: array<Finding>) returns (byId: map<string, seq<Finding>>)
    ensures forall id :: FindingsOf(findings[..], id) == if id in byId then byId[id] else []
    ensures forall id :: id in byId ==> byId[id] != []
  {
    byId := map[];
    for i := 0 to findings.Length
      invariant forall id :: FindingsOf(findings[..i], id) == if id in byId then byId[id] else []
      invariant forall id :: id in byId ==> byId[id] != []
    {
      var f := findings[i];
      assert findings[..i + 1][..i] == findings[..i];
      byId := byId[f.assertionId := (if f.assertionId in byId then byId[f.assertionId] else []) + [f]];
    }
    assert findings[..findings.Length] == findings[..];
  }

  /** `max` over the findings and their counts by enforcement. */
  method Tally(fs: seq<Finding>) returns (strictest: Enforcement, counts: map<Enforcement, nat>)
    ensures strictest == Strictest(fs)
    ensures forall e :: Count(fs, e) == if e in counts then counts[e] else 0
    ensures forall e :: e in counts ==> counts[e] > 0
  {
    strictest, counts := Advisory, map[];
    for i := 0 to |fs|
      invariant strictest == Strictest(fs[..i])
      invariant forall e :: Count(fs[..i], e) == if e in counts then counts[e] else 0
      invariant forall e :: e in counts ==> counts[e] > 0
    {
      var own := fs[i].enforcement;
      assert fs[..i + 1][..i] == fs[..i];
      strictest := if Rank(strictest) >= Rank(own) then strictest else own;
      counts := counts[own := (if own in counts then counts[own] else 0) + 1];
    }
    assert fs[..|fs|] == fs;
  }

  /** One pass of the loop over the ledger. */
  method MirrorOne(stage: int, ghost findings: seq<Finding>, byId: map<string, seq<Finding>>, row: Row)
    returns (r: Row)
    requires forall id :: FindingsOf(findings, id) == if id in byId then byId[id] else []
    requires forall id :: id in byId ==> byId[id] != []
    ensures r == Mirror(stage, findings, row)
  {
    r := row;
    match row.outcome {
      case Satisfied =>
        r := r.(enforcement := Advisory);
      case Unresolved =>
        r := r.(enforcement := if stage >= 2 then Block else Advisory);
      case Violated =>
        if row.assertionId !in byId {
          return r.(enforcement := Block, reason := WithoutFindingDetail);
        }
        var fs := byId[row.assertionId];
        var own, counts := Tally(fs);
        var softer: seq<(Enforcement, nat)> := [];
        if Advisory in counts && own != Advisory {
          softer := softer + [(Advisory, counts[Advisory])];
        }
        if ExceptionAdvisory in counts && own != ExceptionAdvisory {
          softer := softer + [(ExceptionAdvisory, counts[ExceptionAdvisory])];
        }
        if Block in counts && own != Block {
          softer := softer + [(Block, counts[Block])];
        }
        assert softer == Softer(fs, own);
        r := r.(enforcement := own);
        if softer != [] {
          r := r.(reason := MultiFinding(|fs|, own, softer));
        }
    }
  }

  /** The loop over the ledger: each row mirrors its findings, in place. */
  method MirrorRows(stage: int, findings: array<Finding>, ledger: array<Row>) returns (blocked: bool)
    modifies ledger
    ensures ledger[..] == MirrorAll(stage, findings[..], old(ledger[..]))
    ensures blocked <==> SomeRowBlocks(ledger[..])
  {
    hide Mirror, FindingsOf;
    var byId := GroupByAssertion(findings);
    blocked := false;
    for i := 0 to ledger.Length
      invariant forall k :: 0 <= k < i ==> ledger[k] == Mirror(stage, findings[..], old(ledger[k]))
      invariant forall k :: i <= k < ledger.Length ==> ledger[k] == old(ledger[k])
      invariant blocked <==> exists k :: 0 <= k < i && ledger[k].enforcement == Block
    {
      var row := MirrorOne(stage, findings[..], byId, ledger[i]);
      ledger[i] := row;
      blocked := blocked || row.enforcement == Block;
    }
  }

  /** `adoption.evaluate`. */
  method Apply(p: Policy, planned: seq<Assertion>, ledger: array<Row>, findings: array<Finding>)
    returns (r: Result<bool, LadderError>)
    modifies ledger, findings
    ensures r.Ok? <==> forall e :: e in p.exceptions ==> Scoped(e)
    ensures r.Ok? ==> findings[..] == RuledAll(p, planned, old(findings[..]))
    ensures r.Ok? ==> ledger[..] == MirrorAll(p.stage, findings[..], old(ledger[..]))
    ensures r.Ok? ==> (r.value <==> SomeFindingBlocks(findings[..]) || SomeRowBlocks(ledger[..]))
    ensures r.Err? ==> ledger[..] == old(ledger[..]) && findings[..] == old(findings[..])
  {
    var ok := ValidateExceptions(p.exceptions);
    if !ok {
      return Err(WildcardException);
    }
    var findingBlocks := JudgeFindings(p, planned, findings);
    var rowBlocks := MirrorRows(p.stage, findings, ledger);
    r := Ok(findingBlocks || rowBlocks);
  }
}

/** The records that travel down the decision pipeline: assertions, findings and ledger rows. */
module Assertions {
  import opened Common

  datatype SubjectKind = File | ArtifactMetadata | Directory | CapturedFact

  /** A subject selector. An absent path or selector is the empty string; both are falsy. */
  datatype Subject = Subject(kind: SubjectKind, path: string, selector: string, factId: Option<string>)

  /** An assertion of the shape assertion.schema.json admits. */
  datatype Assertion = Assertion(
    id: string,
    version: int,
    requirementRefs: seq<string>,
    subjects: seq<Subject>,
    evaluator: string,
    severity: string,
    dependencies: seq<string>)

  /** The evaluators bundled in the image; nothing else may run. */
  predicate Builtin(evaluator: string) {
    || evaluator == "devgate.builtin.identity-consistency"
    || evaluator == "devgate.builtin.traceability-completeness"
    || evaluator == "devgate.builtin.release-claim-consistency"
    || evaluator == "devgate.builtin.captured-fact-consistency"
  }

  datatype Outcome = Satisfied | Violated | Unresolved

  datatype Enforcement = Advisory | ExceptionAdvisory | Block

  /** How strict an enforcement is. */
  function Rank(e: Enforcement): nat {
    match e
    case Advisory => 0
    case ExceptionAdvisory => 1
    case Block => 2
  }

  datatype Finding = Finding(
    assertionId: string,
    key: string,
    violationClass: Option<string>,
    locations: seq<string>,
    expected: string,
    observed: string,
    enforcement: Enforcement,
    fingerprint: Option<string>,
    exceptionId: Option<string>,
    reason: FindingReason,
    evidenceRefs: seq<string>)

  datatype FindingReason = NoFindingReason | ExpiredExistingDebt | ExpiredSeverityEscalated

  datatype Reason =
    | NoReason
    | UnapprovedEvaluator
    | FactMissing(factId: string)
    | DependencyBlocked
    | CannotDecide(why: string)
    | EvaluatorCrash(exception: string)
    | InputMutation(path: string)
    | WithoutFindingDetail
    | MultiFinding(findings: nat, mirrors: Enforcement, softer: seq<(Enforcement, nat)>)

  datatype Row = Row(assertionId: string, version: int, outcome: Outcome, reason: Reason, enforcement: Enforcement)

  /** The assertion ids in order. */
  function Ids(assertions: seq<Assertion>): (ids: seq<string>)
    ensures |ids| == |assertions| && forall i :: 0 <= i < |ids| ==> ids[i] == assertions[i].id
  {
    seq(|assertions|, i requires 0 <= i < |assertions| => assertions[i].id)
  }

  lemma MemberHasId(s: seq<Assertion>, a: Assertion)
    requires a in s
    ensures a.id in Ids(s)
  {
    var k :| 0 <= k < |s| && s[k] == a;
    assert Ids(s)[k] == a.id;
  }

  lemma DistinctIdsDistinct(s: seq<Assertion>)
    requires Distinct(Ids(s))
    ensures Distinct(s)
  {
    forall i, j | 0 <= i < j < |s| ensures s[i] != s[j] {
      assert Ids(s)[i] != Ids(s)[j];
    }
  }
}

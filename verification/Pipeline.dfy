/** The decision pipeline of hub/coherence/__main__.py: overlay, plan, run, ladder, exit code. */
module Pipeline {
  import opened Common
  import opened Assertions
  import Planner
  import Overlay
  import opened Evaluation
  import opened Ladder
  import opened LadderLaws
  import Decision

  /** A finished run exits with a code; `Traceback` is an exception that `run` lets through. */
  datatype Conclusion = Exit(code: int) | Traceback

  /** The default bound of `run`. */
  const MAX_EVALUATORS := 10_000

  /** Everything the decision depends on, apart from what the evaluators see. */
  datatype Request = Request(
    assertions: seq<Assertion>,
    overlay: Option<Overlay.RepositoryOverlay>,
    central: Overlay.Central,
    requirements: Option<seq<Planner.Requirement>>,
    setting: Setting,
    stage: int,
    now: int)

  /** The row of `id` is SATISFIED. */
  ghost predicate SatisfiedIn(ledger: seq<Row>, id: string) {
    exists i :: 0 <= i < |ledger| && ledger[i].assertionId == id && ledger[i].outcome == Satisfied
  }

  /** The package that gets planned: the repository's, with the overlay applied when there is one. */
  ghost predicate PackageOf(q: Request, package: seq<Assertion>) {
    if q.overlay.None? then package == q.assertions
    else Overlay.Acceptable(q.assertions, q.overlay.value, q.central)
         && Overlay.Applied(q.assertions, q.overlay.value, package)
  }

  ghost predicate PlansPackage(q: Request, package: seq<Assertion>, planned: seq<Assertion>) {
    && PackageOf(q, package)
    && Planner.Plannable(package, q.central.required, q.requirements)
    && Planner.IsPlan(package, planned)
  }

  ghost predicate Unplannable(q: Request, package: seq<Assertion>) {
    PackageOf(q, package) && !Planner.Plannable(package, q.central.required, q.requirements)
  }

  /** The package gets past overlay and planner checks. */
  ghost predicate Ready(q: Request) {
    exists package :: PackageOf(q, package) && Planner.Plannable(package, q.central.required, q.requirements)
  }

  /** The overlay is fine, but what it leaves cannot be planned. */
  ghost predicate Stuck(q: Request) {
    exists package :: Unplannable(q, package)
  }

  ghost predicate OverlayRefused(q: Request) {
    q.overlay.Some? && !Overlay.Acceptable(q.assertions, q.overlay.value, q.central)
  }

  /** The overlay is refused for the reason `e` gives. */
  ghost predicate RefusedWith(q: Request, e: Overlay.OverlayError) {
    q.overlay.Some? && Overlay.Explained(q.assertions, q.overlay.value, q.central, e)
  }

  /** What stops the overlay is a floor without a rank: a `KeyError` nobody catches. */
  ghost predicate FloorFails(q: Request) {
    exists e :: RefusedWith(q, e) && e.FloorKeyError?
  }

  ghost predicate WildcardException(q: Request) {
    exists e :: e in q.setting.exceptions && !Scoped(e)
  }

  /** What planning establishes. */
  ghost predicate Prepared(q: Request, planned: seq<Assertion>) {
    && (exists package :: PlansPackage(q, package, planned))
    && Planner.DependenciesFirst(planned) && Distinct(Ids(planned)) && Planner.Approved(planned)
    && (forall k :: 0 <= k < |q.central.required| ==> q.central.required[k] in Ids(planned))
  }

  /** Some assertion is left open at an enforcing stage, or a finding blocks. */
  ghost predicate Fails(q: Request, planned: seq<Assertion>, run: RunResult) {
    SomethingBlocks(PolicyAt(q.setting, q.stage, q.now), planned, run.findings, run.ledger)
  }

  /** Some row of the ledger ends up as BLOCK. */
  ghost predicate EndsInBlock(q: Request, planned: seq<Assertion>, run: RunResult) {
    SomeRowBlocks(FinalLedger(PolicyAt(q.setting, q.stage, q.now), planned, run.findings, run.ledger))
  }

  /** A decided run: a plan of the package, its ledger without an execution error, and the exit code they call for. */
  ghost predicate DecidedRun(q: Request, w: World, planned: seq<Assertion>, run: RunResult, code: int) {
    && Prepared(q, planned)
    && Ran(w, planned, run) && run.error.None?
    && code in {0, 10, 20}
    && (code == 20 <==> Fails(q, planned, run)) && (code == 20 <==> EndsInBlock(q, planned, run))
    && (code == 0 <==> Decision.AllSatisfied(run.ledger))
  }

  /** With exit code 0, every row is SATISFIED, and so every centrally required assertion is. */
  lemma PassMeansRequiredSatisfied(q: Request, w: World, planned: seq<Assertion>, run: RunResult)
    requires DecidedRun(q, w, planned, run, 0)
    ensures forall i :: 0 <= i < |run.ledger| ==> run.ledger[i].outcome == Satisfied
    ensures forall k :: 0 <= k < |q.central.required| ==> SatisfiedIn(run.ledger, q.central.required[k])
  {
    forall k | 0 <= k < |q.central.required| ensures SatisfiedIn(run.ledger, q.central.required[k]) {
      var i :| 0 <= i < |planned| && Ids(planned)[i] == q.central.required[k];
      RowFacts(w, planned, run.ledger, i);
    }
  }

  lemma PermutationIds(a: seq<Assertion>, b: seq<Assertion>, id: string)
    requires multiset(a) == multiset(b) && id in Ids(a)
    ensures id in Ids(b)
  {
    var i :| 0 <= i < |a| && Ids(a)[i] == id;
    assert a[i] in multiset(b);
    MemberHasId(b, a[i]);
  }

  /** There is one package to plan. */
  lemma PackageUnique(q: Request, p: seq<Assertion>, p': seq<Assertion>)
    requires PackageOf(q, p) && PackageOf(q, p')
    ensures p == p'
  {
    if q.overlay.Some? {
      Overlay.AppliedUnique(q.assertions, q.overlay.value, q.central, p, p');
    }
  }

  /** So planning it succeeds, fails, or is not reached. */
  lemma ReadyOrStuck(q: Request, package: seq<Assertion>)
    requires PackageOf(q, package)
    ensures !OverlayRefused(q) && !FloorFails(q)
    ensures Ready(q) <==> Planner.Plannable(package, q.central.required, q.requirements)
    ensures Stuck(q) <==> !Planner.Plannable(package, q.central.required, q.requirements)
  {
    hide Overlay.Acceptable, Overlay.Applied, Overlay.Explained, Planner.Plannable;
    forall p | PackageOf(q, p) ensures p == package { PackageUnique(q, p, package); }
    assert Stuck(q) <== Unplannable(q, package);
    if q.overlay.Some? {
      forall e ensures !RefusedWith(q, e) {
        Overlay.ExplainedIsRefused(q.assertions, q.overlay.value, q.central, e);
      }
    }
  }

  lemma RefusalDecided(q: Request, e: Overlay.OverlayError)
    requires RefusedWith(q, e)
    ensures OverlayRefused(q) && !Ready(q) && !Stuck(q)
    ensures FloorFails(q) <==> e.FloorKeyError?
  {
    hide Overlay.Acceptable, Overlay.Applied, Overlay.Explained, Planner.Plannable;
    Overlay.ExplainedIsRefused(q.assertions, q.overlay.value, q.central, e);
    forall e' | RefusedWith(q, e') ensures e'.FloorKeyError? <==> e.FloorKeyError? {
      Overlay.FloorErrorDecided(q.assertions, q.overlay.value, q.central, e, e');
    }
  }

  lemma RequiredArePlanned(q: Request, package: seq<Assertion>, planned: seq<Assertion>)
    requires PlansPackage(q, package, planned)
    ensures forall k :: 0 <= k < |q.central.required| ==> q.central.required[k] in Ids(planned)
    ensures Planner.DependenciesFirst(planned)
  {
    forall k | 0 <= k < |q.central.required| ensures q.central.required[k] in Ids(planned) {
      PermutationIds(package, planned, q.central.required[k]);
    }
  }

  /** Overlay and planning. */
  method Prepare(q: Request) returns (r: Result<seq<Assertion>, Conclusion>)
    ensures r.Ok? <==> Ready(q)
    ensures r.Ok? ==> Prepared(q, r.value)
    ensures r == Err(Exit(30)) <==> Stuck(q)
    ensures r == Err(Exit(31)) <==> OverlayRefused(q) && !FloorFails(q)
    ensures r == Err(Traceback) <==> FloorFails(q)
    ensures r.Err? ==> r.error in {Exit(30), Exit(31), Traceback}
  {
    hide Overlay.Acceptable, Overlay.Applied, Overlay.Explained, Planner.Plannable, Planner.IsPlan,
      Ready, Stuck, OverlayRefused, FloorFails, Unplannable;
    var assertions := q.assertions;
    if q.overlay.Some? {
      var applied := Overlay.Apply(assertions, q.overlay.value, q.central);
      if applied.Err? {
        RefusalDecided(q, applied.error);
        return Err(if applied.error.FloorKeyError? then Traceback else Exit(31));
      }
      assertions := applied.value;
    }
    var plan := Planner.Plan(assertions, q.central.required, q.requirements);
    ReadyOrStuck(q, assertions);
    if plan.Err? {
      return Err(Exit(30));
    }
    assert PlansPackage(q, assertions, plan.value);
    RequiredArePlanned(q, assertions, plan.value);
    r := Ok(plan.value);
  }

  /** The plan runs to its end without an execution error. */
  ghost predicate Faultless(run: Option<RunResult>) {
    run.Some? && run.value.error.None?
  }

  /**
    A run of the gate. `planned` is a plan of the package whenever there is one, and `run` what evaluating it gave
    whenever that ends. Each exit has its cause: 30 a package that cannot be planned, 31 a refused overlay or a
    wildcard exception, 32 too long a plan or an execution error, 0, 10 and 20 the ladder's decision on a
    faultless run; the exceptions nobody catches are the unranked floor and the captured fact without an id.
   */
  method Gate(q: Request, w: World) returns (c: Conclusion, ghost planned: seq<Assertion>, ghost run: Option<RunResult>)
    ensures Ready(q) ==> Prepared(q, planned)
    ensures run.Some? <==> Ready(q) && |planned| <= MAX_EVALUATORS && FactsNamed(w, planned)
    ensures run.Some? ==> Ran(w, planned, run.value)
    ensures c == Exit(30) <==> Stuck(q)
    ensures c == Exit(31) <==> (OverlayRefused(q) && !FloorFails(q)) || (Faultless(run) && WildcardException(q))
    ensures c == Traceback <==> FloorFails(q) || (Ready(q) && |planned| <= MAX_EVALUATORS && !FactsNamed(w, planned))
    ensures c == Exit(32) <==> Ready(q) && (|planned| > MAX_EVALUATORS || (run.Some? && run.value.error.Some?))
    ensures c in {Exit(0), Exit(10), Exit(20)} <==> Faultless(run) && !WildcardException(q)
    ensures Faultless(run) && !WildcardException(q) ==> c.Exit? && DecidedRun(q, w, planned, run.value, c.code)
    ensures c == Exit(20) <==> Faultless(run) && !WildcardException(q) && Fails(q, planned, run.value)
    ensures c == Exit(20) <==> Faultless(run) && !WildcardException(q) && EndsInBlock(q, planned, run.value)
    ensures c == Exit(0) <==> Faultless(run) && !WildcardException(q) && Decision.AllSatisfied(run.value.ledger)
    ensures c == Exit(20) ==> q.stage >= 2
    ensures c == Exit(0) ==>
              forall k :: 0 <= k < |q.central.required| ==> SatisfiedIn(run.value.ledger, q.central.required[k])
  {
    hide Prepared, SatisfiedIn, Ran, Ready, Stuck, OverlayRefused, FloorFails, WildcardException, FactsNamed,
      Fails, EndsInBlock, Decision.AllSatisfied;
    planned, run := [], None;
    var plan := Prepare(q);
    OneOutcome(q);
    if plan.Err? {
      return plan.error, [], None;
    }
    planned := plan.value;
    var out := Run(plan.value, MAX_EVALUATORS, w);
    if out.Err? {
      return if out.error.NoFactId? then Traceback else Exit(32), planned, None;
    }
    run := Some(out.value);
    if out.value.error.Some? {
      return Exit(32), planned, run;
    }
    var code := Conclude(q, w, plan.value, out.value);
    if code.None? {
      return Exit(31), planned, run;
    }
    if code.value == 0 {
      PassMeansRequiredSatisfied(q, w, planned, out.value);
    }
    c := Exit(code.value);
  }

  /** The outcomes of preparation exclude each other. */
  lemma OneOutcome(q: Request)
    ensures Ready(q) || Stuck(q) ==> !OverlayRefused(q) && !FloorFails(q)
    ensures FloorFails(q) ==> OverlayRefused(q)
    ensures !(Ready(q) && Stuck(q))
  {
    hide Overlay.Acceptable, Overlay.Applied, Overlay.Explained, Planner.Plannable;
    forall e | RefusedWith(q, e) ensures OverlayRefused(q) {
      RefusalDecided(q, e);
    }
    if p :| PackageOf(q, p) {
      ReadyOrStuck(q, p);
    }
  }

  /** The ladder and the decision on a finished run; `None` when an exception is a wildcard. */
  method Conclude(q: Request, w: World, planned: seq<Assertion>, run: RunResult) returns (code: Option<int>)
    requires Ran(w, planned, run)
    ensures code.None? <==> WildcardException(q)
    ensures code.Some? ==> code.value in {0, 10, 20}
    ensures code == Some(20) <==> !WildcardException(q) && Fails(q, planned, run)
    ensures code == Some(20) <==> !WildcardException(q) && EndsInBlock(q, planned, run)
    ensures code == Some(0) <==> !WildcardException(q) && Decision.AllSatisfied(run.ledger)
    ensures code == Some(20) ==> q.stage >= 2
  {
    hide Decision.Decide;
    var p := PolicyAt(q.setting, q.stage, q.now);
    var ledger := new Row[|run.ledger|](i requires 0 <= i < |run.ledger| => run.ledger[i]);
    var findings := new Finding[|run.findings|](i requires 0 <= i < |run.findings| => run.findings[i]);
    assert ledger[..] == run.ledger && findings[..] == run.findings;
    var blocked := Ladder.Apply(p, planned, ledger, findings);
    if blocked.Err? {
      return None;
    }
    FindingsAccountForViolations(w, planned, run);
    ExitIff(p, planned, run.findings, run.ledger);
    code := Some(Decision.Decide(ledger[..], q.stage, None, Some(blocked.value)).1);
  }
}

/** The evaluator runtime of hub/coherence/evaluate.py: one ledger row per planned assertion. */
module Evaluation {
  import opened Common
  import opened Assertions
  import opened Fingerprint
  import opened Planner

  /** How one mediated evaluator call ends. */
  datatype CallResult = Returned(reports: seq<Report>) | RaisedUnresolved(why: string) | RaisedOther(exception: string)

  /** What a run learns from outside: the bound captured facts, what the evaluator of the i-th planned
      assertion does, and (when a subject snapshot is given) the first path seen to have drifted after that call. */
  datatype World = World(facts: set<string>, evaluator: nat -> CallResult, drift: Option<nat -> Option<string>>)

  /** The run-level ERROR-execution condition. */
  datatype ExecutionError =
    | BlockedAt(assertion: string)
    | CrashedAt(exception: string, assertion: string)
    | MutatedAt(path: string)

  /** `run` raises: too many evaluators, or a captured-fact subject without a fact id. */
  datatype RunError = LimitExceeded(planned: nat, limit: int) | NoFactId(assertion: string)

  datatype RunResult = RunResult(ledger: seq<Row>, findings: seq<Finding>, error: Option<ExecutionError>)

  // ----- What one assertion contributes -----

  /** The fact ids an assertion's captured-fact subjects declare. */
  function DeclaredFacts(subjects: seq<Subject>): seq<Option<string>> {
    if subjects == [] then []
    else (if subjects[0].kind.CapturedFact? then [subjects[0].factId] else []) + DeclaredFacts(subjects[1..])
  }

  predicate Bound(fact: Option<string>, facts: set<string>) {
    fact.Some? && fact.value in facts
  }

  /** The first declared fact that is not bound, if any. */
  function FirstUnbound(declared: seq<Option<string>>, facts: set<string>): (r: Option<Option<string>>)
    ensures r.None? <==> forall k :: 0 <= k < |declared| ==> Bound(declared[k], facts)
    ensures r.Some? ==> r.value in declared && !Bound(r.value, facts)
  {
    if declared == [] then None
    else if !Bound(declared[0], facts) then Some(declared[0])
    else FirstUnbound(declared[1..], facts)
  }

  function DriftAt(w: World, i: nat): Option<string> {
    if w.drift.Some? then w.drift.value(i) else None
  }

  /** The row of the i-th planned assertion, given whether a dependency blocks it. */
  function Judge(w: World, i: nat, a: Assertion, blocked: bool): Row {
    var missing := FirstUnbound(DeclaredFacts(a.subjects), w.facts);
    if !Builtin(a.evaluator) then Row(a.id, a.version, Unresolved, Reason.UnapprovedEvaluator, Block)
    else if missing.Some? && missing.value.Some? then
      Row(a.id, a.version, Unresolved, FactMissing(missing.value.value), Block)
    else if blocked then Row(a.id, a.version, Unresolved, DependencyBlocked, Block)
    else if DriftAt(w, i).Some? then Row(a.id, a.version, Unresolved, InputMutation(DriftAt(w, i).value), Block)
    else match w.evaluator(i)
         case Returned(reports) =>
           if reports == [] then Row(a.id, a.version, Satisfied, NoReason, Advisory)
           else Row(a.id, a.version, Violated, NoReason, Block)
         case RaisedUnresolved(why) => Row(a.id, a.version, Unresolved, CannotDecide(why), Block)
         case RaisedOther(e) => Row(a.id, a.version, Unresolved, EvaluatorCrash(e), Block)
  }

  /** Whether a row marks an ERROR-execution condition. */
  predicate ExecutionFault(row: Row) {
    row.reason.DependencyBlocked? || row.reason.EvaluatorCrash? || row.reason.InputMutation?
  }

  /** The condition the i-th row raises; a crash is named even when the tree drifted as well. */
  function FaultOf(w: World, i: nat, row: Row): Option<ExecutionError> {
    if row.reason.DependencyBlocked? then Some(BlockedAt(row.assertionId))
    else if row.reason.EvaluatorCrash? || row.reason.InputMutation? then
      if w.evaluator(i).RaisedOther? then Some(CrashedAt(w.evaluator(i).exception, row.assertionId))
      else if row.reason.InputMutation? then Some(MutatedAt(row.reason.path))
      else None
    else None
  }

  function MkAll(a: Assertion, reports: seq<Report>): (r: seq<Finding>)
    ensures |r| == |reports|
    ensures forall k :: 0 <= k < |r| ==> r[k] == Mk(a, reports[k])
  {
    seq(|reports|, k requires 0 <= k < |reports| => Mk(a, reports[k]))
  }

  /** The findings a decided row keeps. */
  function Kept(w: World, i: nat, a: Assertion, row: Row): seq<Finding> {
    if row.outcome != Unresolved && w.evaluator(i).Returned? then MkAll(a, w.evaluator(i).reports) else []
  }

  // ----- What a run is -----

  /** The outcome most recently recorded for `id` among the first `n` rows: `done.get(id)`. */
  function LastOutcome(planned: seq<Assertion>, ledger: seq<Row>, id: string, n: nat): Option<Outcome>
    requires n <= |planned| && n <= |ledger|
  {
    if n == 0 then None
    else if planned[n - 1].id == id then Some(ledger[n - 1].outcome)
    else LastOutcome(planned, ledger, id, n - 1)
  }

  ghost predicate Blocked(planned: seq<Assertion>, ledger: seq<Row>, i: nat)
    requires i < |planned| && i <= |ledger|
  {
    exists d :: d in planned[i].dependencies && LastOutcome(planned, ledger, d, i) != Some(Satisfied)
  }

  ghost predicate Judged(w: World, planned: seq<Assertion>, ledger: seq<Row>, i: nat)
    requires i < |planned| && i < |ledger|
  {
    ledger[i] == Judge(w, i, planned[i], Blocked(planned, ledger, i))
  }

  /** Row by row, the ledger says what each assertion's own evidence and the rows before it decide. */
  ghost predicate LedgerOf(w: World, planned: seq<Assertion>, ledger: seq<Row>, n: nat)
    requires n <= |planned|
  {
    |ledger| == n && forall i :: 0 <= i < n ==> Judged(w, planned, ledger, i)
  }

  ghost function FindingsUpTo(w: World, planned: seq<Assertion>, ledger: seq<Row>, n: nat): seq<Finding>
    requires n <= |planned| && n <= |ledger|
  {
    if n == 0 then []
    else FindingsUpTo(w, planned, ledger, n - 1) + Kept(w, n - 1, planned[n - 1], ledger[n - 1])
  }

  /** `error` names the first faulty row, and is unset when there is none. */
  ghost predicate FirstFault(w: World, ledger: seq<Row>, error: Option<ExecutionError>) {
    match error
    case None => forall i :: 0 <= i < |ledger| ==> !ExecutionFault(ledger[i])
    case Some(_) => exists i :: 0 <= i < |ledger| && ExecutionFault(ledger[i]) && error == FaultOf(w, i, ledger[i])
                                && forall j :: 0 <= j < i ==> !ExecutionFault(ledger[j])
  }

  ghost predicate Ran(w: World, planned: seq<Assertion>, r: RunResult) {
    && LedgerOf(w, planned, r.ledger, |planned|)
    && r.findings == FindingsUpTo(w, planned, r.ledger, |planned|)
    && FirstFault(w, r.ledger, r.error)
  }

  /** The assertion's first unbound captured fact has no id at all: looking it up raises `KeyError`. */
  predicate LacksFactId(w: World, a: Assertion) {
    Builtin(a.evaluator) && FirstUnbound(DeclaredFacts(a.subjects), w.facts) == Some(None)
  }

  // ----- The loop -----

  lemma {:induction false} LastOutcomeStable(planned: seq<Assertion>, ledger: seq<Row>, row: Row, id: string, n: nat)
    requires n <= |planned| && n <= |ledger|
    ensures LastOutcome(planned, ledger + [row], id, n) == LastOutcome(planned, ledger, id, n)
  {
    if n > 0 { LastOutcomeStable(planned, ledger, row, id, n - 1); }
  }

  lemma BlockedStable(planned: seq<Assertion>, ledger: seq<Row>, row: Row, i: nat)
    requires i < |planned| && i <= |ledger|
    ensures Blocked(planned, ledger + [row], i) <==> Blocked(planned, ledger, i)
  {
    forall d ensures LastOutcome(planned, ledger + [row], d, i) == LastOutcome(planned, ledger, d, i) {
      LastOutcomeStable(planned, ledger, row, d, i);
    }
  }

  lemma LedgerExtended(w: World, planned: seq<Assertion>, ledger: seq<Row>, row: Row, n: nat)
    requires n < |planned| && LedgerOf(w, planned, ledger, n)
    requires row == Judge(w, n, planned[n], Blocked(planned, ledger, n))
    ensures LedgerOf(w, planned, ledger + [row], n + 1)
  {
    forall i | 0 <= i <= n ensures Judged(w, planned, ledger + [row], i) {
      BlockedStable(planned, ledger, row, i);
      assert i < n ==> Judged(w, planned, ledger, i);
    }
  }

  lemma {:induction false} FindingsStable(w: World, planned: seq<Assertion>, ledger: seq<Row>, row: Row, n: nat)
    requires n <= |planned| && n <= |ledger|
    ensures FindingsUpTo(w, planned, ledger + [row], n) == FindingsUpTo(w, planned, ledger, n)
  {
    if n > 0 { FindingsStable(w, planned, ledger, row, n - 1); }
  }

  lemma FaultExtended(w: World, ledger: seq<Row>, row: Row, before: Option<ExecutionError>,
                      after: Option<ExecutionError>)
    requires FirstFault(w, ledger, before)
    requires after == if before.None? && ExecutionFault(row) then FaultOf(w, |ledger|, row) else before
    requires ExecutionFault(row) ==> FaultOf(w, |ledger|, row).Some?
    ensures FirstFault(w, ledger + [row], after)
  {
    var l := ledger + [row];
    if before.Some? {
      var i :| 0 <= i < |ledger| && ExecutionFault(ledger[i]) && before == FaultOf(w, i, ledger[i])
               && forall j :: 0 <= j < i ==> !ExecutionFault(ledger[j]);
      assert l[i] == ledger[i];
    } else if ExecutionFault(row) {
      assert l[|ledger|] == row;
    }
  }

  lemma JudgedFaultIsNamed(w: World, i: nat, a: Assertion, blocked: bool)
    ensures ExecutionFault(Judge(w, i, a, blocked)) <==> FaultOf(w, i, Judge(w, i, a, blocked)).Some?
  {
  }

  /** `done` holds the outcome last recorded for each id. */
  ghost predicate Recorded(done: map<string, Outcome>, planned: seq<Assertion>, ledger: seq<Row>, n: nat)
    requires n <= |planned| && n <= |ledger|
  {
    forall d :: LastOutcome(planned, ledger, d, n) == if d in done then Some(done[d]) else None
  }

  lemma RecordedExtended(done: map<string, Outcome>, planned: seq<Assertion>, ledger: seq<Row>, row: Row, n: nat)
    requires n < |planned| && n == |ledger| && Recorded(done, planned, ledger, n)
    ensures Recorded(done[planned[n].id := row.outcome], planned, ledger + [row], n + 1)
  {
    forall d ensures LastOutcome(planned, ledger + [row], d, n) == LastOutcome(planned, ledger, d, n) {
      LastOutcomeStable(planned, ledger, row, d, n);
    }
  }

  /** `next((d for d in dependencies if done.get(d) != "SATISFIED"), None) is not None`. */
  predicate SomeUnsatisfied(dependencies: seq<string>, done: map<string, Outcome>) {
    exists k :: 0 <= k < |dependencies| && (dependencies[k] !in done || done[dependencies[k]] != Satisfied)
  }

  /** One iteration of the loop: the row, its findings and the error it may set. */
  method Evaluate(w: World, i: nat, a: Assertion, done: map<string, Outcome>, error: Option<ExecutionError>)
    returns (row: Row, fs: seq<Finding>, error': Option<ExecutionError>)
    requires !LacksFactId(w, a)
    ensures row == Judge(w, i, a, SomeUnsatisfied(a.dependencies, done))
    ensures fs == Kept(w, i, a, row)
    ensures error' == if error.None? && ExecutionFault(row) then FaultOf(w, i, row) else error
  {
    fs, error' := [], error;
    if !Builtin(a.evaluator) {
      row := Row(a.id, a.version, Unresolved, Reason.UnapprovedEvaluator, Block);
      return;
    }
    var missing := FirstUnbound(DeclaredFacts(a.subjects), w.facts);
    if missing.Some? {
      row := Row(a.id, a.version, Unresolved, FactMissing(missing.value.value), Block);
      return;
    }
    if SomeUnsatisfied(a.dependencies, done) {
      row := Row(a.id, a.version, Unresolved, DependencyBlocked, Block);
      if error.None? {
        error' := Some(BlockedAt(a.id));
      }
      return;
    }
    var outcome, reason := Unresolved, NoReason;
    match w.evaluator(i) {
      case Returned(reports) =>
        fs := MkAll(a, reports);
        outcome := if fs != [] then Violated else Satisfied;
      case RaisedUnresolved(why) =>
        reason := CannotDecide(why);
      case RaisedOther(e) =>
        reason := EvaluatorCrash(e);
        if error.None? {
          error' := Some(CrashedAt(e, a.id));
        }
    }
    if w.drift.Some? {
      var mutated := w.drift.value(i);
      if mutated.Some? {
        outcome, reason := Unresolved, InputMutation(mutated.value);
        if error'.None? {
          error' := Some(MutatedAt(mutated.value));
        }
      }
    }
    if outcome == Unresolved {
      fs := [];
    }
    row := Row(a.id, a.version, outcome, reason, if outcome != Satisfied then Block else Advisory);
  }

  /** The first `n` assertions have been run. */
  ghost predicate Progress(w: World, planned: seq<Assertion>, so: RunResult, done: map<string, Outcome>, n: nat) {
    && n <= |planned|
    && LedgerOf(w, planned, so.ledger, n)
    && so.findings == FindingsUpTo(w, planned, so.ledger, n)
    && FirstFault(w, so.ledger, so.error)
    && Recorded(done, planned, so.ledger, n)
  }

  lemma ProgressStep(w: World, planned: seq<Assertion>, so: RunResult, done: map<string, Outcome>, n: nat,
                     row: Row, fs: seq<Finding>, error: Option<ExecutionError>)
    requires n < |planned| && Progress(w, planned, so, done, n)
    requires row == Judge(w, n, planned[n], SomeUnsatisfied(planned[n].dependencies, done))
    requires fs == Kept(w, n, planned[n], row)
    requires error == if so.error.None? && ExecutionFault(row) then FaultOf(w, n, row) else so.error
    ensures Progress(w, planned, RunResult(so.ledger + [row], so.findings + fs, error),
                     done[planned[n].id := row.outcome], n + 1)
  {
    hide Judge, FaultOf, Kept, ExecutionFault;
    BlockedIsUnsatisfied(done, planned, so.ledger, n);
    JudgedFaultIsNamed(w, n, planned[n], Blocked(planned, so.ledger, n));
    LedgerExtended(w, planned, so.ledger, row, n);
    FindingsStable(w, planned, so.ledger, row, n);
    FaultExtended(w, so.ledger, row, so.error, error);
    RecordedExtended(done, planned, so.ledger, row, n);
  }

  ghost predicate FactsNamed(w: World, planned: seq<Assertion>) {
    forall i :: 0 <= i < |planned| ==> !LacksFactId(w, planned[i])
  }

  /** `run`: refuses an over-long plan, raises where the first unbound captured fact has no id, and otherwise fills the
      ledger. */
  method Run(planned: seq<Assertion>, limit: int, w: World) returns (r: Result<RunResult, RunError>)
    ensures r.Ok? <==> |planned| <= limit && FactsNamed(w, planned)
    ensures r.Ok? ==> Ran(w, planned, r.value)
    ensures r.Err? && r.error.LimitExceeded? <==> |planned| > limit
    ensures r.Err? && r.error.NoFactId? ==> exists a :: a in planned && a.id == r.error.assertion && LacksFactId(w, a)
  {
    hide Judge, Kept, FaultOf, LacksFactId, ExecutionFault, SomeUnsatisfied;
    if |planned| > limit {
      return Err(LimitExceeded(|planned|, limit));
    }
    var ledger: seq<Row>, findings: seq<Finding> := [], [];
    var done: map<string, Outcome> := map[];
    var error: Option<ExecutionError> := None;
    for i := 0 to |planned|
      invariant Progress(w, planned, RunResult(ledger, findings, error), done, i)
      invariant forall j :: 0 <= j < i ==> !LacksFactId(w, planned[j])
    {
      var a := planned[i];
      if LacksFactId(w, a) {
        assert a in planned;
        return Err(NoFactId(a.id));
      }
      var row, fs, error' := Evaluate(w, i, a, done, error);
      ProgressStep(w, planned, RunResult(ledger, findings, error), done, i, row, fs, error');
      ledger, findings, error := ledger + [row], findings + fs, error';
      done := done[a.id := row.outcome];
    }
    r := Ok(RunResult(ledger, findings, error));
  }

  lemma BlockedIsUnsatisfied(done: map<string, Outcome>, planned: seq<Assertion>, ledger: seq<Row>, i: nat)
    requires i < |planned| && i <= |ledger| && Recorded(done, planned, ledger, i)
    ensures Blocked(planned, ledger, i) <==> SomeUnsatisfied(planned[i].dependencies, done)
  {
    var deps := planned[i].dependencies;
    if Blocked(planned, ledger, i) {
      var d :| d in deps && LastOutcome(planned, ledger, d, i) != Some(Satisfied);
      var k :| 0 <= k < |deps| && deps[k] == d;
      assert deps[k] !in done || done[deps[k]] != Satisfied;
    }
    if SomeUnsatisfied(deps, done) {
      var k :| 0 <= k < |deps| && (deps[k] !in done || done[deps[k]] != Satisfied);
      assert LastOutcome(planned, ledger, deps[k], i) != Some(Satisfied);
    }
  }

  // ----- What every run guarantees -----

  predicate Decided(row: Row) {
    row.outcome != Unresolved
  }

  /** What one row's judgement says, without its case analysis. */
  lemma RowFacts(w: World, planned: seq<Assertion>, ledger: seq<Row>, i: nat)
    requires i < |planned| && LedgerOf(w, planned, ledger, |planned|)
    ensures ledger[i].assertionId == planned[i].id && ledger[i].version == planned[i].version
    ensures ledger[i].enforcement == if ledger[i].outcome == Satisfied then Advisory else Block
    ensures Decided(ledger[i]) ==> !Blocked(planned, ledger, i)
    ensures ExecutionFault(ledger[i]) ==> ledger[i].outcome == Unresolved && FaultOf(w, i, ledger[i]).Some?
    ensures |Kept(w, i, planned[i], ledger[i])| > 0 <==> ledger[i].outcome == Violated
  {
    hide FirstUnbound, DeclaredFacts, Mk;
    assert Judged(w, planned, ledger, i);
  }

  lemma {:induction false} DeclaredMember(subjects: seq<Subject>, fact: Option<string>)
    ensures fact in DeclaredFacts(subjects) <==>
            exists i :: 0 <= i < |subjects| && subjects[i].kind.CapturedFact? && subjects[i].factId == fact
  {
    if subjects != [] {
      var rest := subjects[1..];
      DeclaredMember(rest, fact);
      if i :| 0 <= i < |rest| && rest[i].kind.CapturedFact? && rest[i].factId == fact {
        assert subjects[i + 1] == rest[i];
      }
      if i :| 0 < i < |subjects| && subjects[i].kind.CapturedFact? && subjects[i].factId == fact {
        assert subjects[i] == rest[i - 1];
      }
    }
  }

  ghost predicate FactsBound(subjects: seq<Subject>, facts: set<string>) {
    forall i :: 0 <= i < |subjects| && subjects[i].kind.CapturedFact? ==> Bound(subjects[i].factId, facts)
  }

  lemma DeclaredBoundIff(subjects: seq<Subject>, facts: set<string>)
    ensures FirstUnbound(DeclaredFacts(subjects), facts).None? <==> FactsBound(subjects, facts)
  {
    hide DeclaredFacts, FirstUnbound;
    var declared := DeclaredFacts(subjects);
    forall k | 0 <= k < |declared| && FactsBound(subjects, facts) ensures Bound(declared[k], facts) {
      DeclaredMember(subjects, declared[k]);
    }
    forall i | 0 <= i < |subjects| && subjects[i].kind.CapturedFact? ensures subjects[i].factId in declared {
      DeclaredMember(subjects, subjects[i].factId);
    }
  }

  /** The i-th assertion gets evaluated on a subject that stays put: its evaluator is bundled, its facts are bound,
      and each dependency was last seen SATISFIED. */
  ghost predicate Answerable(w: World, planned: seq<Assertion>, ledger: seq<Row>, i: nat)
    requires i < |planned| && i <= |ledger|
  {
    && Builtin(planned[i].evaluator)
    && FactsBound(planned[i].subjects, w.facts)
    && (forall d :: d in planned[i].dependencies ==> LastOutcome(planned, ledger, d, i) == Some(Satisfied))
    && DriftAt(w, i).None?
  }

  /** A row is SATISFIED exactly when its assertion was answerable and nothing was reported, and VIOLATED exactly
      when something was; everything else is UNRESOLVED. */
  lemma OutcomeIff(w: World, planned: seq<Assertion>, ledger: seq<Row>, i: nat)
    requires i < |planned| && LedgerOf(w, planned, ledger, |planned|) && FactsNamed(w, planned)
    ensures var answered := Answerable(w, planned, ledger, i) && w.evaluator(i).Returned?;
            && (ledger[i].outcome == Satisfied <==> answered && w.evaluator(i).reports == [])
            && (ledger[i].outcome == Violated <==> answered && w.evaluator(i).reports != [])
  {
    hide LastOutcome, DeclaredFacts, FirstUnbound, FactsBound;
    assert Judged(w, planned, ledger, i);
    DeclaredBoundIff(planned[i].subjects, w.facts);
  }

  /** The ledger accounts for the plan: one row each, in plan order, and only SATISFIED rows do not block. */
  lemma OneRowEach(w: World, planned: seq<Assertion>, r: RunResult)
    requires Ran(w, planned, r)
    ensures |r.ledger| == |planned|
    ensures forall i :: 0 <= i < |planned| ==>
              && r.ledger[i].assertionId == planned[i].id && r.ledger[i].version == planned[i].version
              && r.ledger[i].enforcement == if r.ledger[i].outcome == Satisfied then Advisory else Block
  {
    forall i | 0 <= i < |planned|
      ensures r.ledger[i].assertionId == planned[i].id && r.ledger[i].version == planned[i].version
      ensures r.ledger[i].enforcement == if r.ledger[i].outcome == Satisfied then Advisory else Block
    {
      RowFacts(w, planned, r.ledger, i);
    }
  }

  lemma {:induction false} LastOutcomeFound(planned: seq<Assertion>, ledger: seq<Row>, id: string, n: nat)
    requires n <= |planned| && n <= |ledger|
    requires LastOutcome(planned, ledger, id, n).Some?
    ensures exists j :: 0 <= j < n && planned[j].id == id
                      && Some(ledger[j].outcome) == LastOutcome(planned, ledger, id, n)
  {
    if planned[n - 1].id != id { LastOutcomeFound(planned, ledger, id, n - 1); }
  }

  /** A decided row's direct dependencies were SATISFIED earlier in the same run. */
  lemma DecidedNeedsDependency(w: World, planned: seq<Assertion>, ledger: seq<Row>, i: nat, d: string)
    requires i < |planned| && LedgerOf(w, planned, ledger, |planned|)
    requires Decided(ledger[i]) && d in planned[i].dependencies
    ensures exists j :: 0 <= j < i && planned[j].id == d && ledger[j].outcome == Satisfied
  {
    RowFacts(w, planned, ledger, i);
    assert LastOutcome(planned, ledger, d, i) == Some(Satisfied);
    LastOutcomeFound(planned, ledger, d, i);
  }

  /** Each step of `walk` follows a dependency declared by a planned assertion. */
  ghost predicate DependencyWalk(planned: seq<Assertion>, walk: seq<string>) {
    forall k :: 0 <= k < |walk| - 1 ==> DependencyStep(planned, walk[k], walk[k + 1])
  }

  ghost predicate DependencyStep(planned: seq<Assertion>, id: string, dep: string) {
    forall a :: a in planned && a.id == id ==> dep in a.dependencies
  }

  /** A row is decided only if everything it depends on, however indirectly, is SATISFIED. */
  lemma {:induction false} DecidedNeedsAllDependencies(w: World, planned: seq<Assertion>, ledger: seq<Row>, i: nat,
                                                       walk: seq<string>)
    requires i < |planned| && LedgerOf(w, planned, ledger, |planned|) && Decided(ledger[i])
    requires |walk| >= 2 && DependencyWalk(planned, walk) && walk[0] == planned[i].id
    ensures exists j :: 0 <= j < i && planned[j].id == walk[|walk| - 1] && ledger[j].outcome == Satisfied
    decreases |walk|
  {
    assert planned[i] in planned && DependencyStep(planned, walk[0], walk[1]);
    DecidedNeedsDependency(w, planned, ledger, i, walk[1]);
    var j :| 0 <= j < i && planned[j].id == walk[1] && ledger[j].outcome == Satisfied;
    if |walk| > 2 {
      var rest := walk[1..];
      forall k | 0 <= k < |rest| - 1 ensures DependencyStep(planned, rest[k], rest[k + 1]) {
        var k' := k + 1;
        assert DependencyStep(planned, walk[k'], walk[k' + 1]);
      }
      DecidedNeedsAllDependencies(w, planned, ledger, j, rest);
    }
  }

  lemma {:induction false} FindingHasRow(w: World, planned: seq<Assertion>, ledger: seq<Row>, n: nat, f: Finding)
    returns (i: nat)
    requires n <= |planned| && LedgerOf(w, planned, ledger, |planned|)
    requires f in FindingsUpTo(w, planned, ledger, n)
    ensures i < n && ledger[i].outcome == Violated && ledger[i].assertionId == f.assertionId
    decreases n
  {
    hide *;
    LedgerLength(w, planned, ledger);
    UpToStep(w, planned, ledger, n, f);
    if f in FindingsUpTo(w, planned, ledger, n - 1) {
      i := FindingHasRow(w, planned, ledger, n - 1, f);
    } else {
      KeptOfRow(w, planned, ledger, n - 1, f);
      i := n - 1;
    }
  }

  lemma LedgerLength(w: World, planned: seq<Assertion>, ledger: seq<Row>)
    requires LedgerOf(w, planned, ledger, |planned|)
    ensures |ledger| == |planned|
  {
    hide Judged;
  }

  lemma UpToStep(w: World, planned: seq<Assertion>, ledger: seq<Row>, n: nat, f: Finding)
    requires n <= |planned| && n <= |ledger| && f in FindingsUpTo(w, planned, ledger, n)
    ensures n > 0
    ensures f in FindingsUpTo(w, planned, ledger, n - 1) || f in Kept(w, n - 1, planned[n - 1], ledger[n - 1])
  {
    hide Kept;
  }

  lemma KeptOfRow(w: World, planned: seq<Assertion>, ledger: seq<Row>, i: nat, f: Finding)
    requires i < |planned| && LedgerOf(w, planned, ledger, |planned|) && f in Kept(w, i, planned[i], ledger[i])
    ensures ledger[i].outcome == Violated && ledger[i].assertionId == f.assertionId
  {
    hide Judged, FaultOf, Mk;
    RowFacts(w, planned, ledger, i);
  }

  lemma {:induction false} RowHasFindings(w: World, planned: seq<Assertion>, ledger: seq<Row>, n: nat, i: nat,
                                          f: Finding)
    requires i < n <= |planned| && n <= |ledger|
    requires f in Kept(w, i, planned[i], ledger[i])
    ensures f in FindingsUpTo(w, planned, ledger, n)
  {
    hide Kept;
    if i < n - 1 { RowHasFindings(w, planned, ledger, n - 1, i, f); }
  }

  ghost predicate HasFinding(findings: seq<Finding>, id: string) {
    exists f :: f in findings && f.assertionId == id
  }

  ghost predicate HasViolatedRow(ledger: seq<Row>, id: string) {
    exists i :: 0 <= i < |ledger| && ledger[i].outcome == Violated && ledger[i].assertionId == id
  }

  /** Findings and VIOLATED rows account for each other. */
  ghost predicate Accounted(ledger: seq<Row>, findings: seq<Finding>) {
    && (forall i :: 0 <= i < |ledger| && ledger[i].outcome == Violated ==> HasFinding(findings, ledger[i].assertionId))
    && (forall f :: f in findings ==> HasViolatedRow(ledger, f.assertionId))
  }

  /** Every VIOLATED row has a finding, and every finding belongs to a VIOLATED row. */
  lemma FindingsAccountForViolations(w: World, planned: seq<Assertion>, r: RunResult)
    requires Ran(w, planned, r)
    ensures Accounted(r.ledger, r.findings)
  {
    var n := |planned|;
    forall i | 0 <= i < n && r.ledger[i].outcome == Violated
      ensures HasFinding(r.findings, r.ledger[i].assertionId)
    {
      RowFacts(w, planned, r.ledger, i);
      var f := Kept(w, i, planned[i], r.ledger[i])[0];
      RowHasFindings(w, planned, r.ledger, n, i, f);
    }
    forall f | f in r.findings ensures HasViolatedRow(r.ledger, f.assertionId) {
      var i := FindingHasRow(w, planned, r.ledger, n, f);
    }
  }

  /** In a plan no finding belongs to a row that is not VIOLATED. */
  lemma NoStrayFindings(w: World, planned: seq<Assertion>, r: RunResult, f: Finding, i: nat)
    requires Ran(w, planned, r) && Distinct(Ids(planned))
    requires f in r.findings && i < |r.ledger| && r.ledger[i].assertionId == f.assertionId
    ensures r.ledger[i].outcome == Violated
  {
    hide Judged, FirstFault, FindingsUpTo, Kept, ExecutionFault;
    var k := FindingHasRow(w, planned, r.ledger, |planned|, f);
    RowFacts(w, planned, r.ledger, i);
    RowFacts(w, planned, r.ledger, k);
    assert Ids(planned)[i] == Ids(planned)[k];
  }

  /** `error` is set exactly when some row crashed, was dependency-blocked or saw the tree change. */
  lemma ErrorIffFaultyRow(w: World, planned: seq<Assertion>, r: RunResult)
    requires Ran(w, planned, r)
    ensures r.error.Some? <==> exists i :: 0 <= i < |r.ledger| && ExecutionFault(r.ledger[i])
  {
  }

  /** Evaluating the i-th assertion went wrong: it got past the evaluator and fact checks, and then a dependency was
      not SATISFIED, its evaluator crashed, or the subject drifted under it. */
  ghost predicate Disturbed(w: World, planned: seq<Assertion>, ledger: seq<Row>, i: nat)
    requires i < |planned| && i <= |ledger|
  {
    && Builtin(planned[i].evaluator) && FactsBound(planned[i].subjects, w.facts)
    && ((exists d :: d in planned[i].dependencies && LastOutcome(planned, ledger, d, i) != Some(Satisfied))
        || w.evaluator(i).RaisedOther? || DriftAt(w, i).Some?)
  }

  lemma FaultyIffDisturbed(w: World, planned: seq<Assertion>, ledger: seq<Row>, i: nat)
    requires i < |planned| && LedgerOf(w, planned, ledger, |planned|) && FactsNamed(w, planned)
    ensures ExecutionFault(ledger[i]) <==> Disturbed(w, planned, ledger, i)
  {
    hide LastOutcome, DeclaredFacts, FirstUnbound, FactsBound;
    assert Judged(w, planned, ledger, i);
    DeclaredBoundIff(planned[i].subjects, w.facts);
  }

  /** A run reports an execution error exactly when evaluating some assertion went wrong. */
  lemma ErrorIffDisturbed(w: World, planned: seq<Assertion>, r: RunResult)
    requires Ran(w, planned, r) && FactsNamed(w, planned)
    ensures r.error.Some? <==> exists i :: 0 <= i < |planned| && Disturbed(w, planned, r.ledger, i)
  {
    hide Disturbed, ExecutionFault;
    ErrorIffFaultyRow(w, planned, r);
    forall i | 0 <= i < |planned| ensures ExecutionFault(r.ledger[i]) <==> Disturbed(w, planned, r.ledger, i) {
      FaultyIffDisturbed(w, planned, r.ledger, i);
    }
  }

  /** The first condition raised is the one named. */
  lemma ErrorNamesFirst(w: World, planned: seq<Assertion>, r: RunResult, i: nat)
    requires Ran(w, planned, r) && i < |r.ledger| && ExecutionFault(r.ledger[i])
    requires forall j :: 0 <= j < i ==> !ExecutionFault(r.ledger[j])
    ensures r.error.Some?
    ensures match r.error.value
            case BlockedAt(a) => a == planned[i].id
            case CrashedAt(e, a) => a == planned[i].id && w.evaluator(i) == RaisedOther(e)
            case MutatedAt(p) => DriftAt(w, i) == Some(p)
  {
    hide FirstFault, Ran, LedgerOf, FirstUnbound, Blocked;
    assert FirstFault(w, r.ledger, r.error) && Judged(w, planned, r.ledger, i) by { RanFacts(w, planned, r, i); }
    FirstFaultAt(w, r.ledger, r.error, i);
  }

  lemma RanFacts(w: World, planned: seq<Assertion>, r: RunResult, i: nat)
    requires Ran(w, planned, r)
    ensures |r.ledger| == |planned| && FirstFault(w, r.ledger, r.error)
    ensures i < |r.ledger| ==> Judged(w, planned, r.ledger, i)
  {
    hide Judged, FirstFault;
  }

  lemma FirstFaultAt(w: World, ledger: seq<Row>, error: Option<ExecutionError>, i: nat)
    requires FirstFault(w, ledger, error) && i < |ledger| && ExecutionFault(ledger[i])
    requires forall j :: 0 <= j < i ==> !ExecutionFault(ledger[j])
    ensures error == FaultOf(w, i, ledger[i]) && error.Some?
  {
    var k :| 0 <= k < |ledger| && ExecutionFault(ledger[k]) && error == FaultOf(w, k, ledger[k])
             && forall j :: 0 <= j < k ==> !ExecutionFault(ledger[j]);
    assert k == i;
  }

  /** The run does stop: an assertion whose only subject is a captured fact without an id, as its schema allows. */
  lemma MissingFactIdStops(w: World, a: Assertion, subject: Subject)
    requires Builtin(a.evaluator) && a.subjects == [subject] && subject.kind.CapturedFact? && subject.factId.None?
    ensures LacksFactId(w, a) && !FactsNamed(w, [a])
  {
    assert a.subjects[1..] == [] && DeclaredFacts([]) == [];
    assert DeclaredFacts(a.subjects) == [None];
    assert [a][0] == a;
  }

  // ----- Why a row is UNRESOLVED -----

  /** The first captured fact in the order of the subjects that is not bound. */
  ghost predicate FirstMissing(subjects: seq<Subject>, facts: set<string>, fact: Option<string>) {
    exists i :: 0 <= i < |subjects| && subjects[i].kind.CapturedFact? && subjects[i].factId == fact
      && !Bound(fact, facts) && FactsBound(subjects[..i], facts)
  }

  lemma {:induction false} FirstUnboundIs(subjects: seq<Subject>, facts: set<string>)
    ensures var r := FirstUnbound(DeclaredFacts(subjects), facts);
            r.Some? ==> FirstMissing(subjects, facts, r.value)
  {
    if subjects != [] {
      var rest := subjects[1..];
      FirstUnboundIs(rest, facts);
      var head := subjects[0];
      if head.kind.CapturedFact? && !Bound(head.factId, facts) {
        assert subjects[..0] == [];
      } else {
        SkipsBound(subjects, facts);
        var r := FirstUnbound(DeclaredFacts(rest), facts);
        if r.Some? {
          var i :| 0 <= i < |rest| && rest[i].kind.CapturedFact? && rest[i].factId == r.value
                   && !Bound(r.value, facts) && FactsBound(rest[..i], facts);
          BoundAfterHead(subjects, facts, i);
          assert subjects[i + 1] == rest[i];
        }
      }
    }
  }

  lemma SkipsBound(subjects: seq<Subject>, facts: set<string>)
    requires subjects != [] && (subjects[0].kind.CapturedFact? ==> Bound(subjects[0].factId, facts))
    ensures FirstUnbound(DeclaredFacts(subjects), facts) == FirstUnbound(DeclaredFacts(subjects[1..]), facts)
  {
    var declared, rest := DeclaredFacts(subjects), DeclaredFacts(subjects[1..]);
    if subjects[0].kind.CapturedFact? {
      assert declared == [subjects[0].factId] + rest && declared[1..] == rest;
    } else {
      assert declared == rest;
    }
  }

  lemma BoundAfterHead(subjects: seq<Subject>, facts: set<string>, i: nat)
    requires subjects != [] && i < |subjects| - 1
    requires subjects[0].kind.CapturedFact? ==> Bound(subjects[0].factId, facts)
    requires FactsBound(subjects[1..][..i], facts)
    ensures FactsBound(subjects[..i + 1], facts)
  {
    var init := subjects[..i + 1];
    forall k | 0 <= k < |init| && init[k].kind.CapturedFact? ensures Bound(init[k].factId, facts) {
      assert k > 0 ==> init[k] == subjects[1..][..i][k - 1];
    }
  }

  lemma OneFirstMissing(subjects: seq<Subject>, facts: set<string>, fact: Option<string>, other: Option<string>)
    requires FirstMissing(subjects, facts, fact) && FirstMissing(subjects, facts, other)
    ensures fact == other
  {
    var i :| 0 <= i < |subjects| && subjects[i].kind.CapturedFact? && subjects[i].factId == fact
             && !Bound(fact, facts) && FactsBound(subjects[..i], facts);
    var j :| 0 <= j < |subjects| && subjects[j].kind.CapturedFact? && subjects[j].factId == other
             && !Bound(other, facts) && FactsBound(subjects[..j], facts);
    BoundBefore(subjects, facts, i);
    BoundBefore(subjects, facts, j);
  }

  lemma BoundBefore(subjects: seq<Subject>, facts: set<string>, n: nat)
    requires n <= |subjects| && FactsBound(subjects[..n], facts)
    ensures forall k :: 0 <= k < n && subjects[k].kind.CapturedFact? ==> Bound(subjects[k].factId, facts)
  {
    forall k | 0 <= k < n ensures subjects[..n][k] == subjects[k] {}
  }

  /** A run raises at an assertion on a bundled evaluator exactly when its first unbound captured fact has no id. */
  lemma LacksFactIdIff(w: World, a: Assertion)
    ensures LacksFactId(w, a) <==> Builtin(a.evaluator) && FirstMissing(a.subjects, w.facts, None)
  {
    hide FirstMissing, FirstUnbound, DeclaredFacts, FactsBound;
    FirstUnboundIs(a.subjects, w.facts);
    DeclaredBoundIff(a.subjects, w.facts);
    var r := FirstUnbound(DeclaredFacts(a.subjects), w.facts);
    if FirstMissing(a.subjects, w.facts, None) {
      MissingIsUnbound(a.subjects, w.facts, None);
      OneFirstMissing(a.subjects, w.facts, r.value, None);
    }
  }

  lemma MissingIsUnbound(subjects: seq<Subject>, facts: set<string>, fact: Option<string>)
    requires FirstMissing(subjects, facts, fact)
    ensures !FactsBound(subjects, facts)
  {
  }

  /** Each reason has its cause: the evaluator is not bundled, a named fact is missing (the first one), a dependency is
      not SATISFIED, the subject drifted, the evaluator cannot decide, or it crashed. */
  lemma ReasonHolds(w: World, planned: seq<Assertion>, ledger: seq<Row>, i: nat)
    requires i < |planned| && LedgerOf(w, planned, ledger, |planned|) && FactsNamed(w, planned)
    ensures var a, row := planned[i], ledger[i];
            var ready := Builtin(a.evaluator) && FactsBound(a.subjects, w.facts) && !Blocked(planned, ledger, i);
            match row.reason
            case NoReason => row.outcome != Unresolved
            case UnapprovedEvaluator => !Builtin(a.evaluator)
            case FactMissing(fact) => Builtin(a.evaluator) && FirstMissing(a.subjects, w.facts, Some(fact))
            case DependencyBlocked =>
              Builtin(a.evaluator) && FactsBound(a.subjects, w.facts) && Blocked(planned, ledger, i)
            case InputMutation(path) => ready && DriftAt(w, i) == Some(path)
            case CannotDecide(why) => ready && DriftAt(w, i).None? && w.evaluator(i) == RaisedUnresolved(why)
            case EvaluatorCrash(e) => ready && DriftAt(w, i).None? && w.evaluator(i) == RaisedOther(e)
            case _ => false
    ensures ledger[i].outcome == Unresolved <==> ledger[i].reason != NoReason
  {
    hide DeclaredFacts, FirstUnbound, FactsBound, Blocked, FirstMissing;
    assert Judged(w, planned, ledger, i);
    FirstUnboundIs(planned[i].subjects, w.facts);
    DeclaredBoundIff(planned[i].subjects, w.facts);
  }

  // ----- The findings are the reports -----

  ghost function ReportsOf(w: World, i: nat): seq<Report> {
    if w.evaluator(i).Returned? then w.evaluator(i).reports else []
  }

  /** How many findings the first `n` rows have. */
  ghost function Before(w: World, ledger: seq<Row>, n: nat): nat
    requires n <= |ledger|
  {
    if n == 0 then 0
    else Before(w, ledger, n - 1) + if ledger[n - 1].outcome == Violated then |ReportsOf(w, n - 1)| else 0
  }

  /** A finding says what the report says, of its assertion; without locations it has those of the subjects. */
  ghost predicate Says(f: Finding, a: Assertion, r: Report) {
    && f.assertionId == a.id && f.violationClass == Some(r.violationClass)
    && f.expected == r.expected && f.observed == r.observed
    && |f.locations| == (if r.locations == [] then |a.subjects| else |r.locations|)
    && (forall k :: 0 <= k < |f.locations| ==>
          f.locations[k] == if r.locations == [] then PlaceOf(a.subjects[k]) else r.locations[k])
    && f.key == a.id + "|" + (if f.locations == [] then "?" else f.locations[0]) + "|" + r.violationClass
    && f.enforcement == Block && f.reason == NoFindingReason && f.evidenceRefs == []
  }

  ghost function PlaceOf(s: Subject): string {
    if s.path == "" && s.selector == "" then "?" else if s.path == "" then s.selector else s.path
  }

  lemma MkSays(a: Assertion, r: Report)
    ensures Says(Mk(a, r), a, r)
  {
  }

  /** The findings of the i-th row stand in a block, one for each report, in order. */
  ghost predicate Filed(w: World, planned: seq<Assertion>, ledger: seq<Row>, fs: seq<Finding>, i: nat)
    requires i < |planned| && i < |ledger|
  {
    ledger[i].outcome == Violated ==>
      Before(w, ledger, i) + |ReportsOf(w, i)| <= |fs|
      && forall k :: 0 <= k < |ReportsOf(w, i)| ==>
           Says(fs[Before(w, ledger, i) + k], planned[i], ReportsOf(w, i)[k])
  }

  lemma KeptIs(w: World, planned: seq<Assertion>, ledger: seq<Row>, i: nat)
    requires i < |planned| && LedgerOf(w, planned, ledger, |planned|)
    ensures Kept(w, i, planned[i], ledger[i])
            == if ledger[i].outcome == Violated then MkAll(planned[i], ReportsOf(w, i)) else []
  {
    hide FirstUnbound, DeclaredFacts, Blocked;
    assert Judged(w, planned, ledger, i);
    assert MkAll(planned[i], []) == [];
  }

  lemma FiledStays(w: World, planned: seq<Assertion>, ledger: seq<Row>, fs: seq<Finding>, more: seq<Finding>, i: nat)
    requires i < |planned| && i < |ledger| && Filed(w, planned, ledger, fs, i)
    ensures Filed(w, planned, ledger, fs + more, i)
  {
    hide Says;
  }

  lemma FiledLast(w: World, planned: seq<Assertion>, ledger: seq<Row>, fs: seq<Finding>, i: nat)
    requires i < |planned| && i < |ledger| && |fs| == Before(w, ledger, i)
    ensures Filed(w, planned, ledger, fs + MkAll(planned[i], ReportsOf(w, i)), i)
  {
    hide Says, Mk, Before;
    var made, n := MkAll(planned[i], ReportsOf(w, i)), |fs|;
    forall k | 0 <= k < |made| ensures (fs + made)[n + k] == made[k] && Says(made[k], planned[i], ReportsOf(w, i)[k]) {
      MkSays(planned[i], ReportsOf(w, i)[k]);
    }
  }

  /** Every report of a VIOLATED row becomes a finding, in the order of plan and reports, and there are no others. */
  lemma {:induction false} FindingsAreReports(w: World, planned: seq<Assertion>, ledger: seq<Row>, n: nat)
    requires LedgerOf(w, planned, ledger, |planned|) && n <= |planned|
    ensures var fs := FindingsUpTo(w, planned, ledger, n);
            |fs| == Before(w, ledger, n) && forall i :: 0 <= i < n ==> Filed(w, planned, ledger, fs, i)
  {
    hide Filed, Kept, Judge, MkAll;
    if n > 0 {
      FindingsAreReports(w, planned, ledger, n - 1);
      KeptIs(w, planned, ledger, n - 1);
      var fs, kept := FindingsUpTo(w, planned, ledger, n - 1), Kept(w, n - 1, planned[n - 1], ledger[n - 1]);
      forall i | 0 <= i < n - 1 ensures Filed(w, planned, ledger, fs + kept, i) {
        FiledStays(w, planned, ledger, fs, kept, i);
      }
      if ledger[n - 1].outcome == Violated {
        FiledLast(w, planned, ledger, fs, n - 1);
      } else {
        NothingFiled(w, planned, ledger, fs + kept, n - 1);
      }
    }
  }

  lemma NothingFiled(w: World, planned: seq<Assertion>, ledger: seq<Row>, fs: seq<Finding>, i: nat)
    requires i < |planned| && i < |ledger| && ledger[i].outcome != Violated
    ensures Filed(w, planned, ledger, fs, i)
  {
  }
}

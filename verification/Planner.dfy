/** The assertion-graph planner of hub/coherence/plan.py. */
module Planner {
  import opened Common
  import opened Assertions

  /** The package's requirement registry in file order: requirement id and whether it is testable. */
  datatype Requirement = Requirement(id: string, testable: bool)

  datatype PlanError =
    | UnapprovedEvaluator(assertion: string)
    | UnknownRequirement(assertion: string, ref: string)
    | OrphanRequirement(requirement: string)
    | DuplicateIds(ids: set<string>)
    | OmittedRequired(id: string)
    | DependencyCycle(path: seq<string>)
    | UnknownDependency(id: string)

  // ----- What a plannable graph is -----

  type Graph = map<string, Assertion>

  /** Each step of `w` follows a declared dependency. */
  ghost predicate Walk(g: Graph, w: seq<string>) {
    forall i :: 0 <= i < |w| - 1 ==> w[i] in g && w[i + 1] in g[w[i]].dependencies
  }

  ghost predicate Closed(g: Graph, w: seq<string>) {
    |w| >= 2 && Walk(g, w) && w[0] == w[|w| - 1]
  }

  ghost predicate Acyclic(g: Graph) {
    !exists w :: Closed(g, w)
  }

  /** Every declared dependency is an assertion of the package. */
  ghost predicate Resolved(g: Graph) {
    forall k, d :: k in g && d in g[k].dependencies ==> d in g
  }

  /** Each assertion's dependencies all stand before it. */
  ghost predicate DependenciesFirst(s: seq<Assertion>) {
    forall i, d :: 0 <= i < |s| && d in s[i].dependencies ==> d in Ids(s)[..i]
  }

  /** `by_id`: the assertions keyed by id. */
  ghost predicate Indexes(g: Graph, assertions: seq<Assertion>) {
    && (forall i :: 0 <= i < |assertions| ==> assertions[i].id in g && g[assertions[i].id] == assertions[i])
    && (forall k :: k in g ==> k in Ids(assertions))
  }

  ghost predicate Approved(assertions: seq<Assertion>) {
    forall i :: 0 <= i < |assertions| ==> Builtin(assertions[i].evaluator)
  }

  predicate Known(requirements: seq<Requirement>, ref: string): (known: bool)
    ensures known <==> exists r :: r in requirements && r.id == ref
  {
    exists k :: 0 <= k < |requirements| && requirements[k].id == ref
  }

  ghost predicate Claimed(assertions: seq<Assertion>, requirement: string) {
    exists i :: 0 <= i < |assertions| && requirement in assertions[i].requirementRefs
  }

  /** References name known requirements (when there are any) and every testable one is claimed. */
  ghost predicate Traceable(assertions: seq<Assertion>, requirements: seq<Requirement>) {
    && (requirements != [] ==>
          forall i, ref :: 0 <= i < |assertions| && ref in assertions[i].requirementRefs ==> Known(requirements, ref))
    && (forall k :: 0 <= k < |requirements| && requirements[k].testable ==> Claimed(assertions, requirements[k].id))
  }

  /** The dependency graph of assertions with distinct ids. */
  ghost function GraphOf(assertions: seq<Assertion>): (g: Graph)
    requires Distinct(Ids(assertions))
    ensures Indexes(g, assertions)
  {
    var ids := Ids(assertions);
    map i | 0 <= i < |assertions| :: ids[i] := assertions[i]
  }

  lemma GraphUnique(g: Graph, assertions: seq<Assertion>)
    requires Distinct(Ids(assertions)) && Indexes(g, assertions)
    ensures g == GraphOf(assertions)
  {
    var h := GraphOf(assertions);
    forall k | k in g ensures k in h && g[k] == h[k] {
      var i :| 0 <= i < |assertions| && Ids(assertions)[i] == k;
      assert assertions[i].id == k;
    }
    forall k | k in h ensures k in g {
      var i :| 0 <= i < |assertions| && Ids(assertions)[i] == k;
      assert assertions[i].id == k;
    }
  }

  /** Exactly the packages the planner accepts. */
  ghost predicate Plannable(assertions: seq<Assertion>, required: seq<string>, requirements: Option<seq<Requirement>>) {
    && Approved(assertions)
    && (requirements.Some? ==> Traceable(assertions, requirements.value))
    && Distinct(Ids(assertions))
    && (forall i :: 0 <= i < |required| ==> required[i] in Ids(assertions))
    && Resolved(GraphOf(assertions))
    && Acyclic(GraphOf(assertions))
  }

  /** A plan is a reordering of the package that runs dependencies first. */
  ghost predicate IsPlan(assertions: seq<Assertion>, planned: seq<Assertion>) {
    multiset(planned) == multiset(assertions) && DependenciesFirst(planned)
  }

  /** A refusal states a real defect, and everything checked earlier was in order. */
  ghost predicate Justified(e: PlanError, assertions: seq<Assertion>, required: seq<string>,
                            requirements: Option<seq<Requirement>>) {
    match e
    case UnapprovedEvaluator(id) => exists a :: a in assertions && a.id == id && !Builtin(a.evaluator)
    case UnknownRequirement(id, ref) =>
      && Approved(assertions) && requirements.Some? && requirements.value != [] && !Known(requirements.value, ref)
      && exists a :: a in assertions && a.id == id && ref in a.requirementRefs
    case OrphanRequirement(r) =>
      && Approved(assertions) && requirements.Some? && !Claimed(assertions, r)
      && Requirement(r, true) in requirements.value
    case DuplicateIds(ids) =>
      && Approved(assertions) && (requirements.Some? ==> Traceable(assertions, requirements.value))
      && ids != {} && forall id :: id in ids <==> multiset(Ids(assertions))[id] > 1
    case OmittedRequired(id) =>
      && Approved(assertions) && (requirements.Some? ==> Traceable(assertions, requirements.value))
      && Distinct(Ids(assertions)) && id in required && id !in Ids(assertions)
    case DependencyCycle(path) =>
      && Distinct(Ids(assertions)) && (forall i :: 0 <= i < |required| ==> required[i] in Ids(assertions))
      && IsCycleReport(GraphOf(assertions), path)
    case UnknownDependency(id) =>
      && Distinct(Ids(assertions)) && (forall i :: 0 <= i < |required| ==> required[i] in Ids(assertions))
      && id !in Ids(assertions) && exists a :: a in assertions && id in a.dependencies
  }

  /** The reported path is a dependency walk that ends at an id it already went through. */
  ghost predicate IsCycleReport(g: Graph, path: seq<string>) {
    |path| >= 2 && Walk(g, path) && path[|path| - 1] in path[..|path| - 1]
  }

  // ----- Lemmas about the graph -----

  lemma ReportShowsCycle(g: Graph, path: seq<string>)
    requires IsCycleReport(g, path)
    ensures !Acyclic(g)
  {
    var k :| 0 <= k < |path| - 1 && path[k] == path[|path| - 1];
    assert Closed(g, path[k..]);
  }

  /** Position of an id in a list that holds it. */
  ghost function Position(ids: seq<string>, id: string): (p: nat)
    requires id in ids
    ensures p < |ids| && ids[p] == id
  {
    var i :| 0 <= i < |ids| && ids[i] == id;
    i
  }

  lemma {:induction false} WalkDescends(g: Graph, planned: seq<Assertion>, w: seq<string>, n: nat)
    requires Indexes(g, planned) && Distinct(Ids(planned)) && DependenciesFirst(planned)
    requires Walk(g, w) && n < |w| && w[0] in Ids(planned)
    ensures w[n] in Ids(planned)
    ensures Position(Ids(planned), w[n]) + n <= Position(Ids(planned), w[0])
  {
    if n > 0 {
      WalkDescends(g, planned, w, n - 1);
      var ids := Ids(planned);
      var p := Position(ids, w[n - 1]);
      assert planned[p].id == w[n - 1];
      assert w[n] in planned[p].dependencies;
      assert w[n] in ids[..p];
      var q :| 0 <= q < p && ids[..p][q] == w[n];
      assert ids[q] == w[n];
    }
  }

  /** An order with dependencies first leaves no room for a cycle. */
  lemma OrderedIsAcyclic(g: Graph, planned: seq<Assertion>)
    requires Indexes(g, planned) && Distinct(Ids(planned)) && DependenciesFirst(planned)
    ensures Resolved(g) && Acyclic(g)
  {
    forall k, d | k in g && d in g[k].dependencies ensures d in g {
      var p := Position(Ids(planned), k);
      assert planned[p].id == k;
      assert d in Ids(planned)[..p];
      var q :| 0 <= q < p && Ids(planned)[..p][q] == d;
      assert planned[q].id == d;
    }
    if w :| Closed(g, w) {
      assert w[0] in g;
      WalkDescends(g, planned, w, |w| - 1);
    }
  }

  /** A single assertion without dependencies is its own plan. */
  lemma LoneIsPlannable(a: Assertion)
    requires Builtin(a.evaluator) && a.dependencies == []
    ensures Plannable([a], [a.id], None) && IsPlan([a], [a])
  {
    assert Ids([a]) == [a.id];
    assert Indexes(map[a.id := a], [a]);
    GraphUnique(map[a.id := a], [a]);
    OrderedIsAcyclic(map[a.id := a], [a]);
  }

  // ----- The depth-first search -----

  datatype Mark = InProgress | Done

  predicate IsDone(state: map<string, Mark>, id: string) {
    id in state && state[id].Done?
  }

  /** Visited ids stay visited and finished ids stay finished. */
  ghost predicate Advanced(before: map<string, Mark>, after: map<string, Mark>) {
    before.Keys <= after.Keys && forall k :: IsDone(before, k) ==> IsDone(after, k)
  }

  ghost predicate AllDone(ids: seq<string>, state: map<string, Mark>) {
    forall k :: k in ids ==> IsDone(state, k)
  }

  /** The plan so far: the finished assertions, once each, dependencies first. */
  ghost predicate PlanOf(planned: seq<Assertion>, g: Graph, state: map<string, Mark>) {
    && (forall k :: k in Ids(planned) <==> IsDone(state, k))
    && Distinct(Ids(planned))
    && (forall i :: 0 <= i < |planned| ==> planned[i].id in g && planned[i] == g[planned[i].id])
    && DependenciesFirst(planned)
  }

  lemma PlanExtended(planned: seq<Assertion>, g: Graph, state: map<string, Mark>, aid: string)
    requires PlanOf(planned, g, state) && aid in g && g[aid].id == aid && !IsDone(state, aid)
    requires AllDone(g[aid].dependencies, state)
    ensures PlanOf(planned + [g[aid]], g, state[aid := Done])
  {
    var after := planned + [g[aid]];
    assert Ids(after) == Ids(planned) + [aid];
    forall i, d | 0 <= i < |after| && d in after[i].dependencies ensures d in Ids(after)[..i] {
      assert Ids(after)[..i] == Ids(planned)[..i];
      if i == |planned| {
        assert IsDone(state, d);
        assert Ids(planned)[..i] == Ids(planned);
      }
    }
  }

  class Search {
    const byId: Graph
    var state: map<string, Mark>
    var planned: seq<Assertion>

    constructor (byId: Graph)
      requires forall k :: k in byId ==> byId[k].id == k
      ensures this.byId == byId && Valid([]) && planned == [] && state == map[]
    {
      this.byId := byId;
      state := map[];
      planned := [];
    }

    /** `stack` is the chain of calls under way: a dependency walk of unfinished assertions. */
    ghost predicate Valid(stack: seq<string>)
      reads this
    {
      && (forall k :: k in byId ==> byId[k].id == k)
      && (forall k :: k in state ==> k in byId)
      && (forall k :: k in stack <==> k in state && state[k].InProgress?)
      && Walk(byId, stack)
      && PlanOf(planned, byId, state)
    }

    ghost predicate Refuses(e: PlanError) {
      match e
      case DependencyCycle(path) => IsCycleReport(byId, path)
      case UnknownDependency(id) => id !in byId && exists k :: k in byId && id in byId[k].dependencies
      case _ => false
    }

    /** `visit` is called for an assertion of the package, or for a dependency of the caller. */
    ghost predicate Callable(aid: string, stack: seq<string>) {
      if stack == [] then aid in byId
      else stack[|stack| - 1] in byId && aid in byId[stack[|stack| - 1]].dependencies
    }

    method Visit(aid: string, stack: seq<string>) returns (r: Option<PlanError>)
      requires Valid(stack) && Callable(aid, stack)
      modifies this`state, this`planned
      ensures r.Some? ==> Refuses(r.value)
      ensures r.None? ==> Valid(stack) && IsDone(state, aid)
      ensures old(planned) <= planned && Advanced(old(state), state)
      ensures IsDone(old(state), aid) ==> r.None? && planned == old(planned)
      ensures aid in byId && aid !in old(state) && AllDone(byId[aid].dependencies, old(state)) ==>
                r.None? && planned == old(planned) + [byId[aid]]
      decreases byId.Keys - state.Keys, 1
    {
      if IsDone(state, aid) {
        return None;
      }
      if aid in state && state[aid].InProgress? {
        CycleFound(aid, stack);
        return Some(DependencyCycle(stack + [aid]));
      }
      if aid !in byId {
        return Some(UnknownDependency(aid));
      }
      Open(aid, stack);
      r := VisitDependencies(aid, stack + [aid]);
      if r.None? {
        Finish(aid, stack);
      }
    }

    lemma CycleFound(aid: string, stack: seq<string>)
      requires Valid(stack) && Callable(aid, stack) && aid in stack
      ensures IsCycleReport(byId, stack + [aid])
    {
      var path := stack + [aid];
      assert path[..|path| - 1] == stack;
    }

    /** `state[aid] = 1`. */
    method Open(aid: string, stack: seq<string>)
      requires Valid(stack) && Callable(aid, stack) && aid in byId && aid !in state
      modifies this`state
      ensures Valid(stack + [aid]) && state == old(state)[aid := InProgress]
    {
      state := state[aid := InProgress];
      assert forall k :: k in stack + [aid] <==> k in stack || k == aid;
      assert forall k :: IsDone(state, k) <==> IsDone(old(state), k);
    }

    method VisitDependencies(aid: string, stack: seq<string>) returns (r: Option<PlanError>)
      requires Valid(stack) && stack != [] && stack[|stack| - 1] == aid && aid in byId
      modifies this`state, this`planned
      ensures r.Some? ==> Refuses(r.value)
      ensures r.None? ==> Valid(stack) && AllDone(byId[aid].dependencies, state)
      ensures old(planned) <= planned && Advanced(old(state), state)
      ensures AllDone(byId[aid].dependencies, old(state)) ==> r.None? && planned == old(planned)
      decreases byId.Keys - state.Keys, 2
    {
      var deps := byId[aid].dependencies;
      for i := 0 to |deps|
        invariant Valid(stack)
        invariant old(planned) <= planned && Advanced(old(state), state)
        invariant forall j :: 0 <= j < i ==> IsDone(state, deps[j])
        invariant AllDone(deps, old(state)) ==> planned == old(planned)
      {
        r := Visit(deps[i], stack);
        if r.Some? {
          return;
        }
      }
      r := None;
    }

    /** `state[aid] = 2; planned.append(by_id[aid])`. */
    method Finish(aid: string, stack: seq<string>)
      requires Valid(stack + [aid]) && aid in byId && aid !in stack
      requires AllDone(byId[aid].dependencies, state)
      modifies this`state, this`planned
      ensures Valid(stack)
      ensures planned == old(planned) + [byId[aid]] && state == old(state)[aid := Done]
    {
      assert aid in stack + [aid];
      assert stack == (stack + [aid])[..|stack|];
      assert forall k :: k in stack + [aid] <==> k in stack || k == aid;
      PlanExtended(planned, byId, state, aid);
      state := state[aid := Done];
      planned := planned + [byId[aid]];
    }
  }

  // ----- The whole planner -----

  /** The search's result lists every assertion once. */
  lemma PlanIsPermutation(g: Graph, assertions: seq<Assertion>, planned: seq<Assertion>)
    requires Distinct(Ids(assertions)) && Indexes(g, assertions)
    requires Distinct(Ids(planned))
    requires forall i :: 0 <= i < |planned| ==> planned[i].id in g && planned[i] == g[planned[i].id]
    requires forall i :: 0 <= i < |assertions| ==> assertions[i].id in Ids(planned)
    ensures multiset(planned) == multiset(assertions) && Indexes(g, planned)
  {
    forall a | a in planned ensures a in assertions {
      var j :| 0 <= j < |assertions| && Ids(assertions)[j] == a.id;
      assert g[assertions[j].id] == assertions[j];
    }
    forall a | a in assertions ensures a in planned {
      MemberHasId(assertions, a);
      var i :| 0 <= i < |assertions| && assertions[i] == a;
      var j :| 0 <= j < |planned| && Ids(planned)[j] == a.id;
      assert planned[j] == g[a.id] == a;
    }
    DistinctIdsDistinct(planned);
    DistinctIdsDistinct(assertions);
    SameMembersPermute(planned, assertions);
    forall k | k in g ensures k in Ids(planned) {
      var i :| 0 <= i < |assertions| && Ids(assertions)[i] == k;
      assert assertions[i].id == k;
    }
  }

  /** `{i for i in ids if ids.count(i) > 1}`. */
  function Duplicates(ids: seq<string>): (d: set<string>)
    ensures d == {} <==> Distinct(ids)
    ensures forall id :: id in d <==> multiset(ids)[id] > 1
  {
    DistinctIffCountedOnce(ids);
    var d := set id | id in ids && multiset(ids)[id] > 1;
    assert forall id :: id in d <==> multiset(ids)[id] > 1;
    assert d == {} ==> forall id :: multiset(ids)[id] <= 1 by {
      if d == {} {
        forall id ensures multiset(ids)[id] <= 1 { assert id !in d; }
      }
    }
    d
  }

  /** `check_traceability`. */
  method CheckTraceability(assertions: seq<Assertion>, requirements: seq<Requirement>) returns (r: Option<PlanError>)
    ensures r.None? <==> Traceable(assertions, requirements)
    ensures r.Some? ==> r.value.UnknownRequirement? || r.value.OrphanRequirement?
    ensures r.Some? && Approved(assertions) ==> Justified(r.value, assertions, [], Some(requirements))
  {
    var claimed: set<string> := {};
    for i := 0 to |assertions|
      invariant forall k :: k in claimed <==> Claimed(assertions[..i], k)
      invariant requirements != [] ==>
                  forall j, ref :: 0 <= j < i && ref in assertions[j].requirementRefs ==> Known(requirements, ref)
    {
      var refs := assertions[i].requirementRefs;
      ghost var before := claimed;
      for k := 0 to |refs|
        invariant forall x :: x in claimed <==> x in before || x in refs[..k]
        invariant requirements != [] ==> forall j :: 0 <= j < k ==> Known(requirements, refs[j])
      {
        if requirements != [] && !Known(requirements, refs[k]) {
          assert assertions[i] in assertions && refs[k] in assertions[i].requirementRefs;
          return Some(UnknownRequirement(assertions[i].id, refs[k]));
        }
        claimed := claimed + {refs[k]};
      }
      assert refs[..|refs|] == refs;
      ClaimedStep(assertions, i);
    }
    assert assertions[..|assertions|] == assertions;
    for k := 0 to |requirements|
      invariant forall j :: 0 <= j < k && requirements[j].testable ==> Claimed(assertions, requirements[j].id)
    {
      if requirements[k].testable && requirements[k].id !in claimed {
        assert requirements[k] == Requirement(requirements[k].id, true);
        return Some(OrphanRequirement(requirements[k].id));
      }
    }
    r := None;
  }

  lemma ClaimedStep(assertions: seq<Assertion>, i: nat)
    requires i < |assertions|
    ensures forall x :: Claimed(assertions[..i + 1], x) <==>
                        Claimed(assertions[..i], x) || x in assertions[i].requirementRefs
  {
    forall x ensures Claimed(assertions[..i + 1], x) <==>
                     Claimed(assertions[..i], x) || x in assertions[i].requirementRefs {
      if Claimed(assertions[..i], x) {
        var j :| 0 <= j < i && x in assertions[..i][j].requirementRefs;
        assert assertions[..i + 1][j] == assertions[..i][j];
      }
      if x in assertions[i].requirementRefs {
        assert assertions[..i + 1][i] == assertions[i];
      }
      if Claimed(assertions[..i + 1], x) {
        var j :| 0 <= j <= i && x in assertions[..i + 1][j].requirementRefs;
        if j < i { assert assertions[..i][j] == assertions[..i + 1][j]; }
      }
    }
  }

  /** The checks that come before the search. */
  method Precheck(assertions: seq<Assertion>, required: seq<string>, requirements: Option<seq<Requirement>>)
    returns (r: Option<PlanError>)
    ensures r.None? <==>
            && Approved(assertions)
            && (requirements.Some? ==> Traceable(assertions, requirements.value))
            && Distinct(Ids(assertions))
            && forall i :: 0 <= i < |required| ==> required[i] in Ids(assertions)
    ensures r.Some? ==> Justified(r.value, assertions, required, requirements)
  {
    for i := 0 to |assertions|
      invariant forall j :: 0 <= j < i ==> Builtin(assertions[j].evaluator)
    {
      if !Builtin(assertions[i].evaluator) {
        assert assertions[i] in assertions;
        return Some(PlanError.UnapprovedEvaluator(assertions[i].id));
      }
    }
    if requirements.Some? {
      r := CheckTraceability(assertions, requirements.value);
      if r.Some? {
        return;
      }
    }
    var dupes := Duplicates(Ids(assertions));
    if dupes != {} {
      return Some(DuplicateIds(dupes));
    }
    for i := 0 to |required|
      invariant forall j :: 0 <= j < i ==> required[j] in Ids(assertions)
    {
      if required[i] !in Ids(assertions) {
        return Some(OmittedRequired(required[i]));
      }
    }
    r := None;
  }

  method BuildIndex(assertions: seq<Assertion>) returns (byId: Graph)
    requires Distinct(Ids(assertions))
    ensures Indexes(byId, assertions) && forall k :: k in byId ==> byId[k].id == k
  {
    byId := map[];
    for i := 0 to |assertions|
      invariant forall k :: k in byId ==> k in Ids(assertions) && byId[k].id == k
      invariant forall j :: 0 <= j < i ==> assertions[j].id in byId && byId[assertions[j].id] == assertions[j]
    {
      assert forall j :: 0 <= j < i ==> Ids(assertions)[j] != Ids(assertions)[i];
      assert Ids(assertions)[i] == assertions[i].id;
      byId := byId[assertions[i].id := assertions[i]];
    }
  }

  /** A refusal by the search shows that the graph is not plannable. */
  lemma SearchRefusalJustified(g: Graph, e: PlanError, assertions: seq<Assertion>, required: seq<string>,
                               requirements: Option<seq<Requirement>>)
    requires Distinct(Ids(assertions)) && Indexes(g, assertions)
    requires forall i :: 0 <= i < |required| ==> required[i] in Ids(assertions)
    requires match e
             case DependencyCycle(path) => IsCycleReport(g, path)
             case UnknownDependency(id) => id !in g && exists k :: k in g && id in g[k].dependencies
             case _ => false
    ensures Justified(e, assertions, required, requirements)
    ensures !(Resolved(GraphOf(assertions)) && Acyclic(GraphOf(assertions)))
  {
    GraphUnique(g, assertions);
    match e
    case DependencyCycle(path) => ReportShowsCycle(g, path);
    case UnknownDependency(id) =>
      var k :| k in g && id in g[k].dependencies;
      var i :| 0 <= i < |assertions| && Ids(assertions)[i] == k;
      assert assertions[i].id == k && g[k] == assertions[i] && assertions[i] in assertions;
      forall j | 0 <= j < |assertions| ensures Ids(assertions)[j] != id {
        assert assertions[j].id in g;
      }
  }

  /** If the package was in order, the plan so far is its first `n` assertions. */
  ghost predicate KeptOrder(assertions: seq<Assertion>, planned: seq<Assertion>, n: nat) {
    n <= |assertions| && (DependenciesFirst(assertions) ==> planned == assertions[..n])
  }

  /** In a package already in order, the next assertion is unvisited and its dependencies are planned. */
  lemma KeptOrderStep(g: Graph, assertions: seq<Assertion>, state: map<string, Mark>,
                      before: seq<Assertion>, after: seq<Assertion>, i: nat)
    requires Distinct(Ids(assertions)) && Indexes(g, assertions) && i < |assertions|
    requires PlanOf(before, g, state) && forall k :: k in state ==> IsDone(state, k)
    requires KeptOrder(assertions, before, i)
    requires assertions[i].id !in state && AllDone(g[assertions[i].id].dependencies, state)
             ==> after == before + [g[assertions[i].id]]
    ensures KeptOrder(assertions, after, i + 1)
  {
    if DependenciesFirst(assertions) {
      assert Ids(before) == Ids(assertions)[..i];
      assert Ids(assertions)[i] == assertions[i].id;
      assert assertions[i].id !in Ids(before);
      assert before + [assertions[i]] == assertions[..i + 1];
    }
  }

  /** The search over every assertion in package order. */
  method SearchAll(search: Search, assertions: seq<Assertion>) returns (e: Option<PlanError>)
    requires search.Valid([]) && search.planned == []
    requires Distinct(Ids(assertions)) && Indexes(search.byId, assertions)
    modifies search`state, search`planned
    ensures e.Some? ==> search.Refuses(e.value)
    ensures e.None? ==> search.Valid([]) && forall j :: 0 <= j < |assertions| ==> IsDone(search.state, assertions[j].id)
    ensures e.None? && DependenciesFirst(assertions) ==> search.planned == assertions
  {
    for i := 0 to |assertions|
      invariant search.Valid([])
      invariant forall j :: 0 <= j < i ==> IsDone(search.state, assertions[j].id)
      invariant KeptOrder(assertions, search.planned, i)
    {
      hide DependenciesFirst, KeptOrder, IsCycleReport;
      ghost var before, state := search.planned, search.state;
      e := search.Visit(assertions[i].id, []);
      if e.Some? {
        return;
      }
      KeptOrderStep(search.byId, assertions, state, before, search.planned, i);
    }
    e := None;
  }

  lemma SearchResultIsPlan(g: Graph, assertions: seq<Assertion>, planned: seq<Assertion>)
    requires Distinct(Ids(assertions)) && Indexes(g, assertions) && Approved(assertions)
    requires Distinct(Ids(planned)) && DependenciesFirst(planned)
    requires forall i :: 0 <= i < |planned| ==> planned[i].id in g && planned[i] == g[planned[i].id]
    requires forall i :: 0 <= i < |assertions| ==> assertions[i].id in Ids(planned)
    ensures IsPlan(assertions, planned) && Approved(planned)
    ensures Resolved(GraphOf(assertions)) && Acyclic(GraphOf(assertions))
  {
    PlanIsPermutation(g, assertions, planned);
    OrderedIsAcyclic(g, planned);
    GraphUnique(g, assertions);
    PermutationKeepsApproval(assertions, planned);
  }

  /** `plan`: succeeds exactly on the plannable packages, with their assertions dependencies first;
      a package already in such an order is returned as it is. */
  method Plan(assertions: seq<Assertion>, required: seq<string>, requirements: Option<seq<Requirement>>)
    returns (r: Result<seq<Assertion>, PlanError>)
    ensures r.Ok? <==> Plannable(assertions, required, requirements)
    ensures r.Ok? ==> IsPlan(assertions, r.value) && Distinct(Ids(r.value)) && Approved(r.value)
    ensures r.Ok? && DependenciesFirst(assertions) ==> r.value == assertions
    ensures r.Err? ==> Justified(r.error, assertions, required, requirements)
  {
    var e := Precheck(assertions, required, requirements);
    if e.Some? {
      return Err(e.value);
    }
    var byId := BuildIndex(assertions);
    var search := new Search(byId);
    e := SearchAll(search, assertions);
    if e.Some? {
      SearchRefusalJustified(byId, e.value, assertions, required, requirements);
      return Err(e.value);
    }
    assert forall j :: 0 <= j < |assertions| ==> assertions[j].id in Ids(search.planned);
    SearchResultIsPlan(byId, assertions, search.planned);
    r := Ok(search.planned);
  }

  lemma PermutationKeepsApproval(a: seq<Assertion>, b: seq<Assertion>)
    requires multiset(a) == multiset(b) && Approved(a)
    ensures Approved(b)
  {
    forall i | 0 <= i < |b| ensures Builtin(b[i].evaluator) {
      assert b[i] in multiset(a);
    }
  }
}

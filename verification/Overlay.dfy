/** The repository overlay of hub/coherence/policy.py (`apply_overlay`). */
module Overlay {
  import opened Common
  import opened Assertions
  import opened Severity
  import opened Planner

  /** One entry of `overlay["assertions"]`; an evaluator without a usable id is the empty string. */
  datatype Change = Change(id: string, disabled: bool, severity: Option<string>, evaluator: Option<string>)

  datatype RepositoryOverlay = RepositoryOverlay(changes: seq<Change>, additions: seq<Assertion>, grants: bool)

  /** The parts of the central bundle the overlay is held to; an absent floor is not in the map. */
  datatype Central = Central(approved: set<string>, floors: map<string, string>, required: seq<string>)

  /** `FloorKeyError` is the `KeyError` raised by a floor whose name has no rank; the rest are refusals. */
  datatype OverlayError =
    | DisablesRequired(id: string)
    | ReferencesUnknown(id: string)
    | UnknownSeverity(id: string)
    | FloorKeyError(id: string)
    | BelowFloor(id: string)
    | MalformedEvaluator(id: string)
    | EvaluatorNotApproved(id: string)
    | Redefines(id: string)
    | GrantsCapabilities

  // ----- When a change is accepted -----

  function FloorOf(c: Central, id: string): string {
    if id in c.floors then c.floors[id] else ""
  }

  predicate SeverityAllowed(c: Central, id: string, severity: string) {
    && SeverityRank(severity).Some?
    && (FloorOf(c, id) == "" ||
        (SeverityRank(FloorOf(c, id)).Some? && SeverityRank(severity).value >= SeverityRank(FloorOf(c, id)).value))
  }

  predicate EvaluatorAllowed(c: Central, evaluator: string) {
    evaluator != "" && (c.approved != {} ==> evaluator in c.approved)
  }

  /** `present` tells whether the id is still in the package when the change is reached. */
  predicate ChangeAllowed(c: Central, ch: Change, present: bool) {
    if ch.disabled then ch.id !in c.required
    else
      && present
      && (ch.severity.Some? ==> SeverityAllowed(c, ch.id, ch.severity.value))
      && (ch.evaluator.Some? ==> EvaluatorAllowed(c, ch.evaluator.value))
  }

  /** The refusal a change meets; the earlier checks have passed. */
  predicate Meets(e: OverlayError, c: Central, ch: Change, present: bool) {
    var floor := FloorOf(c, ch.id);
    match e
    case DisablesRequired(id) => id == ch.id && ch.disabled && id in c.required
    case ReferencesUnknown(id) => id == ch.id && !ch.disabled && !present
    case UnknownSeverity(id) =>
      id == ch.id && !ch.disabled && present && ch.severity.Some? && SeverityRank(ch.severity.value).None?
    case FloorKeyError(id) =>
      id == ch.id && !ch.disabled && present && ch.severity.Some? && SeverityRank(ch.severity.value).Some?
      && floor != "" && SeverityRank(floor).None?
    case BelowFloor(id) =>
      id == ch.id && !ch.disabled && present && ch.severity.Some? && floor != "" && Above(floor, ch.severity.value)
    case MalformedEvaluator(id) =>
      id == ch.id && !ch.disabled && present && (ch.severity.Some? ==> SeverityAllowed(c, id, ch.severity.value))
      && ch.evaluator == Some("")
    case EvaluatorNotApproved(id) =>
      id == ch.id && !ch.disabled && present && (ch.severity.Some? ==> SeverityAllowed(c, id, ch.severity.value))
      && ch.evaluator.Some? && ch.evaluator.value != "" && c.approved != {} && ch.evaluator.value !in c.approved
    case _ => false
  }

  ghost predicate DisabledIn(changes: seq<Change>, id: string) {
    exists k :: 0 <= k < |changes| && changes[k].disabled && changes[k].id == id
  }

  ghost predicate Present(assertions: seq<Assertion>, changes: seq<Change>, id: string) {
    id in Ids(assertions) && !DisabledIn(changes, id)
  }

  ghost predicate AdditionAllowed(assertions: seq<Assertion>, o: RepositoryOverlay, k: nat)
    requires k < |o.additions|
  {
    !Present(assertions, o.changes, o.additions[k].id) && o.additions[k].id !in Ids(o.additions)[..k]
  }

  /** Exactly the overlays that are applied. */
  ghost predicate Acceptable(assertions: seq<Assertion>, o: RepositoryOverlay, c: Central) {
    && ChangesPass(assertions, o.changes, c)
    && (forall k :: 0 <= k < |o.additions| ==> AdditionAllowed(assertions, o, k))
    && !o.grants
  }

  /** The first change that is not allowed is refused for its own reason. */
  ghost predicate RefusedAt(assertions: seq<Assertion>, changes: seq<Change>, c: Central, e: OverlayError, k: nat) {
    && k < |changes|
    && (forall j :: 0 <= j < k ==> ChangeAllowed(c, changes[j], Present(assertions, changes[..j], changes[j].id)))
    && Meets(e, c, changes[k], Present(assertions, changes[..k], changes[k].id))
  }

  /** Why an overlay is not applied: its first bad change, else a repeated id, else a grant. */
  ghost predicate Explained(assertions: seq<Assertion>, o: RepositoryOverlay, c: Central, e: OverlayError) {
    match e
    case Redefines(id) =>
      ChangesPass(assertions, o.changes, c)
      && exists k :: 0 <= k < |o.additions| && o.additions[k].id == id && !AdditionAllowed(assertions, o, k)
    case GrantsCapabilities =>
      ChangesPass(assertions, o.changes, c)
      && (forall k :: 0 <= k < |o.additions| ==> AdditionAllowed(assertions, o, k)) && o.grants
    case _ => exists k :: RefusedAt(assertions, o.changes, c, e, k)
  }

  ghost predicate ChangesPass(assertions: seq<Assertion>, changes: seq<Change>, c: Central) {
    forall k :: 0 <= k < |changes| ==> ChangeAllowed(c, changes[k], Present(assertions, changes[..k], changes[k].id))
  }

  // ----- What an accepted overlay yields -----

  function LastWith(assertions: seq<Assertion>, id: string): (a: Assertion)
    requires id in Ids(assertions)
    ensures a.id == id && a in assertions
  {
    var n := |assertions| - 1;
    assert Ids(assertions) == Ids(assertions[..n]) + [assertions[n].id];
    if assertions[n].id == id then assertions[n] else LastWith(assertions[..n], id)
  }

  function Edited(a: Assertion, ch: Change): (r: Assertion)
    ensures r.id == a.id
  {
    a.(severity := if ch.severity.Some? then ch.severity.value else a.severity,
       evaluator := if ch.evaluator.Some? then ch.evaluator.value else a.evaluator)
  }

  /** The enabled changes to `a`, in order. */
  function Patched(a: Assertion, changes: seq<Change>): (r: Assertion)
    ensures r.id == a.id
  {
    if changes == [] then a
    else
      var before := Patched(a, changes[..|changes| - 1]);
      var ch := changes[|changes| - 1];
      if ch.id == a.id && !ch.disabled then Edited(before, ch) else before
  }

  /** The package as the changes leave it, then the additions. */
  ghost predicate Patches(byId: map<string, Assertion>, assertions: seq<Assertion>, changes: seq<Change>) {
    && (forall id :: id in byId <==> Present(assertions, changes, id))
    && (forall id :: id in byId ==> byId[id] == Patched(LastWith(assertions, id), changes))
  }

  /** `[by_id[a["id"]] for a in assertions if a["id"] in by_id]`. */
  function Survivors(assertions: seq<Assertion>, byId: map<string, Assertion>): (r: seq<Assertion>)
    requires forall id :: id in byId ==> byId[id].id == id
    ensures forall a :: a in r ==> a.id in byId && a == byId[a.id] && a.id in Ids(assertions)
    ensures forall id :: id in Ids(assertions) && id in byId ==> byId[id] in r
  {
    if assertions == [] then []
    else
      var n := |assertions| - 1;
      assert Ids(assertions) == Ids(assertions[..n]) + [assertions[n].id];
      Survivors(assertions[..n], byId) + if assertions[n].id in byId then [byId[assertions[n].id]] else []
  }

  lemma PresentStep(assertions: seq<Assertion>, changes: seq<Change>, k: nat, id: string)
    requires k < |changes|
    ensures Present(assertions, changes[..k + 1], id) <==>
            Present(assertions, changes[..k], id) && !(changes[k].disabled && changes[k].id == id)
  {
    assert changes[..k + 1] == changes[..k] + [changes[k]];
    if DisabledIn(changes[..k], id) {
      var j :| 0 <= j < k && changes[..k][j].disabled && changes[..k][j].id == id;
      assert changes[..k + 1][j] == changes[..k][j];
    }
    if changes[k].disabled && changes[k].id == id {
      assert changes[..k + 1][k] == changes[k];
    }
  }

  /** The refusals of one change, in the order the code tries them. */
  method CheckChange(c: Central, ch: Change, present: bool) returns (e: Option<OverlayError>)
    ensures e.None? <==> ChangeAllowed(c, ch, present)
    ensures e.Some? ==> Meets(e.value, c, ch, present)
  {
    if ch.disabled {
      return if ch.id in c.required then Some(DisablesRequired(ch.id)) else None;
    }
    if !present {
      return Some(ReferencesUnknown(ch.id));
    }
    if ch.severity.Some? {
      var floor := FloorOf(c, ch.id);
      if SeverityRank(ch.severity.value).None? {
        return Some(UnknownSeverity(ch.id));
      }
      if floor != "" && SeverityRank(floor).None? {
        return Some(FloorKeyError(ch.id));
      }
      if floor != "" && SeverityRank(ch.severity.value).value < SeverityRank(floor).value {
        return Some(BelowFloor(ch.id));
      }
    }
    if ch.evaluator.Some? {
      if ch.evaluator.value == "" {
        return Some(MalformedEvaluator(ch.id));
      }
      if c.approved != {} && ch.evaluator.value !in c.approved {
        return Some(EvaluatorNotApproved(ch.id));
      }
    }
    e := None;
  }

  /** The loop over `overlay["assertions"]`. */
  method ApplyChanges(assertions: seq<Assertion>, changes: seq<Change>, c: Central)
    returns (byId: map<string, Assertion>, e: Option<OverlayError>)
    ensures e.None? <==> ChangesPass(assertions, changes, c)
    ensures e.None? ==> Patches(byId, assertions, changes)
    ensures e.Some? ==> exists k :: RefusedAt(assertions, changes, c, e.value, k)
  {
    byId := IndexLast(assertions);
    for i := 0 to |changes|
      invariant Patches(byId, assertions, changes[..i])
      invariant forall k :: 0 <= k < i ==>
                  ChangeAllowed(c, changes[k], Present(assertions, changes[..k], changes[k].id))
    {
      var ch := changes[i];
      e := CheckChange(c, ch, ch.id in byId);
      if e.Some? {
        assert RefusedAt(assertions, changes, c, e.value, i);
        return;
      }
      ghost var before := byId;
      if ch.disabled {
        byId := byId - {ch.id};
      } else {
        byId := byId[ch.id := Edited(byId[ch.id], ch)];
      }
      PatchesStep(before, byId, assertions, changes, i);
    }
    assert changes[..|changes|] == changes;
    e := None;
  }

  lemma PatchesStep(before: map<string, Assertion>, after: map<string, Assertion>, assertions: seq<Assertion>,
                    changes: seq<Change>, i: nat)
    requires i < |changes| && Patches(before, assertions, changes[..i])
    requires !changes[i].disabled ==> changes[i].id in before
    requires after == if changes[i].disabled then before - {changes[i].id}
                      else before[changes[i].id := Edited(before[changes[i].id], changes[i])]
    ensures Patches(after, assertions, changes[..i + 1])
  {
    var next := changes[..i + 1];
    assert next[..i] == changes[..i] && next[i] == changes[i];
    forall id
      ensures id in after <==> Present(assertions, next, id)
      ensures id in after ==> after[id] == Patched(LastWith(assertions, id), next)
    {
      PresentStep(assertions, changes, i, id);
      assert id in before <==> Present(assertions, changes[..i], id);
    }
  }

  /** `{a["id"]: a for a in assertions}`. */
  method IndexLast(assertions: seq<Assertion>) returns (byId: map<string, Assertion>)
    ensures Patches(byId, assertions, [])
  {
    byId := map[];
    for i := 0 to |assertions|
      invariant Patches(byId, assertions[..i], [])
    {
      var prefix := assertions[..i + 1];
      assert prefix[..i] == assertions[..i];
      assert Ids(prefix) == Ids(assertions[..i]) + [assertions[i].id];
      byId := byId[assertions[i].id := assertions[i]];
    }
    assert assertions[..|assertions|] == assertions;
  }

  /** `byId` after the additions. */
  ghost predicate Extends(after: map<string, Assertion>, byId: map<string, Assertion>, additions: seq<Assertion>) {
    && (forall id :: id in after <==> id in byId || id in Ids(additions))
    && (forall id :: id in byId && id !in Ids(additions) ==> after[id] == byId[id])
    && (forall k :: 0 <= k < |additions| && additions[k].id !in Ids(additions)[..k] && additions[k].id !in byId ==>
          after[additions[k].id] == additions[k])
    && (forall id :: id in after ==> after[id].id == id)
  }

  lemma ExtendsNothing(byId: map<string, Assertion>)
    requires forall id :: id in byId ==> byId[id].id == id
    ensures Extends(byId, byId, [])
  {
  }

  lemma ExtendsMember(after: map<string, Assertion>, byId: map<string, Assertion>, additions: seq<Assertion>, i: nat)
    requires i < |additions| && Extends(after, byId, additions[..i])
    ensures additions[i].id in after <==> additions[i].id in byId || additions[i].id in Ids(additions)[..i]
  {
    assert Ids(additions[..i]) == Ids(additions)[..i];
  }

  /** The loop over `overlay["add_assertions"]`. */
  method AddAll(byId: map<string, Assertion>, additions: seq<Assertion>)
    returns (after: map<string, Assertion>, e: Option<OverlayError>)
    requires forall id :: id in byId ==> byId[id].id == id
    ensures e.None? <==> forall k :: 0 <= k < |additions| ==>
                           additions[k].id !in byId && additions[k].id !in Ids(additions)[..k]
    ensures e.None? ==> Extends(after, byId, additions)
    ensures e.Some? ==> exists k :: 0 <= k < |additions| && e == Some(Redefines(additions[k].id))
                                    && (additions[k].id in byId || additions[k].id in Ids(additions)[..k])
  {
    hide Extends;
    after := byId;
    ExtendsNothing(byId);
    assert additions[..0] == [];
    for i := 0 to |additions|
      invariant Extends(after, byId, additions[..i])
      invariant forall k :: 0 <= k < i ==> additions[k].id !in byId && additions[k].id !in Ids(additions)[..k]
    {
      var a := additions[i];
      ExtendsMember(after, byId, additions, i);
      if a.id in after {
        return after, Some(Redefines(a.id));
      }
      ExtendsStep(after, byId, additions, i);
      after := after[a.id := a];
    }
    assert additions[..|additions|] == additions;
    e := None;
  }

  lemma ExtendsStep(after: map<string, Assertion>, byId: map<string, Assertion>, additions: seq<Assertion>, i: nat)
    requires i < |additions| && Extends(after, byId, additions[..i]) && additions[i].id !in after
    ensures Extends(after[additions[i].id := additions[i]], byId, additions[..i + 1])
  {
    var a, now, next := additions[i], additions[..i], additions[..i + 1];
    assert Ids(next) == Ids(now) + [a.id];
    forall k | 0 <= k < |next| && next[k].id !in Ids(next)[..k] && next[k].id !in byId
      ensures after[a.id := a][next[k].id] == next[k]
    {
      if k < i {
        assert Ids(next)[..k] == Ids(now)[..k] && next[k] == now[k];
        assert now[k].id == Ids(now)[k];
      }
    }
  }

  /** What the overlay returns: the patched survivors in package order, then the additions. */
  ghost predicate Applied(assertions: seq<Assertion>, o: RepositoryOverlay, r: seq<Assertion>) {
    exists byId, after ::
      && Patches(byId, assertions, o.changes)
      && Extends(after, byId, o.additions)
      && r == Survivors(assertions, after) + o.additions
  }

  /** `apply_overlay`: applied exactly when every change and addition is allowed and nothing is granted. */
  method Apply(assertions: seq<Assertion>, o: RepositoryOverlay, c: Central)
    returns (r: Result<seq<Assertion>, OverlayError>)
    ensures r.Ok? <==> Acceptable(assertions, o, c)
    ensures r.Ok? ==> Applied(assertions, o, r.value)
    ensures r.Err? ==> Explained(assertions, o, c, r.error)
  {
    var byId, e := ApplyChanges(assertions, o.changes, c);
    if e.Some? {
      return Err(e.value);
    }
    var after, e' := AddAll(byId, o.additions);
    if e'.Some? {
      var k :| 0 <= k < |o.additions| && e' == Some(Redefines(o.additions[k].id))
               && (o.additions[k].id in byId || o.additions[k].id in Ids(o.additions)[..k]);
      assert !AdditionAllowed(assertions, o, k);
      return Err(e'.value);
    }
    if o.grants {
      return Err(GrantsCapabilities);
    }
    r := Ok(Survivors(assertions, after) + o.additions);
  }

  // ----- Overlay and planner together -----

  lemma SurvivorIds(assertions: seq<Assertion>, byId: map<string, Assertion>, id: string)
    requires forall k :: k in byId ==> byId[k].id == k
    ensures id in Ids(Survivors(assertions, byId)) <==> id in Ids(assertions) && id in byId
  {
    var kept := Survivors(assertions, byId);
    if id in Ids(kept) {
      var k :| 0 <= k < |kept| && Ids(kept)[k] == id;
      assert kept[k] in kept;
    }
    if id in Ids(assertions) && id in byId {
      MemberHasId(kept, byId[id]);
    }
  }

  lemma IdsConcat(a: seq<Assertion>, b: seq<Assertion>, id: string)
    ensures id in Ids(a + b) <==> id in Ids(a) || id in Ids(b)
    ensures id in Ids(a) && id in Ids(b) ==> !Distinct(Ids(a + b))
  {
    var ids := Ids(a + b);
    assert ids == Ids(a) + Ids(b);
    if id in Ids(a) && id in Ids(b) {
      var i :| 0 <= i < |a| && Ids(a)[i] == id;
      var j :| 0 <= j < |b| && Ids(b)[j] == id;
      assert ids[i] == ids[|a| + j];
    }
  }

  /** The ids an applied overlay leaves: the package without the disabled ones, and the additions. */
  lemma AppliedIds(assertions: seq<Assertion>, o: RepositoryOverlay, r: seq<Assertion>, id: string)
    requires Applied(assertions, o, r)
    ensures id in Ids(r) <==> Present(assertions, o.changes, id) || id in Ids(o.additions)
  {
    var byId, after :| Patches(byId, assertions, o.changes) && Extends(after, byId, o.additions)
                       && r == Survivors(assertions, after) + o.additions;
    SurvivorIds(assertions, after, id);
    IdsConcat(Survivors(assertions, after), o.additions, id);
    assert id in byId <==> Present(assertions, o.changes, id);
    assert id in after <==> id in byId || id in Ids(o.additions);
  }

  /** Disabling a package assertion and adding it back leaves its id twice, so the planner refuses the result. */
  lemma DisabledAndReaddedIsRefused(assertions: seq<Assertion>, o: RepositoryOverlay, r: seq<Assertion>, id: string,
                                    required: seq<string>, requirements: Option<seq<Requirement>>)
    requires Applied(assertions, o, r)
    requires id in Ids(assertions) && DisabledIn(o.changes, id) && id in Ids(o.additions)
    ensures !Plannable(r, required, requirements)
  {
    ReaddedIsTwice(assertions, o, r, id);
  }

  lemma ReaddedIsTwice(assertions: seq<Assertion>, o: RepositoryOverlay, r: seq<Assertion>, id: string)
    requires Applied(assertions, o, r)
    requires id in Ids(assertions) && id in Ids(o.additions)
    ensures !Distinct(Ids(r))
  {
    var byId, after :| Patches(byId, assertions, o.changes) && Extends(after, byId, o.additions)
                       && r == Survivors(assertions, after) + o.additions;
    SurvivorIds(assertions, after, id);
    IdsConcat(Survivors(assertions, after), o.additions, id);
  }

  /** Disabling an assertion that is not required and adding it back is let through. */
  lemma ReaddIsAccepted(c: Central, a: Assertion)
    requires a.id !in c.required
    ensures var o := RepositoryOverlay([Change(a.id, true, None, None)], [a], false);
            Acceptable([a], o, c) && Applied([a], o, [a, a])
  {
    var ch := Change(a.id, true, None, None);
    assert [ch][0].disabled && DisabledIn([ch], a.id);
    assert Ids([a]) == [a.id] && Ids([a])[..0] == [];
    ReaddIsApplied(a, ch);
  }

  lemma ReaddIsApplied(a: Assertion, ch: Change)
    requires ch.id == a.id && DisabledIn([ch], a.id)
    ensures Applied([a], RepositoryOverlay([ch], [a], false), [a, a])
  {
    var after := map[a.id := a];
    assert Ids([a]) == [a.id] && Ids([a])[..0] == [];
    assert Patches(map[], [a], [ch]);
    assert Extends(after, map[], [a]);
    assert [a][..0] == [];
    assert Survivors([a], after) == [a];
    assert [a] + [a] == [a, a];
  }

  /** A package id that no change disables stands in the package once. */
  ghost predicate SurvivingIdsDistinct(assertions: seq<Assertion>, changes: seq<Change>) {
    forall i, j :: 0 <= i < j < |assertions| && assertions[i].id == assertions[j].id ==>
      DisabledIn(changes, assertions[i].id)
  }

  /** No two of the first `n` assertions that are kept have the same id. */
  ghost predicate KeptPairsDiffer(assertions: seq<Assertion>, byId: map<string, Assertion>, n: nat)
    requires n <= |assertions|
  {
    forall i, j :: 0 <= i < j < n && assertions[i].id == assertions[j].id ==> assertions[i].id !in byId
  }

  /** Whether `Survivors` keeps any id twice. */
  lemma {:induction false} SurvivorsDistinctIff(assertions: seq<Assertion>, byId: map<string, Assertion>)
    requires forall id :: id in byId ==> byId[id].id == id
    ensures Distinct(Ids(Survivors(assertions, byId))) <==> KeptPairsDiffer(assertions, byId, |assertions|)
  {
    hide Distinct, KeptPairsDiffer, Ids;
    if assertions == [] {
      NothingKeptTwice(byId);
    } else {
      var n := |assertions| - 1;
      SurvivorsDistinctIff(assertions[..n], byId);
      SurvivorAppended(assertions, byId);
      var before := Ids(Survivors(assertions[..n], byId));
      assert before + [] == before && |assertions[..n]| == n;
      SurvivorIds(assertions[..n], byId, assertions[n].id);
      DistinctAppend(Ids(Survivors(assertions[..n], byId)), assertions[n].id);
      PairsSplit(assertions, byId);
    }
  }

  lemma NothingKeptTwice(byId: map<string, Assertion>)
    requires forall id :: id in byId ==> byId[id].id == id
    ensures Distinct(Ids(Survivors([], byId))) && KeptPairsDiffer([], byId, 0)
  {
  }

  lemma SurvivorAppended(assertions: seq<Assertion>, byId: map<string, Assertion>)
    requires assertions != [] && forall id :: id in byId ==> byId[id].id == id
    ensures var n := |assertions| - 1;
            Ids(Survivors(assertions, byId))
            == Ids(Survivors(assertions[..n], byId)) + if assertions[n].id in byId then [assertions[n].id] else []
  {
  }

  lemma DistinctAppend(s: seq<string>, x: string)
    ensures Distinct(s + [x]) <==> Distinct(s) && x !in s
  {
    var t := s + [x];
    if Distinct(t) {
      forall i, j | 0 <= i < j < |s| ensures s[i] != s[j] { assert t[i] != t[j]; }
      forall i | 0 <= i < |s| ensures s[i] != x { assert t[i] != t[|s|]; }
    }
  }

  lemma PairsSplit(assertions: seq<Assertion>, byId: map<string, Assertion>)
    requires assertions != []
    ensures var n := |assertions| - 1;
            KeptPairsDiffer(assertions, byId, n + 1) <==>
            KeptPairsDiffer(assertions[..n], byId, n)
            && (assertions[n].id in byId ==> assertions[n].id !in Ids(assertions[..n]))
  {
    var n := |assertions| - 1;
    var init := assertions[..n];
    assert forall i :: 0 <= i < n ==> init[i] == assertions[i] && Ids(init)[i] == assertions[i].id;
    if assertions[n].id in Ids(init) {
      var i :| 0 <= i < n && Ids(init)[i] == assertions[n].id;
      assert assertions[i].id == assertions[n].id;
    }
  }

  /** An applied overlay leaves every id once exactly when the surviving package ids were distinct and nothing is
      added under an id the package had, disabled or not. */
  lemma DistinctIffNothingReadded(assertions: seq<Assertion>, o: RepositoryOverlay, c: Central, r: seq<Assertion>)
    requires Acceptable(assertions, o, c) && Applied(assertions, o, r)
    ensures Distinct(Ids(r)) <==>
            SurvivingIdsDistinct(assertions, o.changes)
            && forall k :: 0 <= k < |o.additions| ==> o.additions[k].id !in Ids(assertions)
  {
    var byId, after :| Patches(byId, assertions, o.changes) && Extends(after, byId, o.additions)
                       && r == Survivors(assertions, after) + o.additions;
    if k :| 0 <= k < |o.additions| && o.additions[k].id in Ids(assertions) {
      MemberHasId(o.additions, o.additions[k]);
      ReaddedIsTwice(assertions, o, r, o.additions[k].id);
    } else {
      SurvivorsDistinctIff(assertions, after);
      AdditionsDistinct(assertions, o, c);
      PartsDistinct(Survivors(assertions, after), o.additions, assertions);
      SurvivingPairs(assertions, o, byId, after);
    }
  }

  lemma AdditionsDistinct(assertions: seq<Assertion>, o: RepositoryOverlay, c: Central)
    requires Acceptable(assertions, o, c)
    ensures Distinct(Ids(o.additions))
  {
    forall i, j | 0 <= i < j < |o.additions| ensures Ids(o.additions)[i] != Ids(o.additions)[j] {
      assert AdditionAllowed(assertions, o, j);
      assert Ids(o.additions)[..j][i] == Ids(o.additions)[i];
    }
  }

  lemma PartsDistinct(a: seq<Assertion>, b: seq<Assertion>, from: seq<Assertion>)
    requires Distinct(Ids(b)) && forall x :: x in a ==> x.id in Ids(from)
    requires forall k :: 0 <= k < |b| ==> b[k].id !in Ids(from)
    ensures Distinct(Ids(a + b)) <==> Distinct(Ids(a))
  {
    var ids := Ids(a + b);
    assert ids == Ids(a) + Ids(b);
    if Distinct(ids) {
      forall i, j | 0 <= i < j < |a| ensures Ids(a)[i] != Ids(a)[j] { assert ids[i] != ids[j]; }
    }
    forall i, j | 0 <= i < |a| && 0 <= j < |b| ensures Ids(a)[i] != Ids(b)[j] { assert a[i] in a; }
  }

  lemma SurvivingPairs(assertions: seq<Assertion>, o: RepositoryOverlay, byId: map<string, Assertion>,
                       after: map<string, Assertion>)
    requires Patches(byId, assertions, o.changes) && Extends(after, byId, o.additions)
    requires forall k :: 0 <= k < |o.additions| ==> o.additions[k].id !in Ids(assertions)
    ensures SurvivingIdsDistinct(assertions, o.changes) <==> KeptPairsDiffer(assertions, after, |assertions|)
  {
    forall i | 0 <= i < |assertions| ensures assertions[i].id in after <==> !DisabledIn(o.changes, assertions[i].id) {
      assert Ids(assertions)[i] == assertions[i].id;
      forall k | 0 <= k < |o.additions| ensures Ids(o.additions)[k] != assertions[i].id {
        assert Ids(o.additions)[k] == o.additions[k].id;
      }
      assert assertions[i].id in byId <==> Present(assertions, o.changes, assertions[i].id);
    }
  }

  /** A package assertion of the result whose id was not added again carries the overlay's edits. */
  lemma SurvivorIsPatched(assertions: seq<Assertion>, o: RepositoryOverlay, r: seq<Assertion>, a: Assertion)
    requires Applied(assertions, o, r)
    requires a in r && a !in o.additions && Distinct(Ids(r))
    ensures Present(assertions, o.changes, a.id) && a == Patched(LastWith(assertions, a.id), o.changes)
  {
    var byId, after :| Patches(byId, assertions, o.changes) && Extends(after, byId, o.additions)
                       && r == Survivors(assertions, after) + o.additions;
    assert a in Survivors(assertions, after);
    if a.id in Ids(o.additions) {
      ReaddedIsTwice(assertions, o, r, a.id);
    }
    assert a.id !in Ids(o.additions);
    assert a.id in byId;
  }

  /** The enabled changes that set a severity (an evaluator) of `id`. */
  ghost predicate SetsSeverity(changes: seq<Change>, id: string) {
    exists k :: 0 <= k < |changes| && changes[k].id == id && !changes[k].disabled && changes[k].severity.Some?
  }

  ghost predicate SetsEvaluator(changes: seq<Change>, id: string) {
    exists k :: 0 <= k < |changes| && changes[k].id == id && !changes[k].disabled && changes[k].evaluator.Some?
  }

  ghost predicate ChangesAllowed(c: Central, changes: seq<Change>) {
    forall k :: 0 <= k < |changes| ==> ChangeAllowed(c, changes[k], true) || ChangeAllowed(c, changes[k], false)
  }

  /** A patched assertion carries the values it was given, and those were allowed. */
  lemma {:induction false} PatchedIsAllowed(a: Assertion, changes: seq<Change>, c: Central)
    requires ChangesAllowed(c, changes)
    ensures if SetsSeverity(changes, a.id) then SeverityAllowed(c, a.id, Patched(a, changes).severity)
            else Patched(a, changes).severity == a.severity
    ensures if SetsEvaluator(changes, a.id) then EvaluatorAllowed(c, Patched(a, changes).evaluator)
            else Patched(a, changes).evaluator == a.evaluator
  {
    if changes != [] {
      var n := |changes| - 1;
      var init, ch := changes[..n], changes[n];
      PatchedIsAllowed(a, init, c);
      if ch.id == a.id && !ch.disabled {
        assert ChangeAllowed(c, ch, true);
      }
      if SetsSeverity(init, a.id) {
        var k :| 0 <= k < n && init[k].id == a.id && !init[k].disabled && init[k].severity.Some?;
        assert changes[k] == init[k];
      }
      if SetsEvaluator(init, a.id) {
        var k :| 0 <= k < n && init[k].id == a.id && !init[k].disabled && init[k].evaluator.Some?;
        assert changes[k] == init[k];
      }
      SetsStep(changes, a.id);
    }
  }

  lemma SetsStep(changes: seq<Change>, id: string)
    requires changes != []
    ensures var n := |changes| - 1;
            SetsSeverity(changes, id) <==>
            SetsSeverity(changes[..n], id) || (changes[n].id == id && !changes[n].disabled && changes[n].severity.Some?)
    ensures var n := |changes| - 1;
            SetsEvaluator(changes, id) <==>
            SetsEvaluator(changes[..n], id)
            || (changes[n].id == id && !changes[n].disabled && changes[n].evaluator.Some?)
  {
    var n := |changes| - 1;
    var init := changes[..n];
    assert changes == init + [changes[n]];
    if SetsSeverity(init, id) {
      var k :| 0 <= k < n && init[k].id == id && !init[k].disabled && init[k].severity.Some?;
      assert changes[k] == init[k];
    }
    if SetsEvaluator(init, id) {
      var k :| 0 <= k < n && init[k].id == id && !init[k].disabled && init[k].evaluator.Some?;
      assert changes[k] == init[k];
    }
  }

  /** What holds once an overlay was applied and its result planned: the planned ids are the package's without the
      disabled ones plus the additions, each once, no required one missing; and each surviving package assertion
      has only the severities and evaluators central policy allows where the overlay set them. */
  lemma PlannedPackage(assertions: seq<Assertion>, o: RepositoryOverlay, c: Central, r: seq<Assertion>,
                       requirements: Option<seq<Requirement>>, planned: seq<Assertion>, a: Assertion)
    requires Acceptable(assertions, o, c) && Applied(assertions, o, r)
    requires Plannable(r, c.required, requirements) && IsPlan(r, planned) && Distinct(Ids(planned))
    ensures forall id :: id in Ids(planned) <==> Present(assertions, o.changes, id) || id in Ids(o.additions)
    ensures forall k :: 0 <= k < |c.required| ==> c.required[k] in Ids(planned)
    ensures a in planned && a !in o.additions ==>
              && Present(assertions, o.changes, a.id)
              && a == Patched(LastWith(assertions, a.id), o.changes)
              && (SetsSeverity(o.changes, a.id) ==> SeverityAllowed(c, a.id, a.severity))
              && (SetsEvaluator(o.changes, a.id) ==> EvaluatorAllowed(c, a.evaluator))
  {
    forall id ensures id in Ids(planned) <==> id in Ids(r) {
      SameIds(r, planned, id);
    }
    forall id ensures id in Ids(planned) <==> Present(assertions, o.changes, id) || id in Ids(o.additions) {
      AppliedIds(assertions, o, r, id);
    }
    if a in planned && a !in o.additions {
      assert a in multiset(r);
      SurvivorIsPatched(assertions, o, r, a);
      ChangesWereAllowed(assertions, o, c);
      PatchedIsAllowed(LastWith(assertions, a.id), o.changes, c);
    }
  }

  /** The overlay gave the assertion its severity: by adding the assertion, or by a change to it. */
  ghost predicate GivesSeverity(o: RepositoryOverlay, a: Assertion) {
    a in o.additions || SetsSeverity(o.changes, a.id)
  }

  ghost predicate GivesEvaluator(o: RepositoryOverlay, a: Assertion) {
    a in o.additions || SetsEvaluator(o.changes, a.id)
  }

  /** Whether everything the overlay gave meets central policy is decided by its additions alone: changes are held
      to floors and approved evaluators, additions are not. */
  lemma OverlayGivenAllowedIff(assertions: seq<Assertion>, o: RepositoryOverlay, c: Central, r: seq<Assertion>,
                               requirements: Option<seq<Requirement>>, planned: seq<Assertion>)
    requires Acceptable(assertions, o, c) && Applied(assertions, o, r)
    requires Plannable(r, c.required, requirements) && IsPlan(r, planned) && Distinct(Ids(planned))
    ensures (forall a :: a in planned && GivesSeverity(o, a) ==> SeverityAllowed(c, a.id, a.severity)) <==>
            (forall a :: a in o.additions ==> SeverityAllowed(c, a.id, a.severity))
    ensures (forall a :: a in planned && GivesEvaluator(o, a) ==> EvaluatorAllowed(c, a.evaluator)) <==>
            (forall a :: a in o.additions ==> EvaluatorAllowed(c, a.evaluator))
  {
    hide Acceptable, Applied, Plannable, SeverityAllowed, EvaluatorAllowed, SetsSeverity, SetsEvaluator;
    forall a | a in o.additions ensures a in planned {
      AdditionsArePlanned(assertions, o, r, planned, a);
    }
    forall a | a in planned && a !in o.additions
      ensures SetsSeverity(o.changes, a.id) ==> SeverityAllowed(c, a.id, a.severity)
      ensures SetsEvaluator(o.changes, a.id) ==> EvaluatorAllowed(c, a.evaluator)
    {
      PlannedPackage(assertions, o, c, r, requirements, planned, a);
    }
  }

  lemma AdditionsArePlanned(assertions: seq<Assertion>, o: RepositoryOverlay, r: seq<Assertion>,
                            planned: seq<Assertion>, a: Assertion)
    requires Applied(assertions, o, r) && multiset(planned) == multiset(r) && a in o.additions
    ensures a in planned
  {
    var byId, after :| Patches(byId, assertions, o.changes) && Extends(after, byId, o.additions)
                       && r == Survivors(assertions, after) + o.additions;
    assert a in r;
    assert a in multiset(r);
  }

  lemma LoneAdditionApplied(c: Central, a: Assertion)
    ensures Acceptable([], RepositoryOverlay([], [a], false), c)
    ensures Applied([], RepositoryOverlay([], [a], false), [a])
  {
    var o := RepositoryOverlay([], [a], false);
    var after := map[a.id := a];
    assert Ids([a]) == [a.id] && Ids([a])[..0] == [];
    assert Patches(map[], [], o.changes);
    assert Extends(after, map[], o.additions);
    assert Survivors([], after) + o.additions == [a];
  }

  /** Nothing but the id of an addition is looked at: any assertion without dependencies on a bundled evaluator gets
      into the plan, whatever floor and approved evaluators say, even under a required id. */
  lemma AdditionIsUnchecked(c: Central, a: Assertion)
    requires Builtin(a.evaluator) && a.dependencies == [] && c.required == [a.id]
    ensures var o := RepositoryOverlay([], [a], false);
            && Acceptable([], o, c) && Applied([], o, [a])
            && Plannable([a], c.required, None) && IsPlan([a], [a])
  {
    hide *;
    LoneAdditionApplied(c, a);
    LoneIsPlannable(a);
  }

  /** So a required assertion can enter below its floor, on an evaluator that is not approved. */
  lemma RequiredEntersBelowFloor(a: Assertion)
    requires a.evaluator == "devgate.builtin.captured-fact-consistency" && a.severity == "low" && a.dependencies == []
    ensures var o := RepositoryOverlay([], [a], false);
            var c := Central({"devgate.builtin.identity-consistency"}, map[a.id := "critical"], [a.id]);
            && Acceptable([], o, c) && Applied([], o, [a]) && Plannable([a], c.required, None) && IsPlan([a], [a])
            && GivesSeverity(o, a) && !SeverityAllowed(c, a.id, a.severity) && !EvaluatorAllowed(c, a.evaluator)
  {
    hide Acceptable, Applied, Plannable, IsPlan;
    var c := Central({"devgate.builtin.identity-consistency"}, map[a.id := "critical"], [a.id]);
    AdditionIsUnchecked(c, a);
    assert |"devgate.builtin.identity-consistency"| != |a.evaluator|;
  }

  lemma ChangesWereAllowed(assertions: seq<Assertion>, o: RepositoryOverlay, c: Central)
    requires Acceptable(assertions, o, c)
    ensures ChangesAllowed(c, o.changes)
  {
    forall k | 0 <= k < |o.changes|
      ensures ChangeAllowed(c, o.changes[k], true) || ChangeAllowed(c, o.changes[k], false)
    {
      assert ChangeAllowed(c, o.changes[k], Present(assertions, o.changes[..k], o.changes[k].id));
    }
  }

  lemma SameIds(r: seq<Assertion>, planned: seq<Assertion>, id: string)
    requires multiset(planned) == multiset(r)
    ensures id in Ids(planned) <==> id in Ids(r)
  {
    if id in Ids(planned) {
      var k :| 0 <= k < |planned| && Ids(planned)[k] == id;
      assert planned[k] in multiset(r);
      MemberHasId(r, planned[k]);
    }
    if id in Ids(r) {
      var k :| 0 <= k < |r| && Ids(r)[k] == id;
      assert r[k] in multiset(planned);
      MemberHasId(planned, r[k]);
    }
  }

  // ----- "May strengthen, never weaken" holds only as far as the floor reaches -----

  /** The floor keeps every allowed severity of `id` at or above `severity`. */
  predicate FloorHolds(c: Central, id: string, severity: string)
    requires SeverityRank(severity).Some?
  {
    severity == "low"
    || (FloorOf(c, id) != "" &&
        (SeverityRank(FloorOf(c, id)).None? || SeverityRank(FloorOf(c, id)).value >= SeverityRank(severity).value))
  }

  /** No allowed change lowers the severity of `id`, exactly when the floor stands at or above it
      (or has no rank at all), or the severity is already the lowest. */
  lemma NeverLoweredIff(c: Central, id: string, severity: string)
    requires SeverityRank(severity).Some?
    ensures (forall s :: SeverityAllowed(c, id, s) ==> SeverityRank(s).value >= SeverityRank(severity).value)
            <==> FloorHolds(c, id, severity)
  {
    var floor := FloorOf(c, id);
    if floor == "" {
      assert SeverityAllowed(c, id, "low");
    } else if SeverityRank(floor).Some? {
      assert SeverityAllowed(c, id, floor);
    }
  }

  /** The overlay is applied to a package holding `a`, and leaves `a` with a lower severity. */
  ghost predicate Lowers(c: Central, a: Assertion, assertions: seq<Assertion>, o: RepositoryOverlay)
    requires SeverityRank(a.severity).Some?
  {
    && Acceptable(assertions, o, c) && Present(assertions, o.changes, a.id) && LastWith(assertions, a.id) == a
    && var now := SeverityRank(Patched(a, o.changes).severity);
       now.Some? && now.value < SeverityRank(a.severity).value
  }

  /** Some overlay of some package lowers an assertion, exactly when the floor does not hold it. */
  lemma OverlayLowersIff(c: Central, a: Assertion)
    requires SeverityRank(a.severity).Some?
    ensures (exists assertions, o :: Lowers(c, a, assertions, o)) <==> !FloorHolds(c, a.id, a.severity)
  {
    hide Acceptable;
    NeverLoweredIff(c, a.id, a.severity);
    forall assertions, o | FloorHolds(c, a.id, a.severity) ensures !Lowers(c, a, assertions, o) {
      FloorKeepsSeverity(c, a, assertions, o);
    }
    if s :| SeverityAllowed(c, a.id, s) && SeverityRank(s).value < SeverityRank(a.severity).value {
      SettingIsAccepted(c, a, s);
      assert Lowers(c, a, [a], RepositoryOverlay([Change(a.id, false, Some(s), None)], [], false));
    }
  }

  lemma FloorKeepsSeverity(c: Central, a: Assertion, assertions: seq<Assertion>, o: RepositoryOverlay)
    requires SeverityRank(a.severity).Some? && FloorHolds(c, a.id, a.severity)
    ensures !Lowers(c, a, assertions, o)
  {
    hide SetsSeverity, SetsEvaluator;
    NeverLoweredIff(c, a.id, a.severity);
    if Acceptable(assertions, o, c) {
      ChangesWereAllowed(assertions, o, c);
      PatchedIsAllowed(a, o.changes, c);
    }
  }

  /** A single change to an allowed severity is applied and sets it. */
  lemma SettingIsAccepted(c: Central, a: Assertion, severity: string)
    requires SeverityAllowed(c, a.id, severity)
    ensures var o := RepositoryOverlay([Change(a.id, false, Some(severity), None)], [], false);
            Acceptable([a], o, c) && Present([a], o.changes, a.id) && Patched(a, o.changes).severity == severity
  {
    var ch := Change(a.id, false, Some(severity), None);
    assert [ch][..0] == [];
    assert Ids([a])[0] == a.id;
    assert !DisabledIn([], a.id);
    assert !DisabledIn([ch], a.id);
  }

  /** An overlay that turns a critical assertion into a low one is applied when central policy sets no floor. */
  lemma OverlayCanLower(a: Assertion)
    requires a.severity == "critical"
    ensures var o := RepositoryOverlay([Change(a.id, false, Some("low"), None)], [], false);
            Acceptable([a], o, Central({}, map[], [])) && Patched(a, o.changes).severity == "low"
  {
    SettingIsAccepted(Central({}, map[], []), a, "low");
  }

  // ----- The result is determined -----

  lemma PatchesUnique(m: map<string, Assertion>, n: map<string, Assertion>, assertions: seq<Assertion>,
                      changes: seq<Change>)
    requires Patches(m, assertions, changes) && Patches(n, assertions, changes)
    ensures m == n
  {
    assert forall id :: id in m <==> id in n;
  }

  lemma ExtendsUnique(m: map<string, Assertion>, n: map<string, Assertion>, byId: map<string, Assertion>,
                      additions: seq<Assertion>)
    requires Extends(m, byId, additions) && Extends(n, byId, additions)
    requires forall k :: 0 <= k < |additions| ==> additions[k].id !in byId && additions[k].id !in Ids(additions)[..k]
    ensures m == n
  {
    forall id | id in m ensures id in n && m[id] == n[id] {
      if id in Ids(additions) {
        var k :| 0 <= k < |additions| && Ids(additions)[k] == id;
        assert additions[k].id == id;
      }
    }
    assert forall id :: id in m <==> id in n;
  }

  /** An acceptable overlay has one result. */
  lemma AppliedUnique(assertions: seq<Assertion>, o: RepositoryOverlay, c: Central, r: seq<Assertion>,
                      s: seq<Assertion>)
    requires Acceptable(assertions, o, c) && Applied(assertions, o, r) && Applied(assertions, o, s)
    ensures r == s
  {
    var m, m' :| Patches(m, assertions, o.changes) && Extends(m', m, o.additions)
                 && r == Survivors(assertions, m') + o.additions;
    var n, n' :| Patches(n, assertions, o.changes) && Extends(n', n, o.additions)
                 && s == Survivors(assertions, n') + o.additions;
    PatchesUnique(m, n, assertions, o.changes);
    forall k | 0 <= k < |o.additions| ensures o.additions[k].id !in m && o.additions[k].id !in Ids(o.additions)[..k] {
      assert AdditionAllowed(assertions, o, k);
      assert o.additions[k].id in m <==> Present(assertions, o.changes, o.additions[k].id);
    }
    ExtendsUnique(m', n', m, o.additions);
  }

  /** Two explanations of one refusal agree on whether an unranked floor raised. */
  lemma FloorErrorDecided(assertions: seq<Assertion>, o: RepositoryOverlay, c: Central, e: OverlayError,
                          e': OverlayError)
    requires Explained(assertions, o, c, e) && Explained(assertions, o, c, e')
    ensures e.FloorKeyError? <==> e'.FloorKeyError?
  {
    hide Meets;
    if e.FloorKeyError? || e'.FloorKeyError? {
      var floor, other := if e.FloorKeyError? then e else e', if e.FloorKeyError? then e' else e;
      var k: nat :| RefusedAt(assertions, o.changes, c, floor, k);
      MeetsIsRefusal(floor, c, o.changes[k], Present(assertions, o.changes[..k], o.changes[k].id));
      if !other.Redefines? && !other.GrantsCapabilities? {
        var j: nat :| RefusedAt(assertions, o.changes, c, other, j);
        MeetsIsRefusal(other, c, o.changes[j], Present(assertions, o.changes[..j], o.changes[j].id));
        assert j == k;
        MeetsFloorDecided(floor, other, c, o.changes[k], Present(assertions, o.changes[..k], o.changes[k].id));
      }
    }
  }

  lemma MeetsIsRefusal(e: OverlayError, c: Central, ch: Change, present: bool)
    requires Meets(e, c, ch, present)
    ensures !ChangeAllowed(c, ch, present)
  {
  }

  lemma MeetsFloorDecided(e: OverlayError, e': OverlayError, c: Central, ch: Change, present: bool)
    requires Meets(e, c, ch, present) && Meets(e', c, ch, present) && e.FloorKeyError?
    ensures e'.FloorKeyError?
  {
  }

  lemma ExplainedIsRefused(assertions: seq<Assertion>, o: RepositoryOverlay, c: Central, e: OverlayError)
    ensures Explained(assertions, o, c, e) ==> !Acceptable(assertions, o, c)
  {
    hide Meets;
    if Explained(assertions, o, c, e) && !e.Redefines? && !e.GrantsCapabilities? {
      var k: nat :| RefusedAt(assertions, o.changes, c, e, k);
      MeetsIsRefusal(e, c, o.changes[k], Present(assertions, o.changes[..k], o.changes[k].id));
    }
  }
}

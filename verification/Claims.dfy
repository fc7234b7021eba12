/** The claim lifecycle of hub/coherence/verification.py. */
module Claims {
  import opened Common

  datatype State =
    | Requested | Planned | Attempted | Executed | Completed | Tested | Observed | Verified
    | Blocked | Failed | Unknown

  predicate Terminal(s: State) {
    s.Blocked? || s.Failed? || s.Unknown?
  }

  /** `LADDER` without its last rung, VERIFIED. */
  const RUNGS: seq<State> := [Requested, Planned, Attempted, Executed, Completed, Tested, Observed]

  /** The rungs when no plan was recorded. */
  const UNPLANNED_RUNGS: seq<State> := [Requested, Attempted, Executed, Completed, Tested, Observed]

  /** The rungs `_FORWARD` leads to. */
  predicate Forward(current: State, target: State) {
    match current
    case Requested => target.Planned? || target.Attempted?
    case Planned => target.Attempted?
    case Attempted => target.Executed?
    case Executed => target.Completed?
    case Completed => target.Tested?
    case Tested => target.Observed?
    case Observed => target.Verified?
    case _ => false
  }

  /** `can_transition`. */
  predicate CanTransition(current: State, target: State) {
    current == target || Terminal(target) || (target.Verified? && !Terminal(current)) || Forward(current, target)
  }

  type Digests = map<string, string>

  /** A claim's state, its transition log, its anchors, its evidence, and whether the independent check said yes. */
  datatype Record = Record(state: State, log: seq<State>, bound: Digests, evidence: seq<string>, check: Option<bool>)

  const NEW := Record(Requested, [Requested], map[], [], None)

  /** `staleness` is not empty. */
  predicate Stale(bound: Digests, observed: Digests) {
    exists role :: role in bound && (role !in observed || observed[role] != bound[role])
  }

  /** `revalidate`. */
  function Revalidate(c: Record, observed: Digests): State {
    if Stale(c.bound, observed) then Unknown else c.state
  }

  /** The public operations. A verification carries the verifier's answer and the observed digests as they are
      after the verifier has run; `observed` is what the caller supplied, if anything. */
  datatype Operation =
    | Move(target: State)
    | Bind(role: string, digest: string)
    | Attach(evidence: string)
    | Verify(observed: Option<Digests>, accepts: bool, observedAfter: Digests)

  /** A claim after an operation, and whether the operation raised. */
  datatype Outcome = Outcome(claim: Record, raised: bool)

  function Moved(c: Record, target: State): Outcome {
    if CanTransition(c.state, target) then Outcome(c.(state := target, log := c.log + [target]), false)
    else Outcome(c, true)
  }

  /** `transition` as an actor may call it: VERIFIED is out of reach. */
  function ActorMove(c: Record, target: State): Outcome {
    if target.Verified? && !c.state.Verified? then Outcome(c, true) else Moved(c, target)
  }

  function VerifiedBy(c: Record, observed: Option<Digests>, accepts: bool, after: Digests): Outcome {
    if observed.Some? && Stale(c.bound, observed.value) then Outcome(c, true)
    else
      var recorded := c.(check := Some(accepts));
      if !accepts then Moved(recorded, Failed)
      else if observed.Some? && Stale(c.bound, after) then Moved(recorded, Unknown)
      else Moved(recorded, Verified)
  }

  function Apply(c: Record, op: Operation): Outcome {
    match op
    case Move(target) => ActorMove(c, target)
    case Bind(role, digest) =>
      if role == "" || digest == "" then Outcome(c, true) else Outcome(c.(bound := c.bound[role := digest]), false)
    case Attach(e) => if e == "" then Outcome(c, true) else Outcome(c.(evidence := c.evidence + [e]), false)
    case Verify(observed, accepts, after) => VerifiedBy(c, observed, accepts, after)
  }

  /** The claim after a run of operations; a raised error leaves the run free to go on. */
  function After(ops: seq<Operation>): Record {
    if ops == [] then NEW else Apply(After(ops[..|ops| - 1]), ops[|ops| - 1]).claim
  }

  // ----- The claim object -----

  class Claim {
    var state: State
    var log: seq<State>
    var bound: Digests
    var evidence: seq<string>
    var check: Option<bool>

    function View(): Record
      reads this
    {
      Record(state, log, bound, evidence, check)
    }

    constructor ()
      ensures View() == NEW
    {
      state, log, bound, evidence, check := Requested, [Requested], map[], [], None;
    }

    method Transition(target: State, independent: bool) returns (raised: bool)
      modifies this
      ensures Outcome(View(), raised) ==
              if independent then Moved(old(View()), target) else ActorMove(old(View()), target)
    {
      if target.Verified? && !state.Verified? && !independent {
        return true;
      }
      if !CanTransition(state, target) {
        return true;
      }
      state := target;
      log := log + [target];
      raised := false;
    }

    method BindDigest(role: string, digest: string) returns (raised: bool)
      modifies this
      ensures Outcome(View(), raised) == Apply(old(View()), Bind(role, digest))
    {
      if role == "" || digest == "" {
        return true;
      }
      bound := bound[role := digest];
      raised := false;
    }

    method AttachEvidence(e: string) returns (raised: bool)
      modifies this
      ensures Outcome(View(), raised) == Apply(old(View()), Attach(e))
    {
      if e == "" {
        return true;
      }
      evidence := evidence + [e];
      raised := false;
    }

    method VerifyIndependently(observed: Option<Digests>, accepts: bool, observedAfter: Digests) returns (raised: bool)
      modifies this
      ensures Outcome(View(), raised) == Apply(old(View()), Verify(observed, accepts, observedAfter))
    {
      if observed.Some? && Stale(bound, observed.value) {
        return true;
      }
      check := Some(accepts);
      if !accepts {
        raised := Transition(Failed, false);
        return;
      }
      if observed.Some? && Stale(bound, observedAfter) {
        raised := Transition(Unknown, false);
        return;
      }
      raised := Transition(Verified, true);
    }
  }

  // ----- The shape of every log -----

  /** The log without immediate repeats. */
  function Steps(log: seq<State>): seq<State> {
    if |log| <= 1 then log
    else
      var init := log[..|log| - 1];
      if log[|log| - 1] == init[|init| - 1] then Steps(init) else Steps(init) + [log[|log| - 1]]
  }

  ghost predicate AllTerminal(s: seq<State>) {
    forall i :: 0 <= i < |s| ==> Terminal(s[i])
  }

  /** A climb up the rungs in order (PLANNED optional), then possibly VERIFIED, then only terminal states. */
  ghost predicate Shape(steps: seq<State>, climb: seq<State>, verified: bool, ends: seq<State>) {
    && climb != [] && (climb <= RUNGS || climb <= UNPLANNED_RUNGS)
    && AllTerminal(ends)
    && steps == climb + (if verified then [Verified] else []) + ends
  }

  ghost predicate Orderly(steps: seq<State>) {
    exists climb, verified, ends :: Shape(steps, climb, verified, ends)
  }

  /** The state is the last log entry, and the log is orderly. */
  ghost predicate WellLogged(state: State, log: seq<State>) {
    log != [] && state == log[|log| - 1] && Orderly(Steps(log))
  }

  ghost predicate Sound(c: Record) {
    WellLogged(c.state, c.log) && (c.state.Verified? ==> c.check == Some(true))
  }

  lemma {:induction false} StepsEndAlike(log: seq<State>)
    requires log != []
    ensures Steps(log) != [] && Steps(log)[|Steps(log)| - 1] == log[|log| - 1]
  {
    if |log| > 1 { StepsEndAlike(log[..|log| - 1]); }
  }

  lemma {:induction false} StepsAppend(log: seq<State>, s: State)
    requires log != []
    ensures Steps(log + [s]) == if s == log[|log| - 1] then Steps(log) else Steps(log) + [s]
  {
    var all := log + [s];
    assert all[|all| - 1] == s;
    assert all[..|all| - 1] == log;
  }

  /** Climbing one rung keeps the climb in order. */
  lemma ClimbOneRung(climb: seq<State>, s: State)
    requires climb != [] && (climb <= RUNGS || climb <= UNPLANNED_RUNGS)
    requires Forward(climb[|climb| - 1], s) && !s.Verified?
    ensures climb + [s] <= RUNGS || climb + [s] <= UNPLANNED_RUNGS
  {
    var n := |climb|;
    if n == 1 {
      assert climb == [Requested];
    } else if climb <= RUNGS {
      assert climb[n - 1] == RUNGS[n - 1];
      assert RUNGS[n] == s;
      assert climb + [s] == RUNGS[..n + 1];
    } else {
      assert climb[n - 1] == UNPLANNED_RUNGS[n - 1];
      assert UNPLANNED_RUNGS[n] == s;
      assert climb + [s] == UNPLANNED_RUNGS[..n + 1];
    }
  }

  /** The last step tells how far a log has got. */
  lemma LastStep(steps: seq<State>, climb: seq<State>, verified: bool, ends: seq<State>)
    requires Shape(steps, climb, verified, ends)
    ensures steps != []
    ensures var last := steps[|steps| - 1];
            if ends != [] then Terminal(last)
            else if verified then last == Verified
            else steps == climb && last == climb[|climb| - 1] && !Terminal(last) && !last.Verified?
  {
    if ends == [] && !verified {
      assert climb <= RUNGS ==> climb[|climb| - 1] == RUNGS[|climb| - 1];
      assert climb <= UNPLANNED_RUNGS ==> climb[|climb| - 1] == UNPLANNED_RUNGS[|climb| - 1];
    }
  }

  lemma OrderlyStep(steps: seq<State>, s: State)
    requires Orderly(steps) && steps != [] && s != steps[|steps| - 1]
    requires CanTransition(steps[|steps| - 1], s)
    ensures Orderly(steps + [s])
  {
    var climb, verified, ends :| Shape(steps, climb, verified, ends);
    LastStep(steps, climb, verified, ends);
    if Terminal(s) {
      assert steps + [s] == climb + (if verified then [Verified] else []) + (ends + [s]);
      assert Shape(steps + [s], climb, verified, ends + [s]);
    } else {
      assert ends == [] && !verified;
      if s.Verified? {
        assert steps + [s] == climb + [Verified] + [];
        assert Shape(steps + [s], climb, true, []);
      } else {
        ClimbOneRung(climb, s);
        assert steps + [s] == (climb + [s]) + [] + [];
        assert Shape(steps + [s], climb + [s], false, []);
      }
    }
  }

  lemma MoveKeepsLog(state: State, log: seq<State>, target: State)
    requires WellLogged(state, log) && CanTransition(state, target)
    ensures WellLogged(target, log + [target])
  {
    StepsAppend(log, target);
    StepsEndAlike(log);
    if target != state {
      OrderlyStep(Steps(log), target);
    }
  }

  /** Every operation, whether it raises or not, keeps the claim sound. */
  lemma OperationSound(c: Record, op: Operation)
    requires Sound(c)
    ensures Sound(Apply(c, op).claim)
  {
    hide WellLogged;
    forall target | CanTransition(c.state, target) ensures WellLogged(target, c.log + [target]) {
      MoveKeepsLog(c.state, c.log, target);
    }
  }

  /** In every run the state is the last log entry, the log is orderly, and VERIFIED means the check said yes. */
  lemma {:induction false} EveryRunSound(ops: seq<Operation>)
    ensures Sound(After(ops))
  {
    if ops == [] {
      assert [Requested] <= RUNGS;
      assert Shape(Steps(NEW.log), [Requested], false, []);
    } else {
      EveryRunSound(ops[..|ops| - 1]);
      OperationSound(After(ops[..|ops| - 1]), ops[|ops| - 1]);
    }
  }

  lemma {:induction false} StepsAreLogged(log: seq<State>, s: State)
    requires s in Steps(log)
    ensures s in log
  {
    if |log| > 1 {
      var init := log[..|log| - 1];
      if s in Steps(init) { StepsAreLogged(init, s); }
    }
  }

  /** A claim between ATTEMPTED and OBSERVED has logged every rung from ATTEMPTED up to its own. */
  lemma EveryRungEarned(ops: seq<Operation>, own: nat, rung: nat)
    requires 2 <= rung <= own < |RUNGS| && After(ops).state == RUNGS[own]
    ensures RUNGS[rung] in After(ops).log
  {
    hide After;
    EveryRunSound(ops);
    RungInLog(After(ops).log, own, rung);
  }

  lemma RungInLog(log: seq<State>, own: nat, rung: nat)
    requires 2 <= rung <= own < |RUNGS| && WellLogged(RUNGS[own], log)
    ensures RUNGS[rung] in log
  {
    hide Steps;
    StepsEndAlike(log);
    var climb, verified, ends :| Shape(Steps(log), climb, verified, ends);
    LastStep(Steps(log), climb, verified, ends);
    assert Steps(log) == climb;
    RungInClimb(climb, own, rung);
    StepsAreLogged(log, RUNGS[rung]);
  }

  lemma RungInClimb(climb: seq<State>, own: nat, rung: nat)
    requires climb != [] && (climb <= RUNGS || climb <= UNPLANNED_RUNGS)
    requires 2 <= rung <= own < |RUNGS| && climb[|climb| - 1] == RUNGS[own]
    ensures RUNGS[rung] in climb
  {
    if climb <= RUNGS {
      assert climb[rung] == RUNGS[rung];
    } else {
      assert climb[|climb| - 1] == UNPLANNED_RUNGS[|climb| - 1];
      assert climb[rung - 1] == UNPLANNED_RUNGS[rung - 1] == RUNGS[rung];
    }
  }

  lemma RunPrefix(ops: seq<Operation>, i: nat)
    requires i < |ops|
    ensures After(ops[..i + 1]) == Apply(After(ops[..i]), ops[i]).claim
  {
    assert ops[..i + 1][..i] == ops[..i];
  }

  /** A terminal claim stays terminal, whatever is done to it. */
  lemma {:induction false} TerminalIsFinal(ops: seq<Operation>, i: nat)
    requires i <= |ops| && Terminal(After(ops[..i]).state)
    ensures Terminal(After(ops).state)
    decreases |ops| - i
  {
    hide After;
    if i == |ops| {
      assert ops[..i] == ops;
    } else {
      RunPrefix(ops, i);
      TerminalIsFinal(ops, i + 1);
    }
  }

  /** The verification that raises a claim: the verifier accepts, and nothing bound drifted before or after it. */
  ghost predicate Certifies(c: Record, op: Operation) {
    && op.Verify? && op.accepts
    && (op.observed.Some? ==> !Stale(c.bound, op.observed.value) && !Stale(c.bound, op.observedAfter))
  }

  lemma OnlyCertifyingReaches(c: Record, op: Operation)
    requires Apply(c, op).claim.state.Verified? && !c.state.Verified?
    ensures Certifies(c, op)
  {
  }

  /** The claim is VERIFIED after the first `j` operations. */
  ghost predicate VerifiedAfter(ops: seq<Operation>, j: nat)
    requires j <= |ops|
  {
    After(ops[..j]).state.Verified?
  }

  ghost predicate CertifiedBy(ops: seq<Operation>, i: nat)
    requires i < |ops|
  {
    Certifies(After(ops[..i]), ops[i])
  }

  lemma SamePrefix(ops: seq<Operation>, n: nat, j: nat)
    requires j <= n <= |ops|
    ensures VerifiedAfter(ops[..n], j) <==> VerifiedAfter(ops, j)
    ensures j < n ==> (CertifiedBy(ops[..n], j) <==> CertifiedBy(ops, j))
  {
    assert ops[..n][..j] == ops[..j];
  }

  /** VERIFIED is reached only by a certifying verification, and the claim has been VERIFIED ever since. */
  lemma {:induction false} VerifiedOnlyIndependently(ops: seq<Operation>)
    requires After(ops).state.Verified?
    ensures exists i :: 0 <= i < |ops| && CertifiedBy(ops, i) && forall j :: i < j <= |ops| ==> VerifiedAfter(ops, j)
  {
    hide Apply, Certifies;
    var n := |ops| - 1;
    var init := ops[..n];
    assert ops[..|ops|] == ops;
    assert VerifiedAfter(ops, |ops|);
    if After(init).state.Verified? {
      VerifiedOnlyIndependently(init);
      hide CertifiedBy, VerifiedAfter, After;
      var i :| 0 <= i < n && CertifiedBy(init, i) && forall j :: i < j <= n ==> VerifiedAfter(init, j);
      SamePrefix(ops, n, i);
      forall j | i < j <= |ops| ensures VerifiedAfter(ops, j) {
        if j <= n { SamePrefix(ops, n, j); }
      }
    } else {
      OnlyCertifyingReaches(After(init), ops[n]);
      assert CertifiedBy(ops, n);
    }
  }

  /** A certifying verification raises exactly on a terminal claim, and even then it has recorded its yes. */
  lemma CertificationRaisesIffTerminal(c: Record, op: Operation)
    requires Certifies(c, op)
    ensures Apply(c, op).raised <==> Terminal(c.state)
    ensures Apply(c, op).claim.check == Some(true)
    ensures Apply(c, op).claim.state == if Terminal(c.state) then c.state else Verified
  {
  }

  /** A claim effectively holds only while everything bound to it is intact. */
  lemma RevalidatedIff(c: Record, observed: Digests)
    ensures var intact :=
              (forall role :: role in c.bound ==> role in observed && observed[role] == c.bound[role]);
            && (Revalidate(c, observed).Verified? <==> c.state.Verified? && intact)
            && Revalidate(c, observed) == if intact then c.state else Unknown
  {
  }

  /** After any run, a claim that effectively counts as VERIFIED was certified by an accepting verifier, has been
      VERIFIED since, and everything bound to it by now is observed as it was bound. */
  lemma EffectiveMeansCertified(ops: seq<Operation>, observed: Digests)
    requires Revalidate(After(ops), observed).Verified?
    ensures exists i :: 0 <= i < |ops| && CertifiedBy(ops, i) && forall j :: i < j <= |ops| ==> VerifiedAfter(ops, j)
    ensures forall role :: role in After(ops).bound ==> role in observed && observed[role] == After(ops).bound[role]
    ensures After(ops).check == Some(true)
  {
    RevalidatedIff(After(ops), observed);
    VerifiedOnlyIndependently(ops);
    EveryRunSound(ops);
  }

  // ----- What each operation is for -----

  ghost predicate NextIn(rungs: seq<State>, current: State, target: State) {
    |rungs| > 1 && ((rungs[0] == current && rungs[1] == target) || NextIn(rungs[1..], current, target))
  }

  /** Two states next to each other on the way up; PLANNED may be left out. */
  ghost predicate NextRung(current: State, target: State) {
    NextIn(RUNGS, current, target) || NextIn(UNPLANNED_RUNGS, current, target)
  }

  lemma NextInList(rungs: seq<State>, current: State, target: State)
    ensures NextIn(rungs, current, target) <==>
            |rungs| > 1 && ((rungs[0] == current && rungs[1] == target) || NextIn(rungs[1..], current, target))
  {
  }

  lemma LastRungs(current: State, target: State)
    ensures NextIn([Attempted, Executed, Completed, Tested, Observed], current, target) <==>
            Forward(current, target) && current in {Attempted, Executed, Completed, Tested}
  {
    hide NextIn;
    var r: seq<State> := [Attempted, Executed, Completed, Tested, Observed];
    assert r[1..] == [Executed, Completed, Tested, Observed] && r[2..] == [Completed, Tested, Observed]
           && r[3..] == [Tested, Observed] && r[4..] == [Observed];
    assert r[1..][1..] == r[2..] && r[2..][1..] == r[3..] && r[3..][1..] == r[4..];
    NextInList(r, current, target);
    NextInList(r[1..], current, target);
    NextInList(r[2..], current, target);
    NextInList(r[3..], current, target);
    NextInList(r[4..], current, target);
  }

  lemma NextRungIff(current: State, target: State)
    ensures NextRung(current, target) <==> Forward(current, target) && !target.Verified?
  {
    hide NextIn;
    var last: seq<State> := [Attempted, Executed, Completed, Tested, Observed];
    assert RUNGS[1..] == [Planned] + last && RUNGS[1..][1..] == last && UNPLANNED_RUNGS[1..] == last;
    LastRungs(current, target);
    NextInList(RUNGS, current, target);
    NextInList(RUNGS[1..], current, target);
    NextInList(UNPLANNED_RUNGS, current, target);
  }

  /** An actor's move is let through exactly when it stays, gives up, or takes the next rung; it is then logged, and a
      refused one changes nothing. */
  lemma MoveAllowedIff(c: Record, target: State)
    ensures var r := Apply(c, Move(target));
            && (!r.raised <==> target == c.state || target in {Blocked, Failed, Unknown} || NextRung(c.state, target))
            && r.claim == if r.raised then c else c.(state := target, log := c.log + [target])
  {
    hide NextRung;
    NextRungIff(c.state, target);
  }

  /** Something bound is missing from the observed digests, or there with another digest. */
  ghost predicate Drifted(c: Record, observed: Digests) {
    exists role :: role in c.bound && (role in observed ==> observed[role] != c.bound[role])
  }

  /** What an independent verification leaves: nothing when the anchors had drifted before; otherwise its answer, and
      FAILED after a no, UNKNOWN after a yes about anchors that drifted meanwhile, VERIFIED after any other yes. A
      terminal claim keeps its state and the attempt raises, save for moves to terminal states. */
  lemma VerificationLeaves(c: Record, op: Operation)
    requires op.Verify?
    ensures var r := Apply(c, op);
            var stale := op.observed.Some? && Drifted(c, op.observed.value);
            var moved := op.observed.Some? && Drifted(c, op.observedAfter);
            var target := if !op.accepts then Failed else if moved then Unknown else Verified;
            var recorded := c.(check := Some(op.accepts));
            && (stale ==> r == Outcome(c, true))
            && (!stale && target.Verified? && c.state in {Blocked, Failed, Unknown} ==> r == Outcome(recorded, true))
            && (!stale && !(target.Verified? && c.state in {Blocked, Failed, Unknown}) ==>
                  r == Outcome(recorded.(state := target, log := c.log + [target]), false))
  {
  }

  /** Binding and attaching are refused exactly for an empty argument, change nothing then, and otherwise one field. */
  lemma BindAndAttach(c: Record, op: Operation)
    requires op.Bind? || op.Attach?
    ensures var r := Apply(c, op);
            && (r.raised <==> if op.Bind? then op.role == "" || op.digest == "" else op.evidence == "")
            && (r.raised ==> r.claim == c)
            && r.claim == if op.Bind? then c.(bound := r.claim.bound) else c.(evidence := r.claim.evidence)
  {
  }

  /** The i-th operation binds `role`, and no later one does. */
  ghost predicate LastBinds(ops: seq<Operation>, role: string, i: nat) {
    Binds(ops, role, i) && forall j: nat :: i < j ==> !Binds(ops, role, j)
  }

  ghost predicate Binds(ops: seq<Operation>, role: string, i: nat) {
    i < |ops| && ops[i].Bind? && ops[i].role == role && role != "" && ops[i].digest != ""
  }

  /** After any run a role is anchored to the digest it was last bound to, and unbound roles to nothing. */
  lemma {:induction false} AnchorIsLastBound(ops: seq<Operation>, role: string)
    ensures forall i: nat :: LastBinds(ops, role, i) ==>
              role in After(ops).bound && After(ops).bound[role] == ops[i].digest
    ensures (forall i: nat :: !Binds(ops, role, i)) ==> role !in After(ops).bound
  {
    hide Binds, Apply;
    if ops == [] {
      NothingBinds(role);
    } else {
      var n: nat := |ops| - 1;
      AnchorIsLastBound(ops[..n], role);
      forall i: nat ensures Binds(ops[..n], role, i) <==> i < n && Binds(ops, role, i) {
        BindsOfPrefix(ops, role, n, i);
      }
      BindsLast(After(ops[..n]), ops, role);
      forall i: nat | LastBinds(ops, role, i) ensures i == n || LastBinds(ops[..n], role, i) {}
    }
  }

  lemma NothingBinds(role: string)
    ensures forall i: nat :: !Binds([], role, i)
    ensures role !in After([]).bound
  {
  }

  lemma BindsOfPrefix(ops: seq<Operation>, role: string, n: nat, i: nat)
    requires n <= |ops|
    ensures Binds(ops[..n], role, i) <==> i < n && Binds(ops, role, i)
  {
  }

  /** The last operation sets the role's digest exactly when it binds it. */
  lemma BindsLast(c: Record, ops: seq<Operation>, role: string)
    requires ops != []
    ensures var n: nat := |ops| - 1;
            var after := Apply(c, ops[n]).claim.bound;
            && (Binds(ops, role, n) ==> role in after && after[role] == ops[n].digest)
            && (!Binds(ops, role, n) ==>
                  (role in after <==> role in c.bound) && (role in after ==> after[role] == c.bound[role]))
    ensures forall i: nat :: Binds(ops, role, i) ==> i <= |ops| - 1
  {
  }

  /** The evidence is what was attached, in order. */
  ghost function Attached(ops: seq<Operation>): seq<string> {
    if ops == [] then []
    else (if ops[0].Attach? && ops[0].evidence != "" then [ops[0].evidence] else []) + Attached(ops[1..])
  }

  lemma {:induction false} AttachedAppend(ops: seq<Operation>, op: Operation)
    ensures Attached(ops + [op]) == Attached(ops) + if op.Attach? && op.evidence != "" then [op.evidence] else []
  {
    if ops == [] {
      assert [op][1..] == [];
    } else {
      AttachedAppend(ops[1..], op);
      assert (ops + [op])[1..] == ops[1..] + [op];
    }
  }

  lemma {:induction false} EvidenceIsAttached(ops: seq<Operation>)
    ensures After(ops).evidence == Attached(ops)
  {
    if ops != [] {
      var n := |ops| - 1;
      EvidenceIsAttached(ops[..n]);
      AttachedAppend(ops[..n], ops[n]);
      assert ops == ops[..n] + [ops[n]];
    }
  }
}

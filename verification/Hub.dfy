/** The hub's registry and its enroll, heartbeat and revoke handlers (hub/registry.py, hub/server.py). */
module Hub {
  import opened Common
  import opened Text

  datatype Runner = Runner(name: string, repo: string, token: string, enrolled: bool, lastHeartbeat: Option<int>)

  datatype Registry = Registry(tokens: seq<string>, runners: seq<Runner>)

  // ----- Registry operations on values -----

  /** `tokens.verify`. */
  predicate Accepts(presented: string, expected: string) {
    presented != "" && presented == expected
  }

  /** The first position of `t`, or none. */
  function PositionOf(tokens: seq<string>, t: string): (p: Option<nat>)
    ensures p.Some? ==> p.value < |tokens| && tokens[p.value] == t && t !in tokens[..p.value]
    ensures p.None? <==> t !in tokens
  {
    if tokens == [] then None
    else if tokens[0] == t then Some(0)
    else
      var rest := PositionOf(tokens[1..], t);
      assert tokens == [tokens[0]] + tokens[1..];
      if rest.Some? then
        assert tokens[..rest.value + 1] == [tokens[0]] + tokens[1..][..rest.value];
        Some(rest.value + 1)
      else None
  }

  /** `find_runner`: the first row of that name. */
  function FindRunner(runners: seq<Runner>, name: string): (p: Option<nat>)
    ensures p.Some? ==> p.value < |runners| && runners[p.value].name == name
                        && forall k :: 0 <= k < p.value ==> runners[k].name != name
    ensures p.None? ==> forall k :: 0 <= k < |runners| ==> runners[k].name != name
  {
    if runners == [] then None
    else if runners[0].name == name then Some(0)
    else
      var rest := FindRunner(runners[1..], name);
      if rest.Some? then Some(rest.value + 1) else None
  }

  /** `verify_heartbeat_token`. */
  predicate Authentic(r: Registry, name: string, presented: string) {
    var p := FindRunner(r.runners, name);
    p.Some? && r.runners[p.value].enrolled && Accepts(presented, r.runners[p.value].token)
  }

  /** `consume_enrollment_token`, when it succeeds. */
  function Consumed(tokens: seq<string>, presented: string): seq<string> {
    var p := PositionOf(tokens, presented);
    if p.Some? then tokens[..p.value] + tokens[p.value + 1..] else tokens
  }

  predicate HasToken(r: Registry, presented: string) {
    presented != "" && presented in r.tokens
  }

  // ----- The hub as a state machine -----

  /** An enrollment that has passed the duplicate-name probe and waits for the lock. */
  datatype Enrollment = Enrollment(name: string, repo: string, presented: string)

  /** The registry in memory, what is on disk, and the enrollments between probe and lock. */
  datatype State = State(memory: Registry, disk: Registry, waiting: seq<Enrollment>)

  /** A step of some handler: the part of `_handle_enroll` before the lock, and the three locked bodies.
      The minted heartbeat token and the clock come from outside. */
  datatype Step =
    | Probe(request: Enrollment)
    | Commit(waiter: nat, minted: string)
    | Heartbeat(name: string, presented: string, now: int)
    | Revoke(name: string, presented: string)

  datatype Reply = Reply(state: State, status: int)

  /** `^[^/]+/[^/]+$`. */
  predicate ValidRepo(repo: string) {
    exists i :: 0 < i < |repo| - 1 && repo[i] == '/' && '/' !in repo[..i] && '/' !in repo[i + 1..]
  }

  predicate ValidName(name: string) {
    name != "" && Strip(name) == name
  }

  /** `with_registry`: the result is saved unless the body answered False. */
  function Saved(s: State, memory: Registry): State {
    s.(memory := memory, disk := memory)
  }

  function Enrolled(r: Registry, e: Enrollment, minted: string): Registry {
    Registry(Consumed(r.tokens, e.presented), r.runners + [Runner(e.name, e.repo, minted, true, None)])
  }

  function Updated(r: Registry, name: string, f: Runner -> Runner): Registry
    requires FindRunner(r.runners, name).Some?
  {
    var p := FindRunner(r.runners, name).value;
    r.(runners := r.runners[p := f(r.runners[p])])
  }

  function Beaten(r: Registry, name: string, now: int): Registry
    requires FindRunner(r.runners, name).Some?
  {
    Updated(r, name, (x: Runner) => x.(lastHeartbeat := Some(now)))
  }

  function Revoked(r: Registry, name: string): Registry
    requires FindRunner(r.runners, name).Some?
  {
    Updated(r, name, (x: Runner) => x.(enrolled := false))
  }

  /** A handler step. A probe that is let through leaves its request waiting and has no status yet (0). */
  function Next(s: State, step: Step): Reply {
    match step
    case Probe(e) =>
      if !ValidName(e.name) || !ValidRepo(e.repo) then Reply(s, 400)
      else if FindRunner(s.memory.runners, e.name).Some? then Reply(s, 409)
      else Reply(s.(waiting := s.waiting + [e]), 0)
    case Commit(i, minted) =>
      if i >= |s.waiting| then Reply(s, 0)
      else
        var e := s.waiting[i];
        var rest := s.(waiting := s.waiting[..i] + s.waiting[i + 1..]);
        if HasToken(s.memory, e.presented) then Reply(Saved(rest, Enrolled(s.memory, e, minted)), 200)
        else Reply(rest, 401)
    case Heartbeat(name, presented, now) =>
      if Authentic(s.memory, name, presented) then Reply(Saved(s, Beaten(s.memory, name, now)), 200) else Reply(s, 401)
    case Revoke(name, presented) =>
      if Authentic(s.memory, name, presented) then Reply(Saved(s, Revoked(s.memory, name)), 200) else Reply(s, 401)
  }

  function Run(s: State, steps: seq<Step>): State {
    if steps == [] then s else Next(Run(s, steps[..|steps| - 1]), steps[|steps| - 1]).state
  }

  // ----- Starting the hub -----

  predicate TokenChar(c: char) {
    'A' <= c <= 'Z' || 'a' <= c <= 'z' || '0' <= c <= '9' || c == '_' || c == '-'
  }

  const TOKEN_LENGTH := 16

  /** What the pattern's `$` leaves: it also matches before one final newline. */
  function BeforeEnd(t: string): string {
    if t != [] && t[|t| - 1] == '\n' then t[..|t| - 1] else t
  }

  /** `_TOKEN_SHAPE.match`. */
  predicate MintShaped(t: string) {
    |BeforeEnd(t)| >= TOKEN_LENGTH && forall i :: 0 <= i < |BeforeEnd(t)| ==> TokenChar(BeforeEnd(t)[i])
  }

  /** `add_enrollment_token`. */
  function WithToken(tokens: seq<string>, t: string): seq<string> {
    if t in tokens then tokens else tokens + [t]
  }

  /** `prune_enrollment_tokens`: the mint-shaped tokens, in order. */
  function Pruned(tokens: seq<string>): (r: seq<string>)
    ensures forall t :: t in r <==> t in tokens && MintShaped(t)
  {
    if tokens == [] then []
    else
      var n := |tokens| - 1;
      assert tokens == tokens[..n] + [tokens[n]];
      Pruned(tokens[..n]) + if MintShaped(tokens[n]) then [tokens[n]] else []
  }

  /** The mint-shaped tokens of HUB_ENROLLMENT_TOKENS, split at commas and stripped. */
  function ConfiguredIn(parts: seq<string>): (r: seq<string>)
    ensures forall t :: t in r ==> MintShaped(t)
  {
    if parts == [] then []
    else
      var n := |parts| - 1;
      ConfiguredIn(parts[..n]) + if parts[n] != "" && MintShaped(Strip(parts[n])) then [Strip(parts[n])] else []
  }

  function Configured(env: string): seq<string> {
    ConfiguredIn(Split(env, ','))
  }

  function WithTokens(tokens: seq<string>, more: seq<string>): (r: seq<string>)
    ensures forall t :: t in r <==> t in tokens || t in more
  {
    if more == [] then tokens
    else
      var n := |more| - 1;
      assert more == more[..n] + [more[n]];
      WithToken(WithTokens(tokens, more[..n]), more[n])
  }

  /** The registry a start leaves: what was saved, the configured tokens, without what is not mint-shaped. */
  function StartRegistry(stored: Registry, env: string): Registry {
    Registry(Pruned(WithTokens(stored.tokens, Configured(env))), stored.runners)
  }

  /** Sixteen characters or more of the URL-safe alphabet, and possibly a line end. */
  lemma MintShapedIff(t: string)
    ensures MintShaped(t) <==> exists core :: (t == core || t == core + "\n") && |core| >= 16 && UrlSafe(core)
  {
    var core := BeforeEnd(t);
    if MintShaped(t) {
      assert t == core || t == core + "\n";
      forall c | c in core ensures TokenChar(c) { var i :| 0 <= i < |core| && core[i] == c; }
    }
    forall known | (t == known || t == known + "\n") && |known| >= 16 && UrlSafe(known) ensures MintShaped(t) {
      assert known[|known| - 1] in known;
      assert (known + "\n")[..|known|] == known;
      assert core == known;
      forall i | 0 <= i < |core| ensures TokenChar(core[i]) { assert core[i] in known; }
    }
  }

  ghost predicate UrlSafe(s: string) {
    forall c :: c in s ==> 'A' <= c <= 'Z' || 'a' <= c <= 'z' || '0' <= c <= '9' || c == '-' || c == '_'
  }

  lemma {:induction false} ConfiguredInIff(parts: seq<string>, t: string)
    ensures t in ConfiguredIn(parts) <==>
            MintShaped(t) && exists k :: 0 <= k < |parts| && parts[k] != "" && Strip(parts[k]) == t
  {
    hide MintShaped, Strip;
    if parts != [] {
      var n := |parts| - 1;
      ConfiguredInIff(parts[..n], t);
      assert parts == parts[..n] + [parts[n]];
    }
  }

  /** A token is configured exactly when it has the shape of a minted one and is a stripped item of the setting. */
  lemma ConfiguredIff(env: string, t: string)
    ensures t in Configured(env) <==>
            MintShaped(t) && exists item :: item in Split(env, ',') && item != "" && Strip(item) == t
  {
    hide MintShaped, Strip, Split;
    ConfiguredInIff(Split(env, ','), t);
    var parts := Split(env, ',');
    forall item | item in parts ensures exists k :: 0 <= k < |parts| && parts[k] == item {}
  }

  lemma LoadNothing(tokens: seq<string>, parts: seq<string>)
    ensures WithTokens(tokens, ConfiguredIn(parts[..0])) == tokens
  {
  }

  /** One more part of the setting: a token is added when it has the shape of a minted one. */
  lemma LoadStep(tokens: seq<string>, parts: seq<string>, i: nat)
    requires i < |parts|
    ensures var t, loaded := Strip(parts[i]), WithTokens(tokens, ConfiguredIn(parts[..i]));
            WithTokens(tokens, ConfiguredIn(parts[..i + 1])) ==
            if parts[i] != "" && MintShaped(t) then WithToken(loaded, t) else loaded
  {
    hide MintShaped, Strip;
    assert parts[..i + 1][..i] == parts[..i];
    var before, t := ConfiguredIn(parts[..i]), Strip(parts[i]);
    assert (before + [t])[..|before|] == before;
    assert before + [] == before;
  }

  // ----- The registry object -----

  class HubState {
    var tokens: seq<string>
    var runners: seq<Runner>
    var disk: Registry

    function Memory(): Registry
      reads this
    {
      Registry(tokens, runners)
    }

    constructor (stored: Registry)
      ensures Memory() == disk == stored
    {
      tokens, runners, disk := stored.tokens, stored.runners, stored;
    }

    method Save()
      modifies this`disk
      ensures disk == Memory()
    {
      disk := Registry(tokens, runners);
    }

    method AddEnrollmentToken(t: string)
      modifies this`tokens
      ensures tokens == WithToken(old(tokens), t)
    {
      if t !in tokens {
        tokens := tokens + [t];
      }
    }

    method PruneEnrollmentTokens() returns (removed: nat)
      modifies this`tokens
      ensures tokens == Pruned(old(tokens)) && removed == |old(tokens)| - |tokens|
    {
      var survivors: seq<string> := [];
      for i := 0 to |tokens|
        invariant survivors == Pruned(tokens[..i]) && |survivors| <= i && tokens == old(tokens)
      {
        assert tokens[..i + 1][..i] == tokens[..i];
        if MintShaped(tokens[i]) {
          survivors := survivors + [tokens[i]];
        }
      }
      assert tokens[..|tokens|] == tokens;
      removed := |tokens| - |survivors|;
      tokens := survivors;
    }

    /** `load_enrollment_tokens` of the main program. */
    method LoadEnrollmentTokens(env: string)
      modifies this`tokens
      ensures Memory() == StartRegistry(old(Memory()), env)
    {
      hide MintShaped, WithTokens, ConfiguredIn, Strip, Split, Pruned, WithToken;
      var parts := Split(env, ',');
      LoadNothing(tokens, parts);
      for i := 0 to |parts|
        invariant tokens == WithTokens(old(tokens), ConfiguredIn(parts[..i]))
      {
        LoadStep(old(tokens), parts, i);
        var t := Strip(parts[i]);
        if parts[i] != "" && MintShaped(t) {
          AddEnrollmentToken(t);
        }
      }
      assert parts[..|parts|] == parts;
      var removed := PruneEnrollmentTokens();
    }

    method Find(name: string) returns (p: Option<nat>)
      ensures p == FindRunner(runners, name)
    {
      p := None;
      for i := 0 to |runners|
        invariant forall k :: 0 <= k < i ==> runners[k].name != name
      {
        if runners[i].name == name {
          FirstIsFound(runners, name, i);
          return Some(i);
        }
      }
    }

    method Consume(presented: string) returns (ok: bool)
      modifies this`tokens
      ensures ok <==> HasToken(old(Memory()), presented)
      ensures tokens == if ok then Consumed(old(tokens), presented) else old(tokens)
    {
      for i := 0 to |tokens|
        invariant tokens == old(tokens)
        invariant presented != "" ==> presented !in tokens[..i]
      {
        if Accepts(presented, tokens[i]) {
          FirstPosition(tokens, presented, i);
          tokens := tokens[..i] + tokens[i + 1..];
          return true;
        }
      }
      assert tokens[..|tokens|] == tokens;
      ok := false;
    }

    method Verify(name: string, presented: string) returns (ok: bool)
      ensures ok <==> Authentic(Memory(), name, presented)
    {
      var p := Find(name);
      ok := p.Some? && runners[p.value].enrolled && Accepts(presented, runners[p.value].token);
    }

    /** `with_registry(do_enroll)`. */
    method EnrollLocked(e: Enrollment, minted: string) returns (status: int)
      modifies this
      ensures var s := State(old(Memory()), old(disk), [e]);
              Next(s, Commit(0, minted)) == Reply(State(Memory(), disk, []), status)
    {
      var ok := Consume(e.presented);
      if !ok {
        return 401;
      }
      runners := runners + [Runner(e.name, e.repo, minted, true, None)];
      Save();
      status := 200;
    }

    /** `with_registry(do_heartbeat)`. */
    method HeartbeatLocked(name: string, presented: string, now: int) returns (status: int)
      modifies this
      ensures Next(State(old(Memory()), old(disk), []), Heartbeat(name, presented, now))
              == Reply(State(Memory(), disk, []), status)
    {
      var ok := Verify(name, presented);
      if !ok {
        return 401;
      }
      var p := Find(name);
      runners := runners[p.value := runners[p.value].(lastHeartbeat := Some(now))];
      Save();
      status := 200;
    }

    /** `with_registry(do_revoke)`. */
    method RevokeLocked(name: string, presented: string) returns (status: int)
      modifies this
      ensures Next(State(old(Memory()), old(disk), []), Revoke(name, presented))
              == Reply(State(Memory(), disk, []), status)
    {
      var ok := Verify(name, presented);
      if !ok {
        return 401;
      }
      var p := Find(name);
      runners := runners[p.value := runners[p.value].(enrolled := false)];
      Save();
      status := 200;
    }
  }

  lemma FirstIsFound(runners: seq<Runner>, name: string, i: nat)
    requires i < |runners| && runners[i].name == name && forall k :: 0 <= k < i ==> runners[k].name != name
    ensures FindRunner(runners, name) == Some(i)
  {
    var p := FindRunner(runners, name);
    assert p.Some?;
  }

  lemma FirstPosition(tokens: seq<string>, t: string, i: nat)
    requires i < |tokens| && tokens[i] == t && t !in tokens[..i]
    ensures PositionOf(tokens, t) == Some(i)
  {
    var p := PositionOf(tokens, t);
    assert p.Some?;
    forall k | 0 <= k < i ensures tokens[k] != t { assert tokens[..i][k] == tokens[k]; }
    forall k | 0 <= k < p.value ensures tokens[k] != t { assert tokens[..p.value][k] == tokens[k]; }
  }

  // ----- Every interleaving -----

  lemma ConsumeRemovesOne(tokens: seq<string>, t: string)
    requires t in tokens
    ensures multiset(tokens) == multiset(Consumed(tokens, t)) + multiset{t}
  {
    var p := PositionOf(tokens, t).value;
    WithoutOne(tokens, p);
  }

  /** The tokens spent by the successful enrollments of a run, in order. */
  function Spent(s: State, steps: seq<Step>): seq<string> {
    if steps == [] then []
    else
      var before := Run(s, steps[..|steps| - 1]);
      var step := steps[|steps| - 1];
      Spent(s, steps[..|steps| - 1])
      + if step.Commit? && Next(before, step).status == 200 then [before.waiting[step.waiter].presented] else []
  }

  /** What a step does to tokens and rows: a successful enrollment moves one token's worth across, no other does. */
  lemma StepConserves(s: State, step: Step)
    ensures var r := Next(s, step);
            if step.Commit? && r.status == 200
            then multiset(s.memory.tokens)
                 == multiset(r.state.memory.tokens) + multiset{s.waiting[step.waiter].presented}
                 && |r.state.memory.runners| == |s.memory.runners| + 1
            else r.state.memory.tokens == s.memory.tokens && |r.state.memory.runners| == |s.memory.runners|
  {
    if step.Commit? && Next(s, step).status == 200 {
      ConsumeRemovesOne(s.memory.tokens, s.waiting[step.waiter].presented);
    }
  }

  /** Under any interleaving every token is either still there or was spent on exactly one row. */
  lemma {:induction false} TokensAndRowsConserved(s: State, steps: seq<Step>)
    ensures var t := Run(s, steps);
            && multiset(s.memory.tokens) == multiset(t.memory.tokens) + multiset(Spent(s, steps))
            && |t.memory.runners| == |s.memory.runners| + |Spent(s, steps)|
            && |t.memory.tokens| + |t.memory.runners| == |s.memory.tokens| + |s.memory.runners|
  {
    hide Next;
    if steps != [] {
      var n := |steps| - 1;
      TokensAndRowsConserved(s, steps[..n]);
      StepConserves(Run(s, steps[..n]), steps[n]);
    }
    var t := Run(s, steps);
    assert |multiset(s.memory.tokens)| == |s.memory.tokens| && |multiset(t.memory.tokens)| == |t.memory.tokens|;
    assert |multiset(Spent(s, steps))| == |Spent(s, steps)|;
  }

  /** Enrollment tokens are stored without repeats, and then no token ever admits two runners. */
  lemma NoTokenSpentTwice(s: State, steps: seq<Step>)
    requires Distinct(s.memory.tokens)
    ensures Distinct(Spent(s, steps))
    ensures forall t :: t in Spent(s, steps) ==> t !in Run(s, steps).memory.tokens
  {
    TokensAndRowsConserved(s, steps);
    var left, spent := multiset(Run(s, steps).memory.tokens), multiset(Spent(s, steps));
    forall t ensures left[t] + spent[t] <= 1 {
      DistinctIffCountedOnce(s.memory.tokens);
      assert multiset(s.memory.tokens)[t] == left[t] + spent[t];
    }
    forall t ensures spent[t] <= 1 { assert left[t] + spent[t] <= 1; }
    DistinctIffCountedOnce(Spent(s, steps));
    forall t | t in Spent(s, steps) ensures t !in Run(s, steps).memory.tokens {
      assert spent[t] >= 1 && left[t] + spent[t] <= 1;
    }
  }

  /** A body that answers False has changed nothing, so memory and disk never differ. */
  lemma {:induction false} DiskInSync(s: State, steps: seq<Step>)
    requires s.memory == s.disk
    ensures Run(s, steps).memory == Run(s, steps).disk
  {
    if steps != [] { DiskInSync(s, steps[..|steps| - 1]); }
  }

  // ----- What each step answers and touches -----

  /** Two parts around one slash. */
  lemma ValidRepoIff(repo: string)
    ensures ValidRepo(repo) <==> exists owner, project ::
              Split(repo, '/') == [owner, project] && owner != "" && project != ""
  {
    if i :| 0 < i < |repo| - 1 && repo[i] == '/' && '/' !in repo[..i] && '/' !in repo[i + 1..] {
      assert repo == repo[..i] + ['/'] + repo[i + 1..];
      SplitHead(repo[..i], '/', repo[i + 1..]);
      SplitFree(repo[i + 1..], '/');
      assert Split(repo, '/') == [repo[..i], repo[i + 1..]];
    }
    if owner, project :| Split(repo, '/') == [owner, project] && owner != "" && project != "" {
      SplitJoins(repo, '/');
      TwoJoined(owner, project, '/');
      assert Split(repo, '/')[0] == owner && Split(repo, '/')[1] == project;
      assert repo[..|owner|] == owner && repo[|owner| + 1..] == project;
    }
  }

  lemma TwoJoined(a: string, b: string, c: char)
    ensures Join([a, b], c) == a + [c] + b
  {
    assert [a, b][1..] == [b];
  }

  /** A name that neither begins nor ends with white space. */
  lemma ValidNameIff(name: string)
    ensures ValidName(name) <==> name != "" && !IsSpace(name[0]) && !IsSpace(name[|name| - 1])
  {
    hide Strip;
    var before, after := StripLeaves(name);
    assert before != "" ==> before[0] == name[0];
    assert after != "" ==> after[|after| - 1] == name[|name| - 1];
    assert before == "" && after == "" ==> name == Strip(name);
  }

  /** What is refused before the lock: a malformed name or repository, then a name that has a row. */
  lemma ProbeAnswers(s: State, e: Enrollment)
    ensures var r := Next(s, Probe(e));
            var wellFormed := ValidName(e.name) && ValidRepo(e.repo);
            var taken := exists k :: 0 <= k < |s.memory.runners| && s.memory.runners[k].name == e.name;
            && (r.status == 400 <==> !wellFormed)
            && (r.status == 409 <==> wellFormed && taken)
            && r.state == if wellFormed && !taken then s.(waiting := s.waiting + [e]) else s
  {
    hide ValidName, ValidRepo;
  }

  /** What a waiting enrollment is answered under the lock: 200 exactly when it presents a stored token, which is then
      taken out. Either way it waits no longer. */
  lemma CommitAnswers(s: State, i: nat, minted: string)
    requires i < |s.waiting|
    ensures var r, e := Next(s, Commit(i, minted)), s.waiting[i];
            var known := e.presented != "" && e.presented in s.memory.tokens;
            && r.status == (if known then 200 else 401)
            && r.state.waiting == s.waiting[..i] + s.waiting[i + 1..]
            && multiset(s.memory.tokens)
               == multiset(r.state.memory.tokens) + if known then multiset{e.presented} else multiset{}
  {
    hide PositionOf;
    if s.waiting[i].presented in s.memory.tokens { ConsumeRemovesOne(s.memory.tokens, s.waiting[i].presented); }
  }

  /** The k-th row is the first of its name. */
  ghost predicate FirstOfName(runners: seq<Runner>, k: nat) {
    k < |runners| && forall j :: 0 <= j < k ==> runners[j].name != runners[k].name
  }

  /** An authentic heartbeat or revocation touches one field of one row; a successful commit appends a row. */
  lemma StepTouches(s: State, step: Step, k: nat)
    requires k < |s.memory.runners|
    ensures var before, after := s.memory.runners, Next(s, step).state.memory.runners;
            var row := before[k];
            var own := FirstOfName(before, k) && row.enrolled && row.token != "";
            && |after| == |before| + (if step.Commit? && Next(s, step).status == 200 then 1 else 0)
            && after[k] ==
                 if step.Heartbeat? && own && step.name == row.name && step.presented == row.token
                 then row.(lastHeartbeat := Some(step.now))
                 else if step == Revoke(row.name, row.token) && own then row.(enrolled := false)
                 else row
  {
  }

  /** Only a success changes the registry, and then the disk follows. */
  lemma RefusalChangesNothing(s: State, step: Step)
    ensures var r := Next(s, step);
            if r.status == 200 then r.state.disk == r.state.memory
            else r.state.memory == s.memory && r.state.disk == s.disk
  {
  }

  // ----- An enrolled runner is admitted until it is revoked -----

  /** The first row of `name` is enrolled with this repository and this token. */
  ghost predicate Admitted(r: Registry, name: string, repo: string, token: string) {
    token != "" && exists k: nat ::
      && FirstOfName(r.runners, k) && r.runners[k].name == name
      && r.runners[k].repo == repo && r.runners[k].token == token && r.runners[k].enrolled
  }

  lemma FirstRowFound(runners: seq<Runner>, k: nat)
    requires FirstOfName(runners, k)
    ensures FindRunner(runners, runners[k].name) == Some(k)
  {
    FirstIsFound(runners, runners[k].name, k);
  }

  /** A commit that succeeds on a name not enrolled before admits the runner under the minted token. */
  lemma EnrolledIsAdmitted(s: State, i: nat, minted: string)
    requires i < |s.waiting| && Next(s, Commit(i, minted)).status == 200 && minted != ""
    requires FindRunner(s.memory.runners, s.waiting[i].name).None?
    ensures var t := Next(s, Commit(i, minted)).state;
            var rows := t.memory.runners;
            && Admitted(t.memory, s.waiting[i].name, s.waiting[i].repo, minted)
            && rows[..|rows| - 1] == s.memory.runners && rows[|rows| - 1].lastHeartbeat == None
  {
    var rows := Next(s, Commit(i, minted)).state.memory.runners;
    assert FirstOfName(rows, |rows| - 1);
  }

  /** Only its own revocation ends an admission. */
  lemma {:induction false} RowLasts(s: State, steps: seq<Step>, k: nat)
    requires FirstOfName(s.memory.runners, k) && s.memory.runners[k].enrolled && s.memory.runners[k].token != ""
    ensures var was, rows := s.memory.runners[k], Run(s, steps).memory.runners;
            && FirstOfName(rows, k)
            && rows[k] == was.(enrolled := rows[k].enrolled, lastHeartbeat := rows[k].lastHeartbeat)
            && (rows[k].enrolled <==> Revoke(was.name, was.token) !in steps)
  {
    hide Next, FirstOfName;
    RowThere(s.memory.runners, k);
    if steps != [] {
      var n := |steps| - 1;
      RowLasts(s, steps[..n], k);
      RowThere(Run(s, steps[..n]).memory.runners, k);
      StepTouches(Run(s, steps[..n]), steps[n], k);
      StepKeepsFirst(Run(s, steps[..n]), steps[n], k);
      assert steps == steps[..n] + [steps[n]];
    }
  }

  lemma StepKeepsFirst(s: State, step: Step, k: nat)
    requires FirstOfName(s.memory.runners, k)
    ensures FirstOfName(Next(s, step).state.memory.runners, k)
  {
    StepKeepsRows(s, step);
  }

  /** Through any run, a heartbeat for an admitted name is answered 200 exactly when it presents the minted token and
      the name has not been revoked with it; every other one is refused. */
  lemma AdmittedUntilRevoked(s: State, steps: seq<Step>, name: string, repo: string, token: string)
    requires Admitted(s.memory, name, repo, token)
    ensures forall presented, now ::
              Next(Run(s, steps), Heartbeat(name, presented, now)).status ==
              if presented == token && Revoke(name, token) !in steps then 200 else 401
    ensures Admitted(Run(s, steps).memory, name, repo, token) <==> Revoke(name, token) !in steps
  {
    var k: nat :| FirstOfName(s.memory.runners, k) && s.memory.runners[k].name == name
             && s.memory.runners[k].repo == repo && s.memory.runners[k].token == token && s.memory.runners[k].enrolled;
    RowLasts(s, steps, k);
    FirstRowFound(Run(s, steps).memory.runners, k);
  }

  /** The i-th step is a heartbeat with the row's name and token, before any revocation with them. */
  ghost predicate AcceptedBeat(steps: seq<Step>, row: Runner, i: nat) {
    i < |steps| && steps[i].Heartbeat? && steps[i].name == row.name && steps[i].presented == row.token
    && Revoke(row.name, row.token) !in steps[..i]
  }

  ghost predicate LastBeat(steps: seq<Step>, row: Runner, i: nat) {
    AcceptedBeat(steps, row, i) && forall j :: i < j < |steps| ==> !AcceptedBeat(steps, row, j)
  }

  /** After any run the admitted name's row shows the instant of its last accepted heartbeat, and what it showed before
      when there was none. */
  lemma {:induction false} LastHeartbeatShown(s: State, steps: seq<Step>, k: nat)
    requires FirstOfName(s.memory.runners, k) && s.memory.runners[k].enrolled && s.memory.runners[k].token != ""
    ensures k < |Run(s, steps).memory.runners|
    ensures var was, now := s.memory.runners[k], Run(s, steps).memory.runners[k].lastHeartbeat;
            && (forall i: nat :: LastBeat(steps, was, i) ==> now == Some(steps[i].now))
            && ((forall i: nat :: i < |steps| ==> !AcceptedBeat(steps, was, i)) ==> now == was.lastHeartbeat)
  {
    hide Next, FirstOfName, AcceptedBeat;
    RowLasts(s, steps, k);
    RowThere(Run(s, steps).memory.runners, k);
    RowThere(s.memory.runners, k);
    if steps == [] {
      NoBeats(s.memory.runners[k]);
    } else {
      var n: nat := |steps| - 1;
      var init, was := steps[..n], s.memory.runners[k];
      LastHeartbeatShown(s, init, k);
      BeatStep(s, steps, k);
      BeatsInRange(steps, was);
      BeatsInRange(init, was);
      forall i: nat | i < n ensures AcceptedBeat(init, was, i) <==> AcceptedBeat(steps, was, i) {
        BeatsOfPrefix(steps, was, n, i);
      }
    }
  }

  lemma BeatsInRange(steps: seq<Step>, row: Runner)
    ensures forall i: nat :: AcceptedBeat(steps, row, i) ==> i < |steps|
  {
  }

  lemma NoBeats(row: Runner)
    ensures forall i: nat :: !AcceptedBeat([], row, i)
  {
  }

  lemma RowThere(runners: seq<Runner>, k: nat)
    requires FirstOfName(runners, k)
    ensures k < |runners|
  {
  }

  lemma BeatsOfPrefix(steps: seq<Step>, row: Runner, n: nat, i: nat)
    requires i < n <= |steps|
    ensures AcceptedBeat(steps[..n], row, i) <==> AcceptedBeat(steps, row, i)
  {
    assert steps[..n][..i] == steps[..i];
  }

  /** One more step: an accepted heartbeat is written down, and nothing else is. */
  lemma BeatStep(s: State, steps: seq<Step>, k: nat)
    requires FirstOfName(s.memory.runners, k) && s.memory.runners[k].enrolled && s.memory.runners[k].token != ""
    requires steps != []
    ensures var n: nat := |steps| - 1;
            var before, after := Run(s, steps[..n]).memory.runners, Run(s, steps).memory.runners;
            && k < |before| && k < |after|
            && (AcceptedBeat(steps, s.memory.runners[k], n) ==> after[k].lastHeartbeat == Some(steps[n].now))
            && (!AcceptedBeat(steps, s.memory.runners[k], n) ==> after[k].lastHeartbeat == before[k].lastHeartbeat)
  {
    hide Next;
    var n: nat := |steps| - 1;
    RowLasts(s, steps[..n], k);
    StepTouches(Run(s, steps[..n]), steps[n], k);
  }

  // ----- Revocation is for good -----

  /** The row that stands for `name` is revoked. */
  predicate IsRevoked(r: Registry, name: string) {
    var p := FindRunner(r.runners, name);
    p.Some? && !r.runners[p.value].enrolled
  }

  /** Rows keep their names and places, and a revoked row stays revoked. */
  ghost predicate RowsKept(before: seq<Runner>, after: seq<Runner>) {
    |before| <= |after|
    && forall k :: 0 <= k < |before| ==>
         after[k].name == before[k].name && after[k].token == before[k].token
         && (after[k].enrolled ==> before[k].enrolled)
  }

  lemma StepKeepsRows(s: State, step: Step)
    ensures RowsKept(s.memory.runners, Next(s, step).state.memory.runners)
  {
  }

  lemma {:induction false} RunKeepsRows(s: State, steps: seq<Step>)
    ensures RowsKept(s.memory.runners, Run(s, steps).memory.runners)
  {
    hide Next;
    if steps != [] {
      var n := |steps| - 1;
      RunKeepsRows(s, steps[..n]);
      StepKeepsRows(Run(s, steps[..n]), steps[n]);
    }
  }

  lemma SameRowFound(before: seq<Runner>, after: seq<Runner>, name: string)
    requires RowsKept(before, after) && FindRunner(before, name).Some?
    ensures FindRunner(after, name) == FindRunner(before, name)
  {
    var p := FindRunner(before, name).value;
    FirstIsFound(after, name, p);
  }

  /** Once the row of a name is revoked, every later heartbeat and revoke for that name is refused. */
  lemma RevokedForGood(s: State, steps: seq<Step>, name: string, presented: string, now: int)
    requires IsRevoked(s.memory, name)
    ensures IsRevoked(Run(s, steps).memory, name)
    ensures Next(Run(s, steps), Heartbeat(name, presented, now)).status == 401
    ensures Next(Run(s, steps), Revoke(name, presented)).status == 401
  {
    RunKeepsRows(s, steps);
    SameRowFound(s.memory.runners, Run(s, steps).memory.runners, name);
  }

  /** A runner's own token revokes it, and from then on authenticates nothing. */
  lemma RevokeRevokes(s: State, name: string, presented: string)
    requires Authentic(s.memory, name, presented)
    ensures Next(s, Revoke(name, presented)).status == 200
    ensures IsRevoked(Next(s, Revoke(name, presented)).state.memory, name)
  {
    var t := Next(s, Revoke(name, presented)).state;
    StepKeepsRows(s, Revoke(name, presented));
    SameRowFound(s.memory.runners, t.memory.runners, name);
  }

  // ----- Starting the hub again -----

  /** The hub started on a saved registry: it is loaded, completed and saved, and no request is waiting. */
  function Started(stored: Registry, env: string): State {
    State(StartRegistry(stored, env), StartRegistry(stored, env), [])
  }

  /** The start of the main program. */
  method StartHub(stored: Registry, env: string) returns (hub: HubState)
    ensures fresh(hub) && State(hub.Memory(), hub.disk, []) == Started(stored, env)
  {
    hub := new HubState(stored);
    hub.LoadEnrollmentTokens(env);
    hub.Save();
  }

  lemma {:induction false} WithTokensDistinct(tokens: seq<string>, more: seq<string>)
    requires Distinct(tokens)
    ensures Distinct(WithTokens(tokens, more))
  {
    if more != [] {
      WithTokensDistinct(tokens, more[..|more| - 1]);
    }
  }

  lemma {:induction false} PrunedDistinct(tokens: seq<string>)
    requires Distinct(tokens)
    ensures Distinct(Pruned(tokens))
  {
    if tokens != [] {
      var n := |tokens| - 1;
      PrunedDistinct(tokens[..n]);
      assert tokens[n] !in tokens[..n];
    }
  }

  /** A start stores the mint-shaped tokens among the saved and the configured ones, none twice. */
  lemma StartTokens(stored: Registry, env: string)
    ensures forall t :: t in StartRegistry(stored, env).tokens <==>
              (t in stored.tokens && MintShaped(t)) || t in Configured(env)
    ensures Distinct(stored.tokens) ==> Distinct(StartRegistry(stored, env).tokens)
  {
    hide MintShaped;
    if Distinct(stored.tokens) {
      WithTokensDistinct(stored.tokens, Configured(env));
      PrunedDistinct(WithTokens(stored.tokens, Configured(env)));
    }
  }

  // ----- One-time tokens across starts -----

  /** Every spent token had been stored. */
  lemma SpentWereStored(s: State, steps: seq<Step>, t: string)
    requires t in Spent(s, steps)
    ensures t in s.memory.tokens
  {
    hide Run, Spent;
    TokensAndRowsConserved(s, steps);
    assert t in multiset(Spent(s, steps));
    assert t in multiset(s.memory.tokens);
  }

  /** A name longer than any that is enrolled. */
  function FreeName(runners: seq<Runner>): (name: string)
    ensures name != "" && forall i :: 0 <= i < |name| ==> name[i] == 'a'
    ensures forall i :: 0 <= i < |runners| ==> |runners[i].name| < |name|
  {
    if runners == [] then "a"
    else
      var n := |runners| - 1;
      var shorter := FreeName(runners[..n]);
      if |runners[n].name| < |shorter| then shorter else seq(|runners[n].name| + 1, _ => 'a')
  }

  lemma {:induction false} LettersStrip(s: string)
    requires forall i :: 0 <= i < |s| ==> !IsSpace(s[i])
    ensures Strip(s) == s
  {
  }

  /** Any stored token can be spent: a runner under a free name gets in with it. */
  lemma StoredCanBeSpent(r: Registry, t: string) returns (steps: seq<Step>)
    requires HasToken(r, t)
    ensures Spent(State(r, r, []), steps) == [t]
  {
    var e := Enrollment(FreeName(r.runners), "a/b", t);
    EnrollsAlone(r, e);
    steps := [Probe(e), Commit(0, "")];
  }

  lemma EnrollsAlone(r: Registry, e: Enrollment)
    requires HasToken(r, e.presented) && e.name == FreeName(r.runners) && e.repo == "a/b"
    ensures Spent(State(r, r, []), [Probe(e), Commit(0, "")]) == [e.presented]
  {
    var s := State(r, r, []);
    var probe, both := [Probe(e)], [Probe(e), Commit(0, "")];
    LettersStrip(e.name);
    assert e.repo[1] == '/' && '/' !in e.repo[..1] && '/' !in e.repo[2..];
    assert ValidRepo(e.repo) && FindRunner(r.runners, e.name).None?;
    assert both[..1] == probe && probe[..0] == [];
    assert Run(s, probe) == Next(s, Probe(e)).state == State(r, r, [e]);
    assert Next(s, Probe(e)).status == 0;
    assert Spent(s, []) == [] && Spent(s, probe) == [];
    assert Next(State(r, r, [e]), Commit(0, "")).status == 200;
  }

  /** No run after the start spends a token of `earlier`. */
  ghost predicate NeverAgain(stored: Registry, env: string, earlier: seq<string>) {
    forall steps :: SpendsNone(Started(stored, env), steps, earlier)
  }

  ghost predicate SpendsNone(s: State, steps: seq<Step>, earlier: seq<string>) {
    forall t :: t in earlier ==> t !in Spent(s, steps)
  }

  /** After any history, a start keeps earlier tokens spent exactly when none of them is configured, and none is saved
      in mint shape. */
  lemma NeverAgainIff(stored: Registry, env: string, earlier: seq<string>)
    ensures NeverAgain(stored, env, earlier) <==>
            forall t :: t in earlier ==> t !in Configured(env) && !(t in stored.tokens && MintShaped(t))
  {
    hide Spent, Configured, MintShaped, StartRegistry;
    var s := Started(stored, env);
    StartTokens(stored, env);
    forall steps, t | t in Spent(s, steps) ensures t in s.memory.tokens {
      SpentWereStored(s, steps, t);
    }
    if t :| t in earlier && t in s.memory.tokens {
      StartedTokensNonempty(stored, env, t);
      var steps := StoredCanBeSpent(s.memory, t);
      assert t in Spent(s, steps);
      assert !SpendsNone(s, steps, earlier);
    }
  }

  lemma StartedTokensNonempty(stored: Registry, env: string, t: string)
    requires t in StartRegistry(stored, env).tokens
    ensures HasToken(StartRegistry(stored, env), t)
  {
    assert MintShaped(t);
  }

  /**
    One-time tokens across one start: whatever happened before, no later run spends an earlier token again, if and
    only if no mint-shaped configured token is among those already spent.
   */
  lemma SpentOnceAcrossStartIff(s: State, before: seq<Step>, env: string)
    requires s.memory == s.disk && Distinct(s.memory.tokens)
    ensures NeverAgain(Run(s, before).disk, env, Spent(s, before)) <==>
            forall t :: t in Spent(s, before) ==> t !in Configured(env)
  {
    hide Run, Spent, Next, Configured, NeverAgain;
    DiskInSync(s, before);
    NoTokenSpentTwice(s, before);
    NeverAgainIff(Run(s, before).disk, env, Spent(s, before));
  }

  /** It does happen: a token that stays configured admits one runner before a start and another after it. */
  lemma SpentTokenComesBack(r: Registry, env: string, t: string)
    returns (before: seq<Step>, after: seq<Step>)
    requires HasToken(r, t) && t in Configured(env)
    ensures Spent(State(r, r, []), before) == [t]
    ensures Spent(Started(Run(State(r, r, []), before).disk, env), after) == [t]
  {
    hide Run, Spent, Next, Configured, MintShaped, StartRegistry;
    before := StoredCanBeSpent(r, t);
    var stored := Run(State(r, r, []), before).disk;
    StartTokens(stored, env);
    StartedTokensNonempty(stored, env, t);
    after := StoredCanBeSpent(StartRegistry(stored, env), t);
  }

  // ----- Any number of starts -----

  /** A stretch between two starts: the tokens configured at its start and what happened. */
  datatype Life = Life(env: string, steps: seq<Step>)

  /** The registry saved at the end of the lives. */
  function Saves(stored: Registry, lives: seq<Life>): Registry {
    if lives == [] then stored
    else
      var life := lives[|lives| - 1];
      Run(Started(Saves(stored, lives[..|lives| - 1]), life.env), life.steps).disk
  }

  function SpentInLives(stored: Registry, lives: seq<Life>): seq<string> {
    if lives == [] then []
    else
      var n := |lives| - 1;
      SpentInLives(stored, lives[..n]) + Spent(Started(Saves(stored, lives[..n]), lives[n].env), lives[n].steps)
  }

  /** The k-th start does not configure a token that has been spent. */
  ghost predicate ConfiguresUnspent(stored: Registry, lives: seq<Life>, k: nat)
    requires k < |lives|
  {
    forall t :: t in SpentInLives(stored, lives[..k]) ==> t !in Configured(lives[k].env)
  }

  /** When no start configures a spent token, no token is ever spent twice, over any number of starts. */
  lemma {:induction false} LivesSpendOnce(stored: Registry, lives: seq<Life>)
    requires Distinct(stored.tokens) && forall k :: 0 <= k < |lives| ==> ConfiguresUnspent(stored, lives, k)
    ensures Distinct(SpentInLives(stored, lives)) && Distinct(Saves(stored, lives).tokens)
    ensures forall t :: t in SpentInLives(stored, lives) ==> t !in Saves(stored, lives).tokens
  {
    hide Run, Spent, Next, Configured, MintShaped, ConfiguresUnspent;
    if lives != [] {
      var n := |lives| - 1;
      forall k | 0 <= k < n ensures ConfiguresUnspent(stored, lives[..n], k) { SameLives(stored, lives, n, k); }
      LivesSpendOnce(stored, lives[..n]);
      ConfiguredWereUnspent(stored, lives, n);
      LifeSpendsOnce(Saves(stored, lives[..n]), lives[n], SpentInLives(stored, lives[..n]));
    }
  }

  lemma SameLives(stored: Registry, lives: seq<Life>, n: nat, k: nat)
    requires k < n <= |lives| && ConfiguresUnspent(stored, lives, k)
    ensures ConfiguresUnspent(stored, lives[..n], k)
  {
    assert lives[..n][..k] == lives[..k];
  }

  lemma ConfiguredWereUnspent(stored: Registry, lives: seq<Life>, k: nat)
    requires k < |lives| && ConfiguresUnspent(stored, lives, k)
    ensures forall t :: t in SpentInLives(stored, lives[..k]) ==> t !in Configured(lives[k].env)
  {
  }

  lemma LifeSpendsOnce(stored: Registry, life: Life, earlier: seq<string>)
    requires Distinct(stored.tokens) && Distinct(earlier)
    requires forall t :: t in earlier ==> t !in stored.tokens && t !in Configured(life.env)
    ensures var s := Started(stored, life.env);
            var end := Run(s, life.steps).disk;
            && Distinct(earlier + Spent(s, life.steps)) && Distinct(end.tokens)
            && forall t :: t in earlier + Spent(s, life.steps) ==> t !in end.tokens
  {
    hide Run, Spent, Next, Configured, MintShaped, StartRegistry;
    var s := Started(stored, life.env);
    var end, spent := Run(s, life.steps).disk, Spent(s, life.steps);
    StartTokens(stored, life.env);
    DiskInSync(s, life.steps);
    NoTokenSpentTwice(s, life.steps);
    TokensAndRowsConserved(s, life.steps);
    DistinctPart(s.memory.tokens, end.tokens, spent);
    forall t | t in spent ensures t !in earlier { SpentWereStored(s, life.steps, t); }
    forall t | t in end.tokens ensures t !in earlier {
      assert t in multiset(end.tokens);
      assert t in multiset(s.memory.tokens);
    }
    forall i, j | 0 <= i < |earlier| && 0 <= j < |spent| ensures earlier[i] != spent[j] {
      assert spent[j] in spent;
    }
  }

  lemma DistinctPart(all: seq<string>, a: seq<string>, b: seq<string>)
    requires Distinct(all) && multiset(all) == multiset(a) + multiset(b)
    ensures Distinct(a)
  {
    DistinctIffCountedOnce(all);
    forall x ensures multiset(a)[x] <= 1 { assert multiset(all)[x] <= 1; }
    DistinctIffCountedOnce(a);
  }

  /** A name revoked in any life stays revoked through every later start and run. */
  lemma {:induction false} RevokedAcrossStarts(stored: Registry, lives: seq<Life>, name: string)
    requires IsRevoked(stored, name)
    ensures IsRevoked(Saves(stored, lives), name)
  {
    hide Run, Next, StartRegistry;
    if lives != [] {
      var n := |lives| - 1;
      RevokedAcrossStarts(stored, lives[..n], name);
      var s := Started(Saves(stored, lives[..n]), lives[n].env);
      StartKeepsRows(Saves(stored, lives[..n]), lives[n].env);
      RevokedForGood(s, lives[n].steps, name, "", 0);
      DiskInSync(s, lives[n].steps);
    }
  }

  lemma StartKeepsRows(stored: Registry, env: string)
    ensures StartRegistry(stored, env).runners == stored.runners
  {
  }

  // ----- Names -----

  ghost predicate NamesDistinct(r: Registry) {
    forall i, j :: 0 <= i < j < |r.runners| ==> r.runners[i].name != r.runners[j].name
  }

  /** A commit keeps names distinct exactly when it fails, or its name is not enrolled at that moment:
      that the probe found the name free earlier is not enough. */
  lemma CommitKeepsNamesIff(s: State, i: nat, minted: string)
    requires NamesDistinct(s.memory) && i < |s.waiting|
    ensures NamesDistinct(Next(s, Commit(i, minted)).state.memory) <==>
            !HasToken(s.memory, s.waiting[i].presented) || FindRunner(s.memory.runners, s.waiting[i].name).None?
  {
    var e, rows := s.waiting[i], s.memory.runners;
    var p := FindRunner(rows, e.name);
    var after := Enrolled(s.memory, e, minted).runners;
    assert after[|rows|].name == e.name;
    assert forall k :: 0 <= k < |rows| ==> after[k] == rows[k];
    if p.Some? { assert after[p.value].name == after[|rows|].name; }
  }

  /** The k-th step, unless it is a commit that succeeds on a name already enrolled. */
  ghost predicate CommitsFreeName(s: State, steps: seq<Step>, k: nat)
    requires k < |steps|
  {
    var t := Run(s, steps[..k]);
    (steps[k].Commit? && steps[k].waiter < |t.waiting| && HasToken(t.memory, t.waiting[steps[k].waiter].presented))
    ==> FindRunner(t.memory.runners, t.waiting[steps[k].waiter].name).None?
  }

  lemma StepKeepsNamesIff(s: State, steps: seq<Step>)
    requires steps != []
    ensures var n := |steps| - 1;
            NamesDistinct(Run(s, steps).memory) <==>
            NamesDistinct(Run(s, steps[..n]).memory) && CommitsFreeName(s, steps, n)
  {
    var n := |steps| - 1;
    var t := Run(s, steps[..n]);
    StepKeepsRows(t, steps[n]);
    if !NamesDistinct(t.memory) {
      NamesStayTaken(t.memory, Run(s, steps).memory);
    } else if steps[n].Commit? && steps[n].waiter < |t.waiting| {
      CommitKeepsNamesIff(t, steps[n].waiter, steps[n].minted);
    } else {
      OthersKeepNames(t, steps[n]);
    }
  }

  lemma NamesStayTaken(before: Registry, after: Registry)
    requires RowsKept(before.runners, after.runners) && !NamesDistinct(before)
    ensures !NamesDistinct(after)
  {
    var i, j :| 0 <= i < j < |before.runners| && before.runners[i].name == before.runners[j].name;
    assert after.runners[i].name == after.runners[j].name;
  }

  /** Under any interleaving names end up distinct exactly when every successful commit found its name free. */
  lemma {:induction false} RunKeepsNamesIff(s: State, steps: seq<Step>)
    requires NamesDistinct(s.memory)
    ensures NamesDistinct(Run(s, steps).memory) <==> forall k :: 0 <= k < |steps| ==> CommitsFreeName(s, steps, k)
  {
    hide Run, NamesDistinct, CommitsFreeName;
    if steps == [] {
      NothingRun(s);
    } else {
      var n := |steps| - 1;
      RunKeepsNamesIff(s, steps[..n]);
      StepKeepsNamesIff(s, steps);
      forall k | 0 <= k < n ensures CommitsFreeName(s, steps[..n], k) <==> CommitsFreeName(s, steps, k) {
        SameCommit(s, steps, n, k);
      }
    }
  }

  lemma NothingRun(s: State)
    ensures Run(s, []) == s
  {
  }

  lemma SameCommit(s: State, steps: seq<Step>, n: nat, k: nat)
    requires k < n <= |steps|
    ensures CommitsFreeName(s, steps[..n], k) <==> CommitsFreeName(s, steps, k)
  {
    assert steps[..n][..k] == steps[..k];
  }

  /** The handler of an enrollment run without anything in between. */
  function EnrollSerially(s: State, e: Enrollment, minted: string): State {
    var probed := Next(s, Probe(e));
    if probed.status != 0 then s else Next(probed.state, Commit(|s.waiting|, minted)).state
  }

  /** Alone, an enrolment admits the runner exactly when name and repository are well formed, the name has no row and
      the presented token is stored; otherwise it leaves memory and disk as they were. */
  lemma SerialEnrollAdmits(s: State, e: Enrollment, minted: string)
    requires minted != ""
    ensures var t := EnrollSerially(s, e, minted);
            if ValidName(e.name) && ValidRepo(e.repo) && FindRunner(s.memory.runners, e.name).None?
               && HasToken(s.memory, e.presented)
            then Admitted(t.memory, e.name, e.repo, minted) && t.disk == t.memory
            else t.memory == s.memory && t.disk == s.disk
  {
    hide ValidName, ValidRepo;
    var probed := Next(s, Probe(e));
    if probed.status == 0 && HasToken(s.memory, e.presented) {
      assert probed.state.waiting[|s.waiting|] == e;
      EnrolledIsAdmitted(probed.state, |s.waiting|, minted);
    }
  }

  /** Serialised handlers keep names distinct. */
  lemma SerialEnrollKeepsNames(s: State, e: Enrollment, minted: string)
    requires NamesDistinct(s.memory)
    ensures NamesDistinct(EnrollSerially(s, e, minted).memory)
  {
    var probed := Next(s, Probe(e));
    if probed.status == 0 {
      CommitKeepsNamesIff(probed.state, |s.waiting|, minted);
    }
  }

  lemma OthersKeepNames(s: State, step: Step)
    requires NamesDistinct(s.memory) && (step.Commit? ==> step.waiter >= |s.waiting|)
    ensures NamesDistinct(Next(s, step).state.memory)
  {
    StepKeepsRows(s, step);
  }

  /** A handler run without anything in between: a whole enrollment, or one locked body. */
  datatype Handler = Enroll(request: Enrollment, minted: string) | Beat(name: string, presented: string, now: int)
                   | Unenroll(name: string, presented: string)

  function Handle(s: State, h: Handler): State {
    match h
    case Enroll(e, minted) => EnrollSerially(s, e, minted)
    case Beat(name, presented, now) => Next(s, Heartbeat(name, presented, now)).state
    case Unenroll(name, presented) => Next(s, Revoke(name, presented)).state
  }

  function HandleAll(s: State, handlers: seq<Handler>): State {
    if handlers == [] then s else Handle(HandleAll(s, handlers[..|handlers| - 1]), handlers[|handlers| - 1])
  }

  /** Over any run of serialised handlers names stay unique. */
  lemma {:induction false} SerialRunKeepsNames(s: State, handlers: seq<Handler>)
    requires NamesDistinct(s.memory)
    ensures NamesDistinct(HandleAll(s, handlers).memory)
  {
    hide NamesDistinct, Next, EnrollSerially;
    if handlers != [] {
      var n := |handlers| - 1;
      var before := HandleAll(s, handlers[..n]);
      SerialRunKeepsNames(s, handlers[..n]);
      match handlers[n]
      case Enroll(e, minted) => SerialEnrollKeepsNames(before, e, minted);
      case Beat(name, presented, now) => OthersKeepNames(before, Heartbeat(name, presented, now));
      case Unenroll(name, presented) => OthersKeepNames(before, Revoke(name, presented));
    }
  }

  /** Two enrollments of one free name that both probe before either commits both succeed: the name is then held
      twice. */
  lemma RaceDuplicatesName(r: Registry, a: Enrollment, b: Enrollment, m1: string, m2: string)
    requires ValidName(a.name) && ValidRepo(a.repo) && ValidRepo(b.repo) && a.name == b.name
    requires FindRunner(r.runners, a.name).None?
    requires HasToken(r, a.presented) && HasToken(r, b.presented) && a.presented != b.presented
    ensures var t := Run(State(r, r, []), [Probe(a), Probe(b), Commit(0, m1), Commit(0, m2)]);
            !NamesDistinct(t.memory) && |t.memory.runners| == |r.runners| + 2
  {
    hide ValidName, ValidRepo, HasToken, Consumed, Next;
    var s0 := State(r, r, []);
    var s1, s2 := State(r, r, [a]), State(r, r, [a, b]);
    var r3 := Enrolled(r, a, m1);
    var s3 := State(r3, r3, [b]);
    var r4 := Enrolled(r3, b, m2);
    FourSteps(s0, Probe(a), Probe(b), Commit(0, m1), Commit(0, m2));
    BothProbe(r, a, b);
    BothCommit(r, a, b, m1, m2);
    assert r4.runners[|r.runners|].name == r4.runners[|r.runners| + 1].name;
  }

  lemma BothProbe(r: Registry, a: Enrollment, b: Enrollment)
    requires ValidName(a.name) && ValidRepo(a.repo) && ValidRepo(b.repo) && a.name == b.name
    requires FindRunner(r.runners, a.name).None?
    ensures Next(State(r, r, []), Probe(a)).state == State(r, r, [a])
    ensures Next(State(r, r, [a]), Probe(b)).state == State(r, r, [a, b])
  {
    hide ValidName, ValidRepo;
  }

  lemma BothCommit(r: Registry, a: Enrollment, b: Enrollment, m1: string, m2: string)
    requires HasToken(r, a.presented) && HasToken(r, b.presented) && a.presented != b.presented
    ensures var r3 := Enrolled(r, a, m1);
            var s3 := State(r3, r3, [b]);
            && Next(State(r, r, [a, b]), Commit(0, m1)).state == s3
            && Next(s3, Commit(0, m2)).state == State(Enrolled(r3, b, m2), Enrolled(r3, b, m2), [])
  {
    hide Enrolled;
    StillStored(r, a, b, m1);
    assert [a, b][..0] + [a, b][1..] == [b] && [b][..0] + [b][1..] == [];
  }

  lemma StillStored(r: Registry, a: Enrollment, b: Enrollment, m1: string)
    requires HasToken(r, a.presented) && HasToken(r, b.presented) && a.presented != b.presented
    ensures HasToken(Enrolled(r, a, m1), b.presented)
  {
    hide Consumed;
    ConsumeRemovesOne(r.tokens, a.presented);
    assert b.presented in multiset(r.tokens);
    assert b.presented in multiset(Consumed(r.tokens, a.presented));
  }

  lemma FourSteps(s: State, a: Step, b: Step, c: Step, d: Step)
    ensures Run(s, [a, b, c, d]) == Next(Next(Next(Next(s, a).state, b).state, c).state, d).state
  {
    hide Next;
    assert [a, b, c, d][..3] == [a, b, c] && [a, b, c][..2] == [a, b] && [a, b][..1] == [a] && [a][..0] == [];
    assert Run(s, [a]) == Next(s, a).state;
    assert Run(s, [a, b]) == Next(Run(s, [a]), b).state;
    assert Run(s, [a, b, c]) == Next(Run(s, [a, b]), c).state;
  }
}

/** Laws of the adoption ladder: monotonicity, order independence, and when it blocks. */
module LadderLaws {
  import opened Common
  import opened Assertions
  import opened Fingerprint
  import opened Severity
  import opened Evaluation
  import opened Ladder
  import opened Decision

  // ----- What the ladder decides -----

  ghost function FinalFindings(p: Policy, planned: seq<Assertion>, findings: seq<Finding>): seq<Finding> {
    RuledAll(p, planned, findings)
  }

  ghost function FinalLedger(p: Policy, planned: seq<Assertion>, findings: seq<Finding>, ledger: seq<Row>): seq<Row> {
    MirrorAll(p.stage, RuledAll(p, planned, findings), ledger)
  }

  ghost predicate Blocks(p: Policy, planned: seq<Assertion>, findings: seq<Finding>, ledger: seq<Row>) {
    SomeFindingBlocks(FinalFindings(p, planned, findings)) || SomeRowBlocks(FinalLedger(p, planned, findings, ledger))
  }

  ghost function Exit(p: Policy, planned: seq<Assertion>, findings: seq<Finding>, ledger: seq<Row>): int {
    Decide(FinalLedger(p, planned, findings, ledger), p.stage, None, Some(Blocks(p, planned, findings, ledger))).1
  }

  lemma {:induction false} ActiveIffUnexpired(exceptions: seq<Exemption>, now: int, fp: string)
    ensures ActiveIn(exceptions, now, fp).Some? <==>
            exists e :: e in exceptions && e.expiresAt > now && Print(e.names) == fp
  {
    if exceptions != [] {
      var n := |exceptions| - 1;
      var init := exceptions[..n];
      ActiveIffUnexpired(init, now, fp);
      assert exceptions == init + [exceptions[n]];
      if e :| e in init && e.expiresAt > now && Print(e.names) == fp {
        assert e in exceptions;
      }
    }
  }

  // ----- Rows carry the maximum of their findings -----

  lemma {:induction false} StrictestIsMaximum(fs: seq<Finding>)
    ensures forall f :: f in fs ==> Rank(f.enforcement) <= Rank(Strictest(fs))
    ensures fs != [] ==> exists f :: f in fs && f.enforcement == Strictest(fs)
  {
    if fs != [] {
      var n := |fs| - 1;
      StrictestIsMaximum(fs[..n]);
      assert fs == fs[..n] + [fs[n]];
      assert fs[n] in fs;
      if fs[..n] != [] {
        var g :| g in fs[..n] && g.enforcement == Strictest(fs[..n]);
        assert g in fs;
      }
    }
  }

  /** A VIOLATED row with findings is as strict as its strictest finding, and no stricter. */
  lemma RowIsMaximum(stage: int, findings: seq<Finding>, row: Row)
    requires row.outcome == Violated && HasFinding(findings, row.assertionId)
    ensures forall f :: f in findings && f.assertionId == row.assertionId ==>
              Rank(f.enforcement) <= Rank(Mirror(stage, findings, row).enforcement)
    ensures exists f :: f in findings && f.assertionId == row.assertionId
                        && f.enforcement == Mirror(stage, findings, row).enforcement
  {
    StrictestIsMaximum(FindingsOf(findings, row.assertionId));
    var f :| f in findings && f.assertionId == row.assertionId;
    assert f in FindingsOf(findings, row.assertionId);
  }

  // ----- Monotone in stage and time -----

  /** Everything central policy and the repository fix, apart from the stage and the instant of evaluation. */
  datatype Setting = Setting(
    baseline: seq<BaselineEntry>, exceptions: seq<Exemption>, core: Option<set<string>>, floor: map<string, string>,
    record: AdoptionRecord, capDays: int, blocksOnExpiry: bool)

  function PolicyAt(s: Setting, stage: int, now: int): Policy {
    Policy(s.baseline, s.exceptions, stage, now, s.core, s.floor,
           s.blocksOnExpiry && AdvisoryAgeExpired(s.record, stage, s.capDays, now))
  }

  /** The advisory cap counts only when the policy blocks on expiry. */
  lemma CapCounts(s: Setting, stage: int, now: int)
    ensures PolicyAt(s, stage, now).stage == stage && PolicyAt(s, stage, now).now == now
    ensures !s.blocksOnExpiry ==> !PolicyAt(s, stage, now).advisoryExpired
    ensures s.blocksOnExpiry ==>
              PolicyAt(s, stage, now).advisoryExpired == AdvisoryAgeExpired(s.record, stage, s.capDays, now)
  {
  }

  lemma ShelterOnlyShrinks(s: Setting, planned: seq<Assertion>, id: string, fp: string,
                           stage: int, stage': int, now: int, now': int)
    requires 2 <= stage <= stage' && now <= now'
    requires Sheltered(PolicyAt(s, stage', now'), planned, id, fp)
    ensures Sheltered(PolicyAt(s, stage, now), planned, id, fp)
  {
    var p, p' := PolicyAt(s, stage, now), PolicyAt(s, stage', now');
    assert InBaseline(p, fp);
  }

  /** Moving up a stage or forward in time never softens the verdict on a finding. */
  lemma VerdictMonotone(s: Setting, planned: seq<Assertion>, f: Finding, stage: int, stage': int, now: int, now': int)
    requires stage <= stage' && now <= now'
    ensures Rank(Verdict(PolicyAt(s, stage, now), planned, f)) <= Rank(Verdict(PolicyAt(s, stage', now'), planned, f))
  {
    hide Print, DebtOf, Sheltered;
    var p, p' := PolicyAt(s, stage, now), PolicyAt(s, stage', now');
    var fp := Print(DebtOf(planned, f));
    ActiveIffUnexpired(s.exceptions, now, fp);
    ActiveIffUnexpired(s.exceptions, now', fp);
    if Expired(p, fp) {
      var e :| e in p.exceptions && e.expiresAt <= p.now && Print(e.names) == fp;
      assert e in p'.exceptions && e.expiresAt <= p'.now;
      assert Expired(p', fp);
    }
    if Active(p, fp).Some? {
      var e :| e in s.exceptions && e.expiresAt > now && Print(e.names) == fp;
      if e.expiresAt <= now' { assert Expired(p', fp); }
    }
    if stage >= 2 && Sheltered(p', planned, f.assertionId, fp) {
      ShelterOnlyShrinks(s, planned, f.assertionId, fp, stage, stage', now, now');
    }
  }

  /** Two judgements of the same findings, the second nowhere softer. */
  ghost predicate NoSofter(a: seq<Finding>, b: seq<Finding>) {
    |a| == |b| && forall i :: 0 <= i < |a| ==>
      a[i].assertionId == b[i].assertionId && Rank(a[i].enforcement) <= Rank(b[i].enforcement)
  }

  lemma {:induction false} StrictestMonotone(a: seq<Finding>, b: seq<Finding>, id: string)
    requires NoSofter(a, b)
    ensures FindingsOf(a, id) == [] <==> FindingsOf(b, id) == []
    ensures Rank(Strictest(FindingsOf(a, id))) <= Rank(Strictest(FindingsOf(b, id)))
  {
    if a != [] {
      var n := |a| - 1;
      StrictestMonotone(a[..n], b[..n], id);
      StrictestAppend(a, id);
      StrictestAppend(b, id);
    }
  }

  lemma StrictestAppend(a: seq<Finding>, id: string)
    requires a != []
    ensures var n := |a| - 1;
            var init := FindingsOf(a[..n], id);
            if a[n].assertionId == id
            then FindingsOf(a, id) == init + [a[n]]
                 && Strictest(FindingsOf(a, id)) == Stricter(Strictest(init), a[n].enforcement)
            else FindingsOf(a, id) == init
  {
    var n := |a| - 1;
    var init := FindingsOf(a[..n], id);
    if a[n].assertionId == id {
      assert (init + [a[n]])[..|init|] == init;
    }
  }

  lemma MirrorMonotone(stage: int, stage': int, a: seq<Finding>, b: seq<Finding>, row: Row)
    requires stage <= stage' && NoSofter(a, b)
    ensures Rank(Mirror(stage, a, row).enforcement) <= Rank(Mirror(stage', b, row).enforcement)
  {
    if row.outcome == Violated {
      StrictestMonotone(a, b, row.assertionId);
    }
  }

  /** Raising the stage or advancing the evaluation time never lowers any finding, any row, or the exit code. */
  lemma LadderMonotone(s: Setting, planned: seq<Assertion>, findings: seq<Finding>, ledger: seq<Row>,
                       stage: int, stage': int, now: int, now': int)
    requires stage <= stage' && now <= now'
    ensures var p, p' := PolicyAt(s, stage, now), PolicyAt(s, stage', now');
            && NoSofter(FinalFindings(p, planned, findings), FinalFindings(p', planned, findings))
            && (forall i :: 0 <= i < |ledger| ==>
                  Rank(FinalLedger(p, planned, findings, ledger)[i].enforcement)
                  <= Rank(FinalLedger(p', planned, findings, ledger)[i].enforcement))
            && Exit(p, planned, findings, ledger) <= Exit(p', planned, findings, ledger)
  {
    hide Verdict, Mirror, Ruled;
    var p, p' := PolicyAt(s, stage, now), PolicyAt(s, stage', now');
    var a, b := FinalFindings(p, planned, findings), FinalFindings(p', planned, findings);
    forall i | 0 <= i < |findings|
      ensures a[i].assertionId == b[i].assertionId && Rank(a[i].enforcement) <= Rank(b[i].enforcement)
    {
      RuledVerdict(p, planned, findings[i]);
      RuledVerdict(p', planned, findings[i]);
      VerdictMonotone(s, planned, findings[i], stage, stage', now, now');
    }
    var l, m := FinalLedger(p, planned, findings, ledger), FinalLedger(p', planned, findings, ledger);
    forall i | 0 <= i < |ledger| ensures Rank(l[i].enforcement) <= Rank(m[i].enforcement) {
      MirrorMonotone(stage, stage', a, b, ledger[i]);
    }
    BlocksMonotone(a, b, l, m);
    SameOutcomes(p, planned, findings, ledger);
    SameOutcomes(p', planned, findings, ledger);
  }

  lemma RuledVerdict(p: Policy, planned: seq<Assertion>, f: Finding)
    ensures Ruled(p, planned, f).enforcement == Verdict(p, planned, f)
  {
  }

  lemma BlocksMonotone(a: seq<Finding>, b: seq<Finding>, l: seq<Row>, m: seq<Row>)
    requires NoSofter(a, b)
    requires |l| == |m| && forall i :: 0 <= i < |l| ==> Rank(l[i].enforcement) <= Rank(m[i].enforcement)
    ensures SomeFindingBlocks(a) || SomeRowBlocks(l) ==> SomeFindingBlocks(b) || SomeRowBlocks(m)
  {
    if SomeFindingBlocks(a) {
      var i :| 0 <= i < |a| && a[i].enforcement == Block;
      assert b[i].enforcement == Block;
    }
    if SomeRowBlocks(l) {
      var i :| 0 <= i < |l| && l[i].enforcement == Block;
      assert m[i].enforcement == Block;
    }
  }

  /** The ladder rewrites enforcement, never an outcome. */
  lemma SameOutcomes(p: Policy, planned: seq<Assertion>, findings: seq<Finding>, ledger: seq<Row>)
    ensures forall o :: SomeOutcome(FinalLedger(p, planned, findings, ledger), o) <==> SomeOutcome(ledger, o)
  {
    var l := FinalLedger(p, planned, findings, ledger);
    assert forall i :: 0 <= i < |ledger| ==> l[i].outcome == ledger[i].outcome;
    forall o ensures SomeOutcome(l, o) <==> SomeOutcome(ledger, o) {
      if SomeOutcome(ledger, o) {
        var i :| 0 <= i < |ledger| && ledger[i].outcome == o;
        assert l[i].outcome == o;
      }
    }
  }

  // ----- When the ladder blocks -----

  lemma AccountedAfter(p: Policy, planned: seq<Assertion>, findings: seq<Finding>, ledger: seq<Row>)
    requires Accounted(ledger, findings)
    ensures Accounted(ledger, FinalFindings(p, planned, findings))
  {
    hide Ruled;
    var after := FinalFindings(p, planned, findings);
    forall i | 0 <= i < |ledger| && ledger[i].outcome == Violated
      ensures HasFinding(after, ledger[i].assertionId)
    {
      var f :| f in findings && f.assertionId == ledger[i].assertionId;
      var k :| 0 <= k < |findings| && findings[k] == f;
      assert after[k] in after && after[k].assertionId == f.assertionId;
    }
    forall g | g in after ensures HasViolatedRow(ledger, g.assertionId) {
      var k :| 0 <= k < |after| && after[k] == g;
      assert findings[k] in findings && g.assertionId == findings[k].assertionId;
    }
  }

  /** A blocking finding shows up on its row. */
  lemma BlockingFindingHasRow(stage: int, findings: seq<Finding>, ledger: seq<Row>, f: Finding)
    requires Accounted(ledger, findings) && f in findings && f.enforcement == Block
    ensures exists i :: 0 <= i < |ledger| && Mirror(stage, findings, ledger[i]).enforcement == Block
  {
    hide Mirror;
    assert HasViolatedRow(ledger, f.assertionId);
    var i :| 0 <= i < |ledger| && ledger[i].outcome == Violated && ledger[i].assertionId == f.assertionId;
    RowIsMaximum(stage, findings, ledger[i]);
    assert Rank(Mirror(stage, findings, ledger[i]).enforcement) >= Rank(Block);
  }

  /** On the ledger of a run, `blocked` says exactly that some row ends up as BLOCK. */
  lemma BlocksIffSomeRowBlocks(p: Policy, planned: seq<Assertion>, findings: seq<Finding>, ledger: seq<Row>)
    requires Accounted(ledger, findings)
    ensures Blocks(p, planned, findings, ledger) <==> SomeRowBlocks(FinalLedger(p, planned, findings, ledger))
  {
    hide Ruled, Mirror;
    var after, rows := FinalFindings(p, planned, findings), FinalLedger(p, planned, findings, ledger);
    if SomeFindingBlocks(after) {
      var k :| 0 <= k < |after| && after[k].enforcement == Block;
      AccountedAfter(p, planned, findings, ledger);
      BlockingFindingHasRow(p.stage, after, ledger, after[k]);
      var i :| 0 <= i < |ledger| && Mirror(p.stage, after, ledger[i]).enforcement == Block;
      assert rows[i].enforcement == Block;
    }
  }

  /** Below the ratchet stage the ladder blocks exactly when some VIOLATED row comes without a finding. */
  lemma BlocksBelowRatchetIff(p: Policy, planned: seq<Assertion>, findings: seq<Finding>, ledger: seq<Row>)
    requires p.stage < 2
    ensures Blocks(p, planned, findings, ledger) <==>
            exists i :: 0 <= i < |ledger| && ledger[i].outcome == Violated
                        && !HasFinding(findings, ledger[i].assertionId)
  {
    var after, rows := FinalFindings(p, planned, findings), FinalLedger(p, planned, findings, ledger);
    forall k | 0 <= k < |after| ensures after[k].enforcement == Advisory {
      RuledVerdict(p, planned, findings[k]);
    }
    forall i | 0 <= i < |ledger|
      ensures rows[i].enforcement == Block <==>
              ledger[i].outcome == Violated && !HasFinding(findings, ledger[i].assertionId)
    {
      BelowRatchetRow(p, planned, findings, ledger[i]);
    }
    if exists i :: 0 <= i < |ledger| && ledger[i].outcome == Violated && !HasFinding(findings, ledger[i].assertionId) {
      var i :| 0 <= i < |ledger| && ledger[i].outcome == Violated && !HasFinding(findings, ledger[i].assertionId);
      assert rows[i].enforcement == Block;
    }
  }

  lemma NoFindingsIff(findings: seq<Finding>, id: string)
    ensures FindingsOf(findings, id) == [] <==> !HasFinding(findings, id)
  {
    if FindingsOf(findings, id) != [] {
      assert FindingsOf(findings, id)[0] in FindingsOf(findings, id);
    }
    if HasFinding(findings, id) {
      var f :| f in findings && f.assertionId == id;
      assert f in FindingsOf(findings, id);
    }
  }

  lemma HasFindingAfter(p: Policy, planned: seq<Assertion>, findings: seq<Finding>, id: string)
    ensures HasFinding(FinalFindings(p, planned, findings), id) <==> HasFinding(findings, id)
  {
    hide Ruled;
    var after := FinalFindings(p, planned, findings);
    if HasFinding(findings, id) {
      var f :| f in findings && f.assertionId == id;
      var k :| 0 <= k < |findings| && findings[k] == f;
      assert after[k] in after && after[k].assertionId == id;
    }
    if HasFinding(after, id) {
      var g :| g in after && g.assertionId == id;
      var k :| 0 <= k < |after| && after[k] == g;
      assert findings[k] in findings && findings[k].assertionId == id;
    }
  }

  lemma BelowRatchetFindings(p: Policy, planned: seq<Assertion>, findings: seq<Finding>)
    requires p.stage < 2
    ensures forall g :: g in FinalFindings(p, planned, findings) ==> g.enforcement == Advisory
  {
    hide Ruled;
    var after := FinalFindings(p, planned, findings);
    forall g | g in after ensures g.enforcement == Advisory {
      var k :| 0 <= k < |after| && after[k] == g;
      RuledVerdict(p, planned, findings[k]);
    }
  }

  lemma BelowRatchetRow(p: Policy, planned: seq<Assertion>, findings: seq<Finding>, row: Row)
    requires p.stage < 2
    ensures Mirror(p.stage, FinalFindings(p, planned, findings), row).enforcement == Block <==>
            row.outcome == Violated && !HasFinding(findings, row.assertionId)
  {
    hide Ruled;
    var after := FinalFindings(p, planned, findings);
    HasFindingAfter(p, planned, findings, row.assertionId);
    NoFindingsIff(after, row.assertionId);
    BelowRatchetFindings(p, planned, findings);
    StrictestIsMaximum(FindingsOf(after, row.assertionId));
  }

  /** A run's ledger never blocks at stage 0 or 1. */
  lemma RunNeverBlocksBelowRatchet(w: World, p: Policy, planned: seq<Assertion>, r: RunResult)
    requires Ran(w, planned, r) && p.stage < 2
    ensures !Blocks(p, planned, r.findings, r.ledger)
    ensures Exit(p, planned, r.findings, r.ledger) in {0, 10}
  {
    FindingsAccountForViolations(w, planned, r);
    BlocksBelowRatchetIff(p, planned, r.findings, r.ledger);
  }

  // ----- The order of findings does not matter -----

  /** 1 when the finding belongs to `id` and is ruled `e`. */
  ghost function Hit(p: Policy, planned: seq<Assertion>, f: Finding, id: string, e: Enforcement): nat {
    if f.assertionId == id && Verdict(p, planned, f) == e then 1 else 0
  }

  ghost function Hits(p: Policy, planned: seq<Assertion>, fs: seq<Finding>, id: string, e: Enforcement): nat {
    if fs == [] then 0 else Hits(p, planned, fs[..|fs| - 1], id, e) + Hit(p, planned, fs[|fs| - 1], id, e)
  }

  lemma {:induction false} HitsConcat(p: Policy, planned: seq<Assertion>, a: seq<Finding>, b: seq<Finding>,
                                      id: string, e: Enforcement)
    ensures Hits(p, planned, a + b, id, e) == Hits(p, planned, a, id, e) + Hits(p, planned, b, id, e)
  {
    hide Hit;
    if b == [] {
      assert a + b == a;
    } else {
      var n := |b| - 1;
      HitsConcat(p, planned, a, b[..n], id, e);
      assert (a + b)[..|a + b| - 1] == a + b[..n];
      assert (a + b)[|a + b| - 1] == b[n];
    }
  }

  lemma {:induction false} HitsPermute(p: Policy, planned: seq<Assertion>, a: seq<Finding>, b: seq<Finding>,
                                       id: string, e: Enforcement)
    requires multiset(a) == multiset(b)
    ensures Hits(p, planned, a, id, e) == Hits(p, planned, b, id, e)
  {
    hide Hit;
    assert |multiset(a)| == |a| && |multiset(b)| == |b|;
    if a != [] {
      var n := |a| - 1;
      var l, r := TakeOut(a, b);
      HitsPermute(p, planned, a[..n], l + r, id, e);
      HitsConcat(p, planned, l + [a[n]], r, id, e);
      HitsConcat(p, planned, l, [a[n]], id, e);
      HitsConcat(p, planned, l, r, id, e);
      OneHit(p, planned, a[n], id, e);
    }
  }

  lemma OneHit(p: Policy, planned: seq<Assertion>, f: Finding, id: string, e: Enforcement)
    ensures Hits(p, planned, [f], id, e) == Hit(p, planned, f, id, e)
  {
    assert [f][..0] == [];
  }

  lemma CountAppend(a: seq<Finding>, id: string, e: Enforcement)
    requires a != []
    ensures var n := |a| - 1;
            Count(FindingsOf(a, id), e) == Count(FindingsOf(a[..n], id), e)
                                           + if a[n].assertionId == id && a[n].enforcement == e then 1 else 0
  {
    StrictestAppend(a, id);
    var init := FindingsOf(a[..|a| - 1], id);
    assert (init + [a[|a| - 1]])[..|init|] == init;
  }

  lemma {:induction false} CountIsHits(p: Policy, planned: seq<Assertion>, findings: seq<Finding>, id: string,
                                       e: Enforcement)
    ensures Count(FindingsOf(FinalFindings(p, planned, findings), id), e) == Hits(p, planned, findings, id, e)
  {
    hide Ruled, Verdict, FindingsOf, Count;
    var after := FinalFindings(p, planned, findings);
    if findings == [] {
      NoFindingsNoCount(id, e);
    } else {
      var n := |findings| - 1;
      CountIsHits(p, planned, findings[..n], id, e);
      assert after[..n] == FinalFindings(p, planned, findings[..n]);
      RuledVerdict(p, planned, findings[n]);
      CountAppend(after, id, e);
    }
  }

  lemma NoFindingsNoCount(id: string, e: Enforcement)
    ensures Count(FindingsOf([], id), e) == 0
  {
  }

  /** What a row shows of its findings is decided by the counts of the three enforcements. */
  lemma {:induction false} CountsDecide(fs: seq<Finding>)
    ensures |fs| == Count(fs, Advisory) + Count(fs, ExceptionAdvisory) + Count(fs, Block)
    ensures Strictest(fs) == if Count(fs, Block) > 0 then Block
                             else if Count(fs, ExceptionAdvisory) > 0 then ExceptionAdvisory else Advisory
  {
    if fs != [] { CountsDecide(fs[..|fs| - 1]); }
  }

  lemma MirrorByCounts(stage: int, a: seq<Finding>, b: seq<Finding>, row: Row)
    requires forall e :: Count(FindingsOf(a, row.assertionId), e) == Count(FindingsOf(b, row.assertionId), e)
    ensures Mirror(stage, a, row) == Mirror(stage, b, row)
  {
    hide FindingsOf, Count;
    var fs, gs := FindingsOf(a, row.assertionId), FindingsOf(b, row.assertionId);
    CountsDecide(fs);
    CountsDecide(gs);
    assert |fs| == |gs| && Strictest(fs) == Strictest(gs);
    assert Softer(fs, Strictest(fs)) == Softer(gs, Strictest(gs));
  }

  lemma RowsIgnoreOrder(p: Policy, planned: seq<Assertion>, a: seq<Finding>, b: seq<Finding>, row: Row)
    requires multiset(a) == multiset(b)
    ensures Mirror(p.stage, FinalFindings(p, planned, a), row) == Mirror(p.stage, FinalFindings(p, planned, b), row)
  {
    hide Ruled, Verdict, Hits, Mirror, FinalFindings, Count, FindingsOf;
    var id := row.assertionId;
    forall e ensures Count(FindingsOf(FinalFindings(p, planned, a), id), e)
                     == Count(FindingsOf(FinalFindings(p, planned, b), id), e) {
      HitsPermute(p, planned, a, b, id, e);
      CountIsHits(p, planned, a, id, e);
      CountIsHits(p, planned, b, id, e);
    }
    MirrorByCounts(p.stage, FinalFindings(p, planned, a), FinalFindings(p, planned, b), row);
  }

  lemma SomeFindingBlocksIgnoresOrder(p: Policy, planned: seq<Assertion>, a: seq<Finding>, b: seq<Finding>)
    requires multiset(a) == multiset(b)
    requires SomeFindingBlocks(FinalFindings(p, planned, a))
    ensures SomeFindingBlocks(FinalFindings(p, planned, b))
  {
    hide Ruled;
    var i :| 0 <= i < |a| && FinalFindings(p, planned, a)[i].enforcement == Block;
    assert a[i] in multiset(b);
    var j :| 0 <= j < |b| && b[j] == a[i];
    assert FinalFindings(p, planned, b)[j].enforcement == Block;
  }

  /** Permuting the findings leaves every row with its reason, the verdict and the exit code unchanged. */
  lemma LadderIgnoresOrder(p: Policy, planned: seq<Assertion>, a: seq<Finding>, b: seq<Finding>, ledger: seq<Row>)
    requires multiset(a) == multiset(b)
    ensures FinalLedger(p, planned, a, ledger) == FinalLedger(p, planned, b, ledger)
    ensures Blocks(p, planned, a, ledger) <==> Blocks(p, planned, b, ledger)
    ensures Exit(p, planned, a, ledger) == Exit(p, planned, b, ledger)
  {
    hide Mirror, Ruled;
    var l, m := FinalLedger(p, planned, a, ledger), FinalLedger(p, planned, b, ledger);
    forall i | 0 <= i < |ledger| ensures l[i] == m[i] {
      RowsIgnoreOrder(p, planned, a, b, ledger[i]);
    }
    assert l == m;
    if SomeFindingBlocks(FinalFindings(p, planned, a)) {
      SomeFindingBlocksIgnoresOrder(p, planned, a, b);
    }
    if SomeFindingBlocks(FinalFindings(p, planned, b)) {
      SomeFindingBlocksIgnoresOrder(p, planned, b, a);
    }
  }

  // ----- A baseline entry shelters what it names -----

  predicate BarFree(d: Debt) {
    '|' !in d.assertionId && '|' !in d.violationClass
  }

  /** No id and no class in the policy or the finding contains a bar. */
  ghost predicate BarFreePolicy(p: Policy, d: Debt) {
    && BarFree(d)
    && (forall b :: b in p.baseline ==> BarFree(b.names))
    && (forall e :: e in p.exceptions ==> BarFree(e.names))
  }

  lemma PrintsNameDebt(d: Debt, d': Debt)
    requires BarFree(d) && BarFree(d')
    ensures Print(d) == Print(d') <==> d == d'
  {
    Injective(d.assertionId, d.version, d.location, d.violationClass,
              d'.assertionId, d'.version, d'.location, d'.violationClass);
  }

  /** An open baseline entry names the debt. */
  ghost predicate Adopted(p: Policy, d: Debt) {
    exists b :: b in p.baseline && b.isOpen && b.names == d
  }

  /** Central policy now holds the assertion to more than it was adopted at. */
  ghost predicate AdoptedTooLow(p: Policy, d: Debt) {
    exists b :: b in p.baseline && b.isOpen && b.names == d
                && d.assertionId in p.floor && Above(p.floor[d.assertionId], b.severity)
  }

  ghost predicate ExceptionRunning(p: Policy, d: Debt) {
    exists e :: e in p.exceptions && e.names == d && e.expiresAt > p.now
  }

  ghost predicate ExceptionLapsed(p: Policy, d: Debt) {
    exists e :: e in p.exceptions && e.names == d && e.expiresAt <= p.now
  }

  /** The baseline still counts: at the ratchet stage for all, at the enforced-core stage outside the core. */
  predicate BaselineCounts(p: Policy, planned: seq<Assertion>, id: string) {
    var core := if p.core.Some? then p.core.value else DEFAULT_ENFORCED_CORE;
    p.stage == 2 || (p.stage == 3 && (EvaluatorOf(planned, id).Some? ==> EvaluatorOf(planned, id).value !in core))
  }

  /** When neither ids nor classes contain a bar, a finding is in the baseline exactly when an open entry names it. */
  lemma BaselineNamesExactly(p: Policy, d: Debt)
    requires BarFreePolicy(p, d)
    ensures InBaseline(p, Print(d)) <==> Adopted(p, d)
    ensures Escalated(p, Print(d)) <==> AdoptedTooLow(p, d)
  {
    hide Print, BarFree;
    forall b | b in p.baseline ensures Print(b.names) == Print(d) <==> b.names == d {
      PrintsNameDebt(b.names, d);
    }
  }

  lemma ExceptionsNameExactly(p: Policy, d: Debt)
    requires BarFreePolicy(p, d)
    ensures Expired(p, Print(d)) <==> ExceptionLapsed(p, d)
    ensures Active(p, Print(d)).Some? <==> ExceptionRunning(p, d)
  {
    hide Print, BarFree;
    forall e | e in p.exceptions ensures Print(e.names) == Print(d) <==> e.names == d {
      PrintsNameDebt(e.names, d);
    }
    ActiveIffUnexpired(p.exceptions, p.now, Print(d));
  }

  /** The verdict on a finding in terms of what baseline and exceptions name, fingerprints aside. */
  lemma VerdictByNames(p: Policy, planned: seq<Assertion>, f: Finding)
    requires BarFreePolicy(p, DebtOf(planned, f))
    ensures var d := DebtOf(planned, f);
            var sheltered := Adopted(p, d) && !AdoptedTooLow(p, d) && !p.advisoryExpired
                             && BaselineCounts(p, planned, f.assertionId);
            && (Verdict(p, planned, f) == Block <==>
                  p.stage >= 2 && (ExceptionLapsed(p, d) || (!ExceptionRunning(p, d) && !sheltered)))
            && (Verdict(p, planned, f) == ExceptionAdvisory <==>
                  p.stage >= 2 && ExceptionRunning(p, d) && !ExceptionLapsed(p, d))
  {
    hide Print, DebtOf, InBaseline, Escalated, Expired, Active, Adopted, AdoptedTooLow, ExceptionRunning,
         ExceptionLapsed, EvaluatorOf;
    BaselineNamesExactly(p, DebtOf(planned, f));
    ExceptionsNameExactly(p, DebtOf(planned, f));
  }

  // ----- What a finding is an instance of -----

  /** The i-th planned assertion is the last one with this id. */
  ghost predicate LastNamed(planned: seq<Assertion>, id: string, i: nat) {
    i < |planned| && planned[i].id == id && forall j :: i < j < |planned| ==> planned[j].id != id
  }

  lemma {:induction false} LastNamedDecides(planned: seq<Assertion>, id: string, i: nat)
    requires LastNamed(planned, id, i)
    ensures VersionOf(planned, id) == planned[i].version && EvaluatorOf(planned, id) == Some(planned[i].evaluator)
  {
    var n := |planned| - 1;
    if i < n { LastNamedDecides(planned[..n], id, i); }
  }

  lemma {:induction false} UnplannedDefaults(planned: seq<Assertion>, id: string)
    requires forall i :: 0 <= i < |planned| ==> planned[i].id != id
    ensures VersionOf(planned, id) == 1 && EvaluatorOf(planned, id) == None
  {
    if planned != [] { UnplannedDefaults(planned[..|planned| - 1], id); }
  }

  /** A finding is named by its assertion, that assertion's version in the plan, its first location and its class. */
  lemma DebtNames(planned: seq<Assertion>, f: Finding)
    ensures var d := DebtOf(planned, f);
            && d.assertionId == f.assertionId
            && d.location == (if f.locations == [] then "?" else f.locations[0])
            && (forall c :: f.violationClass == Some(c) && c != "" ==> d.violationClass == c)
            && (Distinct(Ids(planned)) ==>
                  forall a :: a in planned && a.id == f.assertionId ==>
                    d.version == a.version && EvaluatorOf(planned, f.assertionId) == Some(a.evaluator))
            && ((forall i :: 0 <= i < |planned| ==> planned[i].id != f.assertionId) ==>
                  d.version == 1 && EvaluatorOf(planned, f.assertionId) == None)
  {
    hide VersionOf, EvaluatorOf;
    if forall i :: 0 <= i < |planned| ==> planned[i].id != f.assertionId {
      UnplannedDefaults(planned, f.assertionId);
    }
    if Distinct(Ids(planned)) {
      forall a | a in planned && a.id == f.assertionId
        ensures VersionOf(planned, a.id) == a.version && EvaluatorOf(planned, a.id) == Some(a.evaluator)
      {
        var i :| 0 <= i < |planned| && planned[i] == a;
        forall j | i < j < |planned| ensures planned[j].id != a.id {
          assert Ids(planned)[i] != Ids(planned)[j];
        }
        assert LastNamed(planned, a.id, i);
        LastNamedDecides(planned, a.id, i);
      }
    }
  }

  // ----- What each finding, each row and the run come to -----

  ghost predicate Running(p: Policy, fp: string) {
    exists e :: e in p.exceptions && e.expiresAt > p.now && Print(e.names) == fp
  }

  /** A finding blocks from stage 2 on: when an exception for it has lapsed, or when none is running and it is not debt
      that the baseline still excuses. */
  ghost predicate FindingBlocks(p: Policy, planned: seq<Assertion>, f: Finding) {
    var fp := Print(DebtOf(planned, f));
    var excused := InBaseline(p, fp) && !Escalated(p, fp) && !p.advisoryExpired
                   && BaselineCounts(p, planned, f.assertionId);
    p.stage >= 2 && (Expired(p, fp) || (!Running(p, fp) && !excused))
  }

  ghost predicate FindingExcepted(p: Policy, planned: seq<Assertion>, f: Finding) {
    var fp := Print(DebtOf(planned, f));
    p.stage >= 2 && Running(p, fp) && !Expired(p, fp)
  }

  lemma {:induction false} ActiveIsLast(exceptions: seq<Exemption>, now: int, fp: string) returns (i: nat)
    requires ActiveIn(exceptions, now, fp).Some?
    ensures i < |exceptions| && ActiveIn(exceptions, now, fp) == Some(exceptions[i].id)
    ensures exceptions[i].expiresAt > now && Print(exceptions[i].names) == fp
    ensures forall j :: i < j < |exceptions| ==> !(exceptions[j].expiresAt > now && Print(exceptions[j].names) == fp)
  {
    hide Print;
    var n := |exceptions| - 1;
    i := n;
    if !(exceptions[n].expiresAt > now && Print(exceptions[n].names) == fp) {
      i := ActiveIsLast(exceptions[..n], now, fp);
    }
  }

  /** The last running exception for this fingerprint. */
  ghost predicate LastRunning(p: Policy, fp: string, e: Exemption) {
    exists i :: 0 <= i < |p.exceptions| && p.exceptions[i] == e && e.expiresAt > p.now && Print(e.names) == fp
      && forall j :: i < j < |p.exceptions| ==>
           !(p.exceptions[j].expiresAt > p.now && Print(p.exceptions[j].names) == fp)
  }

  /** What the ladder writes into a finding, and what it leaves. */
  lemma FindingEnds(p: Policy, planned: seq<Assertion>, findings: seq<Finding>, i: nat)
    requires i < |findings|
    ensures var f, g := findings[i], FinalFindings(p, planned, findings)[i];
            && g == f.(fingerprint := g.fingerprint, enforcement := g.enforcement, exceptionId := g.exceptionId,
                       reason := g.reason)
            && g.fingerprint == Some(Print(DebtOf(planned, f)))
            && (g.enforcement == Block <==> FindingBlocks(p, planned, f))
            && (g.enforcement == ExceptionAdvisory <==> FindingExcepted(p, planned, f))
    ensures var f, g := findings[i], FinalFindings(p, planned, findings)[i];
            if FindingExcepted(p, planned, f)
            then exists e :: LastRunning(p, Print(DebtOf(planned, f)), e) && g.exceptionId == Some(e.id)
            else g.exceptionId == f.exceptionId
    ensures var f, g := findings[i], FinalFindings(p, planned, findings)[i];
            var fp := Print(DebtOf(planned, f));
            var spent := FindingBlocks(p, planned, f) && !Expired(p, fp) && p.advisoryExpired && InBaseline(p, fp);
            && (spent && Escalated(p, fp) ==> g.reason == ExpiredSeverityEscalated)
            && (spent && !Escalated(p, fp) ==> g.reason == ExpiredExistingDebt)
            && (!spent ==> g.reason == f.reason)
  {
    hide Print, DebtOf, InBaseline, Escalated, Expired, EvaluatorOf;
    var fp := Print(DebtOf(planned, findings[i]));
    ActiveIffUnexpired(p.exceptions, p.now, fp);
    if Active(p, fp).Some? {
      var k := ActiveIsLast(p.exceptions, p.now, fp);
      assert LastRunning(p, fp, p.exceptions[k]);
    }
  }

  /** A row keeps what it says and blocks exactly when it is UNRESOLVED from stage 2 on, or VIOLATED with a blocking
      finding or with none at all; a VIOLATED row that does not block shows an exception if one of its findings has
      one. */
  lemma RowEnds(p: Policy, planned: seq<Assertion>, findings: seq<Finding>, ledger: seq<Row>, i: nat)
    requires i < |ledger|
    ensures var was, row := ledger[i], FinalLedger(p, planned, findings, ledger)[i];
            && row == was.(enforcement := row.enforcement, reason := row.reason)
            && (row.enforcement == Block <==>
                  (was.outcome == Unresolved && p.stage >= 2)
                  || (was.outcome == Violated
                      && (!HasFinding(findings, was.assertionId)
                          || exists f :: f in findings && f.assertionId == was.assertionId
                                         && FindingBlocks(p, planned, f))))
            && (row.enforcement == ExceptionAdvisory <==>
                  was.outcome == Violated && row.enforcement != Block
                  && exists f :: f in findings && f.assertionId == was.assertionId && FindingExcepted(p, planned, f))
  {
    hide Ruled, Mirror, FindingBlocks, FindingExcepted;
    var was, after := ledger[i], FinalFindings(p, planned, findings);
    forall k | 0 <= k < |findings|
      ensures after[k] in after && after[k].assertionId == findings[k].assertionId
      ensures after[k].enforcement == Block <==> FindingBlocks(p, planned, findings[k])
      ensures after[k].enforcement == ExceptionAdvisory <==> FindingExcepted(p, planned, findings[k])
    {
      FindingEnds(p, planned, findings, k);
    }
    HasFindingAfter(p, planned, findings, was.assertionId);
    RowMirrors(p.stage, after, was);
    RowShowsAfter(p, planned, findings, was.assertionId);
  }

  /** The row by what its judged findings show. */
  lemma RowMirrors(stage: int, after: seq<Finding>, was: Row)
    ensures var row := Mirror(stage, after, was);
            && row == was.(enforcement := row.enforcement, reason := row.reason)
            && (row.enforcement == Block <==>
                  (was.outcome == Unresolved && stage >= 2)
                  || (was.outcome == Violated
                      && (!HasFinding(after, was.assertionId) || Shows(after, was.assertionId, Block))))
            && (row.enforcement == ExceptionAdvisory <==>
                  was.outcome == Violated && row.enforcement != Block
                  && Shows(after, was.assertionId, ExceptionAdvisory))
  {
    NoFindingsIff(after, was.assertionId);
    StrictestIsMaximum(FindingsOf(after, was.assertionId));
    if was.outcome == Violated && HasFinding(after, was.assertionId) { RowIsMaximum(stage, after, was); }
  }

  ghost predicate Shows(after: seq<Finding>, id: string, e: Enforcement) {
    exists g :: g in after && g.assertionId == id && g.enforcement == e
  }

  lemma RowShowsAfter(p: Policy, planned: seq<Assertion>, findings: seq<Finding>, id: string)
    ensures Shows(FinalFindings(p, planned, findings), id, Block) <==>
            exists f :: f in findings && f.assertionId == id && FindingBlocks(p, planned, f)
    ensures Shows(FinalFindings(p, planned, findings), id, ExceptionAdvisory) <==>
            exists f :: f in findings && f.assertionId == id && FindingExcepted(p, planned, f)
  {
    hide Ruled, FindingBlocks, FindingExcepted;
    var after := FinalFindings(p, planned, findings);
    forall f | f in findings && f.assertionId == id
      ensures FindingBlocks(p, planned, f) ==> Shows(after, id, Block)
      ensures FindingExcepted(p, planned, f) ==> Shows(after, id, ExceptionAdvisory)
    {
      var k :| 0 <= k < |findings| && findings[k] == f;
      FindingEnds(p, planned, findings, k);
      assert after[k] in after;
    }
    forall g | g in after && g.assertionId == id
      ensures g.enforcement == Block ==>
                exists f :: f in findings && f.assertionId == id && FindingBlocks(p, planned, f)
      ensures g.enforcement == ExceptionAdvisory ==>
                exists f :: f in findings && f.assertionId == id && FindingExcepted(p, planned, f)
    {
      var k :| 0 <= k < |after| && after[k] == g;
      FindingEnds(p, planned, findings, k);
      assert findings[k] in findings;
    }
  }

  /** Something blocks: an assertion left open, or a finding nothing excuses. */
  ghost predicate SomethingBlocks(p: Policy, planned: seq<Assertion>, findings: seq<Finding>, ledger: seq<Row>) {
    p.stage >= 2 && ((exists i :: 0 <= i < |ledger| && ledger[i].outcome == Unresolved)
                     || exists f :: f in findings && FindingBlocks(p, planned, f))
  }

  /** At every stage a run's ledger is blocked exactly when a row is UNRESOLVED or a finding blocks, from stage 2 on. */
  lemma BlocksIff(p: Policy, planned: seq<Assertion>, findings: seq<Finding>, ledger: seq<Row>)
    requires Accounted(ledger, findings)
    ensures Blocks(p, planned, findings, ledger) <==> SomethingBlocks(p, planned, findings, ledger)
  {
    hide Ruled, Mirror, FindingExcepted;
    var rows := FinalLedger(p, planned, findings, ledger);
    BlocksIffSomeRowBlocks(p, planned, findings, ledger);
    forall i | 0 <= i < |ledger|
      ensures rows[i].enforcement == Block <==>
              (ledger[i].outcome == Unresolved && p.stage >= 2)
              || (ledger[i].outcome == Violated
                  && exists f :: f in findings && f.assertionId == ledger[i].assertionId
                                 && FindingBlocks(p, planned, f))
    {
      RowEnds(p, planned, findings, ledger, i);
    }
    forall f | f in findings && FindingBlocks(p, planned, f) ensures SomeRowBlocks(rows) {
      assert HasViolatedRow(ledger, f.assertionId);
      var i :| 0 <= i < |ledger| && ledger[i].outcome == Violated && ledger[i].assertionId == f.assertionId;
      assert rows[i].enforcement == Block;
    }
    if i :| 0 <= i < |ledger| && ledger[i].outcome == Unresolved && p.stage >= 2 {
      assert rows[i].enforcement == Block;
    }
  }

  /** The exit code of a decided run: 20 exactly when something blocks, 0 exactly when every row is SATISFIED, and 10
      otherwise. */
  lemma ExitIff(p: Policy, planned: seq<Assertion>, findings: seq<Finding>, ledger: seq<Row>)
    requires Accounted(ledger, findings)
    ensures var code := Exit(p, planned, findings, ledger);
            && code in {0, 10, 20}
            && (code == 20 <==> SomethingBlocks(p, planned, findings, ledger))
            && (code == 20 <==> SomeRowBlocks(FinalLedger(p, planned, findings, ledger)))
            && (code == 0 <==> AllSatisfied(ledger))
  {
    hide Decide, SomethingBlocks, FinalLedger, Blocks;
    BlocksIff(p, planned, findings, ledger);
    BlocksIffSomeRowBlocks(p, planned, findings, ledger);
    SameSatisfied(p, planned, findings, ledger);
    if AllSatisfied(ledger) { SatisfiedHasNoFindings(p, planned, findings, ledger); }
  }

  lemma SameSatisfied(p: Policy, planned: seq<Assertion>, findings: seq<Finding>, ledger: seq<Row>)
    ensures AllSatisfied(FinalLedger(p, planned, findings, ledger)) <==> AllSatisfied(ledger)
  {
    hide Ruled, Mirror;
    var l := FinalLedger(p, planned, findings, ledger);
    forall i | 0 <= i < |ledger| ensures l[i].outcome == ledger[i].outcome {
      RowEnds(p, planned, findings, ledger, i);
    }
  }

  lemma SatisfiedHasNoFindings(p: Policy, planned: seq<Assertion>, findings: seq<Finding>, ledger: seq<Row>)
    requires Accounted(ledger, findings) && AllSatisfied(ledger)
    ensures !SomethingBlocks(p, planned, findings, ledger)
  {
    hide FindingBlocks;
  }

  /** A finding is excused by an exception: one is in force and none has expired. */
  ghost predicate Excused(p: Policy, planned: seq<Assertion>, f: Finding) {
    var fp := Print(DebtOf(planned, f));
    Active(p, fp).Some? && !Expired(p, fp)
  }

  /** At the last stage only exceptions save a run: it passes the gate, and does not exit with 20, exactly when every
      row is resolved and every finding has an exception in force and none that expired. */
  lemma FullEnforcementIff(p: Policy, planned: seq<Assertion>, findings: seq<Finding>, ledger: seq<Row>)
    requires p.stage >= 4 && Accounted(ledger, findings)
    ensures !Blocks(p, planned, findings, ledger) <==>
            (forall i :: 0 <= i < |ledger| ==> ledger[i].outcome != Unresolved)
            && (forall f :: f in findings ==> Excused(p, planned, f))
    ensures Exit(p, planned, findings, ledger) == 20 <==> Blocks(p, planned, findings, ledger)
  {
    hide Exit, Blocks, Print, DebtOf, Expired, Active, Running, InBaseline, Escalated;
    BlocksIff(p, planned, findings, ledger);
    ExitIff(p, planned, findings, ledger);
    forall f ensures FindingBlocks(p, planned, f) <==> !Excused(p, planned, f) {
      RunningIffActive(p, Print(DebtOf(planned, f)));
    }
  }

  /** The same in terms of what baseline and exceptions name. */
  ghost predicate BlocksByName(p: Policy, planned: seq<Assertion>, f: Finding) {
    var d := DebtOf(planned, f);
    var excused := Adopted(p, d) && !AdoptedTooLow(p, d) && !p.advisoryExpired
                   && BaselineCounts(p, planned, f.assertionId);
    p.stage >= 2 && (ExceptionLapsed(p, d) || (!ExceptionRunning(p, d) && !excused))
  }

  lemma BlocksByNamesIff(p: Policy, planned: seq<Assertion>, findings: seq<Finding>, ledger: seq<Row>)
    requires Accounted(ledger, findings)
    requires forall f :: f in findings ==> BarFreePolicy(p, DebtOf(planned, f))
    ensures Blocks(p, planned, findings, ledger) <==>
            p.stage >= 2 && ((exists i :: 0 <= i < |ledger| && ledger[i].outcome == Unresolved)
                             || exists f :: f in findings && BlocksByName(p, planned, f))
  {
    hide Blocks, FindingBlocks, BlocksByName, DebtOf, BarFreePolicy;
    BlocksIff(p, planned, findings, ledger);
    forall f | f in findings ensures FindingBlocks(p, planned, f) <==> BlocksByName(p, planned, f) {
      FindingBlocksByName(p, planned, f);
    }
  }

  lemma FindingBlocksByName(p: Policy, planned: seq<Assertion>, f: Finding)
    requires BarFreePolicy(p, DebtOf(planned, f))
    ensures FindingBlocks(p, planned, f) <==> BlocksByName(p, planned, f)
  {
    hide Print, DebtOf, InBaseline, Escalated, Expired, Active, Adopted, AdoptedTooLow, ExceptionRunning,
         ExceptionLapsed, EvaluatorOf, BaselineCounts, Running;
    BaselineNamesExactly(p, DebtOf(planned, f));
    ExceptionsNameExactly(p, DebtOf(planned, f));
    RunningIffActive(p, Print(DebtOf(planned, f)));
  }

  lemma RunningIffActive(p: Policy, fp: string)
    ensures Running(p, fp) <==> Active(p, fp).Some?
  {
    hide Print;
    ActiveIffUnexpired(p.exceptions, p.now, fp);
  }

  // ----- What a row says about its findings -----

  /** Whether the finding at `k` is one of `id` with this enforcement. */
  ghost predicate IsPlace(after: seq<Finding>, id: string, e: Enforcement, k: nat) {
    k < |after| && after[k].assertionId == id && after[k].enforcement == e
  }

  /** Where the findings of `id` with this enforcement stand. */
  ghost function Places(after: seq<Finding>, id: string, e: Enforcement): set<nat> {
    set k: nat | k < |after| && IsPlace(after, id, e, k)
  }

  lemma {:induction false} CountIsPlaces(after: seq<Finding>, id: string, e: Enforcement)
    ensures Count(FindingsOf(after, id), e) == |Places(after, id, e)|
  {
    hide FindingsOf, Count, Places;
    if after == [] {
      NoFindingsNoCount(id, e);
      NoPlaces(id, e);
    } else {
      CountIsPlaces(after[..|after| - 1], id, e);
      CountAppend(after, id, e);
      PlacesAppend(after, id, e);
    }
  }

  lemma NoPlaces(id: string, e: Enforcement)
    ensures Places([], id, e) == {}
  {
  }

  lemma PlacesAppend(after: seq<Finding>, id: string, e: Enforcement)
    requires after != []
    ensures var n: nat := |after| - 1;
            |Places(after, id, e)| == |Places(after[..n], id, e)| + if IsPlace(after, id, e, n) then 1 else 0
  {
    hide Places, IsPlace;
    var n: nat := |after| - 1;
    var init := after[..n];
    forall k: nat ensures k in Places(init, id, e) <==> k < n && k in Places(after, id, e) {
      PlaceIn(init, id, e, k);
      PlaceIn(after, id, e, k);
      PlaceStays(after, id, e, n, k);
    }
    PlaceIn(after, id, e, n);
    forall k: nat | k in Places(after, id, e) ensures k <= n { PlaceIn(after, id, e, k); }
    OneMore(Places(after, id, e), Places(init, id, e), n);
  }

  lemma PlaceIn(after: seq<Finding>, id: string, e: Enforcement, k: nat)
    ensures k in Places(after, id, e) <==> k < |after| && IsPlace(after, id, e, k)
  {
  }

  lemma PlaceStays(after: seq<Finding>, id: string, e: Enforcement, n: nat, k: nat)
    requires n <= |after|
    ensures IsPlace(after[..n], id, e, k) <==> k < n && IsPlace(after, id, e, k)
  {
  }

  lemma OneMore(now: set<nat>, before: set<nat>, n: nat)
    requires forall k: nat :: k in before <==> k < n && k in now
    requires forall k: nat :: k in now ==> k <= n
    ensures |now| == |before| + if n in now then 1 else 0
  {
    if n in now {
      assert now == before + {n};
    } else {
      assert now == before;
    }
  }

  /** The softer enforcements among the findings, each with its number, softest first. */
  ghost predicate ListsSofter(softer: seq<(Enforcement, nat)>, after: seq<Finding>, id: string, own: Enforcement) {
    && (forall e, n :: (e, n) in softer <==> e != own && n == |Places(after, id, e)| && n > 0)
    && (forall i, j :: 0 <= i < j < |softer| ==> Rank(softer[i].0) < Rank(softer[j].0))
  }

  lemma SofterLists(after: seq<Finding>, id: string, own: Enforcement)
    ensures ListsSofter(Softer(FindingsOf(after, id), own), after, id, own)
  {
    hide FindingsOf, Count, Places;
    forall e ensures Count(FindingsOf(after, id), e) == |Places(after, id, e)| { CountIsPlaces(after, id, e); }
  }

  /** A row's reason is its own unless it is VIOLATED: without findings it says so, and with findings of several
      enforcements it gives their number, the strictest and how many of each softer one there are. */
  lemma RowReason(p: Policy, planned: seq<Assertion>, findings: seq<Finding>, ledger: seq<Row>, i: nat)
    requires i < |ledger|
    ensures var was, row := ledger[i], FinalLedger(p, planned, findings, ledger)[i];
            var after, id := FinalFindings(p, planned, findings), was.assertionId;
            && (was.outcome != Violated ==> row.reason == was.reason)
            && (was.outcome == Violated && !HasFinding(findings, id) ==> row.reason == WithoutFindingDetail)
            && (was.outcome == Violated && HasFinding(findings, id) ==>
                  if forall e :: e != row.enforcement ==> |Places(after, id, e)| == 0 then row.reason == was.reason
                  else
                    && row.reason.MultiFinding? && row.reason.mirrors == row.enforcement
                    && row.reason.findings == |Places(after, id, Advisory)| + |Places(after, id, ExceptionAdvisory)|
                                              + |Places(after, id, Block)|
                    && ListsSofter(row.reason.softer, after, id, row.enforcement))
  {
    hide Ruled, Places, Count, FindingsOf, Softer, ListsSofter, Strictest;
    var was, after, id := ledger[i], FinalFindings(p, planned, findings), ledger[i].assertionId;
    HasFindingAfter(p, planned, findings, id);
    NoFindingsIff(after, id);
    forall e ensures Count(FindingsOf(after, id), e) == |Places(after, id, e)| { CountIsPlaces(after, id, e); }
    CountsDecide(FindingsOf(after, id));
    SofterLists(after, id, Strictest(FindingsOf(after, id)));
    NothingSofterIff(after, id, Strictest(FindingsOf(after, id)));
  }

  lemma NothingSofterIff(after: seq<Finding>, id: string, own: Enforcement)
    ensures Softer(FindingsOf(after, id), own) == [] <==> forall e :: e != own ==> |Places(after, id, e)| == 0
  {
    hide FindingsOf, Count, Places;
    forall e ensures Count(FindingsOf(after, id), e) == |Places(after, id, e)| { CountIsPlaces(after, id, e); }
  }
}

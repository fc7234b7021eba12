/** The decision and exit-code matrix of hub/coherence/result.py and the advisory-age cap of hub/coherence/report.py. */
module Decision {
  import opened Common
  import opened Assertions

  datatype ErrorClass
    = InvalidInput | PolicyResolution | Evaluator | Execution | Evidence | Attestation | Protocol | Other

  datatype Decision = Pass | AdvisoryOnly | Fail | Error

  function ErrorExit(c: ErrorClass): int {
    match c
    case InvalidInput => 30
    case PolicyResolution => 31
    case Evaluator | Execution | Other => 32
    case Evidence | Attestation => 33
    case Protocol => 40
  }

  predicate SomeOutcome(ledger: seq<Row>, o: Outcome) {
    exists i :: 0 <= i < |ledger| && ledger[i].outcome == o
  }

  ghost predicate AllSatisfied(ledger: seq<Row>) {
    forall i :: 0 <= i < |ledger| ==> ledger[i].outcome == Satisfied
  }

  /** The exit codes of the frozen matrix for runs that reach no decision. */
  ghost predicate Refuses(c: ErrorClass, code: int) {
    && (code == 30 <==> c == InvalidInput)
    && (code == 31 <==> c == PolicyResolution)
    && (code == 32 <==> c in {Evaluator, Execution, Other})
    && (code == 33 <==> c in {Evidence, Attestation})
    && (code == 40 <==> c == Protocol)
  }

  /** `decide`; without the ladder's verdict, any open row blocks from stage 2 to stage 4. */
  function Decide(ledger: seq<Row>, stage: int, error: Option<ErrorClass>, blocked: Option<bool>): (r: (Decision, int))
    ensures error.Some? ==> r.0 == Error && Refuses(error.value, r.1)
    ensures error.None? ==> r in {(Pass, 0), (AdvisoryOnly, 10), (Fail, 20)}
    ensures error.None? ==>
              (r == (Fail, 20) <==>
               if blocked.Some? then blocked.value else stage in {2, 3, 4} && !AllSatisfied(ledger))
    ensures error.None? ==> (r == (Pass, 0) <==> AllSatisfied(ledger) && blocked != Some(true))
  {
    if error.Some? then (Error, ErrorExit(error.value))
    else
      var open := SomeOutcome(ledger, Violated) || SomeOutcome(ledger, Unresolved);
      var blocks := if blocked.Some? then blocked.value else 2 <= stage <= 4 && open;
      if blocks then (Fail, 20) else if open then (AdvisoryOnly, 10) else (Pass, 0)
  }

  /** The adoption record of a repository: when its advisory stage began and when it was renewed until. */
  datatype AdoptionRecord = AdoptionRecord(started: Option<int>, expiry: Option<int>)

  const DAY := 86400

  /** `advisory_age(...)["expired"]`: an explicit expiry overrides the central cap; a cap of 0 is none. */
  predicate AdvisoryAgeExpired(record: AdoptionRecord, stage: int, capDays: int, now: int) {
    && stage != 0
    && record.started.Some?
    && if record.expiry.Some? then record.expiry.value <= now
       else capDays != 0 && now - record.started.value > capDays * DAY
  }

  /** Without a renewal date, the advisory age is exceeded once more than the cap's days have passed; with one, from
      that instant on. At stage 0, and without a recorded start, nothing expires. */
  lemma AdvisoryAgeExpiredIff(record: AdoptionRecord, stage: int, capDays: int, now: int)
    ensures AdvisoryAgeExpired(record, stage, capDays, now) <==>
            exists start: int :: record.started == Some(start) && stage != 0
              && (record.expiry.None? ==> capDays != 0 && start + capDays * 24 * 60 * 60 < now)
              && (record.expiry.Some? ==> record.expiry.value <= now)
  {
    if record.started.Some? {
      var start := record.started.value;
      assert record.started == Some(start);
    }
  }
}

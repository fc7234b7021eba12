# Verified model of the coherence gate and its neighbours

A Dafny model of the spec-coherence decision pipeline (`hub/coherence/`) and of five small algorithms
around it, with proofs of what they promise.

**The decision pipeline.** A repository overlay is applied to a package of assertions (`Overlay`), the
planner orders them by a depth-first search over their dependencies (`Planner`), the evaluator runs them in
that order and writes one ledger row each (`Evaluation`), the adoption ladder turns findings and rows into
enforcement under a stage, a baseline, exceptions, severity floors and an advisory-age cap (`Ladder`,
`LadderLaws`), and a matrix turns the ledger into an exit code (`Decision`). `Pipeline` composes them as the
main program does.

**Identity and sealing.** Every identity is a digest of canonical bytes. `Canon` is the printer with its
injectivity, `Json` a reader for the grammar of RFC 8259 that reads canonical text back, `KeyOrder` compares the
printer's key order with the standard's, `Digests` has the role-tagged preimages, `Package` the package digest, `Cache`
the result cache, `Evidence` the sealed bundle, `Redaction` what redaction before sealing achieves, `Attestation`
signing and verification. `SealingLaws` shows that what is sealed verifies and that what verifies is as sealed,
`Acceptance` what is accepted at all, whatever the files; `Stamps` has the time stamps of signer windows, as text and as
instants.

**Neighbours.** The claim lifecycle (`Claims`), the unified-diff parser (`DiffParser`, `DiffLaws`), the overlay
merge of the failure registry and its second implementation (`RegistryMerge`), the crash-safe
mutate-and-restore protocol (`Sidecar`) and the hub's enroll, heartbeat and revoke handlers interleaving
around one lock (`Hub`).

`Common`, `Decimal`, `Text`, `TextOrder`, `Escaping`, `Documents`, `Assertions` and `Severity` are shared
vocabulary: option and result types, decimal numerals, `split`/`strip`, string order and sorting, JSON string
escaping, dict lookups, and the records that travel down the pipeline.

## How the model reads

- Loops over mutable state are methods or classes proved against a function or predicate; the laws are
  proved about that function or predicate.
- SHA-256 is a parameter `Hash`. Laws that compare digests require it to be collision-free, the file-naming
  law requires it to print hexadecimal digits, and neither fixes its length. HMAC is a parameter `Mac` that prints
  hexadecimal digits; `Acceptance.AcceptedRunIsTheSealedOne` also asks that no approved key gives the sealed run's code
  to another text, and nothing else is assumed about it.
- `json.loads` is a parameter `Loads`: it yields dicts (no key twice), and canonical text reads back as an equal
  value; the reader of `Json` is one that does. `Same` is equality of values with objects compared as maps; it tells `true` from `1`, as the printed
  text does and Python's `==` does not.
- Byte strings are strings of one-byte characters; text is a sequence of Unicode scalar values, since a
  surrogate pair and the character it stands for print alike.
- Instants are integers; the stamps of a signer window are local times with an optional fraction of a second and an
  offset (`Stamps`), compared as text as the code does and proved against the instants they stand for.
- A record type stands for a document that has passed its schema. An uncaught exception on a document of
  another shape is an explicit `Raise`, `Raised` or `Traceback` outcome where the code can meet one.
- Evaluators, captured facts and "did the subject drift" are the abstract `World` of `Evaluation`.

## What the code does that its documentation does not say

- The canonical profile is introduced as a restricted subset of RFC 8785; the code orders keys by code point (section
  3.2.3 orders them by UTF-16 unit, `KeyOrder.SortedOrderIsRfcIff` says when that differs) and escapes every
  character outside ASCII (section 3.2.2.2 writes them).
- A captured-fact subject may lack `fact_id`. If it is the first unbound one of its assertion, the run stops with a
  `KeyError` (`Evaluation.Run`); behind an unbound one that is named, the assertion gets its UNRESOLVED row.
- An overlay severity is compared with the central floor only. `Overlay.OverlayCanLower` lowers a critical
  assertion; `Overlay.OverlayLowersIff` says exactly when some overlay can.
- Nothing about an added assertion is checked but its id, although the documentation lists unapproved evaluators
  and severities below the floor among the rejections. A centrally required id can enter below its floor on an
  unapproved evaluator (`Overlay.RequiredEntersBelowFloor`); everything an overlay gives is allowed exactly when its
  additions are (`Overlay.OverlayGivenAllowedIff`).
- Disabling an id and adding it back passes the overlay check (`Overlay.ReaddIsAccepted`); only the planner refuses
  the duplicate, and `Overlay.DistinctIffNothingReadded` says exactly when there is one.
- `|` in a violation class makes fingerprints ambiguous, always.
- An added line whose text begins with `++` is lost to the diff parser, and after a context line written as an empty
  line the added lines of the hunk get smaller numbers. Every other diff that is printed in the model is reported
  exactly (`DiffLaws.ParseInvertsRender`).
- `verify_independently` on a terminal claim records its `ok` before it raises.
- Evidence files are named by sixteen digits of their digest. A bundle verifies exactly when no two objects
  of different digest got the same name, and for every hash such a pair exists (`Evidence.NamesClash`).
- A secret can be put together by the redaction of another one: scrubbing `éü` of the secrets `é[` and `ü` leaves
  `é[REDACTED]`. The re-check before sealing reads the escaped text, so it is blind to every character outside
  printable ASCII, and this finding is sealed without an error (`Redaction.SilentlySealed`). `Redaction.NeverSilentIff` says exactly which secrets
  that can happen to; a secret without square brackets is safe (`Redaction.WithoutBracketsNotSilent`).
- A secret that is part of a field name, such as `key`, makes every finding unsealable
  (`Redaction.FieldNameStopsSealing`).
- Signer windows compare time stamps as text. A signer set may mix offsets, or stamps with and without a fraction of a
  second, and then an expired signer can verify (`SealingLaws.ExpiredSignerAccepted`, `Stamps.HalfSecondReadsOpen`).
  The test is right for all times exactly when all stamps are laid out on one clock (`Stamps.WindowIsTimeIff`).
- The mutation run's main program demands a clean working tree before it recovers, so under git no later run repairs
  what a crash left (`Sidecar.LaterRunsRepairIff`); the backup write has to be taken as atomic
  (`Sidecar.BackupMustBeAtomic`).
- A one-time enrolment token that is still configured comes back at every start of the hub, spent or not
  (`Hub.SpentTokenComesBack`); a start keeps spent tokens spent exactly when none of them is configured
  (`Hub.SpentOnceAcrossStartIff`).
- The hub looks for a taken name outside the lock that commits the enrolment, so names are unique only when
  handlers are serialised.

## Model

| member | source | states |
|---|---|---|
| Canon.PrintCancel | hub/coherence/canon.py:55-61 | two printed values followed by anything agree only if the values and what follows agree: the printer is injective and prefix-free (numbers need a following stop) |
| Canon.NormEqualIffSame | hub/coherence/canon.py:58-60 | sorting keys at every level forgets insertion order and nothing else |
| Canon.CanonEqualIffSame | hub/coherence/canon.py:33-61 | within the profile, canonical bytes are equal if and only if the values are equal, with objects as maps and `true` apart from `1` |
| KeyOrder.OrdersAgreeIff | hub/coherence/canon.py:58-60 | code-point order and UTF-16 order agree on two keys exactly when they do not first differ in a basic-plane character above the surrogates against an astral one |
| KeyOrder.SortedOrderIsRfcIff | hub/coherence/canon.py:58-60 | entries sorted by key are in the order of RFC 8785 exactly when no two of its keys differ that way |
| Canon.ObjectsSelfDelimiting | hub/coherence/canon.py:55-61 | an object's canonical bytes can be split off from whatever follows them |
| Canon.CanonPrintable | hub/coherence/canon.py:58-61 | canonical text is printable ASCII whatever the strings hold |
| Canon.NormInProfile | hub/coherence/canon.py:33-52 | the profile check does not depend on key order, at any depth |
| Canon.PrintedIff | hub/coherence/canon.py:33-52 | a value is printed exactly when nothing in it, at any depth, is foreign to JSON or an integer beyond 64 bits |
| Json.CanonicalReads | hub/coherence/canon.py:55-61 | a reader for the JSON grammar without white space consumes the whole canonical text and yields an equal value, in which the names of every object ascend in code-point order |
| Json.ValueReads | hub/coherence/canon.py:55-61 | what is printed for a value, before any closing character, is read back as that value: literals, integers, escapes with surrogate pairs, arrays and objects |
| Escaping.QuoteCancel | hub/coherence/canon.py:58-61 | quoted, escaped strings are injective and self-delimiting over all scalar values, astral characters included |
| TextOrder.SortEqualIffPermutation | hub/coherence/cache.py:57-65 | two lists sort to the same list exactly when they are permutations of each other |
| Documents.ReaderIsFaithful | hub/coherence/canon.py:55-61 | the reader yields dicts and reads all canonical text back as an equal value, so what is asked of the parser can be met |
| Digests.PreimageInjective | hub/coherence/canon.py:64-72 | tag, zero byte and payload determine role and payload |
| Digests.DigestEqualIff | hub/coherence/canon.py:64-77 | no role's digest stands for another's: equal digests mean equal role and equal bytes |
| Digests.ObjectDigestEqualIff | hub/coherence/canon.py:80-82 | object digests agree exactly when the roles are equal and the objects are the same |
| Package.CheckInventory | hub/coherence/package.py:45-61 | succeeds exactly when every inventory file exists with its recorded digest, and collects the normative entries in order |
| Package.CheckImports | hub/coherence/package.py:63-69 | refuses exactly when some import has no digest |
| Package.Resolve | hub/coherence/package.py:23-98 | succeeds exactly on the supported schema with a non-empty authentic inventory, frozen imports and a canonical manifest, and yields the manifest part and digest; a refusal names a defect that is there |
| Package.PackageSays | hub/coherence/package.py:75-92 | the resolved package says version, id, imports and the normative entries alone, and the optional parts exactly when the manifest has them |
| Package.PayloadDecodable | hub/coherence/package.py:71-97 | manifest bytes followed by the separator-free closure decode uniquely |
| Package.PackageDigestEqualIff | hub/coherence/package.py:96-97 | two resolved packages share a digest exactly when manifests and ordered normative closures are equal |
| Package.InformativeChangesKeepDigest | hub/coherence/package.py:71-75 | changing informative entries alone leaves the digest |
| Package.ReclassificationChangesDigest | hub/coherence/package.py:71-75 | flipping the kind of any one inventory entry changes the digest |
| Planner.Search.Visit | hub/coherence/plan.py:95-109 | one depth-first visit keeps the search invariant, terminates on every graph, only appends, and refuses only with a real cycle or unknown dependency |
| Planner.Search.VisitDependencies | hub/coherence/plan.py:103-106 | visiting the dependencies leaves all of them done, or refuses with cause |
| Planner.CheckTraceability | hub/coherence/plan.py:44-64 | passes exactly when every referenced requirement exists and every testable one is claimed |
| Planner.Duplicates | hub/coherence/plan.py:74-78 | the ids that occur more than once |
| Planner.Precheck | hub/coherence/plan.py:67-89 | passes exactly when evaluators are approved, requirements traceable, ids distinct and required ids present; its errors name a culprit |
| Planner.Plan | hub/coherence/plan.py:67-112 | succeeds exactly on plannable packages, with a permutation of the input in which dependencies come first; input already in order is returned unchanged; every error is justified by the input |
| Planner.ReportShowsCycle | hub/coherence/plan.py:96-99 | the reported path is a dependency walk whose last id already occurs on it, so the graph does have a cycle |
| Planner.OrderedIsAcyclic | hub/coherence/plan.py:95-112 | an order with dependencies first exists only for resolved, acyclic graphs |
| Planner.PlanIsPermutation | hub/coherence/plan.py:91-112 | the plan lists every assertion once and invents none |
| Overlay.CheckChange | hub/coherence/policy.py:312-350 | one change is let through exactly when its target is still there, it disables nothing required, and its severity and evaluator are allowed; a refusal gives the reason that applies |
| Overlay.ApplyChanges | hub/coherence/policy.py:312-350 | all changes pass exactly when each passes against what the earlier ones left; the surviving assertions carry the edits in order; otherwise the first bad change is refused |
| Overlay.AddAll | hub/coherence/policy.py:352-357 | additions pass exactly when none repeats a present id |
| Overlay.Apply | hub/coherence/policy.py:288-366 | succeeds exactly on acceptable overlays and returns survivors in package order followed by additions; every error is explained by the input |
| Overlay.AppliedIds | hub/coherence/policy.py:365-366 | the resulting ids are package minus disabled plus added |
| Overlay.SurvivorIsPatched | hub/coherence/policy.py:312-366 | a surviving assertion is the package's with exactly the overlay's edits |
| Overlay.PatchedIsAllowed | hub/coherence/policy.py:325-350 | whatever the order of edits, a severity or evaluator set by the overlay ends up allowed, and one not set is untouched |
| Overlay.DisabledAndReaddedIsRefused | hub/coherence/policy.py:316-366 | an id disabled and added back makes every plan fail |
| Overlay.ReaddIsAccepted | hub/coherence/policy.py:316-366 | disabling an assertion that is not required and adding it back is let through by the overlay check |
| Overlay.DistinctIffNothingReadded | hub/coherence/policy.py:352-366 | an applied overlay leaves every id once exactly when surviving package ids are distinct and no addition has an id of the package |
| Overlay.PlannedPackage | hub/coherence/policy.py:288-366 | after overlay and planning the planned ids are package minus disabled plus added, every required id is among them, and severities and evaluators that changes gave to package assertions are allowed |
| Overlay.OverlayGivenAllowedIff | hub/coherence/policy.py:312-366 | every severity (evaluator) the overlay gave to a planned assertion is allowed exactly when every addition's own is |
| Overlay.AdditionIsUnchecked | hub/coherence/policy.py:352-357 | any dependency-free assertion on a bundled evaluator is added and planned under a required id, whatever floor and approved evaluators say |
| Overlay.RequiredEntersBelowFloor | hub/coherence/policy.py:352-357 | a required assertion does enter below its floor on an evaluator that is not approved |
| Overlay.OverlayLowersIff | hub/coherence/policy.py:312-350 | some acceptable overlay of some package lowers an assertion exactly when it is above low and the floor is missing or below it |
| Overlay.OverlayCanLower | hub/coherence/policy.py:325-337 | a critical assertion without floor can be lowered to low |
| Evaluation.Evaluate | hub/coherence/evaluate.py:86-141 | one assertion's row, kept findings and first error, with dependency blocking, crash and mutation downgrade |
| Evaluation.Run | hub/coherence/evaluate.py:21-143 | succeeds exactly within the evaluator limit and unless, for some planned assertion on a bundled evaluator, the first unbound captured fact has no id; the result is one judged row per planned assertion |
| Evaluation.LacksFactIdIff | hub/coherence/evaluate.py:69-84 | the run raises at an assertion on a bundled evaluator exactly when its first unbound captured fact has no id |
| Evaluation.MissingFactIdStops | hub/coherence/evaluate.py:69-84 | an assertion whose only subject is a captured fact without an id does stop the run |
| Evaluation.OneRowEach | hub/coherence/evaluate.py:48-143 | the ledger has one row per planned assertion, in plan order, with default enforcement by outcome |
| Evaluation.OutcomeIff | hub/coherence/evaluate.py:48-141 | a row is SATISFIED (VIOLATED) exactly when the evaluator is bundled, all captured facts are bound, every dependency is SATISFIED, the subject did not drift, and the evaluator returned no (some) findings |
| Evaluation.ReasonHolds | hub/coherence/evaluate.py:48-141 | the reason of an UNRESOLVED row has its cause; a missing fact is the first unbound one |
| Evaluation.DecidedNeedsDependency | hub/coherence/evaluate.py:88-99 | a decided row has each direct dependency SATISFIED in an earlier row |
| Evaluation.DecidedNeedsAllDependencies | hub/coherence/evaluate.py:88-99 | a row is SATISFIED or VIOLATED only if every transitive dependency is SATISFIED in an earlier row |
| Evaluation.FindingsAccountForViolations | hub/coherence/evaluate.py:101-141 | every VIOLATED row has a finding and every finding has a VIOLATED row |
| Evaluation.FindingsAreReports | hub/coherence/evaluate.py:101-141 | the findings are the reports of the VIOLATED rows, in the order of plan and reports, each with what the report says |
| Evaluation.NoStrayFindings | hub/coherence/evaluate.py:117-141 | with distinct ids, no row but a VIOLATED one has findings |
| Evaluation.ErrorIffDisturbed | hub/coherence/evaluate.py:86-132 | an execution error is reported exactly when, for some bundled evaluator with its facts bound, a dependency was not SATISFIED, the evaluator crashed or the subject drifted |
| Evaluation.ErrorNamesFirst | hub/coherence/evaluate.py:88-132 | the reported error is that of the first faulty row |
| Fingerprint.Mk | hub/coherence/evaluators.py:202-221 | a finding carries its assertion's id and the class it was made with |
| Fingerprint.Injective | hub/coherence/adoption.py:19-21 | without bars in id and class, fingerprints agree exactly when id, version, location and class agree |
| Fingerprint.BarInClassIsAmbiguous | hub/coherence/adoption.py:19-21 | every class with a bar shares its fingerprint with another location and class |
| Fingerprint.ClassRecoveredIff | hub/coherence/adoption.py:24-34 | the class printed into a finding key is recovered exactly when it has no bar |
| Fingerprint.ClassFallback | hub/coherence/adoption.py:24-34 | without a recorded class, a key of three or more fields gives what follows its last bar, any other `unknown` |
| Ladder.ValidateExceptions | hub/coherence/adoption.py:55-61 | exceptions pass exactly when none has a wildcard scope |
| Ladder.ReadBaseline | hub/coherence/adoption.py:99-124 | the known and escalated fingerprints are those of open entries, escalated when the floor rose above the adopted severity |
| Ladder.ReadExceptions | hub/coherence/adoption.py:126-136 | a fingerprint is excused by the last unexpired exception naming it and expired when an expired one does |
| Ladder.JudgeFindings | hub/coherence/adoption.py:138-172 | every finding is rewritten in place to its verdict; the flag says whether one blocks |
| Ladder.Tally | hub/coherence/adoption.py:199-206 | the strictest enforcement of a row's findings and how often each occurs |
| Ladder.MirrorRows | hub/coherence/adoption.py:184-217 | every row is rewritten in place to mirror its findings; the flag says whether one blocks |
| Ladder.Apply | hub/coherence/adoption.py:64-219 | the ladder rewrites findings and ledger in place, reports a block exactly when a finding or row blocks, and changes nothing when it refuses |
| LadderLaws.ActiveIffUnexpired | hub/coherence/adoption.py:126-136 | a finding has an active exception exactly when some exception naming it is unexpired |
| LadderLaws.DebtNames | hub/coherence/adoption.py:95-145 | a finding is named by its id, first location, class, and the version of its planned assertion |
| LadderLaws.CapCounts | hub/coherence/__main__.py:230-244 | the advisory cap counts only when the policy blocks on expiry, at the request's stage and time |
| LadderLaws.FindingEnds | hub/coherence/adoption.py:138-172 | each finding gets its fingerprint, its enforcement by exceptions, baseline and stage, the id of the last running exception, and the reason when the advisory age is what blocks it; nothing else changes |
| LadderLaws.RowEnds | hub/coherence/adoption.py:184-217 | a row blocks exactly when it is UNRESOLVED from stage 2 on, or VIOLATED with a blocking finding or none at all; otherwise it shows an exception when a finding has one |
| LadderLaws.RowReason | hub/coherence/adoption.py:184-213 | a VIOLATED row says that it has no finding, or how many findings it has, the strictest enforcement and how many of each softer one |
| LadderLaws.BlocksIff | hub/coherence/adoption.py:126-219 | at every stage a run's ledger is blocked exactly when, from stage 2 on, a row is UNRESOLVED or a finding has a lapsed exception, or no running one and no baseline that still excuses it |
| LadderLaws.BlocksByNamesIff | hub/coherence/adoption.py:126-219 | the same in terms of the debts that baseline and exceptions name, when no id or class has a bar |
| LadderLaws.ExitIff | hub/coherence/result.py:42-72 | on a run's ledger the exit code is 20 exactly when something blocks, which is when a row ends as BLOCK, 0 exactly when every row is SATISFIED, and 10 otherwise |
| LadderLaws.RowIsMaximum | hub/coherence/adoption.py:190-213 | a VIOLATED row carries the maximum enforcement of its findings |
| LadderLaws.VerdictMonotone | hub/coherence/adoption.py:138-172 | raising the stage or advancing time never softens a finding's verdict |
| LadderLaws.LadderMonotone | hub/coherence/adoption.py:126-217 | raising the stage or advancing time never softens a finding or row and never lowers the exit code |
| LadderLaws.BlocksIffSomeRowBlocks | hub/coherence/adoption.py:126-219 | for evaluator ledgers the run is blocked exactly when some row is BLOCK |
| LadderLaws.BlocksBelowRatchetIff | hub/coherence/adoption.py:145-197 | at stage 0 or 1 the ladder blocks exactly when some VIOLATED row has no finding |
| LadderLaws.RunNeverBlocksBelowRatchet | hub/coherence/adoption.py:145-197 | after an evaluator run, nothing blocks at stage 0 or 1 |
| LadderLaws.FullEnforcementIff | hub/coherence/adoption.py:138-219 | at stage 4 a run passes the ladder, and does not exit with 20, exactly when no row is UNRESOLVED and every finding has an unexpired exception and no expired one |
| LadderLaws.LadderIgnoresOrder | hub/coherence/adoption.py:126-219 | permuting the findings changes no row, no reason, no block and no exit code |
| LadderLaws.BaselineNamesExactly | hub/coherence/adoption.py:99-105 | a finding is in the baseline, or escalated, exactly when an open entry, or one adopted below the floor, names its id, version, location and class |
| LadderLaws.ExceptionsNameExactly | hub/coherence/adoption.py:126-136 | a finding meets a running (lapsed) exception exactly when one names it |
| LadderLaws.VerdictByNames | hub/coherence/adoption.py:37-172 | fingerprints aside: a finding blocks from stage 2 on exactly when a lapsed exception names it, or no running one does and it is not debt the baseline names, adopted high enough, within the age cap, at a stage and evaluator the baseline still counts for |
| Decision.Decide | hub/coherence/result.py:42-72 | an error gives ERROR and the code of its class; otherwise 20 exactly when the ladder blocks (without its verdict: at stages 2 to 4 with a row not SATISFIED), 0 exactly when every row is SATISFIED and nothing blocks, 10 otherwise |
| Decision.AdvisoryAgeExpiredIff | hub/coherence/report.py:19-69 | the advisory age is exceeded at the renewal date, or without one when more than the cap's days have passed since the recorded start, and never at stage 0 |
| Severity.AboveIff | hub/coherence/policy.py:274 | one severity is above another exactly when both are among low, medium, high, critical and it stands later |
| Pipeline.Prepare | hub/coherence/__main__.py:200-214 | succeeds exactly on packages that pass overlay and planner, and plans them; 30 exactly when the overlaid package cannot be planned, 31 exactly when the overlay is refused, the uncaught error exactly when an unranked floor stops it |
| Pipeline.Gate | hub/coherence/__main__.py:200-270 | every exit has its exact cause, on a plan of the overlaid package: 30 unplannable, 31 refused overlay or wildcard exception, 32 limit or execution error, uncaught exception for an unranked floor or a missing fact id, 20 exactly when, from stage 2 on, a row is UNRESOLVED or a finding blocks, which is when a row ends as BLOCK, 0 exactly when every row is SATISFIED, and 10 otherwise; PASS means every centrally required assertion is SATISFIED |
| Pipeline.PassMeansRequiredSatisfied | hub/coherence/__main__.py:200-270 | a run that exits 0 has every row and every required id SATISFIED |
| Evidence.ObjectPath | hub/coherence/evidence.py:37-54 | whatever the assertion id, a sealed object lands at evidence/findings in the bundle |
| Evidence.SealStaysInside | hub/coherence/evidence.py:98-125 | a finding is sealable exactly when its id is well-formed and its scrubbed bytes hold no secret; the containment check never fires |
| Evidence.DotsLead | hub/coherence/evidence.py:37-54 | in a path, empty components and dots lead nowhere, `..` takes a name back, and above the root there is nothing |
| Evidence.NamesDescend | hub/coherence/evidence.py:37-54 | plain names lead down one after the other |
| Evidence.Bundle.Seal | hub/coherence/evidence.py:71-143 | seals every finding and the manifest, or stops at the first faulty finding with exactly the earlier ones written; findings get their references in place |
| Evidence.ObjectReads | hub/coherence/evidence.py:105-113 | the object sealed for a finding reads back as its id, key, locations, expectation and observation with the secrets taken out |
| Evidence.ExhibitSays | hub/coherence/evidence.py:98-136 | path, digest and retention class of a sealed object |
| Evidence.ManifestReads | hub/coherence/evidence.py:130-143 | the manifest reads back as the list of the sealed objects with path, digest, assertion and retention class, in order |
| Redaction.ReplaceKeepsOut | hub/coherence/evidence.py:57-62 | redacting one secret removes every occurrence of it and brings no other into being that cannot overlap the marker |
| Redaction.ScrubFinalIff | hub/coherence/evidence.py:57-68 | a granted secret is gone from every scrubbed text, whatever else is granted, exactly when it cannot overlap the marker |
| Redaction.TouchesWithoutBrackets | hub/coherence/evidence.py:57-62 | a secret without square brackets can overlap the marker exactly when it is part of the marker's word |
| Redaction.ReCheckSeesIff | hub/coherence/evidence.py:111-116 | what is left of a secret without quotes and backslashes, in any text or key of any value, shows in the canonical bytes exactly when the secret is printable ASCII |
| Redaction.NeverSilentIff | hub/coherence/evidence.py:91-117 | a granted secret is in no evidence that is sealed without an error, whatever the findings and the other secrets, exactly when it cannot overlap the marker or is printable ASCII |
| Redaction.SilentlySealed | hub/coherence/evidence.py:91-117 | a finding observing `éü` is sealed without an error and still holds the granted secret `é[` |
| Redaction.WithoutBracketsNotSilent | hub/coherence/evidence.py:91-117 | a secret without square brackets is in no evidence that is sealed without an error |
| Redaction.FieldNameStopsSealing | hub/coherence/evidence.py:103-117 | a granted secret that is part of a field name makes sealing any finding an error |
| Evidence.LastWriter | hub/coherence/evidence.py:118-136 | an object's file holds the bytes of the last object of that name |
| Evidence.SealedBundleVerifiesIff | hub/coherence/evidence.py:146-171 | an untouched bundle verifies exactly when no two objects of different digest share a name |
| Evidence.NamesClash | hub/coherence/evidence.py:28-30 | for every hexadecimal hash, some two findings that differ only in what was observed are sealed under one name |
| Evidence.DigestFixesManifest | hub/coherence/evidence.py:154-171 | a manifest with the expected digest reads as the sealed manifest |
| Evidence.VerifiedBundleIsUntouched | hub/coherence/evidence.py:146-171 | an accepted bundle has the sealed bytes in every object's file |
| Attestation.SealRun | hub/coherence/attest.py:273-304 | writes decision, attestation when required, and envelope in that order; each failure leaves exactly the earlier artifacts; returns 20 exactly when the ladder blocks, 0 exactly when it does not and every row is SATISFIED, otherwise 10; an attestation is required exactly for fresh promotions from stage 2 on |
| SealingLaws.SignsIff | hub/coherence/attest.py:60-100 | signing succeeds exactly with a key, an evaluator image and a valid attestation, and fails for the first that is missing |
| Acceptance.AttestationReads | hub/coherence/attest.py:60-100 | the signed attestation reads back as decision digest, six bound digests, signer and time, and is signed with the key |
| Acceptance.EnvelopeReads | hub/coherence/attest.py:307-330 | the envelope reads back as decision, exit code, stage, semantics, whether an attestation is required and present, and the artifacts' names |
| Acceptance.SignerAcceptedIff | hub/coherence/attest.py:186-206 | for every attestation the signer check passes for a signer exactly when it is the set's first of the key id given, has the identity given, is not revoked and its window, compared as text, is open |
| Acceptance.SignatureAcceptedIff | hub/coherence/attest.py:209-218 | for every attestation the signature check passes exactly when it holds, as `signature`, the code of the canonical text of its other entries under the signer's key |
| Acceptance.BundleAcceptedIff | hub/coherence/evidence.py:146-171 | for every bundle the evidence check passes exactly when the manifest has the expected digest and each object it lists names a file of the bundle with the listed digest |
| Acceptance.AcceptedIff | hub/coherence/attest.py:107-154 | whatever the files, a run is accepted exactly when its attestation is signed by a signer the set approves, carries the digest of the result's bytes, agrees with the result on the six bound digests, and the bundle passes under the bound manifest digest |
| Acceptance.RefusalHolds | hub/coherence/attest.py:107-206 | whatever the files, a refusal gives a reason there is cause for: a missing or unreadable artifact, an unknown, mismatched, revoked or out-of-window signer, a signature that does not hold, or content the attestation is not about |
| Acceptance.SignedReadsAsSealed | hub/coherence/attest.py:209-218 | an attestation that carries a sealed run's signature, when no approved key gives that code to another text, reads as that run's attestation |
| Acceptance.AcceptedRunIsTheSealedOne | hub/coherence/attest.py:107-154 | an accepted run that carries a sealed run's signature has its attestation, result bytes, six digests and evidence bytes |
| Acceptance.PromotedIff | hub/coherence/attest.py:157-183 | whatever the files, a candidate is promoted exactly when the run is accepted and its attestation binds the candidate's digest |
| SealingLaws.SignerDecided | hub/coherence/attest.py:186-206 | a signer is accepted exactly when it is the set's first of that key id, has that identity, is not revoked and its window, compared as text, is open |
| SealingLaws.SignatureDecided | hub/coherence/attest.py:209-218 | after writing, key sorting and parsing, the signature is accepted exactly when the set's key gives the same code as the signing key |
| SealingLaws.CarriesIffMatch | hub/coherence/attest.py:141-148 | the bound-digest loop passes exactly when the result names all six bound digests |
| SealingLaws.SealedRunVerifiesIff | hub/coherence/attest.py:107-154 | a sealed run verifies exactly when the signer set admits its signer with a matching key, window compared as text, its result names the bound digests, and no evidence names clash |
| SealingLaws.AcceptedRunIsAsSealed | hub/coherence/attest.py:107-154 | with the attestation file unchanged, acceptance means the signer is admitted with a matching key, and result bytes, six bound digests and every evidence object are as sealed |
| Stamps.TextIsTimeIff | hub/coherence/attest.py:201-205 | for two layouts, comparing stamps as text is comparing their instants, for all times, exactly when the offsets are equal and either as many digits of a second are written and the first offset text does not sort after the second, or the first writes fewer digits and an offset other than `Z` |
| Stamps.WindowIsTimeIff | hub/coherence/attest.py:201-205 | the window test is right for all times exactly when start and reference time, and reference time and end, are laid out on one clock in that sense |
| Stamps.ClosedWindowReadsOpen | hub/coherence/attest.py:201-205 | a window that closed four and a half hours before the reference instant reads as open |
| Stamps.HalfSecondReadsOpen | hub/coherence/attest.py:201-205 | with all stamps in `Z`, a window that closed half a second before the reference instant reads as open |
| Stamps.DaysAreOrdinals | hub/coherence/attest.py:201-205 | the days behind the instants are those of the Gregorian calendar, in closed form |
| SealingLaws.SealedRunVerifiesOnTimeIff | hub/coherence/attest.py:107-206 | with all stamps of the signer set laid out on one clock, a sealed run verifies exactly when the signer's window is open at the reference instant and key, digests and evidence names are in order |
| SealingLaws.ExpiredSignerAccepted | hub/coherence/attest.py:186-206 | with mixed offsets every sealed run that is otherwise in order verifies under a signer that has expired |
| SealingLaws.PromotionBindsCandidate | hub/coherence/attest.py:157-183 | a run promotes its own subject and no other candidate |
| SealingLaws.PromotionRun | hub/coherence/__main__.py:279-316 | sealing evidence, building the result of the findings and sealing the run succeeds exactly when findings are sealable, the result is canonical and the attestation valid; the directory then verifies under a set admitting its signer exactly when no evidence names clash |
| Cache.Directory.Record | hub/coherence/cache.py:91-116 | a put is stored under its complete key exactly when nothing is wrong with it, and otherwise changes nothing |
| Cache.PutAcceptedIff | hub/coherence/cache.py:68-106 | a put is accepted exactly when all seven components are there, its time can be read, retained references are some and not empty, and a signer names its set |
| Cache.RefusalApplies | hub/coherence/cache.py:57-106 | a refusal names a fault the put has |
| Cache.DriftHolds | hub/coherence/cache.py:138-145 | the component named by a drift is one in which the materials differ |
| Cache.MissReasonHolds | hub/coherence/cache.py:147-181 | a record that is not reused is refused for a reason that holds |
| Cache.KeyEqualIff | hub/coherence/cache.py:68-88 | complete materials share a key exactly when all seven components agree, lists as multisets |
| Cache.DriftIff | hub/coherence/cache.py:138-145 | the re-check of a stored record reports drift exactly when its material does not agree |
| Cache.LookupAfterPuts | hub/coherence/cache.py:119-181 | after any puts, a lookup is decided by the most recent accepted put of the same identity alone |
| Cache.HitIff | hub/coherence/cache.py:119-181 | a hit returns exactly that put's bytes, and only inside its TTL window and with every needed check passed |
| Cache.PutThenGet | hub/coherence/cache.py:91-181 | a put decides later lookups of its identity and leaves every other lookup unchanged |
| Cache.ForeignRecordMisses | hub/coherence/cache.py:138-145 | even in a store written by somebody else a hit comes from a record naming the identity asked for |
| Claims.Claim.Transition | hub/coherence/verification.py:93-116 | a move happens exactly when the ladder allows it and is logged; VERIFIED needs the independent path |
| Claims.Claim.BindDigest | hub/coherence/verification.py:136-149 | binding is refused exactly for an empty role or digest and otherwise replaces that role's digest, in any state |
| Claims.Claim.VerifyIndependently | hub/coherence/verification.py:186-221 | the recorded check, the state and the exception after an independent verification |
| Claims.MoveAllowedIff | hub/coherence/verification.py:71-116 | an actor's move passes exactly when it stays, goes to a terminal state or takes the next rung, and is then logged |
| Claims.BindAndAttach | hub/coherence/verification.py:136-157 | binding and attaching are refused exactly for an empty argument and otherwise change one field |
| Claims.VerificationLeaves | hub/coherence/verification.py:186-221 | a verification changes nothing when anchors had drifted before; otherwise it records its answer and leaves FAILED after a no, UNKNOWN after a yes about anchors that drifted meanwhile, VERIFIED after any other yes |
| Claims.AnchorIsLastBound | hub/coherence/verification.py:136-149 | after any run a role is anchored to the digest it was last bound to |
| Claims.EvidenceIsAttached | hub/coherence/verification.py:152-157 | after any run the evidence is what was attached, in order |
| Claims.RevalidatedIff | hub/coherence/verification.py:160-183 | the effective state is the claim's own exactly while everything bound is observed as bound, and UNKNOWN otherwise |
| Claims.EveryRunSound | hub/coherence/verification.py:71-116 | after any run the state is the last log entry, the log without repeats climbs the ladder in order, then VERIFIED at most once, then only terminal states, and a VERIFIED claim has a recorded yes |
| Claims.EveryRungEarned | hub/coherence/verification.py:71-90 | a claim on a rung has logged every rung from ATTEMPTED to it |
| Claims.TerminalIsFinal | hub/coherence/verification.py:71-90 | once terminal, always terminal |
| Claims.VerifiedOnlyIndependently | hub/coherence/verification.py:186-221 | a VERIFIED claim got there by an accepting verifier with nothing bound stale, and has stayed VERIFIED since |
| Claims.CertificationRaisesIffTerminal | hub/coherence/verification.py:205-221 | an accepting verification raises exactly on a terminal claim, after recording its yes |
| Claims.EffectiveMeansCertified | hub/coherence/verification.py:173-221 | after any run, a claim that effectively counts as VERIFIED was certified by an accepting verifier, has been VERIFIED since, and everything bound is observed unchanged |
| DiffParser.ParseDiff | scripts/regression_diff.py:44-72 | the parser's loop computes the scan that the laws are about |
| DiffLaws.HeaderSetsCounter | scripts/regression_diff.py:60-63 | a hunk header sets the counter to the first new-side line, whatever old range and heading say |
| DiffLaws.NameReadBackIff | scripts/regression_diff.py:56-59 | a file name is read back exactly when it does not end in white space |
| DiffLaws.FileHeaderNames | scripts/regression_diff.py:56-59 | any `+++ ` line names what it gives stripped, without one leading `b/`, and nothing for `/dev/null` |
| DiffLaws.HunkHeaderNumbers | scripts/regression_diff.py:60-63 | any `@@` line sets the counter to its first number after a plus sign, and to 0 without one |
| DiffLaws.OtherLines | scripts/regression_diff.py:64-71 | of all other lines, one with a leading plus sign but not three is an added line, one with a leading space is counted, and the rest do nothing |
| DiffLaws.ParseInvertsRender | scripts/regression_diff.py:44-72 | parsing a printed diff of any number of files and hunks reports exactly the added lines, if and only if no added text begins with two plus signs and no context line written as an empty line stands before an added line of its hunk |
| DiffLaws.ReportOfRendered | scripts/regression_diff.py:44-72 | without the plus signs, each added line is reported at its number less the blank context lines before it in its hunk |
| DiffLaws.BlankContextShifts | scripts/regression_diff.py:64-71 | one blank context line before an added line makes its number one too small |
| DiffLaws.ReportsAreLocated | scripts/regression_diff.py:64-71 | each reported line stands at its reported number in the new version of its file |
| RegistryMerge.MergeById | scripts/gate_overlay.py:66-85 | the index-backed merge computes the plain merge |
| RegistryMerge.MergeIsOverlayOverBaseline | scripts/gate_overlay.py:66-85 | lookups prefer the overlay, baseline order is kept, new ids follow in overlay order, entries without id all stay, untouched positions are unchanged |
| RegistryMerge.MergeAssociative | scripts/gate_overlay.py:66-85 | merging is associative on all inputs |
| RegistryMerge.MergeIdempotentIff | scripts/gate_overlay.py:66-85 | merging a list with itself changes nothing exactly when every entry has an id |
| RegistryMerge.CheckMerge | scripts/failure_registry_check.py:148-177 | the registry check's own loop merges strictly and reports missing and repeated ids per source |
| RegistryMerge.CheckerAgreesIff | scripts/failure_registry_check.py:148-177 | the two merges agree exactly when the baseline has no repeated usable id and no empty id meets another |
| RegistryMerge.CleanRegistryMergesAlike | scripts/failure_registry_check.py:148-177 | sources in which the registry check finds no missing or repeated id merge alike in both |
| Sidecar.Files.Recover | scripts/mutation_check.py:164-180 | recovery restores the backup and then removes it, and does nothing without one |
| Sidecar.Session | scripts/mutation_check.py:182-192 | entering, writing mutants and leaving perform these file operations in this order |
| Sidecar.RunMutations | scripts/mutation_check.py:207-234 | a run recovers first and then runs its session |
| Sidecar.OriginalIsNeverLost | scripts/mutation_check.py:147-192 | over any number of crashed runs, with torn target writes, the target is the original or the sidecar holds it |
| Sidecar.RecoveryRestores | scripts/mutation_check.py:164-180 | recovery restores the original and removes the sidecar, whatever crashed before; doing it again does nothing |
| Sidecar.FinishedRunRestores | scripts/mutation_check.py:207-234 | a run that ends leaves the original and no sidecar, whatever crashed before |
| Sidecar.LaterRunsRepairIff | scripts/mutation_check.py:195-204 | behind the clean-tree guard of a committed file, any number of later runs leave a crashed file exactly as it is; without git the next run repairs it |
| Sidecar.BackupMustBeAtomic | scripts/mutation_check.py:182-184 | after any history, a run killed with part of the backup written and a run that finishes leave that part in place: the original comes back exactly when all of it had been written |
| Hub.HubState.Consume | hub/registry.py:195-203 | a token is consumed exactly when presented and listed, and then once |
| Hub.HubState.Find | hub/registry.py:205-209 | the first row of that name |
| Hub.HubState.Verify | hub/registry.py:271-276 | a heartbeat token counts exactly when the name's first row is enrolled and its token matches |
| Hub.HubState.EnrollLocked | hub/server.py:161-168 | the locked part of enrolment is the commit step of the state machine, disk included |
| Hub.HubState.HeartbeatLocked | hub/server.py:184-202 | the locked part of a heartbeat is its step of the state machine |
| Hub.HubState.RevokeLocked | hub/server.py:207-227 | the locked part of a revocation is its step of the state machine |
| Hub.ProbeAnswers | hub/server.py:132-160 | before the lock, a malformed name or repository is answered 400, a name with a row 409, anything else waits |
| Hub.ValidRepoIff | hub/server.py:145-148 | a repository is two non-empty parts around one slash |
| Hub.ValidNameIff | hub/server.py:145-159 | a name is not empty and has no white space at its ends |
| Hub.CommitAnswers | hub/server.py:161-172 | a waiting enrolment is answered 200 exactly when it presents a stored token, which is taken out once |
| Hub.StepTouches | hub/registry.py:211-284 | an authentic heartbeat or revocation changes one field of the name's first row and no other row; only a successful commit adds a row |
| Hub.RefusalChangesNothing | hub/server.py:132-227 | a refused step changes neither memory nor disk, a successful one leaves them equal |
| Hub.EnrolledIsAdmitted | hub/server.py:161-168 | a successful commit on a name without a row appends its row with the requested repository and the minted token, enrolled, without a heartbeat |
| Hub.AdmittedUntilRevoked | hub/registry.py:271-284 | through any run a heartbeat for an admitted name is answered 200 exactly when it presents the minted token and the name has not been revoked with it; any other token is refused |
| Hub.LastHeartbeatShown | hub/registry.py:236-269 | after any run the row shows the instant of the last accepted heartbeat |
| Hub.StepConserves | hub/server.py:132-227 | a step either commits an enrolment, spending its one token for one row, or leaves tokens and row count alone |
| Hub.TokensAndRowsConserved | hub/server.py:132-227 | under any interleaving tokens plus rows is constant, and each row was paid for by one token |
| Hub.NoTokenSpentTwice | hub/registry.py:195-203 | under any interleaving no token admits two runners, and a spent one is gone |
| Hub.HubState.AddEnrollmentToken | hub/registry.py:178-180 | a token is appended unless it is listed |
| Hub.HubState.PruneEnrollmentTokens | hub/registry.py:182-193 | the mint-shaped tokens stay, in order; the rest are counted |
| Hub.MintShapedIff | hub/main.py:46 | a mint-shaped token is sixteen or more URL-safe characters, and possibly a line end |
| Hub.ConfiguredIff | hub/main.py:61-69 | a token is configured exactly when it is mint-shaped and a stripped item of the setting |
| Hub.HubState.LoadEnrollmentTokens | hub/main.py:49-75 | memory becomes the start's registry: stored tokens, then configured ones not yet listed, without what is not mint-shaped |
| Hub.StartHub | hub/main.py:88-98 | a start loads, completes and saves the registry, and nothing is waiting |
| Hub.StartTokens | hub/main.py:49-75 | after a start a token is stored exactly when it was stored in mint shape or is configured, and none twice |
| Hub.NeverAgainIff | hub/main.py:88-98 | no run after a start spends any of the given tokens exactly when none is configured and none is stored in mint shape |
| Hub.SpentOnceAcrossStartIff | hub/main.py:88-98 | after any run, no run after the next start spends an already spent token again exactly when none of those is configured |
| Hub.SpentTokenComesBack | hub/main.py:88-98 | a stored token that stays configured admits one runner before a start and another after it |
| Hub.LivesSpendOnce | hub/main.py:88-98 | over any number of starts no token is spent twice, when no start configures a spent one |
| Hub.RevokedAcrossStarts | hub/registry.py:154-176 | a revoked name stays revoked through any number of starts and runs |
| Hub.RevokedForGood | hub/registry.py:271-284 | once a name's row is revoked, no later heartbeat or revocation for it succeeds, whatever happens in between |
| Hub.RevokeRevokes | hub/server.py:207-227 | an authentic revocation succeeds and revokes |
| Hub.CommitKeepsNamesIff | hub/server.py:157-168 | a commit keeps names unique exactly when it is refused or the name is still free at that moment |
| Hub.RunKeepsNamesIff | hub/server.py:132-227 | under any interleaving names end up distinct exactly when every successful commit found its name free at that moment |
| Hub.SerialRunKeepsNames | hub/server.py:132-172 | with serialised handlers names stay unique |
| Hub.SerialEnrollAdmits | hub/server.py:132-172 | alone, an enrolment admits the runner exactly when it is well formed, its name has no row and its token is stored, and otherwise changes nothing |
| Hub.RaceDuplicatesName | hub/server.py:157-168 | two enrolments of one free name that both look before either commits leave two rows |

## Left out

- Polling, issue filing and the HTTP layer: routing, body parsing, status texts.
- Launching containers, signals, time-outs, drills and resource audits.
- Command lines, printing and report layout of every main program.
- SHA-256, HMAC, base64 and JSON parsing: parameters, as said above.
- Regular expressions, globs and rule contents, among them `check_added_against_registry`, and which text
  mutations `mutations_for` proposes: mutants are any texts.
- Walking directories, git metadata and reading files: trees are maps, the subject's drift is an abstract
  predicate, and symbolic links do not occur.
- Time-stamp parsing; read and write failures (`OSError`) and the fallback directory of the result.
- Schema checking, profile and launch validation, `enforced_core_classes`, `check_anti_rollback` and
  `check_advisory_escalation`: chains of single rejections whose results the ladder takes as inputs.
- `_sort_findings` and `_summary`: presentation of the ledger.
- Json.CanonicalReads: the reader takes no white space, fractions, exponents or repeated names, where `json.loads` takes
  them all; canonical text has none of them.
- Evidence.Bundle.Seal: a retention that is not an integer is excluded by type.
- Attestation.SealRun: the schema check of the finished attestation is a parameter, keys are given as
  bytes (their hexadecimal form is not modelled), and the result is any dict that has a decision.
- SealingLaws.PromotionRun: the fields of the result besides the six digests are any function of the sealed findings.
- Stamps.WindowIsTimeIff: stamps are written YYYY-MM-DDTHH:MM:SS, a fraction if there is one, and `Z` or a signed HH:MM
  offset; the other spellings the schema lets through are not modelled.
- Redaction.NeverSilentIff: a secret with a quote or a backslash is covered when it has no square bracket or cannot
  overlap the marker; otherwise whether the re-check sees it depends on the bytes around it and is not decided.
- Planner.Precheck: the schema check of each assertion is assumed, and so is a stack deep enough for `visit` and for
  the canonical printer's `_check`: a very long acyclic chain raises RecursionError in the code.
- Attestation.Verify: an artifact that is not UTF-8 raises in the code; here reading it yields a document or an
  unparseable one.
- Evidence.Verify: as above for the manifest, and comparison of parsed values tells `true` from `1`.
- Cache.Directory.Record: records damaged on disk ("entry-unreadable") and the reasons a validity predicate
  gives are not modelled; components of a wrong type are excluded by type.
- Package.Resolve: an unreadable or ill-typed manifest, further fields of inventory entries and imports, and paths
  leaving the package are not modelled; the code digests each path as `relative_to` normalises it, the model as written.
- Claims.Claim.VerifyIndependently: the verifier is an answer and does not edit the claim; reasons, actors
  and time stamps of log entries are dropped.
- DiffLaws.ParseInvertsRender: paths that git would quote or that end in white space are not printed by the
  model's printer (NameReadBackIff says why), nor are headers with another prefix than `b/`; only ASCII digits count as digits in hunk headers.
- Overlay.Apply: entries of an overlay that are not objects are excluded by type, and the model returns edited
  assertions where the code also edits the caller's dicts.
- RegistryMerge.CheckMerge: missing or unparseable sources and the checks after the merge (owner tags, commit ids,
  affected files) are left out.
- Hub.HubState.HeartbeatLocked: telemetry fields, labels and host aliases are dropped; saving never fails.

/** Detached attestation of hub/coherence/attest.py: sealing a run and verifying it. */
module Attestation {
  import opened Common
  import opened TextOrder
  import opened Canon
  import opened Digests
  import opened Documents
  import Assertions
  import D = Decision
  import E = Evidence

  /** `hmac.new(key, message, sha256).hexdigest()`. */
  type Mac = (Bytes, Bytes) -> string

  ghost predicate HexMac(mac: Mac) {
    forall key, message :: E.HexText(mac(key, message))
  }

  /** The signing environment; an absent or malformed key is `None`. */
  datatype Signing = Signing(key: Option<Bytes>, keyId: string, identity: string)

  /** The input digests of a run. */
  datatype Identities = Identities(subject: string, openspec: string, policy: string, context: string,
                                   evaluatorImage: Option<string>)

  /** The six digests an attestation binds. */
  datatype Bound = Bound(subject: string, openspec: string, policy: string, context: string,
                         evaluatorImage: string, evidenceManifest: string)

  datatype Signer = Signer(keyId: string, identity: string, key: Bytes, validFrom: string, validUntil: string,
                           revoked: bool)

  /** A signer set of the shape its schema admits. */
  datatype SignerSet = SignerSet(asOf: string, signers: seq<Signer>)

  datatype AttestationError = NoSigningKey | NoEvaluatorImage | SchemaViolation | NotCanonical

  // ----- Signing -----

  const BOUND_KEYS: seq<string> := [
    "subject_digest", "openspec_digest", "policy_digest",
    "context_digest", "evaluator_image_digest", "evidence_manifest_digest"]

  function BoundEntries(b: Bound): seq<Entry> {
    [Entry("subject_digest", Str(b.subject)), Entry("openspec_digest", Str(b.openspec)),
     Entry("policy_digest", Str(b.policy)), Entry("context_digest", Str(b.context)),
     Entry("evaluator_image_digest", Str(b.evaluatorImage)),
     Entry("evidence_manifest_digest", Str(b.evidenceManifest))]
  }

  function DecisionDigest(h: Hash, decision: Bytes): string {
    "sha256:" + h(Preimage("decision/v1", decision))
  }

  function SignerEntries(keyId: string, identity: string): seq<Entry> {
    [Entry("key_id", Str(keyId)), Entry("identity", Str(identity))]
  }

  function Unsigned(h: Hash, decision: Bytes, b: Bound, who: Signing, time: string): seq<Entry> {
    [Entry("api_version", Str("devgate.spec-coherence.attestation/v1")),
     Entry("statement_digest", Str(DecisionDigest(h, decision))),
     Entry("bound", Obj(BoundEntries(b))),
     Entry("signer", Obj(SignerEntries(who.keyId, who.identity))),
     Entry("issued_at", Str(time))]
  }

  function Signature(mac: Mac, key: Bytes, unsigned: seq<Entry>): string {
    "hmac-sha256:" + mac(key, Canonical(Obj(unsigned)))
  }

  function Attested(h: Hash, mac: Mac, key: Bytes, decision: Bytes, b: Bound, who: Signing, time: string): seq<Entry> {
    var unsigned := Unsigned(h, decision, b, who, time);
    unsigned + [Entry("signature", Str(Signature(mac, key, unsigned)))]
  }

  function BoundOf(ids: Identities, image: string, evidenceManifest: string): Bound {
    Bound(ids.subject, ids.openspec, ids.policy, ids.context, image, evidenceManifest)
  }

  /** `sign`; `valid` is the schema check of the finished attestation. */
  function Sign(h: Hash, mac: Mac, valid: Value -> bool, who: Signing, decision: Bytes, ids: Identities,
                evidenceManifest: string, time: string): Result<Value, AttestationError> {
    if who.key.None? then Err(NoSigningKey)
    else if ids.evaluatorImage.None? then Err(NoEvaluatorImage)
    else
      var b := BoundOf(ids, ids.evaluatorImage.value, evidenceManifest);
      var attestation := Obj(Attested(h, mac, who.key.value, decision, b, who, time));
      if valid(attestation) then Ok(attestation) else Err(SchemaViolation)
  }

  // ----- Sealing a run -----

  predicate Required(stage: int, semantics: string) {
    stage >= 2 && semantics == "fresh-promotion"
  }

  function ResultPath(root: E.Path): E.Path { root + ["result.json"] }

  function AttestationPath(root: E.Path): E.Path { root + ["attestation.json"] }

  function EnvelopePath(root: E.Path): E.Path { root + ["run-envelope.json"] }

  function EnvelopeValue(decision: Value, code: int, stage: int, semantics: string, signed: bool): Value {
    Obj([Entry("api_version", Str("devgate.spec-coherence.envelope/v1")),
         Entry("decision", decision), Entry("exit_code", Int(code)), Entry("stage", Int(stage)),
         Entry("semantics", Str(semantics)), Entry("attestation_required", Bool(Required(stage, semantics))),
         Entry("signed", Bool(signed)),
         Entry("artifacts", Obj([
           Entry("result", Str("result.json")),
           Entry("evidence_manifest", Str("evidence-manifest.json")),
           Entry("attestation", if signed then Str("attestation.json") else Null)]))])
  }

  /** `seal_run`: the decision first, the attestation second, the envelope last. */
  method SealRun(bundle: E.Bundle, h: Hash, mac: Mac, valid: Value -> bool, who: Signing, res: seq<Entry>,
                 ledger: seq<Assertions.Row>, ids: Identities, evidenceManifest: string,
                 stage: int, semantics: string, time: string, blocked: Option<bool>)
    returns (r: Result<int, AttestationError>)
    requires Find(res, "decision").Some? && INT64_MIN <= stage <= INT64_MAX
    modifies bundle
    ensures r.Ok? <==> InProfile(Obj(res))
                       && (stage >= 2 && semantics == "fresh-promotion" ==>
                             Sign(h, mac, valid, who, Canonical(Obj(res)), ids, evidenceManifest, time).Ok?)
    ensures r.Ok? ==>
              var payload := Canonical(Obj(res));
              var signed := stage >= 2 && semantics == "fresh-promotion";
              var decided := old(bundle.files)[ResultPath(bundle.root) := payload];
              var attested := if !signed then decided
                              else decided[AttestationPath(bundle.root) :=
                                     Canonical(Sign(h, mac, valid, who, payload, ids, evidenceManifest, time).value)];
              && r.value in {0, 10, 20}
              && (r.value == 20 <==>
                    if blocked.Some? then blocked.value else stage in {2, 3, 4} && !D.AllSatisfied(ledger))
              && (r.value == 0 <==> D.AllSatisfied(ledger) && blocked != Some(true))
              && bundle.files == attested[EnvelopePath(bundle.root) :=
                   Canonical(EnvelopeValue(Find(res, "decision").value, r.value, stage, semantics, signed))]
    ensures r.Err? ==> bundle.files == if r.error.NotCanonical? then old(bundle.files)
                                       else old(bundle.files)[ResultPath(bundle.root) := Canonical(Obj(res))]
  {
    hide Canonical, D.Decide;
    var payload := TryCanon(Obj(res));
    if payload.Err? {
      return Err(NotCanonical);
    }
    bundle.files := bundle.files[ResultPath(bundle.root) := payload.value];
    var code := D.Decide(ledger, stage, None, blocked).1;
    var signed := false;
    if Required(stage, semantics) {
      var attestation := Sign(h, mac, valid, who, payload.value, ids, evidenceManifest, time);
      if attestation.Err? {
        return Err(attestation.error);
      }
      bundle.files := bundle.files[AttestationPath(bundle.root) := Canonical(attestation.value)];
      signed := true;
    }
    var envelope := EnvelopeValue(Find(res, "decision").value, code, stage, semantics, signed);
    bundle.files := bundle.files[EnvelopePath(bundle.root) := Canonical(envelope)];
    r := Ok(code);
  }

  // ----- Verifying a run -----

  datatype Reason =
    | MissingArtifact | Unparseable
    | SignerNotInSet | IdentityMismatch | SignerRevoked | SignerNotYetValid | SignerExpired
    | SignatureMismatch | DecisionMismatch | BoundMismatch(key: string) | EvidenceTamper | CandidateMismatch

  /** `Raise` is an uncaught exception on a document of the wrong shape. */
  datatype Verdict = Accept | Reject(reason: Reason) | Raise

  function FirstSigner(signers: seq<Signer>, keyId: Value): (r: Option<Signer>)
    ensures r.Some? ==> r.value in signers && Str(r.value.keyId) == keyId
    ensures r.None? ==> forall s :: s in signers ==> Str(s.keyId) != keyId
  {
    if signers == [] then None
    else if Str(signers[0].keyId) == keyId then Some(signers[0])
    else FirstSigner(signers[1..], keyId)
  }

  /** Whether the signer may sign as `identity` at the set's reference time; times are compared as text. */
  function CheckEntry(signer: Signer, identity: Option<Value>, asOf: string): Verdict {
    if identity != Some(Str(signer.identity)) then Reject(IdentityMismatch)
    else if signer.revoked then Reject(SignerRevoked)
    else if !Leq(signer.validFrom, asOf) then Reject(SignerNotYetValid)
    else if !Leq(asOf, signer.validUntil) then Reject(SignerExpired)
    else Accept
  }

  /** `_check_signer`. */
  function CheckSigner(attestation: seq<Entry>, approved: SignerSet): Result<Signer, Verdict> {
    var who := FindOr(attestation, "signer", Obj([]));
    if !who.Obj? then Err(Raise)
    else
      var s := FirstSigner(approved.signers, FindOr(who.entries, "key_id", Str("")));
      if s.None? then Err(Reject(SignerNotInSet))
      else
        var v := CheckEntry(s.value, Find(who.entries, "identity"), approved.asOf);
        if v.Accept? then Ok(s.value) else Err(v)
  }

  predicate Ascii(s: string) {
    forall i :: 0 <= i < |s| ==> s[i] as int < 128
  }

  /** `_check_signature`; `compare_digest` refuses anything but ASCII strings. */
  function CheckSignature(mac: Mac, attestation: seq<Entry>, signer: Signer): Verdict {
    var unsigned := Without(attestation, "signature");
    var signature := FindOr(attestation, "signature", Str(""));
    if !InProfile(Obj(unsigned)) || !signature.Str? || !Ascii(signature.s) then Raise
    else if signature.s == Signature(mac, signer.key, unsigned) then Accept
    else Reject(SignatureMismatch)
  }

  /** Equality of two `d.get(key)` results. */
  predicate Alike(v: Option<Value>, w: Option<Value>) {
    if v.Some? && w.Some? then Norm(v.value) == Norm(w.value) else v.None? && w.None?
  }

  function FirstMismatch(result: seq<Entry>, bound: seq<Entry>, keys: seq<string>): Option<string> {
    if keys == [] then None
    else if !Alike(Find(result, keys[0]), Find(bound, keys[0])) then Some(keys[0])
    else FirstMismatch(result, bound, keys[1..])
  }

  /** The checks after the signature: decision digest, six bound digests, evidence. */
  function CheckContent(h: Hash, loads: Loads, root: E.Path, files: E.Tree, attestation: seq<Entry>): Verdict
    requires ResultPath(root) in files && loads(files[ResultPath(root)]).Some?
  {
    var result := loads(files[ResultPath(root)]).value;
    var bound := FindOr(attestation, "bound", Obj([]));
    if Find(attestation, "statement_digest") != Some(Str(DecisionDigest(h, files[ResultPath(root)]))) then
      Reject(DecisionMismatch)
    else if !result.Obj? || !bound.Obj? then Raise
    else
      var key := FirstMismatch(result.entries, bound.entries, BOUND_KEYS);
      if key.Some? then Reject(BoundMismatch(key.value))
      else
        var expected := Find(bound.entries, "evidence_manifest_digest");
        if expected.None? then Raise
        else
          match E.Verify(h, loads, root, files, expected.value)
          case Err(_) => Raise
          case Ok(ok) => if ok then Accept else Reject(EvidenceTamper)
  }

  /** `verify`. */
  function Verify(h: Hash, mac: Mac, loads: Loads, root: E.Path, files: E.Tree, approved: SignerSet): Verdict {
    var r, a, m := ResultPath(root), AttestationPath(root), E.ManifestPath(root);
    if r !in files || a !in files || m !in files then Reject(MissingArtifact)
    else if loads(files[r]).None? || loads(files[a]).None? || loads(files[m]).None? then Reject(Unparseable)
    else
      var attestation := loads(files[a]).value;
      if !attestation.Obj? then Raise
      else
        match CheckSigner(attestation.entries, approved)
        case Err(v) => v
        case Ok(signer) =>
          var v := CheckSignature(mac, attestation.entries, signer);
          if !v.Accept? then v else CheckContent(h, loads, root, files, attestation.entries)
  }

  /** `verify_promotion`: the run must also bind the candidate being promoted. */
  function VerifyPromotion(h: Hash, mac: Mac, loads: Loads, root: E.Path, files: E.Tree, approved: SignerSet,
                           candidate: string): Verdict {
    var v := Verify(h, mac, loads, root, files, approved);
    if !v.Accept? then v
    else
      var attestation := loads(files[AttestationPath(root)]).value;
      var bound := FindOr(attestation.entries, "bound", Obj([]));
      if Find(bound.entries, "subject_digest") == Some(Str(candidate)) then Accept else Reject(CandidateMismatch)
  }
}

/** What hub/coherence/attest.py accepts, of any files: exactly the runs whose attestation an approved signer signed. */
module Acceptance {
  import opened Common
  import opened Canon
  import opened Digests
  import opened Documents
  import opened Attestation
  import opened SealingLaws
  import opened TextOrder
  import E = Evidence
  import Json

  // ----- The signer and the signature -----

  /** The key id the signer entry gives; a missing one reads as the empty text. */
  ghost predicate GivesKeyId(who: seq<Entry>, keyId: string) {
    Entry("key_id", Str(keyId)) in who || (keyId == "" && Lacks(who, "key_id"))
  }

  /** `s` is the set's first signer of its key id. */
  ghost predicate FirstOfItsKey(signers: seq<Signer>, s: Signer) {
    exists i :: 0 <= i < |signers| && signers[i] == s && forall j :: 0 <= j < i ==> signers[j].keyId != s.keyId
  }

  /** The attestation names `s` by key id and identity, and the set lets `s` sign at its reference time. */
  ghost predicate Approves(approved: SignerSet, a: seq<Entry>, s: Signer) {
    && (exists who :: Entry("signer", Obj(who)) in a && GivesKeyId(who, s.keyId)
                      && Entry("identity", Str(s.identity)) in who)
    && FirstOfItsKey(approved.signers, s) && !s.revoked
    && Leq(s.validFrom, approved.asOf) && Leq(approved.asOf, s.validUntil)
  }

  /** `rest` is the dict of the attestation's entries other than the signature. */
  ghost predicate OtherEntries(a: seq<Entry>, rest: seq<Entry>) {
    DistinctKeys(rest) && forall e :: e in rest <==> e in a && e.key != "signature"
  }

  /** The attestation holds the code of its own other entries under `key`. */
  ghost predicate SignedWith(mac: Mac, a: seq<Entry>, key: Bytes) {
    exists rest :: OtherEntries(a, rest) && InProfile(Obj(rest))
                   && Entry("signature", Str("hmac-sha256:" + mac(key, Canonical(Obj(rest))))) in a
  }

  lemma OthersAlike(a: seq<Entry>, rest: seq<Entry>)
    requires Dict(Obj(a)) && OtherEntries(a, rest)
    ensures var others := Without(a, "signature");
            OtherEntries(a, others) && Dict(Obj(others)) && Dict(Obj(rest)) && Same(Obj(others), Obj(rest))
    ensures InProfile(Obj(rest)) <==> InProfile(Obj(Without(a, "signature")))
  {
    hide Same;
    var others := Without(a, "signature");
    DictWithout(a, "signature");
    assert forall k :: 0 <= k < |rest| ==> rest[k] in a;
    SameMembersSame(others, rest);
    ProfileByMembers(others, rest);
  }

  lemma ProfileByMembers(es: seq<Entry>, fs: seq<Entry>)
    requires forall e :: e in es <==> e in fs
    ensures InProfile(Obj(es)) <==> InProfile(Obj(fs))
  {
    assert forall k :: 0 <= k < |es| ==> es[k] in fs;
    assert forall k :: 0 <= k < |fs| ==> fs[k] in es;
  }

  /** The signature check, for every attestation. */
  lemma SignatureAcceptedIff(mac: Mac, a: seq<Entry>, signer: Signer)
    requires HexMac(mac) && Dict(Obj(a))
    ensures CheckSignature(mac, a, signer) == Accept <==> SignedWith(mac, a, signer.key)
  {
    hide Canonical, Same, Dict, InProfile, Without, Find;
    var others := Without(a, "signature");
    DictDistinct(a);
    FindIff(a, "signature");
    OthersOf(a);
    OthersAlike(a, others);
    var code := mac(signer.key, Canonical(Obj(others)));
    assert E.HexText(code);
    assert Ascii("hmac-sha256:" + code);
    forall rest | OtherEntries(a, rest) && InProfile(Obj(rest))
      ensures InProfile(Obj(others)) && Canonical(Obj(rest)) == Canonical(Obj(others))
    {
      OthersAlike(a, rest);
      CanonEqualIffSame(Obj(others), Obj(rest));
    }
  }

  lemma OthersOf(a: seq<Entry>)
    requires DistinctKeys(a)
    ensures OtherEntries(a, Without(a, "signature"))
  {
    WithoutDistinct(a, "signature");
  }

  lemma {:induction false} FirstSignerIff(signers: seq<Signer>, keyId: string, s: Signer)
    ensures FirstSigner(signers, Str(keyId)) == Some(s) <==> s.keyId == keyId && FirstOfItsKey(signers, s)
  {
    hide FirstSigner;
    if FirstSigner(signers, Str(keyId)).Some? {
      var i := FirstSignerAt(signers, keyId);
      if s.keyId == keyId && FirstOfItsKey(signers, s) {
        var j :| 0 <= j < |signers| && signers[j] == s && forall k :: 0 <= k < j ==> signers[k].keyId != s.keyId;
        assert i == j;
      }
    }
    if s.keyId == keyId && FirstOfItsKey(signers, s) {
      var j :| 0 <= j < |signers| && signers[j] == s && forall k :: 0 <= k < j ==> signers[k].keyId != s.keyId;
      FirstSignerIs(signers, keyId, j);
    }
  }

  lemma NoTextNoSigner(signers: seq<Signer>, keyId: Value)
    requires !keyId.Str?
    ensures FirstSigner(signers, keyId).None?
  {
  }

  /** The signer check, for every attestation. */
  lemma SignerAcceptedIff(approved: SignerSet, a: seq<Entry>, s: Signer)
    requires Dict(Obj(a))
    ensures CheckSigner(a, approved) == Ok(s) <==> Approves(approved, a, s)
  {
    hide Leq, Find, FirstSigner, FirstOfItsKey;
    DictDistinct(a);
    FindIff(a, "signer");
    var who := FindOr(a, "signer", Obj([]));
    SignerEntryIsDict(a);
    if who.Obj? {
      FindIff(who.entries, "key_id");
      FindIff(who.entries, "identity");
      var keyId := FindOr(who.entries, "key_id", Str(""));
      if keyId.Str? {
        FirstSignerIff(approved.signers, keyId.s, s);
      } else {
        NoTextNoSigner(approved.signers, keyId);
      }
    }
  }

  lemma SignerEntryIsDict(a: seq<Entry>)
    requires Dict(Obj(a))
    ensures var who := FindOr(a, "signer", Obj([])); who.Obj? ==> DistinctKeys(who.entries)
  {
    var r := Find(a, "signer");
    if r.Some? {
      var i :| 0 <= i < |a| && a[i] == Entry("signer", r.value);
      assert Dict(a[i].value);
    }
  }

  // ----- The bundle -----

  /** The manifest entry names a file of the bundle by path and has the digest of its bytes. */
  ghost predicate Vouched(h: Hash, root: E.Path, files: E.Tree, o: Value) {
    exists es, rel :: o == Obj(es) && Entry("path", Str(rel)) in es && BytesVouched(h, root, files, es, rel)
  }

  ghost predicate BytesVouched(h: Hash, root: E.Path, files: E.Tree, es: seq<Entry>, rel: string) {
    var p := E.Locate(root, rel);
    p.Some? && p.value in files
    && Entry("digest", Str("sha256:" + h(Preimage("evidence-manifest/v1", files[p.value])))) in es
  }

  /** What the manifest lists: an array, or nothing when there is none, or an empty text or object. */
  ghost predicate Lists(manifest: seq<Entry>, objects: seq<Value>) {
    Entry("objects", Arr(objects)) in manifest
    || (objects == [] && (Lacks(manifest, "objects") || Entry("objects", Str("")) in manifest
                          || Entry("objects", Obj([])) in manifest))
  }

  /** The manifest on disk has the expected digest, and every object it lists is vouched for. */
  ghost predicate BundleHolds(h: Hash, loads: Loads, root: E.Path, files: E.Tree, expected: Value) {
    E.ManifestPath(root) in files && exists m, objects ::
      && loads(files[E.ManifestPath(root)]) == Some(Obj(m)) && Lists(m, objects)
      && (forall i :: 0 <= i < |objects| ==> Vouched(h, root, files, objects[i]))
      && InProfile(Obj(m)) && expected == Str("sha256:" + h(Preimage("evidence-manifest/v1", Canonical(Obj(m)))))
  }

  lemma ObjectAcceptedIff(h: Hash, root: E.Path, files: E.Tree, o: Value)
    requires Dict(o)
    ensures E.VerifyObject(h, root, files, o) == Ok(true) <==> Vouched(h, root, files, o)
  {
    hide E.Locate, Find;
    if o.Obj? {
      DictDistinct(o.entries);
      FindIff(o.entries, "path");
      FindIff(o.entries, "digest");
    }
  }

  lemma {:induction false} ObjectsAcceptedIff(h: Hash, root: E.Path, files: E.Tree, objects: seq<Value>)
    requires forall i :: 0 <= i < |objects| ==> Dict(objects[i])
    ensures E.VerifyObjects(h, root, files, objects) == Ok(true) <==>
            forall i :: 0 <= i < |objects| ==> Vouched(h, root, files, objects[i])
  {
    hide Vouched, E.VerifyObject, Dict;
    if objects != [] {
      ObjectAcceptedIff(h, root, files, objects[0]);
      ObjectsAcceptedIff(h, root, files, objects[1..]);
      assert forall i :: 0 < i < |objects| ==> objects[i] == objects[1..][i - 1];
    }
  }

  lemma ListsIff(manifest: seq<Entry>, objects: seq<Value>)
    requires DistinctKeys(manifest)
    ensures E.Iterated(FindOr(manifest, "objects", Arr([]))) == Ok(objects) <==> Lists(manifest, objects)
  {
    hide Find;
    FindIff(manifest, "objects");
  }

  lemma ListedAreDicts(manifest: seq<Entry>, objects: seq<Value>)
    requires Dict(Obj(manifest)) && Lists(manifest, objects)
    ensures forall i :: 0 <= i < |objects| ==> Dict(objects[i])
  {
    if Entry("objects", Arr(objects)) in manifest {
      var k :| 0 <= k < |manifest| && manifest[k] == Entry("objects", Arr(objects));
      assert Dict(manifest[k].value);
    }
  }

  /** The evidence check, for every bundle. */
  lemma BundleAcceptedIff(h: Hash, loads: Loads, root: E.Path, files: E.Tree, expected: Value)
    requires forall text :: YieldsDict(loads, text)
    ensures E.Verify(h, loads, root, files, expected) == Ok(true) <==> BundleHolds(h, loads, root, files, expected)
  {
    hide Canonical, InProfile, Dict, Find, Vouched, Lists, E.VerifyObjects, E.Iterated, Lacks;
    var path := E.ManifestPath(root);
    if path in files && loads(files[path]).Some? && loads(files[path]).value.Obj? {
      assert YieldsDict(loads, files[path]);
      var m := loads(files[path]).value.entries;
      DictDistinct(m);
      var listed := E.Iterated(FindOr(m, "objects", Arr([])));
      forall objects ensures listed == Ok(objects) <==> Lists(m, objects) { ListsIff(m, objects); }
      if listed.Ok? {
        ListedAreDicts(m, listed.value);
        ObjectsAcceptedIff(h, root, files, listed.value);
      }
    }
  }

  // ----- The content -----

  /** Both dicts say the same under `key`, or neither says anything. */
  ghost predicate SayTheSame(result: seq<Entry>, bound: seq<Entry>, key: string) {
    (Lacks(result, key) && Lacks(bound, key))
    || exists v, w :: Entry(key, v) in result && Entry(key, w) in bound && Same(v, w)
  }

  /** The attestation is about this result and this bundle. */
  ghost predicate AboutTheseFiles(h: Hash, loads: Loads, root: E.Path, files: E.Tree, a: seq<Entry>) {
    ResultPath(root) in files && exists result, bound, d ::
      && loads(files[ResultPath(root)]) == Some(Obj(result)) && Entry("bound", Obj(bound)) in a
      && Entry("statement_digest", Str("sha256:" + h(Preimage("decision/v1", files[ResultPath(root)])))) in a
      && SaysAllSix(result, bound)
      && Entry("evidence_manifest_digest", d) in bound && BundleHolds(h, loads, root, files, d)
  }

  ghost predicate SaysAllSix(result: seq<Entry>, bound: seq<Entry>) {
    && SayTheSame(result, bound, "subject_digest") && SayTheSame(result, bound, "openspec_digest")
    && SayTheSame(result, bound, "policy_digest") && SayTheSame(result, bound, "context_digest")
    && SayTheSame(result, bound, "evaluator_image_digest")
    && SayTheSame(result, bound, "evidence_manifest_digest")
  }

  lemma AlikeIff(result: seq<Entry>, bound: seq<Entry>, key: string)
    requires Dict(Obj(result)) && Dict(Obj(bound))
    ensures Alike(Find(result, key), Find(bound, key)) <==> SayTheSame(result, bound, key)
  {
    hide Find, Same;
    FindIff(result, key);
    FindIff(bound, key);
    var v, w := Find(result, key), Find(bound, key);
    if v.Some? && w.Some? {
      MemberIsDict(result, Entry(key, v.value));
      MemberIsDict(bound, Entry(key, w.value));
      NormEqualIffSame(v.value, w.value);
    }
  }

  lemma MemberIsDict(es: seq<Entry>, e: Entry)
    requires Dict(Obj(es)) && e in es
    ensures Dict(e.value)
  {
  }

  lemma SixAlikeIff(result: seq<Entry>, bound: seq<Entry>)
    requires Dict(Obj(result)) && Dict(Obj(bound))
    ensures FirstMismatch(result, bound, BOUND_KEYS).None? <==> SaysAllSix(result, bound)
  {
    hide Find, Alike, SayTheSame, Dict;
    MatchIffAllAlike(result, bound, BOUND_KEYS);
    forall key ensures Alike(Find(result, key), Find(bound, key)) <==> SayTheSame(result, bound, key) {
      AlikeIff(result, bound, key);
    }
    var k := BOUND_KEYS;
    assert k[0] == "subject_digest" && k[1] == "openspec_digest" && k[2] == "policy_digest"
           && k[3] == "context_digest" && k[4] == "evaluator_image_digest" && k[5] == "evidence_manifest_digest";
  }

  /** The checks after the signature, for every attestation and all files. */
  lemma ContentAcceptedIff(h: Hash, loads: Loads, root: E.Path, files: E.Tree, a: seq<Entry>)
    requires forall text :: YieldsDict(loads, text)
    requires Dict(Obj(a)) && ResultPath(root) in files && loads(files[ResultPath(root)]).Some?
    ensures CheckContent(h, loads, root, files, a) == Accept <==> AboutTheseFiles(h, loads, root, files, a)
  {
    hide Dict, Find, FirstMismatch, SaysAllSix, BundleHolds, E.Verify, Lacks;
    var result := loads(files[ResultPath(root)]).value;
    assert YieldsDict(loads, files[ResultPath(root)]);
    DictDistinct(a);
    FindIff(a, "bound");
    FindIff(a, "statement_digest");
    var bound := FindOr(a, "bound", Obj([]));
    BoundEntryIsDict(a);
    if result.Obj? && bound.Obj? {
      SixAlikeIff(result.entries, bound.entries);
      DictDistinct(bound.entries);
      FindIff(bound.entries, "evidence_manifest_digest");
      var d := Find(bound.entries, "evidence_manifest_digest");
      if d.Some? { BundleAcceptedIff(h, loads, root, files, d.value); }
    }
  }

  lemma BoundEntryIsDict(a: seq<Entry>)
    requires Dict(Obj(a))
    ensures Dict(FindOr(a, "bound", Obj([])))
  {
    var r := Find(a, "bound");
    if r.Some? { MemberIsDict(a, Entry("bound", r.value)); }
  }

  // ----- Main results -----

  /** Everything acceptance rests on: the three artifacts can be read, the attestation is signed by a signer the set
      approves, and it is about this result and this bundle. */
  ghost predicate Accepted(h: Hash, mac: Mac, loads: Loads, root: E.Path, files: E.Tree, approved: SignerSet,
                           a: seq<Entry>, s: Signer) {
    && AttestationPath(root) in files && loads(files[AttestationPath(root)]) == Some(Obj(a))
    && Approves(approved, a, s) && SignedWith(mac, a, s.key)
    && AboutTheseFiles(h, loads, root, files, a)
  }

  /** Whatever the files are, a run is accepted exactly when its attestation is signed by a signer the set approves
      and is about the files beside it. */
  lemma AcceptedIff(h: Hash, mac: Mac, loads: Loads, root: E.Path, files: E.Tree, approved: SignerSet)
    requires HexMac(mac) && forall text :: YieldsDict(loads, text)
    ensures Verify(h, mac, loads, root, files, approved) == Accept <==>
            exists a, s :: Accepted(h, mac, loads, root, files, approved, a, s)
  {
    hide Dict, CheckSigner, CheckSignature, CheckContent, Approves, SignedWith, AboutTheseFiles;
    forall a, s | Accepted(h, mac, loads, root, files, approved, a, s)
      ensures Verify(h, mac, loads, root, files, approved) == Accept
    {
      AllAreThere(h, loads, root, files, a);
      ChecksDecided(h, mac, loads, root, files, approved, a, s);
    }
    if Verify(h, mac, loads, root, files, approved) == Accept {
      AcceptanceChecksContent(h, mac, loads, root, files, approved);
      var a := loads(files[AttestationPath(root)]).value.entries;
      var s := CheckSigner(a, approved).value;
      ChecksDecided(h, mac, loads, root, files, approved, a, s);
      assert Accepted(h, mac, loads, root, files, approved, a, s);
    }
  }

  /** The three checks of one attestation and one signer. */
  lemma ChecksDecided(h: Hash, mac: Mac, loads: Loads, root: E.Path, files: E.Tree, approved: SignerSet,
                      a: seq<Entry>, s: Signer)
    requires HexMac(mac) && forall text :: YieldsDict(loads, text)
    requires AttestationPath(root) in files && loads(files[AttestationPath(root)]) == Some(Obj(a))
    requires ResultPath(root) in files && loads(files[ResultPath(root)]).Some?
    ensures CheckSigner(a, approved) == Ok(s) <==> Approves(approved, a, s)
    ensures CheckSignature(mac, a, s) == Accept <==> SignedWith(mac, a, s.key)
    ensures CheckContent(h, loads, root, files, a) == Accept <==> AboutTheseFiles(h, loads, root, files, a)
  {
    hide Dict, CheckSigner, CheckSignature, CheckContent, Approves, SignedWith, AboutTheseFiles;
    assert YieldsDict(loads, files[AttestationPath(root)]);
    SignerAcceptedIff(approved, a, s);
    SignatureAcceptedIff(mac, a, s);
    ContentAcceptedIff(h, loads, root, files, a);
  }

  lemma AllAreThere(h: Hash, loads: Loads, root: E.Path, files: E.Tree, a: seq<Entry>)
    requires AboutTheseFiles(h, loads, root, files, a)
    ensures ResultPath(root) in files && loads(files[ResultPath(root)]).Some?
    ensures E.ManifestPath(root) in files && loads(files[E.ManifestPath(root)]).Some?
  {
    hide SaysAllSix, Canonical;
  }

  lemma RefusalIsNotAccept(a: seq<Entry>, approved: SignerSet)
    ensures CheckSigner(a, approved).Err? ==> CheckSigner(a, approved).error != Accept
  {
  }

  // ----- Why a run is refused -----

  /** The signer entry of the attestation; a missing one reads as an empty dict. */
  ghost predicate SignerEntry(a: seq<Entry>, who: seq<Entry>) {
    Entry("signer", Obj(who)) in a || (who == [] && Lacks(a, "signer"))
  }

  /** The named signer `s` may not sign, for this reason. */
  ghost predicate MayNotSign(approved: SignerSet, who: seq<Entry>, s: Signer, reason: Reason) {
    match reason
    case IdentityMismatch => Entry("identity", Str(s.identity)) !in who
    case SignerRevoked => Entry("identity", Str(s.identity)) in who && s.revoked
    case SignerNotYetValid => !s.revoked && !Leq(s.validFrom, approved.asOf)
    case SignerExpired => !s.revoked && Leq(s.validFrom, approved.asOf) && !Leq(approved.asOf, s.validUntil)
    case _ => false
  }

  /** The attestation names no signer of the set, or one that may not sign. */
  ghost predicate SignerRefused(approved: SignerSet, a: seq<Entry>, reason: Reason) {
    exists who: seq<Entry> :: SignerEntry(a, who) && WhoRefused(approved, who, reason)
  }

  ghost predicate WhoRefused(approved: SignerSet, who: seq<Entry>, reason: Reason) {
    if reason.SignerNotInSet? then forall s :: s in approved.signers ==> !GivesKeyId(who, s.keyId)
    else exists s: Signer :: GivesKeyId(who, s.keyId) && FirstOfItsKey(approved.signers, s)
                             && MayNotSign(approved, who, s, reason)
  }

  lemma SignerRefusalHolds(approved: SignerSet, a: seq<Entry>)
    requires Dict(Obj(a))
    ensures match CheckSigner(a, approved)
            case Ok(s) => Approves(approved, a, s)
            case Err(Reject(reason)) => SignerRefused(approved, a, reason)
            case Err(v) => v.Raise?
  {
    hide Leq, Find, FirstSigner, FirstOfItsKey;
    var r := CheckSigner(a, approved);
    if r.Ok? {
      SignerAcceptedIff(approved, a, r.value);
    } else if r.error.Reject? {
      DictDistinct(a);
      FindIff(a, "signer");
      SignerEntryIsDict(a);
      var who := FindOr(a, "signer", Obj([])).entries;
      assert SignerEntry(a, who);
      FindIff(who, "key_id");
      FindIff(who, "identity");
      NamedSigner(approved, who);
    }
  }

  /** Which signer the key id names. */
  lemma NamedSigner(approved: SignerSet, who: seq<Entry>)
    requires DistinctKeys(who)
    ensures match FirstSigner(approved.signers, FindOr(who, "key_id", Str("")))
            case Some(s) => GivesKeyId(who, s.keyId) && FirstOfItsKey(approved.signers, s)
            case None => forall s :: s in approved.signers ==> !GivesKeyId(who, s.keyId)
  {
    hide Find, FirstSigner, FirstOfItsKey;
    FindIff(who, "key_id");
    var keyId := FindOr(who, "key_id", Str(""));
    var first := FirstSigner(approved.signers, keyId);
    if keyId.Str? && first.Some? { FirstSignerIff(approved.signers, keyId.s, first.value); }
    if !keyId.Str? { NoTextNoSigner(approved.signers, keyId); }
  }

  /** Why the checks after the signature fail. */
  ghost predicate ContentRefused(h: Hash, loads: Loads, root: E.Path, files: E.Tree, a: seq<Entry>, reason: Reason) {
    ResultPath(root) in files && match reason
    case DecisionMismatch =>
      Entry("statement_digest", Str("sha256:" + h(Preimage("decision/v1", files[ResultPath(root)])))) !in a
    case BoundMismatch(key) =>
      exists result, bound :: loads(files[ResultPath(root)]) == Some(Obj(result)) && BoundEntry(a, bound)
        && key in BOUND_KEYS && !SayTheSame(result, bound, key)
    case EvidenceTamper =>
      exists bound, d :: BoundEntry(a, bound) && Entry("evidence_manifest_digest", d) in bound
        && !BundleHolds(h, loads, root, files, d)
    case _ => false
  }

  ghost predicate BoundEntry(a: seq<Entry>, bound: seq<Entry>) {
    Entry("bound", Obj(bound)) in a || (bound == [] && Lacks(a, "bound"))
  }

  lemma {:induction false} MismatchIs(result: seq<Entry>, bound: seq<Entry>, keys: seq<string>)
    ensures var key := FirstMismatch(result, bound, keys);
            key.Some? ==> key.value in keys && !Alike(Find(result, key.value), Find(bound, key.value))
  {
    if keys != [] { MismatchIs(result, bound, keys[1..]); }
  }

  lemma ContentRefusalHolds(h: Hash, loads: Loads, root: E.Path, files: E.Tree, a: seq<Entry>)
    requires forall text :: YieldsDict(loads, text)
    requires Dict(Obj(a)) && ResultPath(root) in files && loads(files[ResultPath(root)]).Some?
    ensures match CheckContent(h, loads, root, files, a)
            case Reject(reason) => ContentRefused(h, loads, root, files, a, reason)
            case _ => true
  {
    hide Dict, Find, FirstMismatch, Alike, SayTheSame, BundleHolds, E.Verify, Lacks;
    assert YieldsDict(loads, files[ResultPath(root)]);
    var result, bound := loads(files[ResultPath(root)]).value, FindOr(a, "bound", Obj([]));
    DictDistinct(a);
    FindIff(a, "bound");
    FindIff(a, "statement_digest");
    BoundEntryIsDict(a);
    if result.Obj? && bound.Obj? {
      assert BoundEntry(a, bound.entries);
      MismatchIs(result.entries, bound.entries, BOUND_KEYS);
      var key := FirstMismatch(result.entries, bound.entries, BOUND_KEYS);
      if key.Some? { AlikeIff(result.entries, bound.entries, key.value); }
      DictDistinct(bound.entries);
      FindIff(bound.entries, "evidence_manifest_digest");
      var d := Find(bound.entries, "evidence_manifest_digest");
      if d.Some? { BundleAcceptedIff(h, loads, root, files, d.value); }
    }
  }

  /** The attestation of an approved signer is refused: its signature does not hold, or it is not about these files. */
  ghost predicate SignedRefused(h: Hash, mac: Mac, loads: Loads, root: E.Path, files: E.Tree, approved: SignerSet,
                                a: seq<Entry>, s: Signer, reason: Reason) {
    && Approves(approved, a, s)
    && if reason.SignatureMismatch? then !SignedWith(mac, a, s.key)
       else SignedWith(mac, a, s.key) && ContentRefused(h, loads, root, files, a, reason)
  }

  /** Whatever the files are, a refusal gives a reason there is cause for. */
  lemma RefusalHolds(h: Hash, mac: Mac, loads: Loads, root: E.Path, files: E.Tree, approved: SignerSet)
    requires HexMac(mac) && forall text :: YieldsDict(loads, text)
    ensures var r, m := ResultPath(root), E.ManifestPath(root);
            match Verify(h, mac, loads, root, files, approved)
            case Accept => true
            case Raise => true
            case Reject(MissingArtifact) => r !in files || AttestationPath(root) !in files || m !in files
            case Reject(Unparseable) =>
              && r in files && AttestationPath(root) in files && m in files
              && (loads(files[r]).None? || loads(files[AttestationPath(root)]).None? || loads(files[m]).None?)
            case Reject(reason) =>
              AttestationPath(root) in files
              && exists a :: loads(files[AttestationPath(root)]) == Some(Obj(a))
                             && (SignerRefused(approved, a, reason)
                                 || exists s :: SignedRefused(h, mac, loads, root, files, approved, a, s, reason))
  {
    hide Dict, CheckSigner, CheckSignature, CheckContent, Approves, SignedWith, SignerRefused, ContentRefused;
    var path := AttestationPath(root);
    if path in files && loads(files[path]).Some? && loads(files[path]).value.Obj?
       && ResultPath(root) in files && loads(files[ResultPath(root)]).Some? {
      assert YieldsDict(loads, files[path]);
      var a := loads(files[path]).value.entries;
      SignerRefusalHolds(approved, a);
      RefusalIsNotAccept(a, approved);
      SignerRefusalIsOwn(a, approved);
      var signer := CheckSigner(a, approved);
      if signer.Ok? {
        SignatureAcceptedIff(mac, a, signer.value);
        SignatureRefusalIsOwn(mac, a, signer.value);
        ContentRefusalHolds(h, loads, root, files, a);
        ContentRefusalIsOwn(h, loads, root, files, a);
        forall reason ensures SignedRefused(h, mac, loads, root, files, approved, a, signer.value, reason) <==>
                                Approves(approved, a, signer.value)
                                && if reason.SignatureMismatch? then !SignedWith(mac, a, signer.value.key)
                                   else SignedWith(mac, a, signer.value.key)
                                        && ContentRefused(h, loads, root, files, a, reason) {}
      }
    }
  }

  lemma ContentRefusalIsOwn(h: Hash, loads: Loads, root: E.Path, files: E.Tree, a: seq<Entry>)
    requires ResultPath(root) in files && loads(files[ResultPath(root)]).Some?
    ensures match CheckContent(h, loads, root, files, a)
            case Reject(reason) => reason.DecisionMismatch? || reason.BoundMismatch? || reason.EvidenceTamper?
            case _ => true
  {
    hide Find, FirstMismatch, E.Verify;
  }

  lemma SignerRefusalIsOwn(a: seq<Entry>, approved: SignerSet)
    ensures match CheckSigner(a, approved)
            case Err(Reject(reason)) => !reason.MissingArtifact? && !reason.Unparseable?
            case _ => true
  {
    hide Leq, Find, FirstSigner;
  }

  lemma SignatureRefusalIsOwn(mac: Mac, a: seq<Entry>, s: Signer)
    ensures CheckSignature(mac, a, s).Reject? ==> CheckSignature(mac, a, s).reason.SignatureMismatch?
  {
    hide Canonical, Without, Find;
  }

  // ----- What the artifacts say -----

  /** What a reader finds in the attestation of a run. */
  ghost predicate AttestationSays(a: seq<Entry>, h: Hash, mac: Mac, decision: Bytes, ids: Identities,
                                  evidenceManifest: string, who: Signing, time: string)
    requires who.key.Some? && ids.evaluatorImage.Some?
  {
    && Entry("api_version", Str("devgate.spec-coherence.attestation/v1")) in a
    && Entry("statement_digest", Str("sha256:" + h(Preimage("decision/v1", decision)))) in a
    && Entry("issued_at", Str(time)) in a
    && (exists signer :: Entry("signer", Obj(signer)) in a && SignerSays(signer, who))
    && (exists bound :: Entry("bound", Obj(bound)) in a && BoundSays(bound, ids, evidenceManifest))
    && SignedWith(mac, a, who.key.value)
  }

  ghost predicate SignerSays(signer: seq<Entry>, who: Signing) {
    Entry("key_id", Str(who.keyId)) in signer && Entry("identity", Str(who.identity)) in signer
  }

  ghost predicate BoundSays(bound: seq<Entry>, ids: Identities, evidenceManifest: string)
    requires ids.evaluatorImage.Some?
  {
    && Entry("subject_digest", Str(ids.subject)) in bound && Entry("openspec_digest", Str(ids.openspec)) in bound
    && Entry("policy_digest", Str(ids.policy)) in bound && Entry("context_digest", Str(ids.context)) in bound
    && Entry("evaluator_image_digest", Str(ids.evaluatorImage.value)) in bound
    && Entry("evidence_manifest_digest", Str(evidenceManifest)) in bound
  }

  lemma SignerReads(t: seq<Entry>, who: Signing)
    requires Same(Obj(t), Obj(SignerEntries(who.keyId, who.identity)))
    ensures SignerSays(t, who)
  {
    var es := SignerEntries(who.keyId, who.identity);
    SignerIsDict(who.keyId, who.identity);
    SameHolds(t, es);
    assert es[0] == Entry("key_id", Str(who.keyId)) && es[1] == Entry("identity", Str(who.identity));
  }

  lemma BoundReads(t: seq<Entry>, ids: Identities, evidenceManifest: string)
    requires ids.evaluatorImage.Some?
    requires Same(Obj(t), Obj(BoundEntries(BoundOf(ids, ids.evaluatorImage.value, evidenceManifest))))
    ensures BoundSays(t, ids, evidenceManifest)
  {
    hide Same;
    var b := BoundOf(ids, ids.evaluatorImage.value, evidenceManifest);
    var es := BoundEntries(b);
    BoundKeys(b);
    SameHolds(t, es);
    assert es[0] == Entry("subject_digest", Str(ids.subject)) && es[1] == Entry("openspec_digest", Str(ids.openspec))
           && es[2] == Entry("policy_digest", Str(ids.policy)) && es[3] == Entry("context_digest", Str(ids.context))
           && es[4] == Entry("evaluator_image_digest", Str(ids.evaluatorImage.value))
           && es[5] == Entry("evidence_manifest_digest", Str(evidenceManifest));
  }

  /** The attestation signed for a run says what was decided, by whom, when, and of what. */
  lemma AttestationReads(h: Hash, mac: Mac, loads: Loads, valid: Value -> bool, who: Signing, decision: Bytes,
                         ids: Identities, evidenceManifest: string, time: string)
    requires HexMac(mac) && Faithful(loads)
    requires Sign(h, mac, valid, who, decision, ids, evidenceManifest, time).Ok?
    ensures who.key.Some? && ids.evaluatorImage.Some?
    ensures exists a ::
              && loads(Canonical(Sign(h, mac, valid, who, decision, ids, evidenceManifest, time).value)) == Some(Obj(a))
              && AttestationSays(a, h, mac, decision, ids, evidenceManifest, who, time)
  {
    hide Canonical, Same, Dict, InProfile, AttestationSays, Attested;
    SignsAttested(h, mac, valid, who, decision, ids, evidenceManifest, time);
    var key, b := who.key.value, BoundOf(ids, ids.evaluatorImage.value, evidenceManifest);
    var v := Obj(Attested(h, mac, key, decision, b, who, time));
    AttestedIsDict(h, mac, key, decision, b, who, time);
    assert ReadBack(loads, v);
    SameText(loads(Canonical(v)).value, v);
    var a := loads(Canonical(v)).value.entries;
    ReadsSay(h, mac, a, decision, ids, evidenceManifest, who, time);
  }

  lemma ReadsSay(h: Hash, mac: Mac, a: seq<Entry>, decision: Bytes, ids: Identities, evidenceManifest: string,
                 who: Signing, time: string)
    requires HexMac(mac) && who.key.Some? && ids.evaluatorImage.Some? && Dict(Obj(a)) && InProfile(Obj(a))
    requires var b := BoundOf(ids, ids.evaluatorImage.value, evidenceManifest);
             Same(Obj(a), Obj(Attested(h, mac, who.key.value, decision, b, who, time)))
    ensures AttestationSays(a, h, mac, decision, ids, evidenceManifest, who, time)
  {
    hide Same, Dict, InProfile, BoundEntries, SignerEntries, BoundOf, Signature, BoundSays, SignerSays, SignedWith;
    var key, b := who.key.value, BoundOf(ids, ids.evaluatorImage.value, evidenceManifest);
    var es := Attested(h, mac, key, decision, b, who, time);
    AttestedKeys(h, mac, key, decision, b, who, time);
    SameHolds(a, es);
    assert es[0] in es && es[1] in es && es[2] in es && es[3] in es && es[4] in es;
    var bound :| Entry("bound", Obj(bound)) in a && Same(Obj(bound), Obj(BoundEntries(b)));
    BoundReads(bound, ids, evidenceManifest);
    var signer :| Entry("signer", Obj(signer)) in a
                  && Same(Obj(signer), Obj(SignerEntries(who.keyId, who.identity)));
    SignerReads(signer, who);
    SealedIsSigned(h, mac, a, key, decision, b, who, time);
  }

  lemma SealedIsSigned(h: Hash, mac: Mac, a: seq<Entry>, key: Bytes, decision: Bytes, b: Bound, who: Signing,
                       time: string)
    requires HexMac(mac) && Dict(Obj(a)) && InProfile(Obj(a))
    requires Same(Obj(a), Obj(Attested(h, mac, key, decision, b, who, time)))
    ensures SignedWith(mac, a, key)
  {
    hide Same, Dict, InProfile, Attested, CheckSignature, SignedWith, Unsigned, Canonical;
    var holder := Signer("", "", key, "", "", false);
    SignatureDecided(h, mac, key, decision, b, who, time, a, holder);
    SignatureAcceptedIff(mac, a, holder);
  }

  /** What a reader finds in the envelope of a run. */
  ghost predicate EnvelopeSays(es: seq<Entry>, decision: Value, code: int, stage: int, semantics: string,
                               signed: bool) {
    && EndingSays(es, code, stage, semantics, signed)
    && (exists d :: Entry("decision", d) in es && Same(d, decision))
    && (exists files :: Entry("artifacts", Obj(files)) in es && ArtifactsSay(files, signed))
  }

  ghost predicate EndingSays(es: seq<Entry>, code: int, stage: int, semantics: string, signed: bool) {
    && Entry("api_version", Str("devgate.spec-coherence.envelope/v1")) in es
    && Entry("exit_code", Int(code)) in es && Entry("stage", Int(stage)) in es
    && Entry("semantics", Str(semantics)) in es && Entry("signed", Bool(signed)) in es
    && Entry("attestation_required", Bool(stage >= 2 && semantics == "fresh-promotion")) in es
  }

  ghost predicate ArtifactsSay(files: seq<Entry>, signed: bool) {
    && Entry("result", Str("result.json")) in files
    && Entry("evidence_manifest", Str("evidence-manifest.json")) in files
    && Entry("attestation", if signed then Str("attestation.json") else Null) in files
  }

  lemma EnvelopeIsDict(decision: Value, code: int, stage: int, semantics: string, signed: bool)
    requires Dict(decision) && InProfile(decision)
    requires INT64_MIN <= code <= INT64_MAX && INT64_MIN <= stage <= INT64_MAX
    ensures var v := EnvelopeValue(decision, code, stage, semantics, signed); Dict(v) && InProfile(v)
  {
    var es := EnvelopeValue(decision, code, stage, semantics, signed).entries;
    assert |es[0].key| == 11 && |es[1].key| == 8 && |es[2].key| == 9 && |es[3].key| == 5 && |es[4].key| == 9
           && |es[5].key| == 20 && |es[6].key| == 6 && |es[7].key| == 9;
    assert es[2].key[0] == 'e' && es[4].key[0] == 's' && es[7].key[0] == 'a';
    assert DistinctKeys(es);
    ArtifactsAreDict(es[7].value.entries);
  }

  lemma ArtifactsAreDict(files: seq<Entry>)
    requires |files| == 3 && files[0].key == "result" && files[1].key == "evidence_manifest"
    requires files[2].key == "attestation" && forall i :: 0 <= i < 3 ==> files[i].value.Str? || files[i].value.Null?
    ensures Dict(Obj(files)) && InProfile(Obj(files))
  {
    assert |files[0].key| == 6 && |files[1].key| == 17 && |files[2].key| == 11;
    assert DistinctKeys(files);
  }

  /** The envelope written for a run says how it ended. */
  lemma EnvelopeReads(loads: Loads, decision: Value, code: int, stage: int, semantics: string, signed: bool)
    requires Faithful(loads) && Dict(decision) && InProfile(decision)
    requires INT64_MIN <= code <= INT64_MAX && INT64_MIN <= stage <= INT64_MAX
    ensures exists es :: loads(Canonical(EnvelopeValue(decision, code, stage, semantics, signed))) == Some(Obj(es))
                         && EnvelopeSays(es, decision, code, stage, semantics, signed)
  {
    hide Canonical, Same, Dict, InProfile, EnvelopeSays;
    var v := EnvelopeValue(decision, code, stage, semantics, signed);
    EnvelopeIsDict(decision, code, stage, semantics, signed);
    assert ReadBack(loads, v);
    SameText(loads(Canonical(v)).value, v);
    var a := loads(Canonical(v)).value.entries;
    EntriesSay(a, decision, code, stage, semantics, signed);
  }

  lemma EntriesSay(a: seq<Entry>, decision: Value, code: int, stage: int, semantics: string, signed: bool)
    requires Dict(decision) && InProfile(decision)
    requires INT64_MIN <= code <= INT64_MAX && INT64_MIN <= stage <= INT64_MAX
    requires var v := EnvelopeValue(decision, code, stage, semantics, signed); v.Obj? && Same(Obj(a), Obj(v.entries))
    ensures EnvelopeSays(a, decision, code, stage, semantics, signed)
  {
    hide Same, Dict, InProfile, ArtifactsSay, Find, EnvelopeValue;
    var es := EnvelopeValue(decision, code, stage, semantics, signed).entries;
    EnvelopeIsDict(decision, code, stage, semantics, signed);
    DictDistinct(es);
    SameHolds(a, es);
    EnvelopeHolds(decision, code, stage, semantics, signed);
    EndingReads(a, decision, code, stage, semantics, signed);
    SameFindAt(a, es, 1);
    var d := Find(a, "decision").value;
    assert Entry("decision", d) in a && Same(d, decision);
    var listed := es[7].value.entries;
    var files :| Entry("artifacts", Obj(files)) in a && Same(Obj(files), Obj(listed));
    MemberIsDict(es, es[7]);
    ArtifactsRead(files, listed, signed);
  }

  lemma EnvelopeHolds(decision: Value, code: int, stage: int, semantics: string, signed: bool)
    ensures var v := EnvelopeValue(decision, code, stage, semantics, signed);
            && v.Obj? && |v.entries| == 8 && v.entries[1] == Entry("decision", decision)
            && v.entries[7] == Entry("artifacts", Obj([
                 Entry("result", Str("result.json")), Entry("evidence_manifest", Str("evidence-manifest.json")),
                 Entry("attestation", if signed then Str("attestation.json") else Null)]))
  {
  }

  lemma EndingReads(a: seq<Entry>, decision: Value, code: int, stage: int, semantics: string, signed: bool)
    requires var es := EnvelopeValue(decision, code, stage, semantics, signed).entries;
             forall e :: e in es && Scalar(e.value) ==> e in a
    ensures EndingSays(a, code, stage, semantics, signed)
  {
    var es := EnvelopeValue(decision, code, stage, semantics, signed).entries;
    assert es[0] in es && es[2] in es && es[3] in es && es[4] in es && es[5] in es && es[6] in es;
  }

  lemma ArtifactsRead(files: seq<Entry>, listed: seq<Entry>, signed: bool)
    requires Same(Obj(files), Obj(listed)) && Dict(Obj(listed))
    requires listed == [Entry("result", Str("result.json")), Entry("evidence_manifest", Str("evidence-manifest.json")),
                        Entry("attestation", if signed then Str("attestation.json") else Null)]
    ensures ArtifactsSay(files, signed)
  {
    hide Same;
    DictDistinct(listed);
    SameHolds(files, listed);
    assert listed[0] in listed && listed[1] in listed && listed[2] in listed;
  }

  // ----- Accepted runs are sealed runs -----

  /** Whatever approved key is used, no other text has the code that `key` gives to this one. */
  ghost predicate NoOtherText(mac: Mac, approved: SignerSet, key: Bytes, text: Bytes) {
    forall s, other :: s in approved.signers && mac(s.key, other) == mac(key, text) ==> other == text
  }

  /** Under one key different texts have different codes. */
  ghost predicate InjectivePerKey(mac: Mac) {
    forall key, x, y :: mac(key, x) == mac(key, y) ==> x == y
  }

  /** So it is when the code tells texts apart under one key and every approved signer holds the signing key. */
  lemma OneKeyNoOtherText(mac: Mac, approved: SignerSet, key: Bytes, text: Bytes)
    requires InjectivePerKey(mac) && forall s :: s in approved.signers ==> s.key == key
    ensures NoOtherText(mac, approved, key, text)
  {
  }

  lemma ApprovedIsInSet(approved: SignerSet, a: seq<Entry>, s: Signer)
    requires Approves(approved, a, s)
    ensures s in approved.signers
  {
  }

  /** An attestation that carries the signature of a sealed run, under a key of the set, reads as that run's. */
  lemma SignedReadsAsSealed(h: Hash, mac: Mac, a: seq<Entry>, approved: SignerSet, s: Signer, key: Bytes,
                            decision: Bytes, b: Bound, who: Signing, time: string)
    requires Dict(Obj(a)) && SignedWith(mac, a, s.key) && s in approved.signers
    requires Entry("signature", Str(Signature(mac, key, Unsigned(h, decision, b, who, time)))) in a
    requires NoOtherText(mac, approved, key, Canonical(Obj(Unsigned(h, decision, b, who, time))))
    ensures Same(Obj(a), Obj(Attested(h, mac, key, decision, b, who, time))) && InProfile(Obj(a))
  {
    hide Canonical, Same, Dict, InProfile, Unsigned, Without;
    var es := Unsigned(h, decision, b, who, time);
    var e := Entry("signature", Str(Signature(mac, key, es)));
    var rest :| OtherEntries(a, rest) && InProfile(Obj(rest))
                && Entry("signature", Str("hmac-sha256:" + mac(s.key, Canonical(Obj(rest))))) in a;
    DictDistinct(a);
    FindIff(a, "signature");
    PrefixCancels(mac(s.key, Canonical(Obj(rest))), mac(key, Canonical(Obj(es))));
    UnsignedIsDict(h, decision, b, who, time);
    OthersAlike(a, rest);
    CanonEqualIffSame(Obj(rest), Obj(es));
    NoSignatureKey(h, decision, b, who, time);
    AddedAlike(a, rest, es, e);
  }

  /** Dicts that agree but for a common entry agree. */
  lemma AddedAlike(a: seq<Entry>, rest: seq<Entry>, es: seq<Entry>, e: Entry)
    requires Dict(Obj(a)) && e in a && DistinctKeys(rest)
    requires forall x :: x in rest <==> x in a && x.key != e.key
    requires Same(Obj(rest), Obj(es)) && InProfile(Obj(rest)) && e.value.Str?
    requires forall i :: 0 <= i < |es| ==> es[i].key != e.key
    ensures Same(Obj(a), Obj(es + [e])) && InProfile(Obj(a))
  {
    hide Same, Keys;
    var all := es + [e];
    forall k | 0 <= k < |a| ensures InProfile(a[k].value) {
      if a[k].key == e.key { SameKeySameEntry(a, a[k], e); } else { ProfileOfMember(rest, a[k]); }
    }
    forall i, j | 0 <= i < |a| && 0 <= j < |all| && a[i].key == all[j].key ensures Same(a[i].value, all[j].value) {
      if j == |es| {
        SameKeySameEntry(a, a[i], e);
        MemberIsDict(a, e);
        NormEqualIffSame(e.value, e.value);
      } else {
        var k :| 0 <= k < |rest| && rest[k] == a[i];
        SamePair(rest, es, k, j);
      }
    }
    AddedKeys(a, rest, es, e);
    Json.SameObjects(a, all);
  }

  lemma SameKeySameEntry(a: seq<Entry>, x: Entry, y: Entry)
    requires DistinctKeys(a) && x in a && y in a && x.key == y.key
    ensures x == y
  {
  }

  lemma ProfileOfMember(es: seq<Entry>, e: Entry)
    requires InProfile(Obj(es)) && e in es
    ensures InProfile(e.value)
  {
  }

  lemma SamePair(es: seq<Entry>, fs: seq<Entry>, i: nat, j: nat)
    requires Same(Obj(es), Obj(fs)) && i < |es| && j < |fs| && es[i].key == fs[j].key
    ensures Same(es[i].value, fs[j].value)
  {
  }

  lemma AddedKeys(a: seq<Entry>, rest: seq<Entry>, es: seq<Entry>, e: Entry)
    requires e in a && forall x :: x in rest <==> x in a && x.key != e.key
    requires Same(Obj(rest), Obj(es))
    ensures Keys(a) == Keys(es + [e])
  {
    var all := es + [e];
    assert Keys(rest) == Keys(es);
    forall key ensures key in Keys(a) <==> key in Keys(all) {
      KeyHasEntry(a, key);
      KeyHasEntry(rest, key);
      KeyHasEntry(es, key);
      KeyHasEntry(all, key);
      assert forall x :: x in all <==> x in es || x == e;
    }
  }

  /**
    An accepted run whose attestation carries the signature of a sealed run is that run: the attestation reads as it was
    sealed, and result bytes, the six bound digests and every evidence object are as they were.
   */
  lemma AcceptedRunIsTheSealedOne(h: Hash, mac: Mac, loads: Loads, root: E.Path, files: E.Tree,
                                  exhibits: seq<E.Exhibit>, a: seq<Entry>, key: Bytes, decision: Bytes, b: Bound,
                                  who: Signing, time: string, approved: SignerSet)
    requires CollisionFree(h) && HexMac(mac) && Faithful(loads)
    requires b.evidenceManifest == E.ManifestDigest(h, exhibits)
    requires forall i :: 0 <= i < |exhibits| ==> exhibits[i].digest == E.EvidenceDigest(h, exhibits[i].payload)
    requires Verify(h, mac, loads, root, files, approved) == Accept
    requires AttestationPath(root) in files && loads(files[AttestationPath(root)]) == Some(Obj(a))
    requires Entry("signature", Str(Signature(mac, key, Unsigned(h, decision, b, who, time)))) in a
    requires NoOtherText(mac, approved, key, Canonical(Obj(Unsigned(h, decision, b, who, time))))
    ensures Same(Obj(a), Obj(Attested(h, mac, key, decision, b, who, time)))
    ensures Vouches(mac, approved, who, key, Unsigned(h, decision, b, who, time))
    ensures files[ResultPath(root)] == decision
    ensures loads(decision).Some? && loads(decision).value.Obj? && Carries(loads(decision).value.entries, b)
    ensures forall i :: 0 <= i < |exhibits| ==> E.Untouched(root, files, exhibits[i])
  {
    hide Canonical, Same, Dict, InProfile, Attested, Vouches, Carries, E.Untouched, E.ManifestDigest, E.EvidenceDigest,
      Unsigned, Verify, NoOtherText, Signature, Approves, SignedWith, AboutTheseFiles;
    AcceptedIff(h, mac, loads, root, files, approved);
    var a', s :| Accepted(h, mac, loads, root, files, approved, a', s);
    assert YieldsDict(loads, files[AttestationPath(root)]);
    ApprovedIsInSet(approved, a, s);
    SignedReadsAsSealed(h, mac, a, approved, s, key, decision, b, who, time);
    AcceptedReadsAsSealed(h, mac, loads, root, files, exhibits, a, key, decision, b, who, time, approved);
  }

  /** Whatever the files are, a run promotes a candidate exactly when it is accepted and its attestation binds that
      candidate's subject digest. */
  lemma PromotedIff(h: Hash, mac: Mac, loads: Loads, root: E.Path, files: E.Tree, approved: SignerSet,
                    candidate: string)
    requires HexMac(mac) && forall text :: YieldsDict(loads, text)
    ensures VerifyPromotion(h, mac, loads, root, files, approved, candidate) == Accept <==>
            exists a, s, bound :: Accepted(h, mac, loads, root, files, approved, a, s)
              && Entry("bound", Obj(bound)) in a && Entry("subject_digest", Str(candidate)) in bound
  {
    hide Dict, Find, Verify, Approves, SignedWith, AboutTheseFiles;
    AcceptedIff(h, mac, loads, root, files, approved);
    if a, s :| Accepted(h, mac, loads, root, files, approved, a, s) {
      assert YieldsDict(loads, files[AttestationPath(root)]);
      DictDistinct(a);
      FindIff(a, "bound");
      BoundEntryIsDict(a);
      var bound := FindOr(a, "bound", Obj([]));
      BoundIsThere(h, loads, root, files, a);
      DictDistinct(bound.entries);
      FindIff(bound.entries, "subject_digest");
    }
  }

  lemma BoundIsThere(h: Hash, loads: Loads, root: E.Path, files: E.Tree, a: seq<Entry>)
    requires AboutTheseFiles(h, loads, root, files, a)
    ensures exists bound :: Entry("bound", Obj(bound)) in a
  {
    hide SaysAllSix, BundleHolds;
  }
}

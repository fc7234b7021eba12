/** Sealing and verifying a run fit together: what is sealed verifies, and what verifies is as sealed. */
module SealingLaws {
  import opened Common
  import opened Canon
  import opened Digests
  import opened Documents
  import opened Attestation
  import opened Stamps
  import E = Evidence
  import Assertions
  import opened TextOrder

  /** The dicts written into an attestation are dicts. */
  lemma BoundIsDict(b: Bound)
    ensures Dict(Obj(BoundEntries(b))) && InProfile(Obj(BoundEntries(b)))
  {
    var es := BoundEntries(b);
    assert es[0].key[0] == 's' && es[3].key[0] == 'c';
    assert |es[0].key| == 14 && |es[1].key| == 15 && |es[2].key| == 13 && |es[3].key| == 14
           && |es[4].key| == 22 && |es[5].key| == 24;
    assert DistinctKeys(es);
  }

  lemma SignerIsDict(keyId: string, identity: string)
    ensures Dict(Obj(SignerEntries(keyId, identity))) && InProfile(Obj(SignerEntries(keyId, identity)))
  {
    var es := SignerEntries(keyId, identity);
    assert |es[0].key| == 6 && |es[1].key| == 8;
    assert DistinctKeys(es);
  }

  lemma UnsignedIsDict(h: Hash, decision: Bytes, b: Bound, who: Signing, time: string)
    ensures var v := Obj(Unsigned(h, decision, b, who, time)); Dict(v) && InProfile(v)
  {
    hide BoundEntries, SignerEntries, DecisionDigest;
    var es := Unsigned(h, decision, b, who, time);
    BoundIsDict(b);
    SignerIsDict(who.keyId, who.identity);
    assert |es[0].key| == 11 && |es[1].key| == 16 && |es[2].key| == 5 && |es[3].key| == 6 && |es[4].key| == 9;
    assert DistinctKeys(es);
  }

  lemma AttestedIsDict(h: Hash, mac: Mac, key: Bytes, decision: Bytes, b: Bound, who: Signing, time: string)
    ensures var v := Obj(Attested(h, mac, key, decision, b, who, time)); Dict(v) && InProfile(v)
  {
    hide BoundEntries, SignerEntries, DecisionDigest, Signature;
    UnsignedIsDict(h, decision, b, who, time);
    var es := Unsigned(h, decision, b, who, time);
    var e := Entry("signature", Str(Signature(mac, key, es)));
    assert |es[0].key| == 11 && |es[1].key| == 16 && |es[2].key| == 5 && |es[3].key| == 6;
    assert es[4].key[0] == 'i' && e.key[0] == 's' && |e.key| == 9;
    AppendDistinct(es, e);
    var all := es + [e];
    assert forall k :: 0 <= k < |all| ==> Dict(all[k].value) && InProfile(all[k].value);
  }

  // ----- What the sealed attestation holds -----

  /** What the verifier looks up in the attestation it parsed. */
  ghost predicate ReadsAs(h: Hash, a: seq<Entry>, decision: Bytes, b: Bound, who: Signing) {
    && Find(a, "statement_digest") == Some(Str(DecisionDigest(h, decision)))
    && (exists s :: Find(a, "bound") == Some(Obj(s)) && Same(Obj(s), Obj(BoundEntries(b))))
    && (exists s :: Find(a, "signer") == Some(Obj(s)) && Same(Obj(s), Obj(SignerEntries(who.keyId, who.identity))))
  }

  lemma AttestationReadsAs(h: Hash, mac: Mac, key: Bytes, decision: Bytes, b: Bound, who: Signing, time: string,
                           a: seq<Entry>)
    requires Same(Obj(a), Obj(Attested(h, mac, key, decision, b, who, time)))
    ensures ReadsAs(h, a, decision, b, who)
  {
    hide BoundEntries, SignerEntries, DecisionDigest, Signature, Same, Dict, InProfile, Find;
    var es := Attested(h, mac, key, decision, b, who, time);
    AttestedKeys(h, mac, key, decision, b, who, time);
    SameFindAt(a, es, 1);
    SameFindAt(a, es, 2);
    SameFindAt(a, es, 3);
    var bound, signer := Find(a, "bound").value, Find(a, "signer").value;
    SameText(bound, Obj(BoundEntries(b)));
    SameText(signer, Obj(SignerEntries(who.keyId, who.identity)));
    assert Find(a, "bound") == Some(Obj(bound.entries));
    assert Find(a, "signer") == Some(Obj(signer.entries));
  }

  lemma AttestedKeys(h: Hash, mac: Mac, key: Bytes, decision: Bytes, b: Bound, who: Signing, time: string)
    ensures DistinctKeys(Attested(h, mac, key, decision, b, who, time))
  {
    hide BoundEntries, SignerEntries, DecisionDigest, Signature;
    AttestedIsDict(h, mac, key, decision, b, who, time);
  }

  /**
    On the attestation as it reads back, a signature is accepted exactly when the checking key gives the same
    code for the unsigned text as the signing key.
   */
  lemma SignatureDecided(h: Hash, mac: Mac, key: Bytes, decision: Bytes, b: Bound, who: Signing, time: string,
                         a: seq<Entry>, signer: Signer)
    requires HexMac(mac) && Dict(Obj(a)) && InProfile(Obj(a))
    requires Same(Obj(a), Obj(Attested(h, mac, key, decision, b, who, time)))
    ensures CheckSignature(mac, a, signer) ==
            if SameCode(mac, signer.key, key, Unsigned(h, decision, b, who, time)) then Accept
            else Reject(SignatureMismatch)
  {
    hide Canonical, Same, Dict, InProfile, Find, Unsigned, Without;
    var es := Unsigned(h, decision, b, who, time);
    var e := Entry("signature", Str(Signature(mac, key, es)));
    UnsignedIsDict(h, decision, b, who, time);
    NoSignatureKey(h, decision, b, who, time);
    WithoutPrints(a, es, e);
    AttestedKeys(h, mac, key, decision, b, who, time);
    SameFindAt(a, es + [e], |es|);
    assert E.HexText(mac(key, Canonical(Obj(es))));
    assert Ascii(e.value.s);
    PrefixCancels(mac(key, Canonical(Obj(es))), mac(signer.key, Canonical(Obj(es))));
  }

  /** Both keys give the same code for these entries. */
  ghost predicate SameCode(mac: Mac, k: Bytes, k': Bytes, unsigned: seq<Entry>) {
    mac(k, Canonical(Obj(unsigned))) == mac(k', Canonical(Obj(unsigned)))
  }

  lemma PrefixCancels(s: string, t: string)
    ensures "hmac-sha256:" + s == "hmac-sha256:" + t <==> s == t
  {
    assert ("hmac-sha256:" + s)[12..] == s && ("hmac-sha256:" + t)[12..] == t;
  }

  lemma NoSignatureKey(h: Hash, decision: Bytes, b: Bound, who: Signing, time: string)
    ensures var es := Unsigned(h, decision, b, who, time);
            forall i :: 0 <= i < |es| ==> es[i].key != "signature"
  {
    var es := Unsigned(h, decision, b, who, time);
    assert |es[0].key| == 11 && |es[1].key| == 16 && |es[2].key| == 5 && |es[3].key| == 6 && |"signature"| == 9;
    assert es[4].key[0] == 'i' && "signature"[0] == 's';
  }

  // ----- Signers -----

  /** `s` is the set's first signer of that key id, has that identity, is not revoked, and its window is open. */
  ghost predicate Admits(approved: SignerSet, who: Signing, s: Signer) {
    && (exists i :: 0 <= i < |approved.signers| && approved.signers[i] == s
                    && forall j :: 0 <= j < i ==> approved.signers[j].keyId != who.keyId)
    && s.keyId == who.keyId && s.identity == who.identity && !s.revoked
    && Leq(s.validFrom, approved.asOf) && Leq(approved.asOf, s.validUntil)
  }

  /** The signer set admits the signing environment and gives the same code as its key. */
  ghost predicate Vouches(mac: Mac, approved: SignerSet, who: Signing, key: Bytes, unsigned: seq<Entry>) {
    exists s :: Admits(approved, who, s) && SameCode(mac, s.key, key, unsigned)
  }

  lemma {:induction false} FirstSignerIs(signers: seq<Signer>, keyId: string, i: nat)
    requires i < |signers| && signers[i].keyId == keyId
    requires forall j :: 0 <= j < i ==> signers[j].keyId != keyId
    ensures FirstSigner(signers, Str(keyId)) == Some(signers[i])
  {
    if i > 0 {
      FirstSignerIs(signers[1..], keyId, i - 1);
    }
  }

  lemma {:induction false} FirstSignerAt(signers: seq<Signer>, keyId: string) returns (i: nat)
    requires FirstSigner(signers, Str(keyId)).Some?
    ensures i < |signers| && FirstSigner(signers, Str(keyId)) == Some(signers[i]) && signers[i].keyId == keyId
    ensures forall j :: 0 <= j < i ==> signers[j].keyId != keyId
  {
    if signers[0].keyId == keyId {
      i := 0;
    } else {
      i := FirstSignerAt(signers[1..], keyId);
      i := i + 1;
    }
  }

  /** A signer is accepted exactly when the set admits it; then it is the signer whose key gets used. */
  lemma SignerDecided(approved: SignerSet, h: Hash, a: seq<Entry>, decision: Bytes, b: Bound, who: Signing)
    requires ReadsAs(h, a, decision, b, who)
    ensures forall s :: CheckSigner(a, approved) == Ok(s) <==> Admits(approved, who, s)
    ensures CheckSigner(a, approved).Err? ==> CheckSigner(a, approved).error != Accept
  {
    hide BoundEntries, DecisionDigest, Same, Find, Leq, FirstSigner;
    SignerReadsAs(h, a, decision, b, who);
    if FirstSigner(approved.signers, Str(who.keyId)).Some? {
      var i := FirstSignerAt(approved.signers, who.keyId);
    }
    forall s | Admits(approved, who, s) ensures FirstSigner(approved.signers, Str(who.keyId)) == Some(s) {
      var i :| 0 <= i < |approved.signers| && approved.signers[i] == s
               && forall j :: 0 <= j < i ==> approved.signers[j].keyId != who.keyId;
      FirstSignerIs(approved.signers, who.keyId, i);
    }
  }

  lemma SignerReadsAs(h: Hash, a: seq<Entry>, decision: Bytes, b: Bound, who: Signing)
    requires ReadsAs(h, a, decision, b, who)
    ensures FindOr(a, "signer", Obj([])).Obj?
    ensures var s := FindOr(a, "signer", Obj([])).entries;
            Find(s, "key_id") == Some(Str(who.keyId)) && Find(s, "identity") == Some(Str(who.identity))
  {
    hide BoundEntries, DecisionDigest, Same, Find;
    var s :| Find(a, "signer") == Some(Obj(s)) && Same(Obj(s), Obj(SignerEntries(who.keyId, who.identity)));
    var es := SignerEntries(who.keyId, who.identity);
    SignerKeys(who.keyId, who.identity);
    SameFindAt(s, es, 0);
    SameFindAt(s, es, 1);
  }

  lemma SignerKeys(keyId: string, identity: string)
    ensures DistinctKeys(SignerEntries(keyId, identity))
  {
    SignerIsDict(keyId, identity);
  }

  // ----- The six bound digests -----

  /** The result names the six bound digests. */
  ghost predicate Carries(result: seq<Entry>, b: Bound) {
    forall i :: 0 <= i < 6 ==> Find(result, BOUND_KEYS[i]) == Some(BoundEntries(b)[i].value)
  }

  lemma BoundKeys(b: Bound)
    ensures DistinctKeys(BoundEntries(b))
  {
    BoundIsDict(b);
  }

  lemma BoundFind(s: seq<Entry>, b: Bound, i: nat)
    requires Same(Obj(s), Obj(BoundEntries(b))) && i < 6
    ensures Find(s, BOUND_KEYS[i]) == Some(BoundEntries(b)[i].value)
  {
    hide Same, Dict, InProfile, Find;
    BoundKeys(b);
    SameFindAt(s, BoundEntries(b), i);
  }

  lemma {:induction false} MatchIffAllAlike(result: seq<Entry>, bound: seq<Entry>, keys: seq<string>)
    ensures FirstMismatch(result, bound, keys).None? <==>
            forall i :: 0 <= i < |keys| ==> Alike(Find(result, keys[i]), Find(bound, keys[i]))
  {
    if keys != [] {
      MatchIffAllAlike(result, bound, keys[1..]);
      assert keys == [keys[0]] + keys[1..];
    }
  }

  lemma AlikeText(v: Option<Value>, s: string)
    ensures Alike(v, Some(Str(s))) <==> v == Some(Str(s))
  {
    if v.Some? { NormKind(v.value); }
  }

  lemma CarriesIffMatch(result: seq<Entry>, s: seq<Entry>, b: Bound)
    requires Same(Obj(s), Obj(BoundEntries(b)))
    ensures FirstMismatch(result, s, BOUND_KEYS).None? <==> Carries(result, b)
  {
    hide Same, Find, Alike, Norm;
    MatchIffAllAlike(result, s, BOUND_KEYS);
    forall i | 0 <= i < 6
      ensures Alike(Find(result, BOUND_KEYS[i]), Find(s, BOUND_KEYS[i]))
              <==> Find(result, BOUND_KEYS[i]) == Some(BoundEntries(b)[i].value)
    {
      BoundFind(s, b, i);
      assert BoundEntries(b)[i].value.Str?;
      AlikeText(Find(result, BOUND_KEYS[i]), BoundEntries(b)[i].value.s);
    }
  }

  // ----- Main results -----

  /** Once the signature holds, acceptance is about the content alone. */
  lemma ContentChecked(h: Hash, loads: Loads, root: E.Path, files: E.Tree, a: seq<Entry>, decision: Bytes, b: Bound,
                       who: Signing)
    requires ReadsAs(h, a, decision, b, who)
    requires ResultPath(root) in files && loads(files[ResultPath(root)]).Some?
    ensures var result := loads(files[ResultPath(root)]).value;
            CheckContent(h, loads, root, files, a) == Accept <==>
              && DecisionDigest(h, files[ResultPath(root)]) == DecisionDigest(h, decision)
              && result.Obj? && Carries(result.entries, b)
              && E.Verify(h, loads, root, files, Str(b.evidenceManifest)) == Ok(true)
  {
    hide Same, Find, FirstMismatch, Carries, DecisionDigest, E.Verify;
    var s :| Find(a, "bound") == Some(Obj(s)) && Same(Obj(s), Obj(BoundEntries(b)));
    var result := loads(files[ResultPath(root)]).value;
    BoundFind(s, b, 5);
    if result.Obj? {
      CarriesIffMatch(result.entries, s, b);
    }
  }

  /** The run directory after sealing a promotion run: evidence, manifest, decision and attestation. */
  ghost predicate SealedRun(h: Hash, mac: Mac, root: E.Path, was: E.Tree, files: E.Tree, exhibits: seq<E.Exhibit>,
                            res: seq<Entry>, b: Bound, who: Signing, time: string) {
    var r, a, m := ResultPath(root), AttestationPath(root), E.ManifestPath(root);
    && E.AllFiled(h, root, exhibits) && E.Kept(root, was, files, exhibits)
    && m in files && files[m] == Canonical(E.ManifestValue(exhibits))
    && b.evidenceManifest == E.ManifestDigest(h, exhibits)
    && Dict(Obj(res)) && InProfile(Obj(res)) && r in files && files[r] == Canonical(Obj(res))
    && who.key.Some? && a in files
    && files[a] == Canonical(Obj(Attested(h, mac, who.key.value, Canonical(Obj(res)), b, who, time)))
  }

  lemma CarriesReadBack(r: seq<Entry>, res: seq<Entry>, b: Bound)
    requires Same(Obj(r), Obj(res))
    ensures Carries(r, b) <==> Carries(res, b)
  {
    hide Same, Find;
    forall i | 0 <= i < 6
      ensures Find(r, BOUND_KEYS[i]) == Some(BoundEntries(b)[i].value) <==>
              Find(res, BOUND_KEYS[i]) == Some(BoundEntries(b)[i].value)
    {
      SameFind(r, res, BOUND_KEYS[i]);
      TextReadsBack(Find(r, BOUND_KEYS[i]), Find(res, BOUND_KEYS[i]));
      assert BoundEntries(b)[i].value.Str?;
    }
  }

  lemma TextReadsBack(v: Option<Value>, w: Option<Value>)
    requires v.Some? <==> w.Some?
    requires v.Some? ==> Same(v.value, w.value)
    ensures forall s :: v == Some(Str(s)) <==> w == Some(Str(s))
  {
  }

  /** An attestation that reads as a sealed one passes the signer and signature checks exactly when the set vouches for
      it. */
  lemma SealedChecksDecided(h: Hash, mac: Mac, a: seq<Entry>, key: Bytes, decision: Bytes, b: Bound, who: Signing,
                            time: string, approved: SignerSet)
    requires HexMac(mac) && Dict(Obj(a)) && InProfile(Obj(a))
    requires Same(Obj(a), Obj(Attested(h, mac, key, decision, b, who, time)))
    ensures ReadsAs(h, a, decision, b, who)
    ensures var s := CheckSigner(a, approved);
            && (s.Err? ==> s.error != Accept)
            && (s.Ok? && CheckSignature(mac, a, s.value) == Accept <==>
                Vouches(mac, approved, who, key, Unsigned(h, decision, b, who, time)))
  {
    hide Canonical, Same, Dict, InProfile, Find, Attested, CheckSigner, CheckSignature, ReadsAs, Admits, SameCode,
         Unsigned;
    AttestationReadsAs(h, mac, key, decision, b, who, time, a);
    SignerDecided(approved, h, a, decision, b, who);
    var s := CheckSigner(a, approved);
    if s.Ok? {
      SignatureDecided(h, mac, key, decision, b, who, time, a, s.value);
      assert Admits(approved, who, s.value);
    }
  }

  /** So does the attestation on disk, as parsed. */
  lemma AttestationDecided(h: Hash, mac: Mac, loads: Loads, text: Bytes, key: Bytes, decision: Bytes, b: Bound,
                           who: Signing, time: string, approved: SignerSet) returns (a: seq<Entry>)
    requires HexMac(mac) && Faithful(loads)
    requires text == Canonical(Obj(Attested(h, mac, key, decision, b, who, time)))
    ensures loads(text) == Some(Obj(a)) && ReadsAs(h, a, decision, b, who)
    ensures Same(Obj(a), Obj(Attested(h, mac, key, decision, b, who, time))) && Dict(Obj(a)) && InProfile(Obj(a))
    ensures var s := CheckSigner(a, approved);
            && (s.Err? ==> s.error != Accept)
            && (s.Ok? && CheckSignature(mac, a, s.value) == Accept <==>
                Vouches(mac, approved, who, key, Unsigned(h, decision, b, who, time)))
  {
    hide Canonical, Same, Dict, InProfile, Find, Attested, CheckSigner, CheckSignature, ReadsAs, Vouches, Unsigned;
    var v := Obj(Attested(h, mac, key, decision, b, who, time));
    AttestedIsDict(h, mac, key, decision, b, who, time);
    assert ReadBack(loads, v);
    SameText(loads(text).value, v);
    a := loads(text).value.entries;
    SealedChecksDecided(h, mac, a, key, decision, b, who, time, approved);
  }

  /**
    A sealed run verifies exactly when the signer set vouches for its signature, the result names the digests
    that were bound, and no two evidence objects of different content share a file name.
   */
  lemma SealedRunVerifiesIff(h: Hash, mac: Mac, loads: Loads, root: E.Path, was: E.Tree, files: E.Tree,
                             exhibits: seq<E.Exhibit>, res: seq<Entry>, b: Bound, who: Signing, time: string,
                             approved: SignerSet)
    requires HexMac(mac) && Faithful(loads)
    requires SealedRun(h, mac, root, was, files, exhibits, res, b, who, time)
    ensures Verify(h, mac, loads, root, files, approved) == Accept <==>
            && Vouches(mac, approved, who, who.key.value, Unsigned(h, Canonical(Obj(res)), b, who, time))
            && Carries(res, b) && E.NoClash(exhibits)
  {
    hide Canonical, Same, Dict, InProfile, Find, Attested, CheckSigner, CheckSignature, CheckContent, ReadsAs, Vouches,
      Carries, E.Kept, E.AllFiled, E.NoClash, E.ManifestDigest, E.Verify, Unsigned;
    E.ManifestIsDict(exhibits);
    assert ReadBack(loads, E.ManifestValue(exhibits)) && ReadBack(loads, Obj(res));
    var result := loads(files[ResultPath(root)]).value;
    SameText(result, Obj(res));
    var a := AttestationDecided(h, mac, loads, files[AttestationPath(root)], who.key.value, Canonical(Obj(res)), b,
                                who, time, approved);
    ContentChecked(h, loads, root, files, a, Canonical(Obj(res)), b, who);
    CarriesReadBack(result.entries, res, b);
    E.SealedBundleVerifiesIff(h, loads, root, was, files, exhibits);
  }

  lemma AcceptanceChecksContent(h: Hash, mac: Mac, loads: Loads, root: E.Path, files: E.Tree, approved: SignerSet)
    requires Verify(h, mac, loads, root, files, approved) == Accept
    ensures ResultPath(root) in files && loads(files[ResultPath(root)]).Some?
    ensures var a := loads(files[AttestationPath(root)]).value.entries;
            && CheckSigner(a, approved).Ok? && CheckSignature(mac, a, CheckSigner(a, approved).value) == Accept
            && CheckContent(h, loads, root, files, a) == Accept
  {
    hide CheckContent, CheckSignature;
  }

  /**
    A run whose attestation reads as it was sealed is accepted only if the signer set vouches for it and nothing else
    changed: the decision has the sealed bytes, it names the six bound digests, and every evidence object has
    the sealed bytes.
   */
  lemma AcceptedReadsAsSealed(h: Hash, mac: Mac, loads: Loads, root: E.Path, files: E.Tree, exhibits: seq<E.Exhibit>,
                              a: seq<Entry>, key: Bytes, decision: Bytes, b: Bound, who: Signing, time: string,
                              approved: SignerSet)
    requires CollisionFree(h) && HexMac(mac) && Faithful(loads)
    requires b.evidenceManifest == E.ManifestDigest(h, exhibits)
    requires forall i :: 0 <= i < |exhibits| ==> exhibits[i].digest == E.EvidenceDigest(h, exhibits[i].payload)
    requires AttestationPath(root) in files && loads(files[AttestationPath(root)]) == Some(Obj(a))
    requires Same(Obj(a), Obj(Attested(h, mac, key, decision, b, who, time))) && Dict(Obj(a)) && InProfile(Obj(a))
    requires Verify(h, mac, loads, root, files, approved) == Accept
    ensures Vouches(mac, approved, who, key, Unsigned(h, decision, b, who, time))
    ensures ResultPath(root) in files && files[ResultPath(root)] == decision
    ensures loads(decision).Some? && loads(decision).value.Obj? && Carries(loads(decision).value.entries, b)
    ensures forall i :: 0 <= i < |exhibits| ==> E.Untouched(root, files, exhibits[i])
  {
    hide Canonical, Same, Dict, InProfile, Find, Attested, CheckSigner, CheckSignature, CheckContent, ReadsAs, Vouches,
      Carries, E.Untouched, E.ManifestDigest, E.Verify, E.EvidenceDigest, Unsigned;
    SealedChecksDecided(h, mac, a, key, decision, b, who, time, approved);
    AcceptanceChecksContent(h, mac, loads, root, files, approved);
    ContentChecked(h, loads, root, files, a, decision, b, who);
    DigestEqualIff(h, "decision/v1", "decision/v1", files[ResultPath(root)], decision);
    E.VerifiedBundleIsUntouched(h, loads, root, files, exhibits);
  }

  /** The same for a run whose attestation file has not been changed at all. */
  lemma AcceptedRunIsAsSealed(h: Hash, mac: Mac, loads: Loads, root: E.Path, files: E.Tree, exhibits: seq<E.Exhibit>,
                              key: Bytes, decision: Bytes, b: Bound, who: Signing, time: string, approved: SignerSet)
    requires CollisionFree(h) && HexMac(mac) && Faithful(loads)
    requires b.evidenceManifest == E.ManifestDigest(h, exhibits)
    requires forall i :: 0 <= i < |exhibits| ==> exhibits[i].digest == E.EvidenceDigest(h, exhibits[i].payload)
    requires AttestationPath(root) in files
             && files[AttestationPath(root)] == Canonical(Obj(Attested(h, mac, key, decision, b, who, time)))
    requires Verify(h, mac, loads, root, files, approved) == Accept
    ensures Vouches(mac, approved, who, key, Unsigned(h, decision, b, who, time))
    ensures ResultPath(root) in files && files[ResultPath(root)] == decision
    ensures loads(decision).Some? && loads(decision).value.Obj? && Carries(loads(decision).value.entries, b)
    ensures forall i :: 0 <= i < |exhibits| ==> E.Untouched(root, files, exhibits[i])
  {
    hide Canonical, Same, Dict, InProfile, Find, Attested, CheckSigner, CheckSignature, CheckContent, ReadsAs, Vouches,
      Carries, E.Untouched, E.ManifestDigest, E.Verify, E.EvidenceDigest, Unsigned, Verify;
    var a := AttestationDecided(h, mac, loads, files[AttestationPath(root)], key, decision, b, who, time, approved);
    AcceptedReadsAsSealed(h, mac, loads, root, files, exhibits, a, key, decision, b, who, time, approved);
  }

  /** A verified run promotes its own subject and no other. */
  lemma PromotionBindsCandidate(h: Hash, mac: Mac, loads: Loads, root: E.Path, files: E.Tree, key: Bytes,
                                decision: Bytes, b: Bound, who: Signing, time: string, approved: SignerSet,
                                candidate: string)
    requires Faithful(loads)
    requires AttestationPath(root) in files
             && files[AttestationPath(root)] == Canonical(Obj(Attested(h, mac, key, decision, b, who, time)))
    ensures VerifyPromotion(h, mac, loads, root, files, approved, candidate) == Accept <==>
            Verify(h, mac, loads, root, files, approved) == Accept && candidate == b.subject
  {
    hide Canonical, Same, Dict, InProfile, Find, Attested, CheckSigner, CheckSignature, CheckContent;
    if Verify(h, mac, loads, root, files, approved) == Accept {
      var v := Obj(Attested(h, mac, key, decision, b, who, time));
      AttestedIsDict(h, mac, key, decision, b, who, time);
      assert ReadBack(loads, v);
      var a := loads(files[AttestationPath(root)]).value;
      SameText(a, v);
      AttestationReadsAs(h, mac, key, decision, b, who, time, a.entries);
      var s :| Find(a.entries, "bound") == Some(Obj(s)) && Same(Obj(s), Obj(BoundEntries(b)));
      BoundFind(s, b, 0);
    }
  }

  // ----- A whole promotion run -----

  lemma ArtifactPathsDiffer(root: E.Path)
    ensures ResultPath(root) != AttestationPath(root) && ResultPath(root) != EnvelopePath(root)
            && AttestationPath(root) != EnvelopePath(root)
    ensures var m := E.ManifestPath(root);
            m != ResultPath(root) && m != AttestationPath(root) && m != EnvelopePath(root)
  {
    var k := |root|;
    assert |"result.json"| == 11 && |"attestation.json"| == 16 && |"run-envelope.json"| == 17
           && |"evidence-manifest.json"| == 22;
    assert ResultPath(root)[k] == "result.json" && AttestationPath(root)[k] == "attestation.json";
    assert EnvelopePath(root)[k] == "run-envelope.json" && E.ManifestPath(root)[k] == "evidence-manifest.json";
  }

  /** The artifacts beside the evidence do not touch it. */
  lemma ArtifactsKeepEvidence(h: Hash, root: E.Path, was: E.Tree, exhibits: seq<E.Exhibit>, m: Bytes, r: Bytes,
                              a: Bytes, e: Bytes)
    requires E.AllFiled(h, root, exhibits)
    ensures E.Kept(root, was, E.Written(root, was, exhibits)[E.ManifestPath(root) := m][ResultPath(root) := r]
                     [AttestationPath(root) := a][EnvelopePath(root) := e], exhibits)
  {
    hide E.Locate, E.Written, E.EvidenceDigest;
    var w := E.Written(root, was, exhibits);
    var files := w[E.ManifestPath(root) := m][ResultPath(root) := r][AttestationPath(root) := a]
                  [EnvelopePath(root) := e];
    forall i | 0 <= i < |exhibits| ensures E.KeptAt(root, w, files, exhibits[i]) {
      var j := E.LastWriter(h, root, was, exhibits, i);
      assert E.Filed(h, root, exhibits[i]);
    }
  }

  /** `result.build`: the six digests among the other fields. */
  function ResultEntries(b: Bound, rest: seq<Entry>): seq<Entry> {
    BoundEntries(b) + rest
  }

  lemma ResultCarries(b: Bound, rest: seq<Entry>)
    requires DistinctKeys(ResultEntries(b, rest))
    ensures Carries(ResultEntries(b, rest), b)
  {
    hide Find;
    var res := ResultEntries(b, rest);
    forall i | 0 <= i < 6 ensures Find(res, BOUND_KEYS[i]) == Some(BoundEntries(b)[i].value) {
      assert res[i] == BoundEntries(b)[i] && res[i].key == BOUND_KEYS[i];
      FindAt(res, i);
    }
  }

  lemma ResultHasDecision(b: Bound, rest: seq<Entry>)
    requires Find(rest, "decision").Some?
    ensures Find(ResultEntries(b, rest), "decision").Some?
  {
    hide BoundEntries;
    var i :| 0 <= i < |rest| && rest[i].key == "decision";
    assert ResultEntries(b, rest)[|BoundEntries(b)| + i].key == "decision";
  }

  /** The files a promotion run leaves behind. */
  ghost function RunFiles(h: Hash, mac: Mac, root: E.Path, was: E.Tree, exhibits: seq<E.Exhibit>, res: seq<Entry>,
                          b: Bound, who: Signing, time: string, envelope: Bytes): E.Tree
    requires who.key.Some?
  {
    var decision := Canonical(Obj(res));
    E.Written(root, was, exhibits)[E.ManifestPath(root) := Canonical(E.ManifestValue(exhibits))]
      [ResultPath(root) := decision]
      [AttestationPath(root) := Canonical(Obj(Attested(h, mac, who.key.value, decision, b, who, time)))]
      [EnvelopePath(root) := envelope]
  }

  lemma RunFilesSealed(h: Hash, mac: Mac, root: E.Path, was: E.Tree, exhibits: seq<E.Exhibit>, res: seq<Entry>,
                       b: Bound, who: Signing, time: string, envelope: Bytes)
    requires who.key.Some? && E.AllFiled(h, root, exhibits) && b.evidenceManifest == E.ManifestDigest(h, exhibits)
    requires Dict(Obj(res)) && InProfile(Obj(res))
    ensures SealedRun(h, mac, root, was, RunFiles(h, mac, root, was, exhibits, res, b, who, time, envelope),
                      exhibits, res, b, who, time)
  {
    hide Canonical, Dict, InProfile, Attested, E.Kept, E.AllFiled, E.ManifestDigest, E.Written, E.ManifestValue,
      ResultPath, AttestationPath, EnvelopePath, E.ManifestPath;
    var decision := Canonical(Obj(res));
    ArtifactPathsDiffer(root);
    ArtifactsKeepEvidence(h, root, was, exhibits, Canonical(E.ManifestValue(exhibits)), decision,
                          Canonical(Obj(Attested(h, mac, who.key.value, decision, b, who, time))), envelope);
  }

  /** The result of a run: what `result.build` writes of the findings, with their evidence references, and the
      digests. */
  function SealedResult(h: Hash, findings: seq<Assertions.Finding>, retention: map<string, int>, ids: Identities,
                        describe: seq<Assertions.Finding> -> seq<Entry>): seq<Entry>
    requires ids.evaluatorImage.Some?
  {
    var exhibits := E.ShowAll(h, findings, [], retention);
    ResultEntries(BoundOf(ids, ids.evaluatorImage.value, E.ManifestDigest(h, exhibits)),
                  describe(E.Referring(findings, exhibits)))
  }

  /** Sealing evidence, building the result and sealing the run, as the pipeline's main program does at stage 2 and
      above; `describe` gives the fields of the result besides the six digests. */
  method PromotionRun(bundle: E.Bundle, h: Hash, mac: Mac, valid: Value -> bool, who: Signing,
                      findings: array<Assertions.Finding>, retention: map<string, int>,
                      describe: seq<Assertions.Finding> -> seq<Entry>,
                      ledger: seq<Assertions.Row>, ids: Identities, stage: int, time: string, blocked: Option<bool>,
                      ghost loads: Loads, ghost approved: SignerSet)
    returns (r: Option<Result<int, AttestationError>>)
    requires 2 <= stage <= INT64_MAX && ids.evaluatorImage.Some?
    requires forall fs :: Find(describe(fs), "decision").Some?
    requires forall d, fs :: Dict(Obj(ResultEntries(BoundOf(ids, ids.evaluatorImage.value, d), describe(fs))))
    requires E.HexDigits(h) && HexMac(mac) && Faithful(loads)
    requires exists s :: Admits(approved, who, s) && Some(s.key) == who.key
    modifies bundle, findings
    ensures r.Some? <==> E.SoundRetention(retention) && E.FaultFree(h, bundle.root, old(findings[..]), [])
    ensures r.Some? ==>
              var exhibits := E.ShowAll(h, old(findings[..]), [], retention);
              var res := SealedResult(h, old(findings[..]), retention, ids, describe);
              var signed := Sign(h, mac, valid, who, Canonical(Obj(res)), ids, E.ManifestDigest(h, exhibits), time);
              r.value.Ok? <==> InProfile(Obj(res)) && signed.Ok?
    ensures r.Some? && r.value.Ok? ==>
              (Verify(h, mac, loads, bundle.root, bundle.files, approved) == Accept <==>
               E.NoClash(E.ShowAll(h, old(findings[..]), [], retention)))
  {
    hide Canonical, Same, Dict, InProfile, Find, Attested, Verify, Carries, Admits, BoundEntries, Unsigned,
      E.Kept, E.AllFiled, E.NoClash, E.ManifestDigest, E.Fault, E.Show, E.Written, E.ManifestValue, Sign;
    ghost var exhibits, was, root := E.ShowAll(h, findings[..], [], retention), bundle.files, bundle.root;
    ghost var given := findings[..];
    assert E.Secrets([]) == [];
    var sealed := bundle.Seal(h, findings, [], retention);
    if sealed.Err? {
      return None;
    }
    var b := BoundOf(ids, ids.evaluatorImage.value, sealed.value);
    var rest := describe(findings[..]);
    var res := ResultEntries(b, rest);
    ResultHasDecision(b, rest);
    var code := SealRun(bundle, h, mac, valid, who, res, ledger, ids, sealed.value, stage, "fresh-promotion", time,
                        blocked);
    r := Some(code);
    if code.Ok? {
      ghost var envelope := bundle.files[EnvelopePath(root)];
      SignsAttested(h, mac, valid, who, Canonical(Obj(res)), ids, sealed.value, time);
      E.SealedIsFiled(h, root, given, [], retention);
      RunFilesSealed(h, mac, root, was, exhibits, res, b, who, time, envelope);
      assert bundle.files == RunFiles(h, mac, root, was, exhibits, res, b, who, time, envelope);
      SealedRunVerifiesIff(h, mac, loads, root, was, bundle.files, exhibits, res, b, who, time, approved);
      DictDistinct(res);
      ResultCarries(b, rest);
    }
  }

  lemma SignsAttested(h: Hash, mac: Mac, valid: Value -> bool, who: Signing, decision: Bytes, ids: Identities,
                      evidenceManifest: string, time: string)
    requires Sign(h, mac, valid, who, decision, ids, evidenceManifest, time).Ok?
    ensures who.key.Some? && ids.evaluatorImage.Some?
    ensures Sign(h, mac, valid, who, decision, ids, evidenceManifest, time).value
            == Obj(Attested(h, mac, who.key.value, decision,
                            BoundOf(ids, ids.evaluatorImage.value, evidenceManifest), who, time))
  {
    hide Attested;
  }

  /** Signing succeeds exactly with a key, an evaluator image and a valid attestation, and fails for the first of them
      that is missing. */
  lemma SignsIff(h: Hash, mac: Mac, valid: Value -> bool, who: Signing, decision: Bytes, ids: Identities,
                 evidenceManifest: string, time: string)
    ensures var r := Sign(h, mac, valid, who, decision, ids, evidenceManifest, time);
            if who.key.None? then r == Err(NoSigningKey)
            else if ids.evaluatorImage.None? then r == Err(NoEvaluatorImage)
            else
              var b := BoundOf(ids, ids.evaluatorImage.value, evidenceManifest);
              var attestation := Obj(Attested(h, mac, who.key.value, decision, b, who, time));
              && (r == Ok(attestation) <==> valid(attestation))
              && (r == Err(SchemaViolation) <==> !valid(attestation))
  {
    hide Attested;
  }

  // ----- Signer windows against the clock -----

  /** A signer whose window is given by stamps. */
  datatype DatedSigner = DatedSigner(keyId: string, identity: string, key: Bytes, from: Stamp, until: Stamp,
                                     revoked: bool)

  datatype DatedSet = DatedSet(asOf: Stamp, signers: seq<DatedSigner>)

  function PrintSigner(s: DatedSigner): Signer {
    Signer(s.keyId, s.identity, s.key, Written(s.from), Written(s.until), s.revoked)
  }

  /** The signer set as it is issued. */
  function Issued(d: DatedSet): SignerSet {
    SignerSet(Written(d.asOf), seq(|d.signers|, i requires 0 <= i < |d.signers| => PrintSigner(d.signers[i])))
  }

  ghost predicate Valid(d: DatedSet) {
    && ValidStamp(d.asOf)
    && forall i :: 0 <= i < |d.signers| ==> ValidStamp(d.signers[i].from) && ValidStamp(d.signers[i].until)
  }

  /** All windows are written on the clock of the reference time; whoever issues or reads the set can see that. */
  predicate OneClock(d: DatedSet) {
    forall i :: 0 <= i < |d.signers| ==>
      SameClock(d.signers[i].from.layout, d.asOf.layout) && SameClock(d.asOf.layout, d.signers[i].until.layout)
  }

  /** The i-th signer is the first of its key id, has the identity, is not revoked, and its code is the signature's. */
  ghost predicate Candidate(mac: Mac, d: DatedSet, who: Signing, key: Bytes, unsigned: seq<Entry>, i: nat) {
    && i < |d.signers| && d.signers[i].keyId == who.keyId
    && (forall j :: 0 <= j < i ==> d.signers[j].keyId != who.keyId)
    && d.signers[i].identity == who.identity && !d.signers[i].revoked
    && SameCode(mac, d.signers[i].key, key, unsigned)
  }

  ghost predicate VouchedOnTime(mac: Mac, d: DatedSet, who: Signing, key: Bytes, unsigned: seq<Entry>, i: nat) {
    Candidate(mac, d, who, key, unsigned, i) && OpenInTime(d.signers[i].from, d.asOf, d.signers[i].until)
  }

  ghost predicate VouchedAsText(mac: Mac, d: DatedSet, who: Signing, key: Bytes, unsigned: seq<Entry>, i: nat) {
    Candidate(mac, d, who, key, unsigned, i) && OpenAsText(d.signers[i].from, d.asOf, d.signers[i].until)
  }

  /** The set vouches for the signature, and at the reference instant the signer's window is open. */
  ghost predicate VouchesOnTime(mac: Mac, d: DatedSet, who: Signing, key: Bytes, unsigned: seq<Entry>) {
    exists i: nat :: VouchedOnTime(mac, d, who, key, unsigned, i)
  }

  /** What the code decides: the same with the window read as text. */
  lemma VouchesAsText(mac: Mac, d: DatedSet, who: Signing, key: Bytes, unsigned: seq<Entry>)
    ensures Vouches(mac, Issued(d), who, key, unsigned) <==>
            exists i: nat :: VouchedAsText(mac, d, who, key, unsigned, i)
  {
    hide Written, Leq, SameCode;
    var issued := Issued(d);
    assert forall j :: 0 <= j < |d.signers| ==> issued.signers[j] == PrintSigner(d.signers[j]);
    if s :| Admits(issued, who, s) && SameCode(mac, s.key, key, unsigned) {
      var i: nat :| i < |issued.signers| && issued.signers[i] == s
                    && forall j :: 0 <= j < i ==> issued.signers[j].keyId != who.keyId;
      assert VouchedAsText(mac, d, who, key, unsigned, i);
    }
    if i: nat :| VouchedAsText(mac, d, who, key, unsigned, i) {
      var s := issued.signers[i];
      assert s == PrintSigner(d.signers[i]);
      assert Admits(issued, who, s) && SameCode(mac, s.key, key, unsigned);
    }
  }

  /** On one clock the code's window test is the real one. */
  lemma OneClockVouchesOnTime(mac: Mac, d: DatedSet, who: Signing, key: Bytes, unsigned: seq<Entry>)
    requires Valid(d) && OneClock(d)
    ensures Vouches(mac, Issued(d), who, key, unsigned) <==> VouchesOnTime(mac, d, who, key, unsigned)
  {
    hide Vouches, VouchedAsText, VouchedOnTime, Issued, Valid, OneClock;
    VouchesAsText(mac, d, who, key, unsigned);
    forall i: nat
      ensures VouchedAsText(mac, d, who, key, unsigned, i) <==> VouchedOnTime(mac, d, who, key, unsigned, i)
    {
      VouchedAlike(mac, d, who, key, unsigned, i);
    }
  }

  lemma VouchedAlike(mac: Mac, d: DatedSet, who: Signing, key: Bytes, unsigned: seq<Entry>, i: nat)
    requires Valid(d) && OneClock(d)
    ensures VouchedAsText(mac, d, who, key, unsigned, i) <==> VouchedOnTime(mac, d, who, key, unsigned, i)
  {
    hide SameClock, OpenAsText, OpenInTime, SameCode, ValidStamp;
    if i < |d.signers| {
      OpenAgrees(d.signers[i].from, d.asOf, d.signers[i].until);
    }
  }

  lemma OpenAgrees(from: Stamp, asOf: Stamp, until: Stamp)
    requires ValidStamp(from) && ValidStamp(asOf) && ValidStamp(until)
    requires SameClock(from.layout, asOf.layout) && SameClock(asOf.layout, until.layout)
    ensures OpenAsText(from, asOf, until) <==> OpenInTime(from, asOf, until)
  {
    hide SameClock, Written, Leq, At, ValidTime;
    SameClockAgrees(from, asOf);
    SameClockAgrees(asOf, until);
  }

  /**
    With all stamps of the signer set on one clock, a sealed run verifies exactly when the set vouches for its
    signature at an instant inside the signer's window, the result names the bound digests, and no evidence names clash.
   */
  lemma SealedRunVerifiesOnTimeIff(h: Hash, mac: Mac, loads: Loads, root: E.Path, was: E.Tree, files: E.Tree,
                                   exhibits: seq<E.Exhibit>, res: seq<Entry>, b: Bound, who: Signing, time: string,
                                   d: DatedSet)
    requires HexMac(mac) && Faithful(loads) && Valid(d) && OneClock(d)
    requires SealedRun(h, mac, root, was, files, exhibits, res, b, who, time)
    ensures Verify(h, mac, loads, root, files, Issued(d)) == Accept <==>
            && VouchesOnTime(mac, d, who, who.key.value, Unsigned(h, Canonical(Obj(res)), b, who, time))
            && Carries(res, b) && E.NoClash(exhibits)
  {
    hide Canonical, Verify, Unsigned, Vouches, VouchesOnTime, Carries, E.NoClash, Issued, Valid, OneClock;
    SealedRunVerifiesIff(h, mac, loads, root, was, files, exhibits, res, b, who, time, Issued(d));
    OneClockVouchesOnTime(mac, d, who, who.key.value, Unsigned(h, Canonical(Obj(res)), b, who, time));
  }

  /** A signer set whose only signer's window closed four and a half hours before the reference instant. */
  function LapsedSet(who: Signing): DatedSet
    requires who.key.Some?
  {
    DatedSet(HALF_PAST_MIDNIGHT_WEST,
             [DatedSigner(who.keyId, who.identity, who.key.value, SIX_YEARS_BEFORE, ONE_O_CLOCK_UTC, false)])
  }

  /** On different clocks an expired signer verifies: every sealed run that is in order otherwise is accepted under
      the lapsed set. */
  lemma ExpiredSignerAccepted(h: Hash, mac: Mac, loads: Loads, root: E.Path, was: E.Tree, files: E.Tree,
                              exhibits: seq<E.Exhibit>, res: seq<Entry>, b: Bound, who: Signing, time: string)
    requires HexMac(mac) && Faithful(loads) && Carries(res, b) && E.NoClash(exhibits)
    requires SealedRun(h, mac, root, was, files, exhibits, res, b, who, time)
    ensures var d := LapsedSet(who);
            && Valid(d) && Verify(h, mac, loads, root, files, Issued(d)) == Accept
            && At(d.asOf) == At(d.signers[0].until) + 16200.0
            && !VouchesOnTime(mac, d, who, who.key.value, Unsigned(h, Canonical(Obj(res)), b, who, time))
  {
    hide Canonical, Verify, Unsigned, Vouches, Carries, E.NoClash, Issued, OpenAsText, OpenInTime, At, ValidTime;
    var d := LapsedSet(who);
    var unsigned := Unsigned(h, Canonical(Obj(res)), b, who, time);
    ClosedWindowReadsOpen();
    SealedRunVerifiesIff(h, mac, loads, root, was, files, exhibits, res, b, who, time, Issued(d));
    VouchesAsText(mac, d, who, who.key.value, unsigned);
    assert VouchedAsText(mac, d, who, who.key.value, unsigned, 0);
    forall i: nat ensures !VouchedOnTime(mac, d, who, who.key.value, unsigned, i) {
      OnlyCandidate(mac, d, who, who.key.value, unsigned, i);
    }
  }

  lemma OnlyCandidate(mac: Mac, d: DatedSet, who: Signing, key: Bytes, unsigned: seq<Entry>, i: nat)
    requires |d.signers| == 1
    ensures Candidate(mac, d, who, key, unsigned, i) ==> i == 0
  {
  }
}

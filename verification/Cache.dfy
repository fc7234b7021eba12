/** The result cache of hub/coherence/cache.py. */
module Cache {
  import opened Common
  import opened Canon
  import opened Digests
  import opened TextOrder

  /** The bound identity of a result. An absent text component is the empty string, an absent list is `None`. */
  datatype Material = Material(
    subject: string,
    package: string,
    policy: string,
    context: string,
    image: string,
    plugins: Option<seq<string>>,
    facts: Option<seq<string>>)

  datatype CacheError =
    | ComponentMissing(name: string)
    | ListEmpty(name: string)
    | ItemInvalid(name: string)
    | BadTime
    | SignerIncomplete

  /** Who signed a cached result. */
  datatype SignerRef = SignerRef(keyId: string, signerSetDigest: string)

  datatype Record = Record(material: Material, cachedAt: int, signer: Option<SignerRef>, retained: seq<string>,
                           payload: Bytes)

  type Store = map<string, Record>

  // ----- Keys -----

  /** `_norm_list` with its errors, without the sorted result. */
  function ListFault(items: seq<string>, name: string, allowEmpty: bool): Option<CacheError> {
    if !allowEmpty && items == [] then Some(ListEmpty(name))
    else if "" in items then Some(ItemInvalid(name))
    else None
  }

  function ListComponentFault(items: Option<seq<string>>, name: string): Option<CacheError> {
    if items.None? then Some(ComponentMissing(name)) else ListFault(items.value, name, true)
  }

  /** The first component that keeps a complete key from being formed. */
  function MaterialFault(m: Material): Option<CacheError> {
    if m.subject == "" then Some(ComponentMissing("subject_digest"))
    else if m.package == "" then Some(ComponentMissing("package_digest"))
    else if m.policy == "" then Some(ComponentMissing("policy_digest"))
    else if m.context == "" then Some(ComponentMissing("context_digest"))
    else if m.image == "" then Some(ComponentMissing("evaluator_image_digest"))
    else
      var e := ListComponentFault(m.plugins, "plugin_digests");
      if e.Some? then e else ListComponentFault(m.facts, "captured_fact_digests")
  }

  predicate Complete(m: Material) {
    MaterialFault(m).None?
  }

  function Texts(s: seq<string>): (r: seq<Value>)
    ensures |r| == |s| && forall i :: 0 <= i < |r| ==> r[i] == Str(s[i])
  {
    seq(|s|, i requires 0 <= i < |s| => Str(s[i]))
  }

  function KeyEntries(m: Material): seq<Entry>
    requires Complete(m)
  {
    [Entry("kind", Str("cache-key/v1")),
     Entry("subject_digest", Str(m.subject)), Entry("package_digest", Str(m.package)),
     Entry("policy_digest", Str(m.policy)), Entry("context_digest", Str(m.context)),
     Entry("evaluator_image_digest", Str(m.image)),
     Entry("plugin_digests", Arr(Texts(Sort(m.plugins.value)))),
     Entry("captured_fact_digests", Arr(Texts(Sort(m.facts.value))))]
  }

  /** `key`; a complete material is always inside the canonical profile. */
  function Key(h: Hash, m: Material): Result<string, CacheError> {
    if !Complete(m) then Err(MaterialFault(m).value)
    else Ok("sha256:" + h(Preimage("context/v1", Canonical(Obj(KeyEntries(m))))))
  }

  /** The two materials bind the same identity; list components are compared as multisets. */
  ghost predicate Agree(a: Material, b: Material)
    requires Complete(a) && Complete(b)
  {
    && a.subject == b.subject && a.package == b.package && a.policy == b.policy
    && a.context == b.context && a.image == b.image
    && multiset(a.plugins.value) == multiset(b.plugins.value)
    && multiset(a.facts.value) == multiset(b.facts.value)
  }

  // ----- Recording and looking up -----

  /** The arguments of `put`; `None` as time is an unparseable one. */
  datatype Put = Put(material: Material, payload: Bytes, cachedAt: Option<int>, signer: Option<SignerRef>,
                     retained: Option<seq<string>>)

  /** Why a put is refused. */
  function PutFault(p: Put): Option<CacheError> {
    if MaterialFault(p.material).Some? then MaterialFault(p.material)
    else if p.cachedAt.None? then Some(BadTime)
    else
      var e := if p.retained.Some? then ListFault(p.retained.value, "retained_refs", false) else None;
      if e.Some? then e
      else if p.signer.Some? && p.signer.value.signerSetDigest == "" then Some(SignerIncomplete)
      else None
  }

  function RecordOf(p: Put): Record
    requires PutFault(p).None?
  {
    Record(p.material, p.cachedAt.value, p.signer, if p.retained.Some? then p.retained.value else [], p.payload)
  }

  /** The store after one put. */
  function Stored(h: Hash, store: Store, p: Put): Store {
    if PutFault(p).Some? then store else store[Key(h, p.material).value := RecordOf(p)]
  }

  datatype MissReason =
    | BadMaterial(error: CacheError) | NoEntry | KeyDrift(component: string)
    | TtlUndeclared | TimeUnreadable | BadWindow | TtlExpired
    | SignerUnchecked | SignerInvalid | RetentionUnchecked | RetentionInvalid

  datatype Lookup = Hit(payload: Bytes) | Miss(reason: MissReason)

  /** What the requester supplies: its trusted time, the policy TTL and the validity predicates. */
  datatype Request = Request(asOf: Option<int>, ttl: Option<int>, signerOk: Option<SignerRef -> bool>,
                             retentionOk: Option<seq<string> -> bool>)

  function Listed(items: Option<seq<string>>): seq<string> {
    if items.Some? then items.value else []
  }

  /** The first component in which a stored material differs from the requested one. */
  function Drift(stored: Material, asked: Material): Option<string> {
    if stored.subject != asked.subject then Some("subject_digest")
    else if stored.package != asked.package then Some("package_digest")
    else if stored.policy != asked.policy then Some("policy_digest")
    else if stored.context != asked.context then Some("context_digest")
    else if stored.image != asked.image then Some("evaluator_image_digest")
    else if Sort(Listed(stored.plugins)) != Sort(Listed(asked.plugins)) then Some("plugin_digests")
    else if Sort(Listed(stored.facts)) != Sort(Listed(asked.facts)) then Some("captured_fact_digests")
    else None
  }

  /** Whether a record may be reused now. */
  function Reuse(rec: Record, q: Request): Lookup {
    if q.ttl.None? || q.ttl.value < 0 then Miss(TtlUndeclared)
    else if q.asOf.None? then Miss(TimeUnreadable)
    else if q.asOf.value - rec.cachedAt < 0 then Miss(BadWindow)
    else if q.asOf.value - rec.cachedAt > q.ttl.value then Miss(TtlExpired)
    else if rec.signer.Some? && q.signerOk.None? then Miss(SignerUnchecked)
    else if rec.signer.Some? && !q.signerOk.value(rec.signer.value) then Miss(SignerInvalid)
    else if rec.retained != [] && q.retentionOk.None? then Miss(RetentionUnchecked)
    else if rec.retained != [] && !q.retentionOk.value(rec.retained) then Miss(RetentionInvalid)
    else Hit(rec.payload)
  }

  /** `get`. */
  function Get(h: Hash, store: Store, asked: Material, q: Request): Lookup {
    var k := Key(h, asked);
    if k.Err? then Miss(BadMaterial(k.error))
    else if k.value !in store then Miss(NoEntry)
    else
      var drift := Drift(store[k.value].material, asked);
      if drift.Some? then Miss(KeyDrift(drift.value)) else Reuse(store[k.value], q)
  }

  /** The cache directory. */
  class Directory {
    var entries: Store

    constructor ()
      ensures entries == map[]
    {
      entries := map[];
    }

    /** `put`. */
    method Record(h: Hash, p: Put) returns (r: Result<string, CacheError>)
      modifies this
      ensures entries == Stored(h, old(entries), p)
      ensures r.Ok? <==> PutFault(p).None?
      ensures r.Ok? ==> r == Key(h, p.material)
      ensures r.Err? ==> r.error == PutFault(p).value
    {
      var k := Key(h, p.material);
      if k.Err? {
        return Err(k.error);
      }
      if p.cachedAt.None? {
        return Err(BadTime);
      }
      if p.retained.Some? {
        var e := ListFault(p.retained.value, "retained_refs", false);
        if e.Some? {
          return Err(e.value);
        }
      }
      if p.signer.Some? && p.signer.value.signerSetDigest == "" {
        return Err(SignerIncomplete);
      }
      entries := entries[k.value := RecordOf(p)];
      r := k;
    }
  }

  // ----- Keys decide identity -----

  const KEY_NAMES: seq<string> := [
    "kind", "subject_digest", "package_digest", "policy_digest",
    "context_digest", "evaluator_image_digest", "plugin_digests", "captured_fact_digests"]

  lemma NamesDistinct()
    ensures Distinct(KEY_NAMES)
  {
    var n := KEY_NAMES;
    assert |n[0]| == 4 && |n[1]| == 14 && |n[2]| == 14 && |n[3]| == 13 && |n[4]| == 14
           && |n[5]| == 22 && |n[6]| == 14 && |n[7]| == 21;
    assert n[1][0] == 's' && n[2][0] == 'p' && n[4][0] == 'c' && n[6][0] == 'p';
    assert n[2][1] == 'a' && n[6][1] == 'l';
  }

  lemma TextsAreDict(s: seq<string>)
    ensures Dict(Arr(Texts(s))) && InProfile(Arr(Texts(s)))
  {
  }

  lemma KeyNamed(m: Material)
    requires Complete(m)
    ensures |KeyEntries(m)| == 8 && forall i :: 0 <= i < 8 ==> KeyEntries(m)[i].key == KEY_NAMES[i]
    ensures DistinctKeys(KeyEntries(m))
  {
    hide Complete, Sort, Texts;
    NamesDistinct();
    assert forall i :: 0 <= i < 8 ==> KeyEntries(m)[i].key == KEY_NAMES[i];
  }

  lemma KeyIsDict(m: Material)
    requires Complete(m)
    ensures Dict(Obj(KeyEntries(m))) && InProfile(Obj(KeyEntries(m)))
  {
    hide Sort, Texts, DistinctKeys;
    KeyNamed(m);
    TextsAreDict(Sort(m.plugins.value));
    TextsAreDict(Sort(m.facts.value));
    var es := KeyEntries(m);
    assert forall i :: 0 <= i < 8 ==> Dict(es[i].value) && InProfile(es[i].value);
  }

  /** Dicts that list the same distinct keys are equal exactly when their values are, key by key. */
  lemma SameAligned(es: seq<Entry>, fs: seq<Entry>)
    requires |es| == |fs| && DistinctKeys(es) && forall i :: 0 <= i < |es| ==> es[i].key == fs[i].key
    ensures Same(Obj(es), Obj(fs)) <==> forall i :: 0 <= i < |es| ==> Same(es[i].value, fs[i].value)
  {
    assert Keys(es) == Keys(fs);
  }

  lemma SameTexts(a: seq<string>, b: seq<string>)
    ensures Same(Arr(Texts(a)), Arr(Texts(b))) <==> a == b
  {
    if Same(Arr(Texts(a)), Arr(Texts(b))) {
      assert forall k :: 0 <= k < |a| ==> Same(Texts(a)[k], Texts(b)[k]);
    }
  }

  lemma SameStrings(s: string, t: string)
    ensures Same(Str(s), Str(t)) <==> s == t
  {
  }

  lemma SameKeyIff(a: Material, b: Material)
    requires Complete(a) && Complete(b)
    ensures Same(Obj(KeyEntries(a)), Obj(KeyEntries(b))) <==> Agree(a, b)
  {
    hide Sort, Same, DistinctKeys;
    var es, fs := KeyEntries(a), KeyEntries(b);
    KeyNamed(a);
    KeyNamed(b);
    SameAligned(es, fs);
    SameTexts(Sort(a.plugins.value), Sort(b.plugins.value));
    SameTexts(Sort(a.facts.value), Sort(b.facts.value));
    SortEqualIffPermutation(a.plugins.value, b.plugins.value);
    SortEqualIffPermutation(a.facts.value, b.facts.value);
    SameStrings("cache-key/v1", "cache-key/v1");
    SameStrings(a.subject, b.subject);
    SameStrings(a.package, b.package);
    SameStrings(a.policy, b.policy);
    SameStrings(a.context, b.context);
    SameStrings(a.image, b.image);
    assert Agree(a, b) <==>
      && Same(es[1].value, fs[1].value) && Same(es[2].value, fs[2].value) && Same(es[3].value, fs[3].value)
      && Same(es[4].value, fs[4].value) && Same(es[5].value, fs[5].value) && Same(es[6].value, fs[6].value)
      && Same(es[7].value, fs[7].value);
  }

  /** Two complete materials share a key exactly when all seven components agree. */
  lemma KeyEqualIff(h: Hash, a: Material, b: Material)
    requires CollisionFree(h) && Complete(a) && Complete(b)
    ensures Key(h, a) == Key(h, b) <==> Agree(a, b)
  {
    hide Same, Canonical, KeyEntries, Dict, InProfile, Agree;
    KeyIsDict(a);
    KeyIsDict(b);
    ObjectDigestEqualIff(h, "context/v1", "context/v1", Obj(KeyEntries(a)), Obj(KeyEntries(b)));
    SameKeyIff(a, b);
  }

  lemma DriftIff(a: Material, b: Material)
    requires Complete(a) && Complete(b)
    ensures Drift(a, b).None? <==> Agree(a, b)
  {
    hide Sort;
    SortEqualIffPermutation(a.plugins.value, b.plugins.value);
    SortEqualIffPermutation(a.facts.value, b.facts.value);
  }

  // ----- What a put needs -----

  /** A list that is there and has no empty item. */
  ghost predicate Given(items: Option<seq<string>>) {
    items.Some? && forall i :: 0 <= i < |items.value| ==> items.value[i] != ""
  }

  /** A put is accepted exactly when all seven components are there, its time can be read, any retained references are
      some and not empty, and any signer names its set. */
  lemma PutAcceptedIff(p: Put)
    ensures PutFault(p).None? <==>
            && p.material.subject != "" && p.material.package != "" && p.material.policy != ""
            && p.material.context != "" && p.material.image != ""
            && Given(p.material.plugins) && Given(p.material.facts)
            && p.cachedAt.Some?
            && (p.retained.Some? ==> p.retained != Some([]) && Given(p.retained))
            && (p.signer.Some? ==> p.signer.value.signerSetDigest != "")
  {
    NoEmptyItem(p.material.plugins);
    NoEmptyItem(p.material.facts);
    NoEmptyItem(p.retained);
  }

  lemma NoEmptyItem(items: Option<seq<string>>)
    ensures Given(items) <==> items.Some? && "" !in items.value
  {
  }

  /** Under the name a fault gives there is such a fault. */
  ghost predicate FaultApplies(p: Put, e: CacheError) {
    match e
    case ComponentMissing(n) =>
      || (n == "subject_digest" && p.material.subject == "") || (n == "package_digest" && p.material.package == "")
      || (n == "policy_digest" && p.material.policy == "") || (n == "context_digest" && p.material.context == "")
      || (n == "evaluator_image_digest" && p.material.image == "")
      || (n == "plugin_digests" && p.material.plugins.None?)
      || (n == "captured_fact_digests" && p.material.facts.None?)
    case ListEmpty(n) => n == "retained_refs" && p.retained == Some([])
    case ItemInvalid(n) =>
      || (n == "plugin_digests" && p.material.plugins.Some? && "" in p.material.plugins.value)
      || (n == "captured_fact_digests" && p.material.facts.Some? && "" in p.material.facts.value)
      || (n == "retained_refs" && p.retained.Some? && "" in p.retained.value)
    case BadTime => p.cachedAt.None?
    case SignerIncomplete => p.signer.Some? && p.signer.value.signerSetDigest == ""
  }

  lemma RefusalApplies(p: Put)
    ensures PutFault(p).Some? ==> FaultApplies(p, PutFault(p).value)
  {
  }

  /** A record that is not reused is refused for a reason that holds, and the window is looked at before the checks. */
  lemma MissReasonHolds(rec: Record, q: Request)
    ensures var window := q.ttl.Some? && q.ttl.value >= 0 && q.asOf.Some?;
            var age := if q.asOf.Some? then q.asOf.value - rec.cachedAt else 0;
            match Reuse(rec, q)
            case Hit(payload) => payload == rec.payload
            case Miss(TtlUndeclared) => q.ttl.None? || q.ttl.value < 0
            case Miss(TimeUnreadable) => q.asOf.None?
            case Miss(BadWindow) => window && age < 0
            case Miss(TtlExpired) => window && age > q.ttl.value
            case Miss(SignerUnchecked) => window && 0 <= age <= q.ttl.value && rec.signer.Some? && q.signerOk.None?
            case Miss(SignerInvalid) =>
              && window && 0 <= age <= q.ttl.value
              && rec.signer.Some? && q.signerOk.Some? && !q.signerOk.value(rec.signer.value)
            case Miss(RetentionUnchecked) =>
              window && 0 <= age <= q.ttl.value && rec.retained != [] && q.retentionOk.None?
            case Miss(RetentionInvalid) =>
              && window && 0 <= age <= q.ttl.value
              && rec.retained != [] && q.retentionOk.Some? && !q.retentionOk.value(rec.retained)
            case Miss(_) => false
  {
  }

  /** The component named by a drift is one in which the materials differ. */
  lemma DriftHolds(stored: Material, asked: Material)
    ensures match Drift(stored, asked)
            case None => true
            case Some(n) =>
              || (n == "subject_digest" && stored.subject != asked.subject)
              || (n == "package_digest" && stored.package != asked.package)
              || (n == "policy_digest" && stored.policy != asked.policy)
              || (n == "context_digest" && stored.context != asked.context)
              || (n == "evaluator_image_digest" && stored.image != asked.image)
              || (n == "plugin_digests" && multiset(Listed(stored.plugins)) != multiset(Listed(asked.plugins)))
              || (n == "captured_fact_digests" && multiset(Listed(stored.facts)) != multiset(Listed(asked.facts)))
  {
    hide Sort;
    SortEqualIffPermutation(Listed(stored.plugins), Listed(asked.plugins));
    SortEqualIffPermutation(Listed(stored.facts), Listed(asked.facts));
  }

  // ----- Main results -----

  /** The store after a sequence of puts. */
  function After(h: Hash, puts: seq<Put>): Store {
    if puts == [] then map[] else Stored(h, After(h, puts[..|puts| - 1]), puts[|puts| - 1])
  }

  /** The most recent accepted put that binds the same identity. */
  ghost function Latest(puts: seq<Put>, asked: Material): (r: Option<Put>)
    requires Complete(asked)
    ensures r.Some? ==> r.value in puts && PutFault(r.value).None? && Agree(r.value.material, asked)
  {
    if puts == [] then None
    else
      var p := puts[|puts| - 1];
      if PutFault(p).None? && Agree(p.material, asked) then Some(p) else Latest(puts[..|puts| - 1], asked)
  }

  lemma {:induction false} StoreHoldsLatest(h: Hash, puts: seq<Put>, asked: Material)
    requires CollisionFree(h) && Complete(asked)
    ensures var k, store, p := Key(h, asked).value, After(h, puts), Latest(puts, asked);
            && (k in store <==> p.Some?)
            && (p.Some? ==> store[k] == RecordOf(p.value))
  {
    hide Key, Agree;
    if puts != [] {
      var p := puts[|puts| - 1];
      StoreHoldsLatest(h, puts[..|puts| - 1], asked);
      if PutFault(p).None? {
        KeyEqualIff(h, p.material, asked);
        KeysAreOk(h, p.material);
        KeysAreOk(h, asked);
      }
    }
  }

  lemma KeysAreOk(h: Hash, m: Material)
    requires Complete(m)
    ensures Key(h, m).Ok?
  {
  }

  /** After any sequence of puts, a lookup is decided by the most recent put of the same identity alone. */
  lemma LookupAfterPuts(h: Hash, puts: seq<Put>, asked: Material, q: Request)
    requires CollisionFree(h) && Complete(asked)
    ensures Get(h, After(h, puts), asked, q)
            == match Latest(puts, asked)
               case None => Miss(NoEntry)
               case Some(p) => Reuse(RecordOf(p), q)
  {
    hide Key, Agree, Reuse, Drift;
    StoreHoldsLatest(h, puts, asked);
    KeysAreOk(h, asked);
    if Latest(puts, asked).Some? {
      DriftIff(Latest(puts, asked).value.material, asked);
    }
  }

  /** The validity checks an entry needs are there and pass. */
  ghost predicate Vouched(p: Put, q: Request) {
    && (p.signer.Some? ==> q.signerOk.Some? && q.signerOk.value(p.signer.value))
    && (p.retained.Some? ==> q.retentionOk.Some? && q.retentionOk.value(p.retained.value))
  }

  /** A hit returns exactly the latest agreeing put's bytes, and only inside its window and with its checks passed. */
  lemma HitIff(h: Hash, puts: seq<Put>, asked: Material, q: Request, bytes: Bytes)
    requires CollisionFree(h)
    ensures Get(h, After(h, puts), asked, q) == Hit(bytes) <==>
            && Complete(asked) && Latest(puts, asked).Some?
            && var p := Latest(puts, asked).value;
               && p.payload == bytes && p.cachedAt.Some? && q.ttl.Some? && q.asOf.Some?
               && 0 <= q.asOf.value - p.cachedAt.value <= q.ttl.value && Vouched(p, q)
  {
    hide Key, Agree, Drift;
    if Complete(asked) {
      LookupAfterPuts(h, puts, asked, q);
    } else {
      assert Key(h, asked).Err? by { IncompleteHasNoKey(h, asked); }
    }
  }

  lemma IncompleteHasNoKey(h: Hash, m: Material)
    requires !Complete(m)
    ensures Key(h, m).Err?
  {
  }

  lemma ReusePayload(rec: Record, q: Request)
    ensures Reuse(rec, q).Hit? ==> Reuse(rec, q).payload == rec.payload
  {
  }

  /** Even in a store somebody else wrote, a hit comes from a record that names the identity asked for. */
  lemma ForeignRecordMisses(h: Hash, store: Store, asked: Material, q: Request)
    requires Get(h, store, asked, q).Hit?
    ensures exists k :: k in store && Drift(store[k].material, asked).None?
                            && store[k].payload == Get(h, store, asked, q).payload
  {
    hide Key, Drift, Reuse;
    var k := Key(h, asked).value;
    ReusePayload(store[k], q);
    assert k in store && Drift(store[k].material, asked).None?;
  }

  /** A later put of the same identity takes the place of the earlier; of any other, it changes nothing. */
  lemma PutThenGet(h: Hash, puts: seq<Put>, p: Put, asked: Material, q: Request)
    requires CollisionFree(h) && Complete(asked)
    ensures Get(h, After(h, puts + [p]), asked, q)
            == if PutFault(p).None? && Agree(p.material, asked) then Reuse(RecordOf(p), q)
               else Get(h, After(h, puts), asked, q)
  {
    hide Key, Agree, Reuse, Drift, Get, After;
    assert (puts + [p])[..|puts|] == puts;
    LookupAfterPuts(h, puts, asked, q);
    LookupAfterPuts(h, puts + [p], asked, q);
  }
}

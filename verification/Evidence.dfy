/** Evidence sealing and verification of hub/coherence/evidence.py. */
module Evidence {
  import opened Common
  import opened Decimal
  import opened Text
  import opened Canon
  import opened Digests
  import opened Documents
  import opened Escaping
  import opened Assertions

  /** An absolute path, component by component. */
  type Path = seq<string>

  type Tree = map<Path, Bytes>

  // ----- Containment -----

  /** `resolve()` on a file system without symbolic links. */
  function Walk(parts: seq<string>, at: Path): Path {
    if parts == [] then at
    else if parts[0] == "" || parts[0] == "." then Walk(parts[1..], at)
    else if parts[0] == ".." then Walk(parts[1..], if at == [] then [] else at[..|at| - 1])
    else Walk(parts[1..], at + [parts[0]])
  }

  /** `contained`: where a bundle-relative path leads, unless that is outside the bundle. */
  function Locate(root: Path, rel: string): (r: Option<Path>)
    ensures r.Some? ==> root < r.value
  {
    if rel == "" then None
    else
      var p := Walk(Split(rel, '/'), if rel[0] == '/' then [] else root);
      if root < p then Some(p) else None
  }

  predicate IsIdHead(c: char) {
    'a' <= c <= 'z' || '0' <= c <= '9'
  }

  predicate IsIdChar(c: char) {
    IsIdHead(c) || c == '.' || c == '_' || c == '-'
  }

  /** The assertion-id grammar. */
  predicate IsId(s: string) {
    s != "" && IsIdHead(s[0]) && forall i :: 0 <= i < |s| ==> IsIdChar(s[i])
  }

  predicate HexText(s: string) {
    forall i :: 0 <= i < |s| ==> IsHex(s[i])
  }

  ghost predicate HexDigits(h: Hash) {
    forall x :: HexText(h(x))
  }

  // ----- Redaction -----

  const MARKER := "[REDACTED]"

  /** `s.replace(r, MARKER)`. */
  function Replace(s: string, r: string): string
    requires r != ""
  {
    if |s| < |r| then s
    else if s[..|r|] == r then MARKER + Replace(s[|r|..], r)
    else [s[0]] + Replace(s[1..], r)
  }

  /** The empty granted values are ignored. */
  function Secrets(redact: seq<string>): (r: seq<string>)
    ensures forall s :: s in r <==> s in redact && s != ""
  {
    if redact == [] then []
    else
      assert redact == [redact[0]] + redact[1..];
      (if redact[0] == "" then [] else [redact[0]]) + Secrets(redact[1..])
  }

  function Scrub(s: string, secrets: seq<string>): string
    requires "" !in secrets
    decreases |secrets|
  {
    if secrets == [] then s else Scrub(Replace(s, secrets[0]), secrets[1..])
  }

  function ScrubAll(s: seq<string>, secrets: seq<string>): (r: seq<Value>)
    requires "" !in secrets
    ensures |r| == |s| && forall i :: 0 <= i < |r| ==> r[i] == Str(Scrub(s[i], secrets))
  {
    seq(|s|, i requires 0 <= i < |s| => Str(Scrub(s[i], secrets)))
  }

  predicate Contains(s: string, r: string) {
    |r| <= |s| && (s[..|r|] == r || (s != [] && Contains(s[1..], r)))
  }

  predicate Leaks(payload: Bytes, secrets: seq<string>) {
    exists k :: 0 <= k < |secrets| && Contains(payload, secrets[k])
  }

  // ----- Sealing -----

  function EvidenceValue(f: Finding, secrets: seq<string>): Value
    requires "" !in secrets
  {
    Obj([Entry("assertion_id", Str(Scrub(f.assertionId, secrets))),
         Entry("finding_key", Str(Scrub(f.key, secrets))),
         Entry("subject_locations", Arr(ScrubAll(f.locations, secrets))),
         Entry("expected", Str(Scrub(f.expected, secrets))),
         Entry("observed", Str(Scrub(f.observed, secrets)))])
  }

  function EvidenceBytes(f: Finding, secrets: seq<string>): Bytes
    requires "" !in secrets
  {
    Canonical(EvidenceValue(f, secrets))
  }

  /** `digest_bytes("evidence-manifest/v1", …)`. */
  function EvidenceDigest(h: Hash, payload: Bytes): string {
    "sha256:" + h(Preimage("evidence-manifest/v1", payload))
  }

  const NAME_DIGITS := 16

  /** The first digits of a digest's hexadecimal part. */
  function NameDigits(h: Hash, payload: Bytes): string {
    var hex := h(Preimage("evidence-manifest/v1", payload));
    if |hex| <= NAME_DIGITS then hex else hex[..NAME_DIGITS]
  }

  function FileName(h: Hash, id: string, payload: Bytes): string {
    id + "--" + NameDigits(h, payload) + ".json"
  }

  function RelativePath(h: Hash, id: string, payload: Bytes): string {
    "evidence" + "/" + ("findings" + "/" + FileName(h, id, payload))
  }

  /** One sealed object: its manifest entry and the bytes written for it. */
  datatype Exhibit = Exhibit(path: string, digest: string, assertionId: string, retentionClass: string, payload: Bytes)

  function RetentionClass(retention: map<string, int>, id: string): string {
    if id in retention then "retention:" + IntStr(retention[id]) + "d" else "standard"
  }

  function Show(h: Hash, f: Finding, secrets: seq<string>, retention: map<string, int>): Exhibit
    requires "" !in secrets
  {
    var payload := EvidenceBytes(f, secrets);
    Exhibit(RelativePath(h, f.assertionId, payload), EvidenceDigest(h, payload), f.assertionId,
            RetentionClass(retention, f.assertionId), payload)
  }

  function ShowAll(h: Hash, findings: seq<Finding>, secrets: seq<string>,
                   retention: map<string, int>): (r: seq<Exhibit>)
    requires "" !in secrets
    ensures |r| == |findings| && forall i :: 0 <= i < |r| ==> r[i] == Show(h, findings[i], secrets, retention)
  {
    seq(|findings|, i requires 0 <= i < |findings| => Show(h, findings[i], secrets, retention))
  }

  datatype SealError =
    | NegativeRetention
    | BadAssertionId(id: string)
    | UnredactedSecret
    | OutOfBounds(path: string)

  /** Why a finding cannot be sealed. */
  function Fault(h: Hash, root: Path, f: Finding, secrets: seq<string>): Option<SealError>
    requires "" !in secrets
  {
    var payload := EvidenceBytes(f, secrets);
    var rel := RelativePath(h, f.assertionId, payload);
    if !IsId(f.assertionId) then Some(BadAssertionId(f.assertionId))
    else if Leaks(payload, secrets) then Some(UnredactedSecret)
    else if Locate(root, rel).None? then Some(OutOfBounds(rel))
    else None
  }

  ghost predicate FaultFree(h: Hash, root: Path, findings: seq<Finding>, secrets: seq<string>)
    requires "" !in secrets
  {
    forall i :: 0 <= i < |findings| ==> Fault(h, root, findings[i], secrets).None?
  }

  function ObjectValue(e: Exhibit): Value {
    Obj([Entry("path", Str(e.path)), Entry("digest", Str(e.digest)), Entry("media_type", Str("application/json")),
         Entry("assertion_id", Str(e.assertionId)), Entry("retention_class", Str(e.retentionClass)),
         Entry("redacted", Bool(true))])
  }

  function ObjectValues(exhibits: seq<Exhibit>): (r: seq<Value>)
    ensures |r| == |exhibits| && forall i :: 0 <= i < |r| ==> r[i] == ObjectValue(exhibits[i])
  {
    seq(|exhibits|, i requires 0 <= i < |exhibits| => ObjectValue(exhibits[i]))
  }

  function ManifestValue(exhibits: seq<Exhibit>): Value {
    Obj([Entry("api_version", Str("devgate.spec-coherence.evidence/v1")),
         Entry("objects", Arr(ObjectValues(exhibits)))])
  }

  function ManifestDigest(h: Hash, exhibits: seq<Exhibit>): string {
    EvidenceDigest(h, Canonical(ManifestValue(exhibits)))
  }

  function ManifestPath(root: Path): Path {
    root + ["evidence-manifest.json"]
  }

  /** The files after the exhibits have been written one after the other. */
  function Written(root: Path, files: Tree, exhibits: seq<Exhibit>): Tree {
    if exhibits == [] then files
    else
      var n := |exhibits| - 1;
      var before := Written(root, files, exhibits[..n]);
      var p := Locate(root, exhibits[n].path);
      if p.Some? then before[p.value := exhibits[n].payload] else before
  }

  /** Each finding refers to its own object. */
  function Referring(findings: seq<Finding>, exhibits: seq<Exhibit>): (r: seq<Finding>)
    requires |findings| == |exhibits|
    ensures |r| == |findings|
    ensures forall i :: 0 <= i < |r| ==> r[i] == findings[i].(evidenceRefs := [exhibits[i].path])
  {
    seq(|findings|, i requires 0 <= i < |findings| => findings[i].(evidenceRefs := [exhibits[i].path]))
  }

  predicate SoundRetention(retention: map<string, int>) {
    forall id :: id in retention ==> retention[id] >= 0
  }

  /** Sealing stopped at finding `k`: everything before it had been written, nothing after. */
  ghost predicate StoppedAt(h: Hash, root: Path, was: Tree, files: Tree, findings: seq<Finding>, secrets: seq<string>,
                            retention: map<string, int>, error: SealError, k: nat)
    requires "" !in secrets
  {
    && k < |findings| && FaultFree(h, root, findings[..k], secrets)
    && Fault(h, root, findings[k], secrets) == Some(error)
    && files == Written(root, was, ShowAll(h, findings[..k], secrets, retention))
  }

  lemma FaultlessLocates(h: Hash, root: Path, f: Finding, secrets: seq<string>, retention: map<string, int>)
    requires "" !in secrets && Fault(h, root, f, secrets).None?
    ensures Locate(root, Show(h, f, secrets, retention).path).Some?
  {
  }

  /** The run directory. */
  class Bundle {
    const root: Path
    var files: Tree

    constructor (root: Path, files: Tree)
      ensures this.root == root && this.files == files
    {
      this.root, this.files := root, files;
    }

    /** `seal`: one file a finding, then the manifest; the findings get their references in place. */
    method Seal(h: Hash, findings: array<Finding>, redact: seq<string>, retention: map<string, int>)
      returns (r: Result<string, SealError>)
      modifies this, findings
      ensures var s, was := Secrets(redact), old(findings[..]);
              r.Ok? <==> SoundRetention(retention) && FaultFree(h, root, was, s)
      ensures var s, was := Secrets(redact), old(findings[..]);
              r.Ok? ==>
                var exhibits := ShowAll(h, was, s, retention);
                && r.value == ManifestDigest(h, exhibits)
                && files == Written(root, old(files), exhibits)
                            [ManifestPath(root) := Canonical(ManifestValue(exhibits))]
                && findings[..] == Referring(was, exhibits)
      ensures r.Err? && !SoundRetention(retention) ==>
                r.error == NegativeRetention && files == old(files) && findings[..] == old(findings[..])
      ensures r.Err? && SoundRetention(retention) ==>
                exists k :: StoppedAt(h, root, old(files), files,
                                      old(findings[..]), Secrets(redact), retention, r.error, k)
    {
      hide Canonical, Locate, Fault, Show, ManifestDigest;
      var secrets := Secrets(redact);
      if !SoundRetention(retention) {
        return Err(NegativeRetention);
      }
      ghost var was, start := findings[..], files;
      var objects: seq<Exhibit> := [];
      for i := 0 to findings.Length
        invariant FaultFree(h, root, was[..i], secrets)
        invariant objects == ShowAll(h, was[..i], secrets, retention)
        invariant files == Written(root, start, objects)
        invariant forall k :: 0 <= k < i ==> findings[k] == was[k].(evidenceRefs := [objects[k].path])
        invariant forall k :: i <= k < findings.Length ==> findings[k] == was[k]
      {
        var f := findings[i];
        var fault := Fault(h, root, f, secrets);
        if fault.Some? {
          assert StoppedAt(h, root, start, files, was, secrets, retention, fault.value, i);
          return Err(fault.value);
        }
        var e := Show(h, f, secrets, retention);
        FaultlessLocates(h, root, f, secrets, retention);
        files := files[Locate(root, e.path).value := e.payload];
        objects := objects + [e];
        findings[i] := f.(evidenceRefs := [e.path]);
        assert was[..i + 1] == was[..i] + [f];
        assert objects[..i] == ShowAll(h, was[..i], secrets, retention);
      }
      assert was[..findings.Length] == was;
      assert findings[..] == Referring(was, objects);
      files := files[ManifestPath(root) := Canonical(ManifestValue(objects))];
      r := Ok(ManifestDigest(h, objects));
    }
  }

  // ----- Verification -----

  /** An uncaught Python exception: the document does not have the shape the code expects. */
  datatype Raised = Raised

  /** The check of one manifest entry. */
  function VerifyObject(h: Hash, root: Path, files: Tree, o: Value): Result<bool, Raised> {
    if !o.Obj? then Err(Raised)
    else
      var rel := Find(o.entries, "path");
      if rel.None? || !rel.value.Str? then Ok(false)
      else
        var p := Locate(root, rel.value.s);
        if p.None? || p.value !in files then Ok(false)
        else
          var d := Find(o.entries, "digest");
          if d.None? then Err(Raised)
          else Ok(d.value == Str(EvidenceDigest(h, files[p.value])))
  }

  function VerifyObjects(h: Hash, root: Path, files: Tree, objects: seq<Value>): Result<bool, Raised> {
    if objects == [] then Ok(true)
    else
      var r := VerifyObject(h, root, files, objects[0]);
      if r != Ok(true) then r else VerifyObjects(h, root, files, objects[1..])
  }

  /** What a loop over `manifest.get("objects", [])` visits. */
  function Iterated(objects: Value): Result<seq<Value>, Raised> {
    match objects
    case Arr(items) => Ok(items)
    case Str(s) => if s == "" then Ok([]) else Err(Raised)
    case Obj(entries) => if entries == [] then Ok([]) else Err(Raised)
    case _ => Err(Raised)
  }

  /** `verify`. */
  function Verify(h: Hash, loads: Loads, root: Path, files: Tree, expected: Value): Result<bool, Raised> {
    var path := ManifestPath(root);
    if path !in files || loads(files[path]).None? then Ok(false)
    else
      var manifest := loads(files[path]).value;
      if !manifest.Obj? then Err(Raised)
      else
        var objects := Iterated(FindOr(manifest.entries, "objects", Arr([])));
        if objects.Err? then Err(objects.error)
        else
          var r := VerifyObjects(h, root, files, objects.value);
          if r != Ok(true) then r
          else
            var actual := DigestObj(h, "evidence-manifest/v1", manifest);
            if actual.Err? then Err(Raised) else Ok(expected == Str(actual.value))
  }

  // ----- Where objects are written -----

  lemma NoSlash(h: Hash, id: string, payload: Bytes)
    requires IsId(id) && HexDigits(h)
    ensures '/' !in FileName(h, id, payload) && |FileName(h, id, payload)| > 5
  {
    var digits := NameDigits(h, payload);
    assert HexText(h(Preimage("evidence-manifest/v1", payload)));
    assert '/' !in digits;
    assert '/' !in id;
    assert '/' !in "--" && '/' !in ".json";
  }

  /** A sealed object's file lies below evidence/findings of the bundle, whatever the assertion id. */
  lemma ObjectPath(h: Hash, root: Path, id: string, payload: Bytes)
    requires IsId(id) && HexDigits(h)
    ensures Locate(root, RelativePath(h, id, payload))
            == Some(root + ["evidence", "findings", FileName(h, id, payload)])
  {
    var name := FileName(h, id, payload);
    NoSlash(h, id, payload);
    var rel := RelativePath(h, id, payload);
    assert '/' !in "evidence" && '/' !in "findings";
    SplitHead("evidence", '/', "findings" + "/" + name);
    SplitHead("findings", '/', name);
    SplitFree(name, '/');
    assert rel == "evidence" + ['/'] + ("findings" + "/" + name);
    assert "findings" + "/" + name == "findings" + ['/'] + name;
    assert Split(rel, '/') == ["evidence"] + (["findings"] + [name]);
    assert rel[0] == 'e';
    WalkThree("evidence", "findings", name, root);
  }

  predicate Plain(part: string) {
    part != "" && part != "." && part != ".."
  }

  lemma WalkThree(a: string, b: string, c: string, at: Path)
    requires Plain(a) && Plain(b) && Plain(c)
    ensures Walk([a] + ([b] + [c]), at) == at + [a, b, c]
  {
    var parts := [a] + ([b] + [c]);
    assert parts[1..] == [b] + [c] && parts[1..][1..] == [c] && parts[1..][1..][1..] == [];
    assert Walk([c], at + [a] + [b]) == at + [a] + [b] + [c] by { assert [c][1..] == []; }
    assert Walk([b] + [c], at + [a]) == at + [a] + [b] + [c];
    assert at + [a] + [b] + [c] == at + [a, b, c];
  }

  /** The containment check of `seal` can never fail: the id grammar already rules escapes out. */
  lemma SealStaysInside(h: Hash, root: Path, f: Finding, secrets: seq<string>)
    requires HexDigits(h) && "" !in secrets
    ensures Fault(h, root, f, secrets).None? <==> IsId(f.assertionId) && !Leaks(EvidenceBytes(f, secrets), secrets)
  {
    hide Locate, Leaks, EvidenceBytes, RelativePath;
    if IsId(f.assertionId) {
      ObjectPath(h, root, f.assertionId, EvidenceBytes(f, secrets));
    }
  }

  // ----- Where paths lead -----

  lemma {:induction false} WalkAppend(a: seq<string>, b: seq<string>, at: Path)
    ensures Walk(a + b, at) == Walk(b, Walk(a, at))
  {
    if a == [] {
      assert a + b == b;
    } else {
      assert (a + b)[1..] == a[1..] + b;
      var next := if a[0] == "" || a[0] == "." then at
                  else if a[0] == ".." then (if at == [] then [] else at[..|at| - 1])
                  else at + [a[0]];
      WalkAppend(a[1..], b, next);
    }
  }

  /** Names lead down, one after the other. */
  lemma {:induction false} NamesDescend(names: seq<string>, at: Path)
    requires forall i :: 0 <= i < |names| ==> Plain(names[i])
    ensures Walk(names, at) == at + names
  {
    if names != [] {
      NamesDescend(names[1..], at + [names[0]]);
      assert at + [names[0]] + names[1..] == at + names;
    } else {
      assert at + names == at;
    }
  }

  /** Empty components and single dots lead nowhere, and `..` takes a name back; above the root there is nothing. */
  lemma DotsLead(parts: seq<string>, name: string, rest: seq<string>, at: Path)
    requires Plain(name)
    ensures Walk(parts + [""] + rest, at) == Walk(parts + rest, at)
    ensures Walk(parts + ["."] + rest, at) == Walk(parts + rest, at)
    ensures Walk(parts + [name, ".."] + rest, at) == Walk(parts + rest, at)
    ensures Walk([".."] + rest, []) == Walk(rest, [])
  {
    var here := Walk(parts, at);
    WalkAppend(parts, rest, at);
    forall middle | middle in {[""], ["."], [name, ".."]} ensures Walk(parts + middle + rest, at) == Walk(rest, here) {
      WalkAppend(parts + middle, rest, at);
      WalkAppend(parts, middle, at);
      MiddleStays(middle, name, here);
    }
    assert ([".."] + rest)[1..] == rest;
  }

  lemma MiddleStays(middle: seq<string>, name: string, here: Path)
    requires Plain(name) && middle in {[""], ["."], [name, ".."]}
    ensures Walk(middle, here) == here
  {
    if middle == [name, ".."] {
      assert middle[1..] == [".."] && [".."][1..] == [];
      assert Walk([".."], here + [name]) == Walk([], (here + [name])[..|here|]);
      assert (here + [name])[..|here|] == here;
    } else {
      assert middle[1..] == [];
    }
  }

  // ----- The manifest reads back -----

  lemma ObjectIsDict(e: Exhibit)
    ensures Dict(ObjectValue(e)) && InProfile(ObjectValue(e))
  {
    var es := ObjectValue(e).entries;
    assert |es[0].key| == 4 && |es[1].key| == 6 && |es[2].key| == 10 && |es[3].key| == 12
           && |es[4].key| == 15 && |es[5].key| == 8;
    assert DistinctKeys(es);
  }

  lemma ManifestIsDict(exhibits: seq<Exhibit>)
    ensures Dict(ManifestValue(exhibits)) && InProfile(ManifestValue(exhibits))
  {
    var es := ManifestValue(exhibits).entries;
    assert |es[0].key| == 11 && |es[1].key| == 7;
    assert DistinctKeys(es);
    var items := ObjectValues(exhibits);
    forall k | 0 <= k < |items| ensures Dict(items[k]) && InProfile(items[k]) {
      ObjectIsDict(exhibits[k]);
    }
    assert Dict(Arr(items)) && InProfile(Arr(items));
  }

  /** The object's file exists and has the recorded digest. */
  ghost predicate Genuine(h: Hash, root: Path, files: Tree, e: Exhibit) {
    var p := Locate(root, e.path);
    p.Some? && p.value in files && EvidenceDigest(h, files[p.value]) == e.digest
  }

  ghost predicate AllGenuine(h: Hash, root: Path, files: Tree, exhibits: seq<Exhibit>) {
    forall i :: 0 <= i < |exhibits| ==> Genuine(h, root, files, exhibits[i])
  }

  lemma ObjectChecked(h: Hash, root: Path, files: Tree, o: Value, e: Exhibit)
    requires Same(o, ObjectValue(e))
    ensures VerifyObject(h, root, files, o) == Ok(Genuine(h, root, files, e))
  {
    hide Locate, EvidenceDigest, Same, Find;
    var es := ObjectValue(e).entries;
    ObjectIsDict(e);
    SameText(o, ObjectValue(e));
    SameFindAt(o.entries, es, 0);
    SameFindAt(o.entries, es, 1);
  }

  lemma {:induction false} ObjectsChecked(h: Hash, root: Path, files: Tree, objects: seq<Value>, exhibits: seq<Exhibit>)
    requires |objects| == |exhibits|
    requires forall i :: 0 <= i < |objects| ==> Same(objects[i], ObjectValue(exhibits[i]))
    ensures VerifyObjects(h, root, files, objects) == Ok(AllGenuine(h, root, files, exhibits))
  {
    hide Same, ObjectValue, Genuine, VerifyObject;
    if objects != [] {
      ObjectChecked(h, root, files, objects[0], exhibits[0]);
      ObjectsChecked(h, root, files, objects[1..], exhibits[1..]);
      assert exhibits == [exhibits[0]] + exhibits[1..];
    }
  }

  /** What `verify` decides when the manifest on disk reads as the sealed one. */
  lemma VerifyDecides(h: Hash, loads: Loads, root: Path, files: Tree, exhibits: seq<Exhibit>, expected: Value)
    requires ManifestPath(root) in files
    requires var m := loads(files[ManifestPath(root)]);
             m.Some? && Same(m.value, ManifestValue(exhibits)) && Dict(m.value) && InProfile(m.value)
    ensures Verify(h, loads, root, files, expected)
            == Ok(AllGenuine(h, root, files, exhibits) && expected == Str(ManifestDigest(h, exhibits)))
  {
    hide AllGenuine, VerifyObjects, Canonical, InProfile;
    var m := loads(files[ManifestPath(root)]).value;
    var es := ManifestValue(exhibits).entries;
    ManifestIsDict(exhibits);
    CanonEqualIffSame(m, ManifestValue(exhibits));
    FindAt(es, 1);
    SameFind(m.entries, es, "objects");
    var items := Find(m.entries, "objects").value.items;
    ObjectsChecked(h, root, files, items, exhibits);
  }

  // ----- What the sealed files say -----

  /** What a reader finds in the object sealed for a finding. */
  ghost predicate ObjectSays(es: seq<Entry>, f: Finding, secrets: seq<string>)
    requires "" !in secrets
  {
    && Entry("assertion_id", Str(Scrub(f.assertionId, secrets))) in es
    && Entry("finding_key", Str(Scrub(f.key, secrets))) in es
    && Entry("expected", Str(Scrub(f.expected, secrets))) in es
    && Entry("observed", Str(Scrub(f.observed, secrets))) in es
    && (exists places :: Entry("subject_locations", Arr(places)) in es && |places| == |f.locations|
          && forall k :: 0 <= k < |places| ==> places[k] == Str(Scrub(f.locations[k], secrets)))
  }

  lemma TextsSame(xs: seq<Value>, ys: seq<Value>)
    requires Same(Arr(xs), Arr(ys)) && forall k :: 0 <= k < |ys| ==> ys[k].Str?
    ensures xs == ys
  {
    forall k | 0 <= k < |xs| ensures xs[k] == ys[k] { SameText(xs[k], ys[k]); }
  }

  lemma EvidenceObjectIsDict(f: Finding, secrets: seq<string>)
    requires "" !in secrets
    ensures var v := EvidenceValue(f, secrets); Dict(v) && InProfile(v) && v.Obj? && DistinctKeys(v.entries)
  {
    hide Scrub;
    var es := EvidenceValue(f, secrets).entries;
    assert |es[0].key| == 12 && |es[1].key| == 11 && |es[2].key| == 17 && |es[3].key| == 8 && |es[4].key| == 8;
    assert es[3].key[0] == 'e' && es[4].key[0] == 'o';
    assert DistinctKeys(es);
    PlacesAreDict(ScrubAll(f.locations, secrets));
    hide Dict, InProfile, DistinctKeys;
    assert es[2].value == Arr(ScrubAll(f.locations, secrets));
    FiveEntries(es);
  }

  lemma PlacesAreDict(places: seq<Value>)
    requires forall k :: 0 <= k < |places| ==> places[k].Str?
    ensures Dict(Arr(places)) && InProfile(Arr(places))
  {
  }

  lemma FiveEntries(es: seq<Entry>)
    requires |es| == 5 && DistinctKeys(es) && Dict(es[2].value) && InProfile(es[2].value)
    requires es[0].value.Str? && es[1].value.Str? && es[3].value.Str? && es[4].value.Str?
    ensures Dict(Obj(es)) && InProfile(Obj(es))
  {
    hide DistinctKeys;
    forall k | 0 <= k < 5 ensures Dict(es[k].value) && InProfile(es[k].value) {}
  }

  /** The object sealed for a finding says what the finding says, with the secrets taken out. */
  lemma ObjectReads(loads: Loads, f: Finding, secrets: seq<string>)
    requires Faithful(loads) && "" !in secrets
    ensures exists es :: loads(EvidenceBytes(f, secrets)) == Some(Obj(es)) && ObjectSays(es, f, secrets)
  {
    hide Canonical, Same, Dict, InProfile, EvidenceValue, ObjectSays;
    var v := EvidenceValue(f, secrets);
    EvidenceObjectIsDict(f, secrets);
    assert ReadBack(loads, v);
    SameText(loads(Canonical(v)).value, v);
    ObjectHolds(loads(Canonical(v)).value.entries, f, secrets);
  }

  lemma ObjectHolds(a: seq<Entry>, f: Finding, secrets: seq<string>)
    requires "" !in secrets && Same(Obj(a), EvidenceValue(f, secrets))
    ensures ObjectSays(a, f, secrets)
  {
    hide Same, Dict, InProfile, Scrub, DistinctKeys;
    var es := EvidenceValue(f, secrets).entries;
    EvidenceObjectIsDict(f, secrets);
    var _ := HeldAt(a, es, 0);
    var _ := HeldAt(a, es, 1);
    var _ := HeldAt(a, es, 3);
    var _ := HeldAt(a, es, 4);
    var places := HeldAt(a, es, 2);
    assert places == Arr(places.items);
    TextsSame(places.items, es[2].value.items);
  }

  /** Where a finding's object lies, under which digest and for how long it is kept. */
  lemma ExhibitSays(h: Hash, f: Finding, secrets: seq<string>, retention: map<string, int>)
    requires "" !in secrets
    ensures var e := Show(h, f, secrets, retention);
            var hex := h(Preimage("evidence-manifest/v1", e.payload));
            && e.payload == EvidenceBytes(f, secrets) && e.assertionId == f.assertionId
            && e.digest == "sha256:" + hex
            && e.path == "evidence/findings/" + f.assertionId + "--" + (if |hex| < 16 then hex else hex[..16]) + ".json"
            && (f.assertionId in retention ==>
                  e.retentionClass == "retention:" + IntStr(retention[f.assertionId]) + "d")
            && (f.assertionId !in retention ==> e.retentionClass == "standard")
  {
    hide EvidenceBytes;
    PathText(f.assertionId, NameDigits(h, EvidenceBytes(f, secrets)));
  }

  lemma PathText(id: string, digits: string)
    ensures "evidence" + "/" + ("findings" + "/" + (id + "--" + digits + ".json"))
            == "evidence/findings/" + id + "--" + digits + ".json"
  {
    var name := id + "--" + digits + ".json";
    assert "evidence" + "/" + ("findings" + "/" + name) == ("evidence" + "/" + "findings" + "/") + name;
    assert "evidence" + "/" + "findings" + "/" == "evidence/findings/";
    assert "evidence/findings/" + id + "--" + digits + ".json" == "evidence/findings/" + name;
  }

  /** What a reader finds in the manifest. */
  ghost predicate ManifestSays(m: seq<Entry>, exhibits: seq<Exhibit>) {
    && Entry("api_version", Str("devgate.spec-coherence.evidence/v1")) in m
    && exists objects :: Entry("objects", Arr(objects)) in m && |objects| == |exhibits|
         && forall i :: 0 <= i < |objects| ==> ListsExhibit(objects[i], exhibits[i])
  }

  ghost predicate ListsExhibit(v: Value, e: Exhibit) {
    && v.Obj?
    && Entry("path", Str(e.path)) in v.entries && Entry("digest", Str(e.digest)) in v.entries
    && Entry("media_type", Str("application/json")) in v.entries
    && Entry("assertion_id", Str(e.assertionId)) in v.entries
    && Entry("retention_class", Str(e.retentionClass)) in v.entries
    && Entry("redacted", Bool(true)) in v.entries
  }

  lemma ObjectListed(v: Value, e: Exhibit)
    requires Same(v, ObjectValue(e))
    ensures ListsExhibit(v, e)
  {
    hide Same, Dict, InProfile, DistinctKeys;
    var es := ObjectValue(e).entries;
    ObjectKeys(e);
    SameText(v, ObjectValue(e));
    var _ := HeldAt(v.entries, es, 0);
    var _ := HeldAt(v.entries, es, 1);
    var _ := HeldAt(v.entries, es, 2);
    var _ := HeldAt(v.entries, es, 3);
    var _ := HeldAt(v.entries, es, 4);
    var _ := HeldAt(v.entries, es, 5);
  }

  lemma ObjectKeys(e: Exhibit)
    ensures DistinctKeys(ObjectValue(e).entries)
  {
    ObjectIsDict(e);
  }

  /** The manifest lists every exhibit with its path, digest, assertion and retention class, in order. */
  lemma ManifestReads(loads: Loads, exhibits: seq<Exhibit>)
    requires Faithful(loads)
    ensures exists m :: loads(Canonical(ManifestValue(exhibits))) == Some(Obj(m)) && ManifestSays(m, exhibits)
  {
    hide Canonical, Dict, InProfile, Same, ManifestSays;
    var v := ManifestValue(exhibits);
    ManifestIsDict(exhibits);
    assert ReadBack(loads, v);
    SameText(loads(Canonical(v)).value, v);
    ManifestHolds(loads(Canonical(v)).value.entries, exhibits);
  }

  lemma ManifestHolds(m: seq<Entry>, exhibits: seq<Exhibit>)
    requires Same(Obj(m), ManifestValue(exhibits))
    ensures ManifestSays(m, exhibits)
  {
    hide Same, ListsExhibit, ObjectValues, DistinctKeys;
    var es := ManifestValue(exhibits).entries;
    ManifestKeys(exhibits);
    var _ := HeldAt(m, es, 0);
    var objects := HeldAt(m, es, 1);
    assert objects == Arr(objects.items);
    ObjectsListed(objects.items, exhibits);
  }

  lemma ManifestKeys(exhibits: seq<Exhibit>)
    ensures DistinctKeys(ManifestValue(exhibits).entries)
  {
    hide ObjectValues;
    assert |"api_version"| == 11 && |"objects"| == 7;
  }

  lemma ObjectsListed(objects: seq<Value>, exhibits: seq<Exhibit>)
    requires Same(Arr(objects), Arr(ObjectValues(exhibits)))
    ensures |objects| == |exhibits| && forall i :: 0 <= i < |objects| ==> ListsExhibit(objects[i], exhibits[i])
  {
    hide ListsExhibit, ObjectValue;
    forall i | 0 <= i < |objects| ensures ListsExhibit(objects[i], exhibits[i]) {
      ObjectListed(objects[i], exhibits[i]);
    }
  }

  // ----- Sealed bundles verify, and verified bundles are as sealed -----

  /** The exhibit lies where `seal` puts it, under its own digest. */
  ghost predicate Filed(h: Hash, root: Path, e: Exhibit) {
    && e.digest == EvidenceDigest(h, e.payload)
    && var p := Locate(root, e.path);
       p.Some? && |p.value| == |root| + 3 && e.path == "evidence" + "/" + ("findings" + "/" + p.value[|root| + 2])
  }

  ghost predicate AllFiled(h: Hash, root: Path, exhibits: seq<Exhibit>) {
    forall i :: 0 <= i < |exhibits| ==> Filed(h, root, exhibits[i])
  }

  lemma SealedIsFiled(h: Hash, root: Path, findings: seq<Finding>, secrets: seq<string>, retention: map<string, int>)
    requires HexDigits(h) && "" !in secrets && FaultFree(h, root, findings, secrets)
    ensures AllFiled(h, root, ShowAll(h, findings, secrets, retention))
  {
    hide Locate, Leaks, IsId, EvidenceBytes, RetentionClass;
    var exhibits := ShowAll(h, findings, secrets, retention);
    forall i | 0 <= i < |exhibits| ensures Filed(h, root, exhibits[i]) {
      var f := findings[i];
      assert Fault(h, root, f, secrets).None?;
      ObjectPath(h, root, f.assertionId, EvidenceBytes(f, secrets));
    }
  }

  /** No two objects share a file while differing in digest. */
  ghost predicate NoClash(exhibits: seq<Exhibit>) {
    forall i, j :: 0 <= i < j < |exhibits| && exhibits[i].path == exhibits[j].path ==>
      exhibits[i].digest == exhibits[j].digest
  }

  /** The file of an object holds what was written to it last. */
  lemma {:induction false} LastWriter(h: Hash, root: Path, files: Tree, exhibits: seq<Exhibit>, i: nat) returns (j: nat)
    requires AllFiled(h, root, exhibits) && i < |exhibits|
    ensures i <= j < |exhibits| && exhibits[j].path == exhibits[i].path
    ensures var p, w := Locate(root, exhibits[i].path).value, Written(root, files, exhibits);
            p in w && w[p] == exhibits[j].payload
  {
    hide Locate, EvidenceDigest;
    var n := |exhibits| - 1;
    assert Filed(h, root, exhibits[i]) && Filed(h, root, exhibits[n]);
    if Locate(root, exhibits[i].path) == Locate(root, exhibits[n].path) {
      j := n;
    } else {
      assert AllFiled(h, root, exhibits[..n]);
      j := LastWriter(h, root, files, exhibits[..n], i);
    }
  }

  /** Every object's file still holds what sealing left there. */
  ghost predicate Kept(root: Path, was: Tree, files: Tree, exhibits: seq<Exhibit>) {
    forall i :: 0 <= i < |exhibits| ==> KeptAt(root, Written(root, was, exhibits), files, exhibits[i])
  }

  ghost predicate KeptAt(root: Path, sealed: Tree, files: Tree, e: Exhibit) {
    var p := Locate(root, e.path);
    p.Some? && p.value in sealed && p.value in files && files[p.value] == sealed[p.value]
  }

  lemma GenuineIffNoClash(h: Hash, root: Path, was: Tree, files: Tree, exhibits: seq<Exhibit>)
    requires AllFiled(h, root, exhibits) && Kept(root, was, files, exhibits)
    ensures AllGenuine(h, root, files, exhibits) <==> NoClash(exhibits)
  {
    hide Locate, EvidenceDigest, Written;
    forall i | 0 <= i < |exhibits|
      ensures NoClash(exhibits) ==> Genuine(h, root, files, exhibits[i])
    {
      var j := LastWriter(h, root, was, exhibits, i);
      assert KeptAt(root, Written(root, was, exhibits), files, exhibits[i]) && Filed(h, root, exhibits[j]);
    }
    if AllGenuine(h, root, files, exhibits) {
      forall i, j | 0 <= i < j < |exhibits| && exhibits[i].path == exhibits[j].path
        ensures exhibits[i].digest == exhibits[j].digest
      {
        assert Genuine(h, root, files, exhibits[i]) && Genuine(h, root, files, exhibits[j]);
      }
    }
  }

  /** An untouched bundle verifies exactly when no two objects of different content got the same file name. */
  lemma SealedBundleVerifiesIff(h: Hash, loads: Loads, root: Path, was: Tree, files: Tree, exhibits: seq<Exhibit>)
    requires Faithful(loads) && AllFiled(h, root, exhibits) && Kept(root, was, files, exhibits)
    requires ManifestPath(root) in files && files[ManifestPath(root)] == Canonical(ManifestValue(exhibits))
    ensures Verify(h, loads, root, files, Str(ManifestDigest(h, exhibits))) == Ok(NoClash(exhibits))
  {
    hide Same, InProfile, Dict, Canonical, AllFiled, Kept, NoClash, AllGenuine, Verify;
    ManifestIsDict(exhibits);
    assert ReadBack(loads, ManifestValue(exhibits));
    VerifyDecides(h, loads, root, files, exhibits, Str(ManifestDigest(h, exhibits)));
    GenuineIffNoClash(h, root, was, files, exhibits);
  }

  /** The object's file holds the bytes that were sealed. */
  ghost predicate Untouched(root: Path, files: Tree, e: Exhibit) {
    var p := Locate(root, e.path);
    p.Some? && p.value in files && files[p.value] == e.payload
  }

  /** A manifest with the expected digest reads as the sealed manifest. */
  lemma DigestFixesManifest(h: Hash, loads: Loads, root: Path, files: Tree, exhibits: seq<Exhibit>)
    requires CollisionFree(h) && Faithful(loads)
    requires Verify(h, loads, root, files, Str(ManifestDigest(h, exhibits))) == Ok(true)
    ensures ManifestPath(root) in files && loads(files[ManifestPath(root)]).Some?
    ensures var m := loads(files[ManifestPath(root)]).value;
            Same(m, ManifestValue(exhibits)) && Dict(m) && InProfile(m)
  {
    hide Same, InProfile, Dict, Canonical, VerifyObjects;
    assert YieldsDict(loads, files[ManifestPath(root)]);
    var m := loads(files[ManifestPath(root)]).value;
    ManifestIsDict(exhibits);
    assert InProfile(m);
    ObjectDigestEqualIff(h, "evidence-manifest/v1", "evidence-manifest/v1", m, ManifestValue(exhibits));
  }

  /** Accepted bundles are as sealed: every object's bytes are the ones `seal` wrote. */
  lemma VerifiedBundleIsUntouched(h: Hash, loads: Loads, root: Path, files: Tree, exhibits: seq<Exhibit>)
    requires CollisionFree(h) && Faithful(loads)
    requires forall i :: 0 <= i < |exhibits| ==> exhibits[i].digest == EvidenceDigest(h, exhibits[i].payload)
    requires Verify(h, loads, root, files, Str(ManifestDigest(h, exhibits))) == Ok(true)
    ensures forall i :: 0 <= i < |exhibits| ==> Untouched(root, files, exhibits[i])
  {
    hide Same, InProfile, Dict, Canonical, Locate, Verify, ManifestDigest;
    DigestFixesManifest(h, loads, root, files, exhibits);
    VerifyDecides(h, loads, root, files, exhibits, Str(ManifestDigest(h, exhibits)));
    forall i | 0 <= i < |exhibits| ensures Untouched(root, files, exhibits[i]) {
      assert Genuine(h, root, files, exhibits[i]);
      var p := Locate(root, exhibits[i].path).value;
      DigestEqualIff(h, "evidence-manifest/v1", "evidence-manifest/v1", files[p], exhibits[i].payload);
    }
  }

  // ----- File names do run out -----

  const HEX: string := "0123456789abcdef"

  /** The hexadecimal texts of at most `n` digits. */
  ghost function HexTexts(n: nat): set<string> {
    if n == 0 then {""}
    else {""} + set c, s | c in HEX && s in HexTexts(n - 1) :: [c] + s
  }

  lemma HexChar(c: char)
    requires IsHex(c)
    ensures c in HEX
  {
    assert c == HEX[HexValue(c)];
  }

  lemma {:induction false} HexTextListed(s: string, n: nat)
    requires HexText(s) && |s| <= n
    ensures s in HexTexts(n)
  {
    if s != [] {
      HexTextListed(s[1..], n - 1);
      HexChar(s[0]);
      assert s == [s[0]] + s[1..];
    }
  }

  lemma TooManyRepeat<T>(s: seq<T>, bound: set<T>)
    requires |s| > |bound| && forall x :: x in s ==> x in bound
    ensures !Distinct(s)
  {
    if Distinct(s) { DistinctWithinSet(s, bound); }
  }

  /** Among enough payloads two share the digits that name their files. */
  lemma DigitsRepeat(h: Hash, payloads: seq<Bytes>) returns (i: nat, j: nat)
    requires HexDigits(h) && |payloads| > |HexTexts(NAME_DIGITS)|
    ensures i < j < |payloads| && NameDigits(h, payloads[i]) == NameDigits(h, payloads[j])
  {
    hide NameDigits, HexTexts;
    var names := seq(|payloads|, k requires 0 <= k < |payloads| => NameDigits(h, payloads[k]));
    forall k | 0 <= k < |names| ensures names[k] in HexTexts(NAME_DIGITS) {
      DigitsAreHex(h, payloads[k]);
      HexTextListed(names[k], NAME_DIGITS);
    }
    TooManyRepeat(names, HexTexts(NAME_DIGITS));
    i, j :| 0 <= i < j < |names| && names[i] == names[j];
  }

  lemma DigitsAreHex(h: Hash, payload: Bytes)
    requires HexDigits(h)
    ensures HexText(NameDigits(h, payload)) && |NameDigits(h, payload)| <= NAME_DIGITS
  {
    assert HexText(h(Preimage("evidence-manifest/v1", payload)));
  }

  // ----- Findings with different observations -----

  lemma EvidenceIsDict(f: Finding)
    ensures Dict(EvidenceValue(f, [])) && InProfile(EvidenceValue(f, []))
  {
    var es := EvidenceValue(f, []).entries;
    assert |es[0].key| == 12 && |es[1].key| == 11 && |es[2].key| == 17 && |es[3].key| == 8 && |es[4].key| == 8;
    assert es[3].key[0] == 'e' && es[4].key[0] == 'o';
    assert DistinctKeys(es);
    var locations := ScrubAll(f.locations, []);
    assert forall k :: 0 <= k < |locations| ==> Dict(locations[k]) && InProfile(locations[k]);
    assert Dict(es[2].value) && InProfile(es[2].value);
  }

  lemma EvidenceKeys(f: Finding)
    ensures DistinctKeys(EvidenceValue(f, []).entries)
  {
    EvidenceIsDict(f);
  }

  /** The sealed bytes tell observations apart. */
  lemma ObservationsDiffer(f: Finding, x: string, y: string)
    requires EvidenceBytes(f.(observed := x), []) == EvidenceBytes(f.(observed := y), [])
    ensures x == y
  {
    hide Canonical, Same, Dict, InProfile, Find, DistinctKeys;
    var v, w := EvidenceValue(f.(observed := x), []), EvidenceValue(f.(observed := y), []);
    EvidenceIsDict(f.(observed := x));
    EvidenceIsDict(f.(observed := y));
    CanonEqualIffSame(v, w);
    EvidenceKeys(f.(observed := x));
    EvidenceKeys(f.(observed := y));
    SameFindAt(v.entries, w.entries, 4);
    FindAt(v.entries, 4);
  }

  function As(n: nat): string {
    seq(n, _ => 'a')
  }

  /** Whatever the hash, some two findings of an assertion that differ only in what was observed are sealed under
      one name: the bundle of the two does not verify. */
  lemma NamesClash(h: Hash, root: Path, f: Finding) returns (fs: seq<Finding>)
    requires CollisionFree(h) && HexDigits(h) && IsId(f.assertionId)
    ensures |fs| == 2 && fs[0] == f.(observed := fs[0].observed) && fs[1] == f.(observed := fs[1].observed)
    ensures FaultFree(h, root, fs, []) && !NoClash(ShowAll(h, fs, [], map[]))
  {
    hide Locate, Leaks, IsId, EvidenceBytes, NameDigits, HexTexts, Fault;
    var n := |HexTexts(NAME_DIGITS)| + 1;
    var payloads := seq(n, k requires 0 <= k < n => EvidenceBytes(f.(observed := As(k)), []));
    var i, j := DigitsRepeat(h, payloads);
    fs := [f.(observed := As(i)), f.(observed := As(j))];
    assert |As(i)| != |As(j)|;
    if payloads[i] == payloads[j] { ObservationsDiffer(f, As(i), As(j)); }
    DigestEqualIff(h, "evidence-manifest/v1", "evidence-manifest/v1", payloads[i], payloads[j]);
    var exhibits := ShowAll(h, fs, [], map[]);
    assert exhibits[0].path == exhibits[1].path && exhibits[0].digest != exhibits[1].digest;
    forall k | 0 <= k < 2 ensures Fault(h, root, fs[k], []).None? {
      NoSecretsNoLeak(EvidenceBytes(fs[k], []));
      SealStaysInside(h, root, fs[k], []);
    }
  }

  lemma NoSecretsNoLeak(payload: Bytes)
    ensures !Leaks(payload, [])
  {
  }
}

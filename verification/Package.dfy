/** Package resolution and the package digest of hub/coherence/package.py. */
module Package {
  import opened Common
  import opened Canon
  import opened Digests

  datatype InventoryEntry = InventoryEntry(path: string, kind: string, digest: string)

  datatype Import = Import(packageId: string, digest: string)

  /** The package manifest; the optional parts are whatever JSON the manifest holds there. */
  datatype Manifest = Manifest(
    schemaVersion: string,
    packageId: string,
    packageVersion: string,
    inventory: seq<InventoryEntry>,
    imports: seq<Import>,
    product: Option<Value>,
    requirements: Option<Value>,
    release: Option<Value>)

  datatype PackageError =
    | UnsupportedSchema
    | EmptyInventory
    | MissingFile(path: string)
    | DigestMismatch(path: string)
    | UnfrozenImport(packageId: string)
    | NotCanonical

  /** The files below the package root. */
  type Tree = map<string, Bytes>

  function FileDigest(h: Hash, content: Bytes): string {
    "sha256:" + h(Preimage("file/v1", content))
  }

  // ----- The package as a value -----

  function InventoryValue(e: InventoryEntry): Value {
    Obj([Entry("path", Str(e.path)), Entry("kind", Str(e.kind)), Entry("digest", Str(e.digest))])
  }

  function ImportValue(i: Import): Value {
    Obj([Entry("package_id", Str(i.packageId)), Entry("digest", Str(i.digest))])
  }

  function Normative(inventory: seq<InventoryEntry>): (r: seq<InventoryEntry>)
    ensures forall e :: e in r ==> e in inventory && e.kind == "normative"
  {
    if inventory == [] then []
    else
      var n := |inventory| - 1;
      assert inventory == inventory[..n] + [inventory[n]];
      Normative(inventory[..n]) + if inventory[n].kind == "normative" then [inventory[n]] else []
  }

  function InventoryValues(s: seq<InventoryEntry>): (r: seq<Value>)
    ensures |r| == |s| && forall i :: 0 <= i < |r| ==> r[i] == InventoryValue(s[i])
  {
    seq(|s|, i requires 0 <= i < |s| => InventoryValue(s[i]))
  }

  function ImportValues(s: seq<Import>): (r: seq<Value>)
    ensures |r| == |s| && forall i :: 0 <= i < |r| ==> r[i] == ImportValue(s[i])
  {
    seq(|s|, i requires 0 <= i < |s| => ImportValue(s[i]))
  }

  function Part(key: string, v: Option<Value>): seq<Entry> {
    if v.Some? then [Entry(key, v.value)] else []
  }

  /** The `package` dict before its digest is added. */
  function PackageValue(m: Manifest): Value {
    Obj([Entry("api_version", Str("devgate.openspec.package/v1")),
         Entry("package_id", Str(m.packageId)),
         Entry("package_version", Str(m.packageVersion)),
         Entry("normative_inventory", Arr(InventoryValues(Normative(m.inventory)))),
         Entry("imports", Arr(ImportValues(m.imports)))]
        + Part("product", m.product) + Part("normative_requirements", m.requirements)
        + Part("release_manifest", m.release))
  }

  /** A file of the normative closure: its path and the digest of its content. */
  datatype Member = Member(path: string, digest: string)

  function MemberValue(m: Member): Value {
    Obj([Entry("path", Str(m.path)), Entry("digest", Str(m.digest))])
  }

  function ClosureBytes(members: seq<Member>): Bytes {
    if members == [] then [] else Canonical(MemberValue(members[0])) + ClosureBytes(members[1..])
  }

  function Members(h: Hash, files: Tree, inventory: seq<InventoryEntry>): (r: seq<Member>)
    requires forall e :: e in inventory ==> e.path in files
    ensures |r| == |inventory|
    ensures forall i :: 0 <= i < |r| ==> r[i] == Member(inventory[i].path, FileDigest(h, files[inventory[i].path]))
  {
    seq(|inventory|, i requires 0 <= i < |inventory| =>
        Member(inventory[i].path, FileDigest(h, files[inventory[i].path])))
  }

  /** What the package digest hashes after its role tag: the manifest, then the closure, without separators. */
  function Payload(package: Value, members: seq<Member>): Bytes {
    Canonical(package) + ClosureBytes(members)
  }

  // ----- Resolution -----

  ghost predicate Authentic(h: Hash, files: Tree, inventory: seq<InventoryEntry>) {
    forall e :: e in inventory ==>
      e.path in files && "sha256:" + h(Preimage("file/v1", files[e.path])) == e.digest
  }

  ghost predicate Frozen(imports: seq<Import>) {
    forall i :: i in imports ==> i.digest != ""
  }

  /** The entry's file is missing, or it is there with another digest. */
  ghost predicate EntryFault(h: Hash, files: Tree, entry: InventoryEntry, e: PackageError) {
    if entry.path !in files then e == MissingFile(entry.path)
    else e == DigestMismatch(entry.path) && entry.digest != "sha256:" + h(Preimage("file/v1", files[entry.path]))
  }

  /** The defect an error names is there. */
  ghost predicate Defective(h: Hash, files: Tree, m: Manifest, e: PackageError) {
    match e
    case UnsupportedSchema => m.schemaVersion != "devgate.openspec.package/v1"
    case EmptyInventory => m.inventory == []
    case MissingFile(_) => exists entry :: entry in m.inventory && EntryFault(h, files, entry, e)
    case DigestMismatch(_) => exists entry :: entry in m.inventory && EntryFault(h, files, entry, e)
    case UnfrozenImport(id) => Import(id, "") in m.imports
    case NotCanonical => Authentic(h, files, m.inventory) && !InProfile(PackageValue(m))
  }

  ghost predicate Resolvable(h: Hash, files: Tree, m: Manifest) {
    && m.schemaVersion == "devgate.openspec.package/v1" && m.inventory != []
    && Authentic(h, files, m.inventory) && Frozen(m.imports) && InProfile(PackageValue(m))
  }

  /** The digest of a resolved package. */
  ghost function PackageDigest(h: Hash, files: Tree, m: Manifest): string
    requires Authentic(h, files, m.inventory)
  {
    "sha256:" + h(Preimage("package/v1", Payload(PackageValue(m), Members(h, files, Normative(m.inventory)))))
  }

  /** The inventory loop: every file is there and unchanged; the normative ones are collected. */
  method CheckInventory(h: Hash, files: Tree, inventory: seq<InventoryEntry>)
    returns (r: Result<seq<InventoryEntry>, PackageError>)
    ensures r.Ok? <==> Authentic(h, files, inventory)
    ensures r.Ok? ==> r.value == Normative(inventory)
    ensures r.Err? ==> exists e :: e in inventory && EntryFault(h, files, e, r.error)
  {
    var normative: seq<InventoryEntry> := [];
    for i := 0 to |inventory|
      invariant Authentic(h, files, inventory[..i]) && normative == Normative(inventory[..i])
    {
      var e := inventory[i];
      assert inventory[..i + 1] == inventory[..i] + [e] && inventory[..i + 1][..i] == inventory[..i];
      assert e in inventory;
      if e.path !in files {
        return Err(MissingFile(e.path));
      }
      if FileDigest(h, files[e.path]) != e.digest {
        return Err(DigestMismatch(e.path));
      }
      if e.kind == "normative" {
        normative := normative + [e];
      }
    }
    assert inventory[..|inventory|] == inventory;
    r := Ok(normative);
  }

  method CheckImports(imports: seq<Import>) returns (e: Option<PackageError>)
    ensures e.None? <==> Frozen(imports)
    ensures e.Some? ==> e.value.UnfrozenImport? && Import(e.value.packageId, "") in imports
  {
    for i := 0 to |imports|
      invariant forall k :: 0 <= k < i ==> imports[k].digest != ""
    {
      if imports[i].digest == "" {
        assert imports[i] in imports;
        return Some(UnfrozenImport(imports[i].packageId));
      }
    }
    e := None;
  }

  /** `resolve`. */
  method Resolve(h: Hash, files: Tree, m: Manifest) returns (r: Result<(Value, string), PackageError>)
    ensures r.Ok? <==> Resolvable(h, files, m)
    ensures r.Ok? ==> r.value == (PackageValue(m), PackageDigest(h, files, m))
    ensures r.Err? ==> Defective(h, files, m, r.error)
  {
    if m.schemaVersion != "devgate.openspec.package/v1" {
      return Err(UnsupportedSchema);
    }
    if m.inventory == [] {
      return Err(EmptyInventory);
    }
    var normative := CheckInventory(h, files, m.inventory);
    if normative.Err? {
      return Err(normative.error);
    }
    var e := CheckImports(m.imports);
    if e.Some? {
      return Err(e.value);
    }
    var package := PackageValue(m);
    var text := TryCanon(package);
    if text.Err? {
      return Err(NotCanonical);
    }
    var payload := text.value + ClosureBytes(Members(h, files, normative.value));
    r := Ok((package, "sha256:" + h(Preimage("package/v1", payload))));
  }

  // ----- What the resolved package says -----

  /** The objects say path, kind and digest of the normative entries, in the order of the inventory. */
  ghost predicate ListsNormative(items: seq<Value>, normative: seq<InventoryEntry>) {
    |items| == |normative| && forall i :: 0 <= i < |items| ==>
      && items[i].Obj? && Entry("path", Str(normative[i].path)) in items[i].entries
      && Entry("kind", Str(normative[i].kind)) in items[i].entries
      && Entry("digest", Str(normative[i].digest)) in items[i].entries
  }

  ghost predicate ListsImports(items: seq<Value>, imports: seq<Import>) {
    |items| == |imports| && forall i :: 0 <= i < |items| ==>
      && items[i].Obj? && Entry("package_id", Str(imports[i].packageId)) in items[i].entries
      && Entry("digest", Str(imports[i].digest)) in items[i].entries
  }

  /** The resolved package says what the manifest says, with its normative entries alone; the optional parts are there
      exactly when the manifest has them. */
  lemma PackageSays(m: Manifest)
    ensures var es := PackageValue(m).entries;
            && Entry("api_version", Str("devgate.openspec.package/v1")) in es
            && Entry("package_id", Str(m.packageId)) in es && Entry("package_version", Str(m.packageVersion)) in es
            && (exists items :: Entry("normative_inventory", Arr(items)) in es
                                && ListsNormative(items, Normative(m.inventory)))
            && (exists items :: Entry("imports", Arr(items)) in es && ListsImports(items, m.imports))
            && (forall v :: m.product == Some(v) ==> Entry("product", v) in es)
            && (forall v :: m.requirements == Some(v) ==> Entry("normative_requirements", v) in es)
            && (forall v :: m.release == Some(v) ==> Entry("release_manifest", v) in es)
            && |es| == 5 + (if m.product.Some? then 1 else 0) + (if m.requirements.Some? then 1 else 0)
                       + (if m.release.Some? then 1 else 0)
  {
    hide Normative, InventoryValues, ImportValues, ListsNormative, ListsImports, Part;
    var es := PackageValue(m).entries;
    assert es[0] in es && es[1] in es && es[2] in es && es[3] in es && es[4] in es;
    InventoryListed(Normative(m.inventory));
    ImportsListed(m.imports);
    PartSays("product", m.product);
    PartSays("normative_requirements", m.requirements);
    PartSays("release_manifest", m.release);
  }

  lemma PartSays(key: string, v: Option<Value>)
    ensures forall w :: v == Some(w) ==> Entry(key, w) in Part(key, v)
    ensures |Part(key, v)| == if v.Some? then 1 else 0
  {
    if v.Some? { assert Part(key, v)[0] == Entry(key, v.value); }
  }

  lemma InventoryListed(s: seq<InventoryEntry>)
    ensures ListsNormative(InventoryValues(s), s)
  {
    forall i | 0 <= i < |s|
      ensures InventoryValue(s[i]).Obj? && Entry("path", Str(s[i].path)) in InventoryValue(s[i]).entries
              && Entry("kind", Str(s[i].kind)) in InventoryValue(s[i]).entries
              && Entry("digest", Str(s[i].digest)) in InventoryValue(s[i]).entries
    {
      var es := InventoryValue(s[i]).entries;
      assert es[0] in es && es[1] in es && es[2] in es;
    }
  }

  lemma ImportsListed(s: seq<Import>)
    ensures ListsImports(ImportValues(s), s)
  {
    forall i | 0 <= i < |s|
      ensures ImportValue(s[i]).Obj? && Entry("package_id", Str(s[i].packageId)) in ImportValue(s[i]).entries
              && Entry("digest", Str(s[i].digest)) in ImportValue(s[i]).entries
    {
      var es := ImportValue(s[i]).entries;
      assert es[0] in es && es[1] in es;
    }
  }

  // ----- The digest's preimage is uniquely decodable -----

  lemma MemberIsObject(m: Member)
    ensures InProfile(MemberValue(m)) && Dict(MemberValue(m))
  {
    var es := [Entry("path", Str(m.path)), Entry("digest", Str(m.digest))];
    assert es[0].key != es[1].key;
    assert DistinctKeys(es);
    assert InProfile(es[0].value) && InProfile(es[1].value);
  }

  lemma SameMember(a: Member, b: Member)
    requires Same(MemberValue(a), MemberValue(b))
    ensures a == b
  {
    var es := [Entry("path", Str(a.path)), Entry("digest", Str(a.digest))];
    var fs := [Entry("path", Str(b.path)), Entry("digest", Str(b.digest))];
    assert es[0].key == fs[0].key && es[1].key == fs[1].key;
    assert Same(es[0].value, fs[0].value) && Same(es[1].value, fs[1].value);
  }

  lemma MemberBytesNonempty(m: Member)
    ensures Canonical(MemberValue(m)) != []
  {
    var v := Norm(MemberValue(m));
    assert v.Obj?;
    assert PrintThen(v, [])[0] == '{';
  }

  lemma FirstMemberDecodable(a: Member, b: Member, s: Bytes, t: Bytes)
    requires Canonical(MemberValue(a)) + s == Canonical(MemberValue(b)) + t
    ensures a == b && s == t
  {
    hide Canonical, Same, InProfile, Dict;
    MemberIsObject(a);
    MemberIsObject(b);
    ObjectsSelfDelimiting(MemberValue(a), MemberValue(b), s, t);
    SameMember(a, b);
  }

  lemma {:induction false} ClosureDecodable(a: seq<Member>, b: seq<Member>)
    requires ClosureBytes(a) == ClosureBytes(b)
    ensures a == b
  {
    hide Canonical, MemberValue;
    if a != [] && b != [] {
      FirstMemberDecodable(a[0], b[0], ClosureBytes(a[1..]), ClosureBytes(b[1..]));
      ClosureDecodable(a[1..], b[1..]);
      assert a == [a[0]] + a[1..] && b == [b[0]] + b[1..];
    } else if a != [] {
      MemberBytesNonempty(a[0]);
    } else if b != [] {
      MemberBytesNonempty(b[0]);
    }
  }

  /** Equal payloads come from the same package and the same closure in the same order. */
  lemma PayloadDecodable(p: Value, q: Value, a: seq<Member>, b: seq<Member>)
    requires p.Obj? && q.Obj? && InProfile(p) && InProfile(q) && Dict(p) && Dict(q)
    ensures Payload(p, a) == Payload(q, b) <==> Same(p, q) && a == b
  {
    if Payload(p, a) == Payload(q, b) {
      ObjectsSelfDelimiting(p, q, ClosureBytes(a), ClosureBytes(b));
      ClosureDecodable(a, b);
    }
    CanonEqualIffSame(p, q);
  }

  /** Two resolved packages have the same digest exactly when they are the same package with the same closure. */
  lemma PackageDigestEqualIff(h: Hash, f: Tree, g: Tree, m: Manifest, n: Manifest)
    requires CollisionFree(h) && Resolvable(h, f, m) && Resolvable(h, g, n)
    requires Dict(PackageValue(m)) && Dict(PackageValue(n))
    ensures PackageDigest(h, f, m) == PackageDigest(h, g, n) <==>
            Same(PackageValue(m), PackageValue(n))
            && Members(h, f, Normative(m.inventory)) == Members(h, g, Normative(n.inventory))
  {
    var a, b := Members(h, f, Normative(m.inventory)), Members(h, g, Normative(n.inventory));
    PayloadDecodable(PackageValue(m), PackageValue(n), a, b);
    DigestEqualIff(h, "package/v1", "package/v1", Payload(PackageValue(m), a), Payload(PackageValue(n), b));
  }

  lemma AuthenticMembers(h: Hash, f: Tree, inventory: seq<InventoryEntry>, i: nat)
    requires Authentic(h, f, inventory) && i < |Normative(inventory)|
    ensures Members(h, f, Normative(inventory))[i]
            == Member(Normative(inventory)[i].path, Normative(inventory)[i].digest)
  {
    assert Normative(inventory)[i] in inventory;
  }

  /** Informative files do not count: manifests with the same normative entries have the same digest. */
  lemma InformativeChangesKeepDigest(h: Hash, f: Tree, g: Tree, m: Manifest, n: Manifest)
    requires Authentic(h, f, m.inventory) && Authentic(h, g, n.inventory)
    requires Normative(m.inventory) == Normative(n.inventory) && n == m.(inventory := n.inventory)
    ensures PackageDigest(h, f, m) == PackageDigest(h, g, n)
  {
    var a, b := Members(h, f, Normative(m.inventory)), Members(h, g, Normative(n.inventory));
    forall i | 0 <= i < |a| ensures a[i] == b[i] {
      AuthenticMembers(h, f, m.inventory, i);
      AuthenticMembers(h, g, n.inventory, i);
    }
    assert a == b;
  }

  lemma {:induction false} FlipChangesCount(inventory: seq<InventoryEntry>, i: nat, kind: string)
    requires i < |inventory| && (inventory[i].kind == "normative" <==> kind != "normative")
    ensures |Normative(inventory[i := inventory[i].(kind := kind)])| != |Normative(inventory)|
  {
    hide Normative;
    var n := |inventory| - 1;
    var flipped := inventory[i := inventory[i].(kind := kind)];
    NormativeStep(inventory);
    NormativeStep(flipped);
    if i < n {
      FlipChangesCount(inventory[..n], i, kind);
      assert flipped[n] == inventory[n];
      assert flipped[..n] == inventory[..n][i := inventory[..n][i].(kind := kind)];
    } else {
      assert flipped[..n] == inventory[..n];
    }
  }

  lemma NormativeStep(inventory: seq<InventoryEntry>)
    requires inventory != []
    ensures var n := |inventory| - 1;
            |Normative(inventory)| == |Normative(inventory[..n])| + if inventory[n].kind == "normative" then 1 else 0
  {
  }

  /** Reclassifying one inventory entry always changes the digest. */
  lemma ReclassificationChangesDigest(h: Hash, f: Tree, m: Manifest, i: nat, kind: string)
    requires CollisionFree(h) && i < |m.inventory| && (m.inventory[i].kind == "normative" <==> kind != "normative")
    requires var n := m.(inventory := m.inventory[i := m.inventory[i].(kind := kind)]);
             Resolvable(h, f, m) && Resolvable(h, f, n) && Dict(PackageValue(m)) && Dict(PackageValue(n))
    ensures var n := m.(inventory := m.inventory[i := m.inventory[i].(kind := kind)]);
            PackageDigest(h, f, m) != PackageDigest(h, f, n)
  {
    var n := m.(inventory := m.inventory[i := m.inventory[i].(kind := kind)]);
    PackageDigestEqualIff(h, f, f, m, n);
    FlipChangesCount(m.inventory, i, kind);
    assert |Members(h, f, Normative(m.inventory))| != |Members(h, f, Normative(n.inventory))|;
  }
}

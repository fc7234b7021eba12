/** The overlay merge of scripts/gate_overlay.py, and the second merge inside scripts/failure_registry_check.py. */
module RegistryMerge {
  import opened Common

  /** A rule or registry entry: its id, if it has one, and the rest of it. */
  datatype Entry = Entry(id: Option<string>, body: string)

  // ----- Replace in place, or append -----

  /** The last position holding `id`, or -1. */
  function Find(s: seq<Entry>, id: string): (p: int)
    ensures -1 <= p < |s|
    ensures p >= 0 ==> s[p].id == Some(id)
  {
    if s == [] then -1 else if s[|s| - 1].id == Some(id) then |s| - 1 else Find(s[..|s| - 1], id)
  }

  /** The id an entry is merged by. The registry checker (`strict`) takes an empty id for none. */
  function Key(strict: bool, e: Entry): Option<string> {
    if strict && e.id == Some("") then None else e.id
  }

  function Put(strict: bool, s: seq<Entry>, e: Entry): seq<Entry> {
    var key := Key(strict, e);
    if key.Some? && Find(s, key.value) >= 0 then s[Find(s, key.value) := e] else s + [e]
  }

  function PutAll(strict: bool, s: seq<Entry>, entries: seq<Entry>): seq<Entry> {
    if entries == [] then s else Put(strict, PutAll(strict, s, entries[..|entries| - 1]), entries[|entries| - 1])
  }

  function Merge(bundled: seq<Entry>, overlay: seq<Entry>): seq<Entry> {
    PutAll(false, bundled, overlay)
  }

  /** The checker's list: one pass over both sources, starting empty. */
  function Checked(bundled: seq<Entry>, overlay: seq<Entry>): seq<Entry> {
    PutAll(true, [], bundled + overlay)
  }

  /** `index` maps each id to its last position. */
  ghost predicate Indexes(index: map<string, nat>, s: seq<Entry>) {
    forall id :: Find(s, id) == if id in index then index[id] else -1
  }

  lemma FindAppend(s: seq<Entry>, e: Entry, id: string)
    ensures Find(s + [e], id) == if e.id == Some(id) then |s| else Find(s, id)
  {
    assert (s + [e])[..|s|] == s;
  }

  lemma {:induction false} FindReplace(s: seq<Entry>, p: nat, e: Entry, id: string)
    requires p < |s| && s[p].id == e.id
    ensures Find(s[p := e], id) == Find(s, id)
  {
    var n := |s| - 1;
    if p < n {
      FindReplace(s[..n], p, e, id);
      assert s[p := e][..n] == s[..n][p := e];
    } else {
      assert s[p := e][..n] == s[..n];
    }
  }

  /** `merge_by_id`. */
  method MergeById(bundled: seq<Entry>, overlay: seq<Entry>) returns (out: seq<Entry>)
    ensures out == Merge(bundled, overlay)
  {
    out := [];
    var index: map<string, nat> := map[];
    for i := 0 to |bundled|
      invariant out == bundled[..i] && Indexes(index, out)
    {
      var e := bundled[i];
      forall id { FindAppend(out, e, id); }
      if e.id.Some? {
        index := index[e.id.value := |out|];
      }
      out := out + [e];
    }
    for i := 0 to |overlay|
      invariant out == PutAll(false, bundled, overlay[..i]) && Indexes(index, out)
    {
      var e := overlay[i];
      assert overlay[..i + 1][..i] == overlay[..i];
      if e.id.Some? && e.id.value in index {
        forall id { FindReplace(out, index[e.id.value], e, id); }
        out := out[index[e.id.value] := e];
      } else {
        forall id { FindAppend(out, e, id); }
        if e.id.Some? {
          index := index[e.id.value := |out|];
        }
        out := out + [e];
      }
    }
    assert overlay[..|overlay|] == overlay;
  }

  // ----- What the merge means -----

  function Lookup(s: seq<Entry>, id: string): Option<Entry> {
    if Find(s, id) >= 0 then Some(s[Find(s, id)]) else None
  }

  function Ids(s: seq<Entry>): (r: seq<Option<string>>)
    ensures |r| == |s| && forall i :: 0 <= i < |r| ==> r[i] == s[i].id
  {
    seq(|s|, i requires 0 <= i < |s| => s[i].id)
  }

  /** The ids the overlay adds: those of entries without an id, and each new id where it first occurs. */
  function NewIds(bundled: seq<Entry>, overlay: seq<Entry>): seq<Option<string>> {
    if overlay == [] then []
    else
      var n := |overlay| - 1;
      var id := overlay[n].id;
      NewIds(bundled, overlay[..n])
      + if id.Some? && (Find(bundled, id.value) >= 0 || Find(overlay[..n], id.value) >= 0) then [] else [id]
  }

  function WithoutId(s: seq<Entry>): seq<Entry> {
    if s == [] then []
    else WithoutId(s[..|s| - 1]) + if s[|s| - 1].id.None? then [s[|s| - 1]] else []
  }

  lemma PutLookup(s: seq<Entry>, e: Entry, id: string)
    ensures Lookup(Put(false, s, e), id) == if e.id == Some(id) then Some(e) else Lookup(s, id)
  {
    if e.id.Some? && Find(s, e.id.value) >= 0 {
      FindReplace(s, Find(s, e.id.value), e, id);
    } else {
      FindAppend(s, e, id);
    }
  }

  lemma {:induction false} MergeLookup(bundled: seq<Entry>, overlay: seq<Entry>, id: string)
    ensures Lookup(Merge(bundled, overlay), id) ==
            if Lookup(overlay, id).Some? then Lookup(overlay, id) else Lookup(bundled, id)
  {
    if overlay != [] {
      var n := |overlay| - 1;
      MergeLookup(bundled, overlay[..n], id);
      PutLookup(Merge(bundled, overlay[..n]), overlay[n], id);
    }
  }

  lemma {:induction false} MergeIds(bundled: seq<Entry>, overlay: seq<Entry>)
    ensures Ids(Merge(bundled, overlay)) == Ids(bundled) + NewIds(bundled, overlay)
  {
    if overlay != [] {
      var n := |overlay| - 1;
      var before, e := Merge(bundled, overlay[..n]), overlay[n];
      MergeIds(bundled, overlay[..n]);
      if e.id.Some? {
        MergeLookup(bundled, overlay[..n], e.id.value);
        if Find(before, e.id.value) >= 0 {
          assert Ids(before[Find(before, e.id.value) := e]) == Ids(before);
        } else {
          assert Ids(before + [e]) == Ids(before) + [e.id];
        }
      } else {
        assert Ids(before + [e]) == Ids(before) + [e.id];
      }
    }
  }

  lemma {:induction false} ReplaceKeepsIdless(s: seq<Entry>, p: nat, e: Entry)
    requires p < |s| && s[p].id.Some? && e.id.Some?
    ensures WithoutId(s[p := e]) == WithoutId(s)
  {
    var n := |s| - 1;
    if p < n {
      ReplaceKeepsIdless(s[..n], p, e);
      assert s[p := e][..n] == s[..n][p := e];
    } else {
      assert s[p := e][..n] == s[..n];
    }
  }

  lemma {:induction false} MergeKeepsIdless(bundled: seq<Entry>, overlay: seq<Entry>)
    ensures WithoutId(Merge(bundled, overlay)) == WithoutId(bundled) + WithoutId(overlay)
  {
    if overlay != [] {
      var n := |overlay| - 1;
      var before, e := Merge(bundled, overlay[..n]), overlay[n];
      MergeKeepsIdless(bundled, overlay[..n]);
      if e.id.Some? && Find(before, e.id.value) >= 0 {
        ReplaceKeepsIdless(before, Find(before, e.id.value), e);
      } else {
        assert (before + [e])[..|before|] == before;
      }
    }
  }

  /** Where an entry of the baseline ends up: it stays, unless it is the last of its id and the overlay has that id. */
  lemma {:induction false} MergeBaseline(bundled: seq<Entry>, overlay: seq<Entry>, i: nat)
    requires i < |bundled|
    ensures |Merge(bundled, overlay)| >= |bundled|
    ensures var id := bundled[i].id;
            Merge(bundled, overlay)[i] ==
            if id.Some? && Find(bundled, id.value) == i && Lookup(overlay, id.value).Some?
            then Lookup(overlay, id.value).value else bundled[i]
  {
    if overlay != [] {
      var n := |overlay| - 1;
      var before, e := Merge(bundled, overlay[..n]), overlay[n];
      MergeBaseline(bundled, overlay[..n], i);
      if e.id.Some? {
        MergedPosition(bundled, overlay[..n], e.id.value);
      }
    }
  }

  /** An id of the baseline keeps its position. */
  lemma {:induction false} MergedPosition(bundled: seq<Entry>, overlay: seq<Entry>, id: string)
    ensures Find(bundled, id) >= 0 ==> Find(Merge(bundled, overlay), id) == Find(bundled, id)
    ensures Find(bundled, id) < 0 ==>
              Find(Merge(bundled, overlay), id) < 0 || Find(Merge(bundled, overlay), id) >= |bundled|
  {
    if overlay != [] {
      var n := |overlay| - 1;
      var before, e := Merge(bundled, overlay[..n]), overlay[n];
      MergedPosition(bundled, overlay[..n], id);
      MergeLength(bundled, overlay[..n]);
      if e.id.Some? && Find(before, e.id.value) >= 0 {
        FindReplace(before, Find(before, e.id.value), e, id);
      } else {
        FindAppend(before, e, id);
      }
    }
  }

  lemma {:induction false} MergeLength(bundled: seq<Entry>, overlay: seq<Entry>)
    ensures |Merge(bundled, overlay)| >= |bundled|
  {
    if overlay != [] { MergeLength(bundled, overlay[..|overlay| - 1]); }
  }

  /** The merge in full: ids in order, the value of every id, every baseline entry in its place,
      and the entries without an id untouched. */
  lemma MergeIsOverlayOverBaseline(bundled: seq<Entry>, overlay: seq<Entry>)
    ensures Ids(Merge(bundled, overlay)) == Ids(bundled) + NewIds(bundled, overlay)
    ensures forall id :: Lookup(Merge(bundled, overlay), id) ==
                         if Lookup(overlay, id).Some? then Lookup(overlay, id) else Lookup(bundled, id)
    ensures WithoutId(Merge(bundled, overlay)) == WithoutId(bundled) + WithoutId(overlay)
    ensures |Merge(bundled, overlay)| >= |bundled|
    ensures forall i :: 0 <= i < |bundled| &&
              (bundled[i].id.None? || Find(bundled, bundled[i].id.value) != i
               || Lookup(overlay, bundled[i].id.value).None?)
              ==> Merge(bundled, overlay)[i] == bundled[i]
  {
    MergeIds(bundled, overlay);
    MergeKeepsIdless(bundled, overlay);
    MergeLength(bundled, overlay);
    forall id { MergeLookup(bundled, overlay, id); }
    forall i | 0 <= i < |bundled| { MergeBaseline(bundled, overlay, i); }
  }

  // ----- Associativity and idempotence -----

  lemma PutTwice(s: seq<Entry>, a: Entry, b: Entry)
    requires a.id.Some? && a.id == b.id
    ensures Put(false, Put(false, s, a), b) == Put(false, s, b)
  {
    var id := a.id.value;
    if Find(s, id) >= 0 {
      FindReplace(s, Find(s, id), a, id);
    } else {
      FindAppend(s, a, id);
      assert (s + [a])[|s| := b] == s + [b];
    }
  }

  /** Entries with different ids can be put in either order once the first id is there. */
  lemma PutCommutes(s: seq<Entry>, a: Entry, b: Entry)
    requires a.id.Some? && a.id != b.id && Find(s, a.id.value) >= 0
    ensures Put(false, Put(false, s, a), b) == Put(false, Put(false, s, b), a)
  {
    var p := Find(s, a.id.value);
    if b.id.Some? && Find(s, b.id.value) >= 0 {
      var q := Find(s, b.id.value);
      FindReplace(s, p, a, b.id.value);
      FindReplace(s, q, b, a.id.value);
      hide Find;
      assert s[p := a][q := b] == s[q := b][p := a];
    } else {
      if b.id.Some? { FindReplace(s, p, a, b.id.value); }
      FindAppend(s, b, a.id.value);
      assert s[p := a] + [b] == (s + [b])[p := a];
    }
  }

  /** Replacing the last entry of an id inside the overlay is the same as putting the new entry after it. */
  lemma {:induction false} PutIntoOverlay(s: seq<Entry>, overlay: seq<Entry>, e: Entry)
    requires e.id.Some? && Find(overlay, e.id.value) >= 0
    ensures PutAll(false, s, overlay[Find(overlay, e.id.value) := e]) == Put(false, PutAll(false, s, overlay), e)
  {
    var p, n := Find(overlay, e.id.value), |overlay| - 1;
    var init, last := overlay[..n], overlay[n];
    var after := overlay[p := e];
    if p == n {
      assert after[..n] == init;
      PutTwice(PutAll(false, s, init), last, e);
    } else {
      assert after[..n] == init[p := e] && after[n] == last;
      PutIntoOverlay(s, init, e);
      MergeLookup(s, init, e.id.value);
      PutCommutes(PutAll(false, s, init), e, last);
    }
  }

  lemma PutIntoMerged(s: seq<Entry>, overlay: seq<Entry>, e: Entry)
    ensures Merge(s, Put(false, overlay, e)) == Put(false, Merge(s, overlay), e)
  {
    if e.id.Some? && Find(overlay, e.id.value) >= 0 {
      PutIntoOverlay(s, overlay, e);
    } else {
      assert (overlay + [e])[..|overlay|] == overlay;
    }
  }

  /** Stacking overlays is associative, with repeated ids and entries without ids included. */
  lemma {:induction false} MergeAssociative(a: seq<Entry>, b: seq<Entry>, c: seq<Entry>)
    ensures Merge(Merge(a, b), c) == Merge(a, Merge(b, c))
  {
    if c != [] {
      var n := |c| - 1;
      MergeAssociative(a, b, c[..n]);
      PutIntoMerged(a, Merge(b, c[..n]), c[n]);
    }
  }

  lemma {:induction false} FindLast(s: seq<Entry>, i: nat)
    requires i < |s| && s[i].id.Some?
    ensures Find(s, s[i].id.value) >= i
  {
    if i < |s| - 1 { FindLast(s[..|s| - 1], i); }
  }

  lemma {:induction false} IdlessCount(s: seq<Entry>)
    ensures WithoutId(s) == [] <==> forall i :: 0 <= i < |s| ==> s[i].id.Some?
  {
    if s != [] {
      var n := |s| - 1;
      IdlessCount(s[..n]);
      assert forall i :: 0 <= i < n ==> s[..n][i] == s[i];
    }
  }

  lemma {:induction false} NothingNew(bundled: seq<Entry>, overlay: seq<Entry>)
    requires forall i :: 0 <= i < |overlay| ==> overlay[i].id.Some? && Find(bundled, overlay[i].id.value) >= 0
    ensures NewIds(bundled, overlay) == []
  {
    if overlay != [] { NothingNew(bundled, overlay[..|overlay| - 1]); }
  }

  /** Merging a list over itself changes nothing exactly when every entry has an id. */
  lemma MergeIdempotentIff(s: seq<Entry>)
    ensures Merge(s, s) == s <==> forall i :: 0 <= i < |s| ==> s[i].id.Some?
  {
    IdlessCount(s);
    MergeKeepsIdless(s, s);
    MergeLength(s, s);
    if forall i :: 0 <= i < |s| ==> s[i].id.Some? {
      forall i | 0 <= i < |s| ensures Merge(s, s)[i] == s[i] && Find(s, s[i].id.value) >= 0 {
        FindLast(s, i);
        MergeBaseline(s, s, i);
      }
      NothingNew(s, s);
      MergeIds(s, s);
      assert |Ids(Merge(s, s))| == |Ids(s)|;
    }
  }

  // ----- The registry checker's own merge -----

  datatype IdError = MissingId(line: nat) | DuplicateId(line: nat, id: string)

  /** The identity findings of one source: each entry without a usable id, and each repeat of an earlier id. */
  function IdErrors(source: seq<Entry>): seq<IdError> {
    if source == [] then []
    else
      var n := |source| - 1;
      IdErrors(source[..n])
      + match Key(true, source[n])
        case None => [MissingId(n + 1)]
        case Some(id) => if Find(source[..n], id) >= 0 then [DuplicateId(n + 1, id)] else []
  }

  /** `seen_ids` holds the non-empty ids of `s`. */
  ghost predicate SeenIn(seen: set<string>, s: seq<Entry>) {
    forall id :: id in seen <==> id != "" && Find(s, id) >= 0
  }

  lemma SeenStep(seen: set<string>, s: seq<Entry>, e: Entry)
    requires SeenIn(seen, s)
    ensures Key(true, e).Some? ==> (Key(true, e).value in seen <==> Find(s, Key(true, e).value) >= 0)
    ensures SeenIn(if Key(true, e).Some? then seen + {Key(true, e).value} else seen, s + [e])
  {
    hide Find;
    forall id { FindAppend(s, e, id); }
  }

  /** One more entry of a source: what it adds to the list and to the errors. */
  lemma SourceStep(source: seq<Entry>, i: nat, merged: seq<Entry>)
    requires i < |source|
    ensures source[..i + 1] == source[..i] + [source[i]]
    ensures PutAll(true, merged, source[..i + 1]) == Put(true, PutAll(true, merged, source[..i]), source[i])
    ensures IdErrors(source[..i + 1]) == IdErrors(source[..i])
              + match Key(true, source[i])
                case None => [MissingId(i + 1)]
                case Some(id) => if Find(source[..i], id) >= 0 then [DuplicateId(i + 1, id)] else []
  {
    var next := source[..i + 1];
    assert next[..i] == source[..i];
  }

  /** One source of the checker's merge loop. */
  method CheckSource(source: seq<Entry>, merged: seq<Entry>, positions: map<string, nat>)
    returns (merged': seq<Entry>, positions': map<string, nat>, errors: seq<IdError>)
    requires UsableIndex(positions, merged)
    ensures merged' == PutAll(true, merged, source) && UsableIndex(positions', merged')
    ensures errors == IdErrors(source)
  {
    merged', positions', errors := merged, positions, [];
    var seen: set<string> := {};
    for i := 0 to |source|
      invariant merged' == PutAll(true, merged, source[..i]) && UsableIndex(positions', merged')
      invariant errors == IdErrors(source[..i])
      invariant SeenIn(seen, source[..i])
    {
      hide Find, Put, PutAll, IdErrors, UsableIndex, SeenIn;
      var e := source[i];
      var key := Key(true, e);
      SourceStep(source, i, merged);
      SeenStep(seen, source[..i], e);
      if key.None? {
        errors := errors + [MissingId(i + 1)];
      } else if key.value in seen {
        errors := errors + [DuplicateId(i + 1, key.value)];
        assert seen + {key.value} == seen;
      } else {
        seen := seen + {key.value};
      }
      merged', positions' := PutIndexed(merged', positions', e);
    }
    assert source[..|source|] == source;
  }

  /** `pos_by_id` maps each non-empty id to its last position. */
  ghost predicate UsableIndex(positions: map<string, nat>, s: seq<Entry>) {
    forall id :: id != "" ==> Find(s, id) == if id in positions then positions[id] else -1
  }

  method PutIndexed(s: seq<Entry>, positions: map<string, nat>, e: Entry)
    returns (s': seq<Entry>, positions': map<string, nat>)
    requires UsableIndex(positions, s)
    ensures s' == Put(true, s, e) && UsableIndex(positions', s')
  {
    var key := Key(true, e);
    positions' := positions;
    if key.Some? && key.value in positions {
      forall id { FindReplace(s, positions[key.value], e, id); }
      s' := s[positions[key.value] := e];
    } else {
      forall id { FindAppend(s, e, id); }
      if key.Some? {
        positions' := positions[key.value := |s|];
      }
      s' := s + [e];
    }
  }

  /** The merge loop of `check` over the bundled and the project registry. */
  method CheckMerge(bundled: seq<Entry>, overlay: seq<Entry>) returns (merged: seq<Entry>, errors: seq<IdError>)
    ensures merged == Checked(bundled, overlay)
    ensures errors == IdErrors(bundled) + IdErrors(overlay)
  {
    var positions: map<string, nat>, e1, e2;
    merged, positions, e1 := CheckSource(bundled, [], map[]);
    merged, positions, e2 := CheckSource(overlay, merged, positions);
    PutAllConcat(true, [], bundled, overlay);
    errors := e1 + e2;
  }

  lemma {:induction false} PutAllConcat(strict: bool, s: seq<Entry>, a: seq<Entry>, b: seq<Entry>)
    ensures PutAll(strict, s, a + b) == PutAll(strict, PutAll(strict, s, a), b)
  {
    if b == [] {
      assert a + b == a;
    } else {
      PutAllConcat(strict, s, a, b[..|b| - 1]);
      assert (a + b)[..|a + b| - 1] == a + b[..|b| - 1];
    }
  }

  predicate Usable(e: Entry) {
    e.id.Some? && e.id.value != ""
  }

  predicate HasEmptyId(e: Entry) {
    e.id == Some("")
  }

  function CountUsable(s: seq<Entry>): nat {
    if s == [] then 0 else CountUsable(s[..|s| - 1]) + if Usable(s[|s| - 1]) then 1 else 0
  }

  function CountEmpty(s: seq<Entry>): nat {
    if s == [] then 0 else CountEmpty(s[..|s| - 1]) + if HasEmptyId(s[|s| - 1]) then 1 else 0
  }

  /** No usable id occurs twice: no entry repeats an id that stands before it. */
  predicate NoRepeats(s: seq<Entry>) {
    s == [] || (NoRepeats(s[..|s| - 1]) && (Usable(s[|s| - 1]) ==> Find(s[..|s| - 1], s[|s| - 1].id.value) < 0))
  }

  lemma AppendCounts(s: seq<Entry>, e: Entry)
    ensures CountUsable(s + [e]) == CountUsable(s) + if Usable(e) then 1 else 0
    ensures CountEmpty(s + [e]) == CountEmpty(s) + if HasEmptyId(e) then 1 else 0
  {
    assert (s + [e])[..|s|] == s;
  }

  lemma {:induction false} ReplaceCounts(s: seq<Entry>, p: nat, e: Entry)
    requires p < |s| && s[p].id == e.id
    ensures CountUsable(s[p := e]) == CountUsable(s) && CountEmpty(s[p := e]) == CountEmpty(s)
  {
    var n := |s| - 1;
    if p < n {
      ReplaceCounts(s[..n], p, e);
      assert s[p := e][..n] == s[..n][p := e];
    } else {
      assert s[p := e][..n] == s[..n];
    }
  }

  /** What putting an entry does to the counts and to the ids present. */
  lemma PutCounts(strict: bool, s: seq<Entry>, e: Entry)
    ensures CountUsable(Put(strict, s, e)) ==
            CountUsable(s) + if Usable(e) && Find(s, e.id.value) < 0 then 1 else 0
    ensures CountEmpty(Put(strict, s, e)) ==
            CountEmpty(s) + if HasEmptyId(e) && (strict || Find(s, "") < 0) then 1 else 0
    ensures forall id :: Find(Put(strict, s, e), id) >= 0 <==> Find(s, id) >= 0 || e.id == Some(id)
  {
    var key := Key(strict, e);
    if key.Some? && Find(s, key.value) >= 0 {
      ReplaceCounts(s, Find(s, key.value), e);
      forall id { FindReplace(s, Find(s, key.value), e, id); }
    } else {
      AppendCounts(s, e);
      forall id { FindAppend(s, e, id); }
    }
  }

  lemma {:induction false} PutAllPresence(strict: bool, s: seq<Entry>, entries: seq<Entry>, id: string)
    ensures Find(PutAll(strict, s, entries), id) >= 0 <==> Find(s, id) >= 0 || Find(entries, id) >= 0
  {
    if entries != [] {
      var n := |entries| - 1;
      PutAllPresence(strict, s, entries[..n], id);
      PutCounts(strict, PutAll(strict, s, entries[..n]), entries[n]);
    }
  }

  /** The checker keeps an entry more exactly when its usable id is new. */
  lemma KeptGrows(s: seq<Entry>)
    requires s != []
    ensures var n := |s| - 1;
            CountUsable(PutAll(true, [], s)) == CountUsable(PutAll(true, [], s[..n])) + if NewId(s) then 1 else 0
  {
    var n := |s| - 1;
    if Usable(s[n]) { PutAllPresence(true, [], s[..n], s[n].id.value); }
    PutCounts(true, PutAll(true, [], s[..n]), s[n]);
  }

  /** The last entry has a usable id that does not stand before it. */
  predicate NewId(s: seq<Entry>)
    requires s != []
  {
    Usable(s[|s| - 1]) && Find(s[..|s| - 1], s[|s| - 1].id.value) < 0
  }

  lemma NoRepeatsStep(s: seq<Entry>)
    requires s != []
    ensures NoRepeats(s) <==> NoRepeats(s[..|s| - 1]) && (Usable(s[|s| - 1]) ==> NewId(s))
  {
  }

  /** The checker keeps one entry of each usable id of a source, so it keeps them all only without repeats. */
  lemma {:induction false} CheckOneSource(s: seq<Entry>)
    ensures CountUsable(PutAll(true, [], s)) <= CountUsable(s)
    ensures CountUsable(PutAll(true, [], s)) == CountUsable(s) <==> NoRepeats(s)
  {
    if s != [] {
      hide PutAll, NoRepeats, Find;
      CheckOneSource(s[..|s| - 1]);
      KeptGrows(s);
      NoRepeatsStep(s);
    }
  }

  /** A source without repeats is kept as it is. */
  lemma {:induction false} WithoutRepeatsKept(s: seq<Entry>)
    requires NoRepeats(s)
    ensures PutAll(true, [], s) == s
  {
    hide Find, Usable, NoRepeats;
    if s != [] {
      var n := |s| - 1;
      NoRepeatsStep(s);
      WithoutRepeatsKept(s[..n]);
      NewEntryAppended(s);
      assert s == s[..n] + [s[n]];
    }
  }

  lemma NewEntryAppended(s: seq<Entry>)
    requires s != [] && (Usable(s[|s| - 1]) ==> NewId(s))
    ensures Put(true, s[..|s| - 1], s[|s| - 1]) == s[..|s| - 1] + [s[|s| - 1]]
  {
  }

  /** From bases with the same ids, both merges gain the same number of usable entries. */
  lemma {:induction false} SameGain(a: seq<Entry>, c: seq<Entry>, overlay: seq<Entry>)
    requires forall id :: Find(a, id) >= 0 <==> Find(c, id) >= 0
    ensures CountUsable(PutAll(true, c, overlay)) - CountUsable(c) ==
            CountUsable(PutAll(false, a, overlay)) - CountUsable(a)
  {
    if overlay != [] {
      var n := |overlay| - 1;
      SameGain(a, c, overlay[..n]);
      PutCounts(true, PutAll(true, c, overlay[..n]), overlay[n]);
      PutCounts(false, PutAll(false, a, overlay[..n]), overlay[n]);
      if Usable(overlay[n]) {
        PutAllPresence(true, c, overlay[..n], overlay[n].id.value);
        PutAllPresence(false, a, overlay[..n], overlay[n].id.value);
      }
    }
  }

  lemma {:induction false} EmptyPresence(s: seq<Entry>)
    ensures Find(s, "") >= 0 <==> CountEmpty(s) > 0
  {
    if s != [] { EmptyPresence(s[..|s| - 1]); }
  }

  lemma {:induction false} EmptyGain(a: seq<Entry>, overlay: seq<Entry>)
    ensures CountEmpty(PutAll(true, a, overlay)) == CountEmpty(a) + CountEmpty(overlay)
    ensures CountEmpty(PutAll(false, a, overlay)) ==
            CountEmpty(a) + if CountEmpty(a) == 0 && CountEmpty(overlay) > 0 then 1 else 0
  {
    if overlay != [] {
      var n := |overlay| - 1;
      EmptyGain(a, overlay[..n]);
      PutCounts(true, PutAll(true, a, overlay[..n]), overlay[n]);
      PutCounts(false, PutAll(false, a, overlay[..n]), overlay[n]);
      EmptyPresence(PutAll(false, a, overlay[..n]));
    }
  }

  /** Empty ids never meet: the overlay has none, or one that the baseline does not have. */
  predicate EmptyIdsApart(bundled: seq<Entry>, overlay: seq<Entry>) {
    CountEmpty(overlay) == 0 || (CountEmpty(overlay) == 1 && CountEmpty(bundled) == 0)
  }

  lemma {:induction false} ApartAgree(a: seq<Entry>, overlay: seq<Entry>)
    requires EmptyIdsApart(a, overlay)
    ensures PutAll(true, a, overlay) == PutAll(false, a, overlay)
  {
    if overlay != [] {
      var n := |overlay| - 1;
      ApartAgree(a, overlay[..n]);
      EmptyGain(a, overlay[..n]);
      EmptyPresence(PutAll(false, a, overlay[..n]));
    }
  }

  /** The checker's merge is `merge_by_id` exactly when the baseline repeats no usable id and empty ids,
      which only `merge_by_id` takes for ids, do not meet. */
  lemma CheckerAgreesIff(bundled: seq<Entry>, overlay: seq<Entry>)
    ensures Checked(bundled, overlay) == Merge(bundled, overlay) <==>
            NoRepeats(bundled) && EmptyIdsApart(bundled, overlay)
  {
    var own := PutAll(true, [], bundled);
    PutAllConcat(true, [], bundled, overlay);
    CheckOneSource(bundled);
    forall id { PutAllPresence(true, [], bundled, id); }
    SameGain(bundled, own, overlay);
    if NoRepeats(bundled) {
      WithoutRepeatsKept(bundled);
      EmptyGain(bundled, overlay);
      if EmptyIdsApart(bundled, overlay) {
        ApartAgree(bundled, overlay);
      }
    }
  }

  lemma {:induction false} NoErrorsMeans(s: seq<Entry>)
    requires IdErrors(s) == []
    ensures NoRepeats(s) && CountEmpty(s) == 0
  {
    if s != [] { NoErrorsMeans(s[..|s| - 1]); }
  }

  /** A registry that passes the checker's id checks is merged alike by both. */
  lemma CleanRegistryMergesAlike(bundled: seq<Entry>, overlay: seq<Entry>)
    requires IdErrors(bundled) == [] && IdErrors(overlay) == []
    ensures Checked(bundled, overlay) == Merge(bundled, overlay)
  {
    NoErrorsMeans(bundled);
    NoErrorsMeans(overlay);
    CheckerAgreesIff(bundled, overlay);
  }
}

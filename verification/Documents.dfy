/**
  JSON documents read back from disk. The parser is a parameter: all that is asked of it is that it
  yields dicts and that canonical text reads back as an equal value.
 */
module Documents {
  import opened Common
  import opened Canon
  import Json

  /** `json.loads`; `None` is a `JSONDecodeError`. */
  type Loads = Bytes -> Option<Value>

  ghost predicate YieldsDict(loads: Loads, text: Bytes) {
    loads(text).Some? ==> Dict(loads(text).value)
  }

  ghost predicate ReadBack(loads: Loads, v: Value) {
    var r := loads(Canonical(v));
    r.Some? && Same(r.value, v) && Dict(r.value) && InProfile(r.value)
  }

  ghost predicate Faithful(loads: Loads) {
    && (forall text :: YieldsDict(loads, text))
    && (forall v {:trigger ReadBack(loads, v)} :: InProfile(v) && Dict(v) ==> ReadBack(loads, v))
  }

  /** A reader of JSON text is such a parser. */
  lemma ReaderIsFaithful()
    ensures Faithful(Json.Read)
  {
    hide Canonical, InProfile, Dict, Same, Json.ReadValue;
    forall text ensures YieldsDict(Json.Read, text) { Json.ValueIsDict(text); }
    forall v | InProfile(v) && Dict(v) ensures ReadBack(Json.Read, v) { Json.CanonicalReads(v); }
  }

  /** `d.get(key)`. */
  function Find(entries: seq<Entry>, key: string): (r: Option<Value>)
    ensures r.Some? ==> exists i :: 0 <= i < |entries| && entries[i] == Entry(key, r.value)
    ensures r.None? ==> forall i :: 0 <= i < |entries| ==> entries[i].key != key
  {
    if entries == [] then None
    else if entries[0].key == key then Some(entries[0].value)
    else
      var r := Find(entries[1..], key);
      assert forall i :: 0 < i < |entries| ==> entries[i] == entries[1..][i - 1];
      r
  }

  /** `d.get(key, otherwise)`. */
  function FindOr(entries: seq<Entry>, key: string, otherwise: Value): Value {
    var r := Find(entries, key);
    if r.Some? then r.value else otherwise
  }

  /** A copy of the dict after `pop(key, None)`. */
  function Without(entries: seq<Entry>, key: string): (r: seq<Entry>)
    ensures forall e :: e in r <==> e in entries && e.key != key
  {
    if entries == [] then []
    else
      assert entries == [entries[0]] + entries[1..];
      (if entries[0].key == key then [] else [entries[0]]) + Without(entries[1..], key)
  }

  lemma {:induction false} WithoutDistinct(entries: seq<Entry>, key: string)
    requires DistinctKeys(entries)
    ensures DistinctKeys(Without(entries, key))
  {
    if entries != [] {
      WithoutDistinct(entries[1..], key);
      var rest := Without(entries[1..], key);
      forall j | 0 <= j < |rest| ensures rest[j].key != entries[0].key {
        assert rest[j] in entries[1..];
      }
    }
  }

  lemma {:induction false} WithoutAppended(entries: seq<Entry>, e: Entry)
    requires forall i :: 0 <= i < |entries| ==> entries[i].key != e.key
    ensures Without(entries + [e], e.key) == entries
  {
    if entries != [] {
      assert (entries + [e])[1..] == entries[1..] + [e];
      WithoutAppended(entries[1..], e);
    }
  }

  /** Looking a key up at a known place. */
  lemma FindAt(entries: seq<Entry>, i: nat)
    requires DistinctKeys(entries) && i < |entries|
    ensures Find(entries, entries[i].key) == Some(entries[i].value)
  {
  }

  lemma DictDistinct(es: seq<Entry>)
    requires Dict(Obj(es))
    ensures DistinctKeys(es)
  {
  }

  /** `d.get(key)` is membership. */
  lemma FindIff(entries: seq<Entry>, key: string)
    requires DistinctKeys(entries)
    ensures forall v :: Find(entries, key) == Some(v) <==> Entry(key, v) in entries
    ensures Find(entries, key).None? <==> Lacks(entries, key)
  {
    forall v | Entry(key, v) in entries ensures Find(entries, key) == Some(v) {
      var i :| 0 <= i < |entries| && entries[i] == Entry(key, v);
      FindAt(entries, i);
    }
  }

  ghost predicate Lacks(entries: seq<Entry>, key: string) {
    forall e :: e in entries ==> e.key != key
  }

  /** Dicts of the same entries are equal, whatever the order. */
  lemma SameMembersSame(es: seq<Entry>, fs: seq<Entry>)
    requires Dict(Obj(es)) && Dict(Obj(fs)) && forall e :: e in es <==> e in fs
    ensures Same(Obj(es), Obj(fs))
  {
    forall k ensures k in Keys(es) <==> k in Keys(fs) {
      KeyHasEntry(es, k);
      KeyHasEntry(fs, k);
    }
    forall i, j | 0 <= i < |es| && 0 <= j < |fs| && es[i].key == fs[j].key ensures Same(es[i].value, fs[j].value) {
      assert es[i] in fs && fs[j] in fs;
      NormEqualIffSame(es[i].value, es[i].value);
    }
  }

  lemma KeyHasEntry(es: seq<Entry>, key: string)
    ensures key in Keys(es) <==> exists e :: e in es && e.key == key
  {
    if e :| e in es && e.key == key {
      var i :| 0 <= i < |es| && es[i] == e;
    }
  }

  /** Equal dicts hold equal values under every key. */
  lemma SameFind(es: seq<Entry>, fs: seq<Entry>, key: string)
    requires Same(Obj(es), Obj(fs))
    ensures Find(es, key).Some? <==> Find(fs, key).Some?
    ensures Find(es, key).Some? ==> Same(Find(es, key).value, Find(fs, key).value)
  {
    assert key in Keys(es) <==> key in Keys(fs);
    assert Find(es, key).Some? <==> key in Keys(es);
    assert Find(fs, key).Some? <==> key in Keys(fs);
  }

  lemma SameFindAt(a: seq<Entry>, es: seq<Entry>, i: nat)
    requires Same(Obj(a), Obj(es)) && DistinctKeys(es) && i < |es|
    ensures Find(a, es[i].key).Some? && Same(Find(a, es[i].key).value, es[i].value)
    ensures es[i].value.Str? ==> Find(a, es[i].key) == Some(es[i].value)
  {
    FindAt(es, i);
    SameFind(a, es, es[i].key);
    SameText(Find(a, es[i].key).value, es[i].value);
  }

  lemma SameText(v: Value, w: Value)
    requires Same(v, w)
    ensures w.Str? ==> v == w
    ensures w.Obj? <==> v.Obj?
  {
  }

  predicate Scalar(v: Value) {
    !v.Arr? && !v.Obj?
  }

  /** What an equal dict holds under the i-th key. */
  lemma HeldAt(a: seq<Entry>, es: seq<Entry>, i: nat) returns (v: Value)
    requires Same(Obj(a), Obj(es)) && DistinctKeys(es) && i < |es|
    ensures Entry(es[i].key, v) in a && Same(v, es[i].value)
    ensures Scalar(es[i].value) ==> v == es[i].value
    ensures (v.Obj? <==> es[i].value.Obj?) && (v.Arr? <==> es[i].value.Arr?)
  {
    hide Same, Find;
    SameFindAt(a, es, i);
    v := Find(a, es[i].key).value;
    SameKind(v, es[i].value);
  }

  /** Equal dicts hold the same plain entries, and equal objects and arrays under the same keys. */
  lemma SameHolds(a: seq<Entry>, es: seq<Entry>)
    requires Same(Obj(a), Obj(es)) && DistinctKeys(es)
    ensures forall e :: e in es && Scalar(e.value) ==> e in a
    ensures forall key, s :: Entry(key, Obj(s)) in es ==> exists t :: Entry(key, Obj(t)) in a && Same(Obj(t), Obj(s))
    ensures forall key, s :: Entry(key, Arr(s)) in es ==> exists t :: Entry(key, Arr(t)) in a && Same(Arr(t), Arr(s))
  {
    hide Same, Find;
    forall e | e in es ensures exists v :: Entry(e.key, v) in a && Same(v, e.value) {
      var i :| 0 <= i < |es| && es[i] == e;
      SameFindAt(a, es, i);
    }
    forall e | e in es && Scalar(e.value) ensures e in a {
      var v :| Entry(e.key, v) in a && Same(v, e.value);
      SameKind(v, e.value);
    }
    forall key, s | Entry(key, Obj(s)) in es ensures exists t :: Entry(key, Obj(t)) in a && Same(Obj(t), Obj(s)) {
      var v :| Entry(key, v) in a && Same(v, Obj(s));
      SameKind(v, Obj(s));
      assert v == Obj(v.entries);
    }
    forall key, s | Entry(key, Arr(s)) in es ensures exists t :: Entry(key, Arr(t)) in a && Same(Arr(t), Arr(s)) {
      var v :| Entry(key, v) in a && Same(v, Arr(s));
      SameKind(v, Arr(s));
      assert v == Arr(v.items);
    }
  }

  lemma SameKind(v: Value, w: Value)
    requires Same(v, w)
    ensures Scalar(w) ==> v == w
    ensures (v.Obj? <==> w.Obj?) && (v.Arr? <==> w.Arr?)
  {
  }

  /** Taking an appended key out of a dict equal to `es + [e]` leaves what prints like `es`. */
  lemma WithoutPrints(a: seq<Entry>, es: seq<Entry>, e: Entry)
    requires Dict(Obj(a)) && InProfile(Obj(a)) && Dict(Obj(es)) && InProfile(Obj(es))
    requires Same(Obj(a), Obj(es + [e])) && forall i :: 0 <= i < |es| ==> es[i].key != e.key
    ensures InProfile(Obj(Without(a, e.key)))
    ensures Canonical(Obj(Without(a, e.key))) == Canonical(Obj(es))
  {
    hide Canonical, Same, Dict, InProfile, Without;
    WithoutAppended(es, e);
    SameWithout(a, es + [e], e.key);
    DictWithout(a, e.key);
    CanonEqualIffSame(Obj(Without(a, e.key)), Obj(es));
  }

  lemma WithoutKeys(es: seq<Entry>, key: string)
    ensures Keys(Without(es, key)) == Keys(es) - {key}
  {
    var r := Without(es, key);
    forall k ensures k in Keys(r) <==> k in Keys(es) && k != key {
      if k in Keys(es) && k != key {
        var i :| 0 <= i < |es| && es[i].key == k;
        assert es[i] in r;
      }
      if k in Keys(r) {
        var i :| 0 <= i < |r| && r[i].key == k;
        assert r[i] in es;
      }
    }
  }

  /** Dropping a key from equal dicts leaves equal dicts. */
  lemma SameWithout(es: seq<Entry>, fs: seq<Entry>, key: string)
    requires Same(Obj(es), Obj(fs))
    ensures Same(Obj(Without(es, key)), Obj(Without(fs, key)))
  {
    var a, b := Without(es, key), Without(fs, key);
    WithoutKeys(es, key);
    WithoutKeys(fs, key);
    forall i, j | 0 <= i < |a| && 0 <= j < |b| && a[i].key == b[j].key ensures Same(a[i].value, b[j].value) {
      assert a[i] in es && b[j] in fs;
    }
  }

  lemma DictWithout(es: seq<Entry>, key: string)
    requires Dict(Obj(es))
    ensures Dict(Obj(Without(es, key)))
    ensures InProfile(Obj(es)) ==> InProfile(Obj(Without(es, key)))
  {
    WithoutDistinct(es, key);
    var r := Without(es, key);
    forall k | 0 <= k < |r| ensures r[k] in es {}
  }

  /** Dicts of distinct literal keys are built one entry at a time. */
  lemma AppendDistinct(es: seq<Entry>, e: Entry)
    requires DistinctKeys(es) && forall i :: 0 <= i < |es| ==> es[i].key != e.key
    ensures DistinctKeys(es + [e])
  {
  }
}

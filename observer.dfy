/**
 * The Type Observer of `Typer` (`calculateType`): the table of presence maps
 * it accumulates and the way one sample is merged into it, as functions.
 * The class in typer.dfy performs the same steps in place and is proved to
 * compute `Observe`.
 */
module Observer {
  import opened OrderedMaps
  import opened Documents

  /** Member name to required flag, for one (keypath, tag). */
  type Presence = OrderedMap<bool>

  /** Tag to presence map, for one keypath; tags in first-observed order. */
  type Record = OrderedMap<Presence>

  /** Keypath to record: the `keypaths` field. */
  type Table = map<string, Record>

  predicate ValidRecord(r: Record)
  {
    r.Valid() && forall tag :: tag in r.entries ==> r.entries[tag].Valid()
  }

  predicate ValidTable(t: Table)
  {
    forall kp :: kp in t ==> ValidRecord(t[kp])
  }

  /** `this.keypaths[keypath] || {}` */
  function RecordAt(t: Table, keypath: string): Record
  {
    if keypath in t then t[keypath] else Empty()
  }

  /** `record[tag]`, read as an empty map when the tag is missing. */
  function PresenceOf(r: Record, tag: string): Presence
  {
    if tag in r.entries then r.entries[tag] else Empty()
  }

  /** The truthiness of `presence[member]`. */
  predicate Required(p: Presence, m: string)
  {
    m in p.entries && p.entries[m]
  }

  /** The keys of the first `n` members, each marked present (the `reduce` of lines 50-53). */
  function KeysPresent(ms: seq<Member>, n: nat): (r: Presence)
    requires n <= |ms|
    ensures |r.keys| <= n
  {
    if n == 0 then Empty() else KeysPresent(ms, n - 1).Set(ms[n - 1].key, true)
  }

  /** The presence map a sample contributes at its own keypath (`paths`). */
  function Paths(v: Value): Presence
  {
    match v
    case Arr(_) => Empty<bool>().Set("[]", true)
    case Obj(ms) => KeysPresent(ms, |ms|)
    case _ => Empty()
  }

  /** The first `n` keys are exactly the members recorded, each once and each required. */
  lemma {:induction false} KeysPresentSpec(ms: seq<Member>, n: nat)
    requires n <= |ms|
    ensures KeysPresent(ms, n).Valid()
    ensures forall m :: m in KeysPresent(ms, n).entries <==> exists i :: 0 <= i < n && ms[i].key == m
    ensures forall m :: m in KeysPresent(ms, n).entries ==> KeysPresent(ms, n).entries[m]
  {
    if n > 0 {
      KeysPresentSpec(ms, n - 1);
    }
  }

  /**
   * What a sample contributes: every member present is required; an array
   * contributes exactly `"[]"`, a primitive nothing.
   */
  lemma PathsSpec(v: Value)
    ensures Paths(v).Valid()
    ensures forall m :: m in Paths(v).entries ==> Paths(v).entries[m]
    ensures v.Arr? ==> Paths(v).keys == ["[]"]
    ensures v.Obj? ==> forall m :: m in Paths(v).entries <==> exists i :: 0 <= i < |v.members| && v.members[i].key == m
    ensures !v.Arr? && !v.Obj? ==> Paths(v).keys == [] && Paths(v).entries == map[]
  {
    if v.Obj? {
      KeysPresentSpec(v.members, |v.members|);
    }
  }

  /** The keys of `ks` that `p` does not have yet, in `ks` order. */
  function Fresh(p: Presence, ks: seq<string>): (r: seq<string>)
    ensures |r| <= |ks|
  {
    if ks == [] then []
    else Fresh(p, ks[..|ks| - 1]) + (if ks[|ks| - 1] in p.entries then [] else [ks[|ks| - 1]])
  }

  /** The fresh keys are those of `ks` that `p` lacks, each still listed once. */
  lemma {:induction false} FreshSpec(p: Presence, ks: seq<string>)
    ensures forall m :: m in Fresh(p, ks) <==> m in ks && m !in p.entries
    ensures Distinct(ks) ==> Distinct(Fresh(p, ks))
  {
    if ks != [] {
      var last := ks[|ks| - 1];
      assert forall m :: m in ks <==> m in ks[..|ks| - 1] || m == last;
      FreshSpec(p, ks[..|ks| - 1]);
      if Distinct(ks) {
        assert Distinct(ks[..|ks| - 1]);
        assert last !in ks[..|ks| - 1];
      }
    }
  }

  /**
   * Merging the presence map `q` of a new sample into the stored map `p`
   * (lines 61-71): a known member absent from `q` is lowered, an unknown
   * member of `q` is appended as optional, after the stored order.
   */
  function Merge(p: Presence, q: Presence): (r: Presence)
    ensures p.keys <= r.keys
  {
    var entries := map m | m in p.entries.Keys + q.entries.Keys ::
      if m in p.entries then p.entries[m] && Required(q, m) else false;
    var r := OrderedMap(p.keys + Fresh(p, q.keys), entries);
    assert r.keys[..|p.keys|] == p.keys;
    r
  }

  /**
   * The members of the merge are the union, a member stays required only if
   * it was required and is present again (a flag is never raised).
   */
  lemma MergeSpec(p: Presence, q: Presence)
    ensures forall m :: m in Merge(p, q).entries <==> m in p.entries || m in q.entries
    ensures forall m :: Required(Merge(p, q), m) <==> Required(p, m) && Required(q, m)
  {
  }

  /** Merging keeps every key listed exactly once. */
  lemma MergeValid(p: Presence, q: Presence)
    requires p.Valid() && q.Valid()
    ensures Merge(p, q).Valid()
  {
    var r := Merge(p, q);
    var f := Fresh(p, q.keys);
    FreshSpec(p, q.keys);
    MergeSpec(p, q);
    assert r.keys == p.keys + f;
    forall i, j | 0 <= i < j < |r.keys| ensures r.keys[i] != r.keys[j] {
      if j < |p.keys| {
      } else if i >= |p.keys| {
        assert r.keys[i] == f[i - |p.keys|] && r.keys[j] == f[j - |p.keys|];
      } else {
        assert r.keys[i] in p.entries;
        assert r.keys[j] in f;
      }
    }
    forall k | k in r.keys ensures k in r.entries {
      if k !in p.keys {
        assert k in f;
      }
    }
  }

  /** The record of a keypath after observing `tag` with presence map `q` (lines 59-74). */
  function MergeRecord(r: Record, tag: string, q: Presence): Record
  {
    if tag in r.entries then r.Set(tag, Merge(r.entries[tag], q)) else r.Set(tag, q)
  }

  /** `calculateType(keypath, v)`: first the parts of `v`, then `v` itself. */
  function Observe(t: Table, keypath: string, v: Value): Table
    decreases v, 2, 0
  {
    var t' := ObserveChildren(t, keypath, v);
    t'[keypath := MergeRecord(RecordAt(t', keypath), TagOf(v), Paths(v))]
  }

  /** The recursion of lines 48 and 54-56. */
  function ObserveChildren(t: Table, keypath: string, v: Value): Table
    decreases v, 1, 0
  {
    match v
    case Arr(es) => ObserveElements(t, ElementPath(keypath), v, |es|)
    case Obj(ms) => ObserveMembers(t, keypath, v, |ms|)
    case _ => t
  }

  /** The first `n` elements of the array `v`, each under `elementPath`. */
  function ObserveElements(t: Table, elementPath: string, v: Value, n: nat): Table
    requires v.Arr? && n <= |v.elems|
    decreases v, 0, n
  {
    if n == 0 then t
    else Observe(ObserveElements(t, elementPath, v, n - 1), elementPath, v.elems[n - 1])
  }

  /** The first `n` members of the object `v`, each under its own keypath. */
  function ObserveMembers(t: Table, keypath: string, v: Value, n: nat): Table
    requires v.Obj? && n <= |v.members|
    decreases v, 0, n
  {
    if n == 0 then t
    else
      var m := v.members[n - 1];
      Observe(ObserveMembers(t, keypath, v, n - 1), FieldPath(keypath, m.key), m.val)
  }
}

/**
 * What observing samples does to the table: which keypaths it can touch,
 * what a first and a later observation store, that flags are only ever
 * lowered, and that ingesting the same sample twice is the same as once.
 */
module ObserverLemmas {
  import opened OrderedMaps
  import opened Documents
  import opened Observer

  /** `t` and `t'` hold the same record for keypath `k`, or neither has one. */
  ghost predicate SameAt(t: Table, t': Table, k: string)
  {
    (k in t <==> k in t') && (k in t ==> t[k] == t'[k])
  }

  /** The one sample whose parts are recorded at its own keypath: a root object with a key "". */
  predicate SelfKeyed(keypath: string, v: Value)
  {
    keypath == "" && v.Obj? && exists i :: 0 <= i < |v.members| && v.members[i].key == ""
  }

  // ---------------------------------------------------------------------
  // Frame: observing a sample at `keypath` writes only keypaths at least as
  // long as `keypath`, and its parts only strictly longer ones.
  // ---------------------------------------------------------------------

  lemma {:induction false} ObserveOnlyLonger(t: Table, keypath: string, v: Value, k: string)
    requires |k| < |keypath|
    ensures SameAt(t, Observe(t, keypath, v), k)
    decreases v, 2, 0
  {
    ChildrenOnlyLonger(t, keypath, v, k);
  }

  lemma {:induction false} ChildrenOnlyLonger(t: Table, keypath: string, v: Value, k: string)
    requires |k| <= |keypath| && !SelfKeyed(keypath, v)
    ensures SameAt(t, ObserveChildren(t, keypath, v), k)
    decreases v, 1, 0
  {
    match v
    case Arr(es) => ElementsOnlyLonger(t, ElementPath(keypath), v, |es|, k);
    case Obj(ms) => MembersOnlyLonger(t, keypath, v, |ms|, k);
    case _ =>
  }

  lemma {:induction false} ElementsOnlyLonger(t: Table, elementPath: string, v: Value, n: nat, k: string)
    requires v.Arr? && n <= |v.elems| && |k| < |elementPath|
    ensures SameAt(t, ObserveElements(t, elementPath, v, n), k)
    decreases v, 0, n
  {
    if n > 0 {
      ElementsOnlyLonger(t, elementPath, v, n - 1, k);
      ObserveOnlyLonger(ObserveElements(t, elementPath, v, n - 1), elementPath, v.elems[n - 1], k);
    }
  }

  lemma {:induction false} MembersOnlyLonger(t: Table, keypath: string, v: Value, n: nat, k: string)
    requires v.Obj? && n <= |v.members| && |k| <= |keypath| && !SelfKeyed(keypath, v)
    ensures SameAt(t, ObserveMembers(t, keypath, v, n), k)
    decreases v, 0, n
  {
    if n > 0 {
      var m := v.members[n - 1];
      MembersOnlyLonger(t, keypath, v, n - 1, k);
      assert keypath == "" ==> m.key != "";
      ObserveOnlyLonger(ObserveMembers(t, keypath, v, n - 1), FieldPath(keypath, m.key), m.val, k);
    }
  }

  /** Unless the sample is self-keyed, its record is merged into the record found before it. */
  lemma ObserveAtKeypath(t: Table, keypath: string, v: Value)
    requires !SelfKeyed(keypath, v)
    ensures keypath in Observe(t, keypath, v)
    ensures Observe(t, keypath, v)[keypath] == MergeRecord(RecordAt(t, keypath), TagOf(v), Paths(v))
  {
    ChildrenOnlyLonger(t, keypath, v, keypath);
  }

  /**
   * The first observation of a tag at a keypath appends the tag and stores
   * the sample's own presence map: every member required, `["[]"]` for an
   * array, nothing for a primitive.
   */
  lemma FirstObservation(t: Table, keypath: string, v: Value)
    requires !SelfKeyed(keypath, v) && TagOf(v) !in RecordAt(t, keypath).entries
    ensures var r := Observe(t, keypath, v)[keypath];
      && keypath in Observe(t, keypath, v)
      && r.keys == RecordAt(t, keypath).keys + [TagOf(v)]
      && r.entries == RecordAt(t, keypath).entries[TagOf(v) := Paths(v)]
      && (forall m :: m in Paths(v).entries ==> Required(Paths(v), m))
      && (v.Arr? ==> Paths(v).keys == ["[]"] && Required(Paths(v), "[]"))
      && (!v.Arr? && !v.Obj? ==> Paths(v).keys == [] && Paths(v).entries == map[])
  {
    ObserveAtKeypath(t, keypath, v);
    PathsSpec(v);
  }

  /**
   * A later observation of a tag keeps the tag order and merges: the members
   * become the union, and a member stays required only when it was required
   * and is present in the sample.
   */
  lemma LaterObservation(t: Table, keypath: string, v: Value)
    requires !SelfKeyed(keypath, v) && TagOf(v) in RecordAt(t, keypath).entries
    ensures var old_r := RecordAt(t, keypath);
      var p := old_r.entries[TagOf(v)];
      var r := Observe(t, keypath, v)[keypath];
      && keypath in Observe(t, keypath, v)
      && r.keys == old_r.keys
      && r.entries == old_r.entries[TagOf(v) := Merge(p, Paths(v))]
      && (forall m :: m in r.entries[TagOf(v)].entries <==> m in p.entries || m in Paths(v).entries)
      && (forall m :: Required(r.entries[TagOf(v)], m) <==> Required(p, m) && m in Paths(v).entries)
  {
    ObserveAtKeypath(t, keypath, v);
    PathsSpec(v);
  }

  // ---------------------------------------------------------------------
  // Every record keeps each tag and each member listed exactly once.
  // ---------------------------------------------------------------------

  lemma MergeRecordValid(r: Record, tag: string, q: Presence)
    requires ValidRecord(r) && q.Valid()
    ensures ValidRecord(MergeRecord(r, tag, q))
  {
    if tag in r.entries {
      MergeValid(r.entries[tag], q);
    }
  }

  lemma {:induction false} ObserveKeepsValid(t: Table, keypath: string, v: Value)
    requires ValidTable(t)
    ensures ValidTable(Observe(t, keypath, v))
    decreases v, 2, 0
  {
    ChildrenKeepValid(t, keypath, v);
    var t' := ObserveChildren(t, keypath, v);
    assert ValidRecord(RecordAt(t', keypath));
    PathsSpec(v);
    MergeRecordValid(RecordAt(t', keypath), TagOf(v), Paths(v));
  }

  lemma {:induction false} ChildrenKeepValid(t: Table, keypath: string, v: Value)
    requires ValidTable(t)
    ensures ValidTable(ObserveChildren(t, keypath, v))
    decreases v, 1, 0
  {
    match v
    case Arr(es) => ElementsKeepValid(t, ElementPath(keypath), v, |es|);
    case Obj(ms) => MembersKeepValid(t, keypath, v, |ms|);
    case _ =>
  }

  lemma {:induction false} ElementsKeepValid(t: Table, elementPath: string, v: Value, n: nat)
    requires v.Arr? && n <= |v.elems| && ValidTable(t)
    ensures ValidTable(ObserveElements(t, elementPath, v, n))
    decreases v, 0, n
  {
    if n > 0 {
      ElementsKeepValid(t, elementPath, v, n - 1);
      ObserveKeepsValid(ObserveElements(t, elementPath, v, n - 1), elementPath, v.elems[n - 1]);
    }
  }

  lemma {:induction false} MembersKeepValid(t: Table, keypath: string, v: Value, n: nat)
    requires v.Obj? && n <= |v.members| && ValidTable(t)
    ensures ValidTable(ObserveMembers(t, keypath, v, n))
    decreases v, 0, n
  {
    if n > 0 {
      var m := v.members[n - 1];
      MembersKeepValid(t, keypath, v, n - 1);
      ObserveKeepsValid(ObserveMembers(t, keypath, v, n - 1), FieldPath(keypath, m.key), m.val);
    }
  }

  // ---------------------------------------------------------------------
  // Monotonicity: tags and members keep their place, members are never
  // dropped, and no flag is ever raised (a new member starts optional).
  // ---------------------------------------------------------------------

  ghost predicate PresenceExtends(p: Presence, p': Presence)
  {
    && p.keys <= p'.keys
    && (forall m :: m in p.entries ==> m in p'.entries)
    && (forall m :: Required(p', m) ==> Required(p, m))
  }

  ghost predicate RecordExtends(r: Record, r': Record)
  {
    && r.keys <= r'.keys
    && forall tag :: tag in r.entries ==>
         tag in r'.entries && PresenceExtends(r.entries[tag], r'.entries[tag])
  }

  /** `t'` is `t` after some observations. */
  ghost predicate Extends(t: Table, t': Table)
  {
    forall k :: k in t ==> k in t' && RecordExtends(t[k], t'[k])
  }

  lemma ExtendsTransitive(t1: Table, t2: Table, t3: Table)
    requires Extends(t1, t2) && Extends(t2, t3)
    ensures Extends(t1, t3)
  {
    forall k | k in t1 ensures k in t3 && RecordExtends(t1[k], t3[k]) {
      var r1, r2, r3 := t1[k], t2[k], t3[k];
      assert r1.keys <= r3.keys;
      forall tag | tag in r1.entries
        ensures tag in r3.entries && PresenceExtends(r1.entries[tag], r3.entries[tag])
      {
        var p1, p2, p3 := r1.entries[tag], r2.entries[tag], r3.entries[tag];
        assert PresenceExtends(p1, p2) && PresenceExtends(p2, p3);
        assert p1.keys <= p3.keys;
      }
    }
  }

  lemma MergeRecordExtends(r: Record, tag: string, q: Presence)
    ensures RecordExtends(r, MergeRecord(r, tag, q))
  {
    var r' := MergeRecord(r, tag, q);
    forall tg | tg in r.entries ensures tg in r'.entries && PresenceExtends(r.entries[tg], r'.entries[tg]) {
      if tg == tag {
        var p := r.entries[tag];
        assert r'.entries[tg] == Merge(p, q);
      }
    }
  }

  lemma UpdateExtends(t: Table, keypath: string, r': Record)
    requires RecordExtends(RecordAt(t, keypath), r')
    ensures Extends(t, t[keypath := r'])
  {
    forall k | k in t ensures k in t[keypath := r'] && RecordExtends(t[k], t[keypath := r'][k]) {
      if k != keypath {
        var r := t[k];
        assert forall tag :: tag in r.entries ==> PresenceExtends(r.entries[tag], r.entries[tag]);
      }
    }
  }

  /** `addDocument` never turns a flag from false to true and never forgets a tag or member. */
  lemma {:induction false} ObserveExtends(t: Table, keypath: string, v: Value)
    ensures Extends(t, Observe(t, keypath, v))
    decreases v, 2, 0
  {
    var t' := ObserveChildren(t, keypath, v);
    ChildrenExtend(t, keypath, v);
    MergeRecordExtends(RecordAt(t', keypath), TagOf(v), Paths(v));
    UpdateExtends(t', keypath, MergeRecord(RecordAt(t', keypath), TagOf(v), Paths(v)));
    ExtendsTransitive(t, t', Observe(t, keypath, v));
  }

  lemma {:induction false} ChildrenExtend(t: Table, keypath: string, v: Value)
    ensures Extends(t, ObserveChildren(t, keypath, v))
    decreases v, 1, 0
  {
    match v
    case Arr(es) => ElementsExtend(t, ElementPath(keypath), v, |es|);
    case Obj(ms) => MembersExtend(t, keypath, v, |ms|);
    case _ => ExtendsReflexive(t);
  }

  lemma {:induction false} ElementsExtend(t: Table, elementPath: string, v: Value, n: nat)
    requires v.Arr? && n <= |v.elems|
    ensures Extends(t, ObserveElements(t, elementPath, v, n))
    decreases v, 0, n
  {
    if n == 0 {
      ExtendsReflexive(t);
    } else {
      var t' := ObserveElements(t, elementPath, v, n - 1);
      ElementsExtend(t, elementPath, v, n - 1);
      ObserveExtends(t', elementPath, v.elems[n - 1]);
      ExtendsTransitive(t, t', ObserveElements(t, elementPath, v, n));
    }
  }

  lemma {:induction false} MembersExtend(t: Table, keypath: string, v: Value, n: nat)
    requires v.Obj? && n <= |v.members|
    ensures Extends(t, ObserveMembers(t, keypath, v, n))
    decreases v, 0, n
  {
    if n == 0 {
      ExtendsReflexive(t);
    } else {
      var m := v.members[n - 1];
      var t' := ObserveMembers(t, keypath, v, n - 1);
      MembersExtend(t, keypath, v, n - 1);
      ObserveExtends(t', FieldPath(keypath, m.key), m.val);
      ExtendsTransitive(t, t', ObserveMembers(t, keypath, v, n));
    }
  }

  lemma ExtendsReflexive(t: Table)
    ensures Extends(t, t)
  {
    forall k | k in t ensures RecordExtends(t[k], t[k]) {
      var r := t[k];
      assert forall tag :: tag in r.entries ==> PresenceExtends(r.entries[tag], r.entries[tag]);
    }
  }

  // ---------------------------------------------------------------------
  // Idempotence: once a sample has been observed, the table already
  // "absorbs" it (every merge it causes is a no-op), later observations keep
  // it absorbed, and observing an absorbed sample changes nothing.
  // ---------------------------------------------------------------------

  /** Merging `q` into `p` would change nothing. */
  ghost predicate PresenceAbsorbs(p: Presence, q: Presence)
  {
    && (forall m :: m in q.keys ==> m in p.entries)
    && (forall m :: m in q.entries ==> m in p.entries)
    && (forall m :: m in p.entries && !Required(q, m) ==> !p.entries[m])
  }

  ghost predicate Settled(t: Table, keypath: string, tag: string, q: Presence)
  {
    keypath in t && tag in t[keypath].entries && PresenceAbsorbs(t[keypath].entries[tag], q)
  }

  /** Every merge that observing `v` at `keypath` performs is a no-op on `t`. */
  ghost predicate Absorbs(t: Table, keypath: string, v: Value)
    decreases v, 1
  {
    Settled(t, keypath, TagOf(v), Paths(v)) && AbsorbsParts(t, keypath, v)
  }

  ghost predicate AbsorbsParts(t: Table, keypath: string, v: Value)
    decreases v, 0
  {
    match v
    case Arr(es) => forall i :: 0 <= i < |es| ==> Absorbs(t, ElementPath(keypath), es[i])
    case Obj(ms) => forall i :: 0 <= i < |ms| ==> Absorbs(t, FieldPath(keypath, ms[i].key), ms[i].val)
    case _ => true
  }

  lemma {:induction false} AbsorbsMonotone(t: Table, t': Table, keypath: string, v: Value)
    requires Absorbs(t, keypath, v) && Extends(t, t')
    ensures Absorbs(t', keypath, v)
    decreases v, 1
  {
    var p, p' := t[keypath].entries[TagOf(v)], t'[keypath].entries[TagOf(v)];
    assert PresenceExtends(p, p');
    forall m | m in p'.entries && !Required(Paths(v), m) ensures !p'.entries[m] {
      assert Required(p', m) ==> Required(p, m);
    }
    PartsMonotone(t, t', keypath, v);
  }

  lemma {:induction false} PartsMonotone(t: Table, t': Table, keypath: string, v: Value)
    requires AbsorbsParts(t, keypath, v) && Extends(t, t')
    ensures AbsorbsParts(t', keypath, v)
    decreases v, 0
  {
    match v
    case Arr(es) =>
      forall i | 0 <= i < |es| ensures Absorbs(t', ElementPath(keypath), es[i]) {
        AbsorbsMonotone(t, t', ElementPath(keypath), es[i]);
      }
    case Obj(ms) =>
      forall i | 0 <= i < |ms| ensures Absorbs(t', FieldPath(keypath, ms[i].key), ms[i].val) {
        AbsorbsMonotone(t, t', FieldPath(keypath, ms[i].key), ms[i].val);
      }
    case _ =>
  }

  /** After observing `v`, the table absorbs `v`. */
  lemma {:induction false} ObserveAbsorbs(t: Table, keypath: string, v: Value)
    ensures Absorbs(Observe(t, keypath, v), keypath, v)
    decreases v, 2, 0
  {
    var t1 := ObserveChildren(t, keypath, v);
    var tag, q := TagOf(v), Paths(v);
    var r := MergeRecord(RecordAt(t1, keypath), tag, q);
    var t2 := t1[keypath := r];
    assert t2 == Observe(t, keypath, v);
    assert AbsorbsParts(t2, keypath, v) by {
      ChildrenAbsorb(t, keypath, v);
      MergeRecordExtends(RecordAt(t1, keypath), tag, q);
      UpdateExtends(t1, keypath, r);
      PartsMonotone(t1, t2, keypath, v);
    }
    assert PresenceAbsorbs(r.entries[tag], q) by {
      PathsSpec(v);
      if tag in RecordAt(t1, keypath).entries {
        MergeAbsorbs(RecordAt(t1, keypath).entries[tag], q);
      } else {
        assert r.entries[tag] == q;
      }
    }
  }

  /** Merging `q` leaves a map that absorbs `q`; so does `q` itself when all its flags are set. */
  lemma MergeAbsorbs(p: Presence, q: Presence)
    requires forall m :: m in q.keys ==> m in q.entries
    requires forall m :: m in q.entries ==> q.entries[m]
    ensures PresenceAbsorbs(Merge(p, q), q) && PresenceAbsorbs(q, q)
  {
    MergeSpec(p, q);
  }

  lemma {:induction false} ChildrenAbsorb(t: Table, keypath: string, v: Value)
    ensures AbsorbsParts(ObserveChildren(t, keypath, v), keypath, v)
    decreases v, 1, 0
  {
    match v
    case Arr(es) => ElementsAbsorb(t, ElementPath(keypath), v, |es|);
    case Obj(ms) => MembersAbsorb(t, keypath, v, |ms|);
    case _ =>
  }

  lemma {:induction false} ElementsAbsorb(t: Table, elementPath: string, v: Value, n: nat)
    requires v.Arr? && n <= |v.elems|
    ensures forall i :: 0 <= i < n ==> Absorbs(ObserveElements(t, elementPath, v, n), elementPath, v.elems[i])
    decreases v, 0, n
  {
    if n > 0 {
      var t' := ObserveElements(t, elementPath, v, n - 1);
      var t'' := ObserveElements(t, elementPath, v, n);
      assert t'' == Observe(t', elementPath, v.elems[n - 1]);
      ElementsAbsorb(t, elementPath, v, n - 1);
      ObserveExtends(t', elementPath, v.elems[n - 1]);
      ObserveAbsorbs(t', elementPath, v.elems[n - 1]);
      ElementsAbsorbStep(t', t'', elementPath, v, n);
    }
  }

  lemma ElementsAbsorbStep(t': Table, t'': Table, elementPath: string, v: Value, n: nat)
    requires v.Arr? && 0 < n <= |v.elems| && Extends(t', t'')
    requires forall i :: 0 <= i < n - 1 ==> Absorbs(t', elementPath, v.elems[i])
    requires Absorbs(t'', elementPath, v.elems[n - 1])
    ensures forall i :: 0 <= i < n ==> Absorbs(t'', elementPath, v.elems[i])
  {
    forall i | 0 <= i < n - 1 ensures Absorbs(t'', elementPath, v.elems[i]) {
      AbsorbsMonotone(t', t'', elementPath, v.elems[i]);
    }
  }

  lemma {:induction false} MembersAbsorb(t: Table, keypath: string, v: Value, n: nat)
    requires v.Obj? && n <= |v.members|
    ensures forall i :: 0 <= i < n ==>
      Absorbs(ObserveMembers(t, keypath, v, n), FieldPath(keypath, v.members[i].key), v.members[i].val)
    decreases v, 0, n
  {
    if n > 0 {
      var ms := v.members;
      var t' := ObserveMembers(t, keypath, v, n - 1);
      var t'' := ObserveMembers(t, keypath, v, n);
      assert t'' == Observe(t', FieldPath(keypath, ms[n - 1].key), ms[n - 1].val);
      MembersAbsorb(t, keypath, v, n - 1);
      ObserveExtends(t', FieldPath(keypath, ms[n - 1].key), ms[n - 1].val);
      ObserveAbsorbs(t', FieldPath(keypath, ms[n - 1].key), ms[n - 1].val);
      MembersAbsorbStep(t', t'', keypath, v, n);
    }
  }

  lemma MembersAbsorbStep(t': Table, t'': Table, keypath: string, v: Value, n: nat)
    requires v.Obj? && 0 < n <= |v.members| && Extends(t', t'')
    requires forall i :: 0 <= i < n - 1 ==> Absorbs(t', FieldPath(keypath, v.members[i].key), v.members[i].val)
    requires Absorbs(t'', FieldPath(keypath, v.members[n - 1].key), v.members[n - 1].val)
    ensures forall i :: 0 <= i < n ==> Absorbs(t'', FieldPath(keypath, v.members[i].key), v.members[i].val)
  {
    var ms := v.members;
    forall i | 0 <= i < n - 1 ensures Absorbs(t'', FieldPath(keypath, ms[i].key), ms[i].val) {
      AbsorbsMonotone(t', t'', FieldPath(keypath, ms[i].key), ms[i].val);
    }
  }

  lemma {:induction false} FreshNone(p: Presence, ks: seq<string>)
    requires forall m :: m in ks ==> m in p.entries
    ensures Fresh(p, ks) == []
  {
    if ks != [] {
      FreshNone(p, ks[..|ks| - 1]);
    }
  }

  /** A merge that would change nothing returns the stored map itself. */
  lemma MergeAbsorbed(p: Presence, q: Presence)
    requires PresenceAbsorbs(p, q)
    ensures Merge(p, q) == p
  {
    FreshNone(p, q.keys);
    var r := Merge(p, q);
    assert r.keys == p.keys;
    assert r.entries.Keys == p.entries.Keys;
    forall m | m in p.entries ensures r.entries[m] == p.entries[m] {
    }
    assert r.entries == p.entries;
  }

  /** Observing an absorbed sample leaves the table as it is. */
  lemma {:induction false} AbsorbedUnchanged(t: Table, keypath: string, v: Value)
    requires Absorbs(t, keypath, v)
    ensures Observe(t, keypath, v) == t
    decreases v, 2, 0
  {
    ChildrenUnchanged(t, keypath, v);
    var tag := TagOf(v);
    var r := t[keypath];
    MergeAbsorbed(r.entries[tag], Paths(v));
    assert MergeRecord(r, tag, Paths(v)) == r by {
      assert r.entries[tag := r.entries[tag]] == r.entries;
    }
    assert t[keypath := r] == t;
  }

  lemma {:induction false} ChildrenUnchanged(t: Table, keypath: string, v: Value)
    requires AbsorbsParts(t, keypath, v)
    ensures ObserveChildren(t, keypath, v) == t
    decreases v, 1, 0
  {
    match v
    case Arr(es) => ElementsUnchanged(t, keypath, v, |es|);
    case Obj(ms) => MembersUnchanged(t, keypath, v, |ms|);
    case _ =>
  }

  lemma {:induction false} ElementsUnchanged(t: Table, keypath: string, v: Value, n: nat)
    requires v.Arr? && n <= |v.elems| && AbsorbsParts(t, keypath, v)
    ensures ObserveElements(t, ElementPath(keypath), v, n) == t
    decreases v, 0, n
  {
    if n > 0 {
      var path, e := ElementPath(keypath), v.elems[n - 1];
      var t' := ObserveElements(t, path, v, n - 1);
      assert t' == t by {
        ElementsUnchanged(t, keypath, v, n - 1);
      }
      assert Observe(t, path, e) == t by {
        assert Absorbs(t, path, v.elems[n - 1]);
        AbsorbedUnchanged(t, path, e);
      }
      assert ObserveElements(t, path, v, n) == Observe(t', path, e);
    }
  }

  lemma {:induction false} MembersUnchanged(t: Table, keypath: string, v: Value, n: nat)
    requires v.Obj? && n <= |v.members| && AbsorbsParts(t, keypath, v)
    ensures ObserveMembers(t, keypath, v, n) == t
    decreases v, 0, n
  {
    if n > 0 {
      var m := v.members[n - 1];
      var path := FieldPath(keypath, m.key);
      var t' := ObserveMembers(t, keypath, v, n - 1);
      assert t' == t by {
        MembersUnchanged(t, keypath, v, n - 1);
      }
      assert Observe(t, path, m.val) == t by {
        assert Absorbs(t, FieldPath(keypath, v.members[n - 1].key), v.members[n - 1].val);
        AbsorbedUnchanged(t, path, m.val);
      }
      assert ObserveMembers(t, keypath, v, n) == Observe(t', path, m.val);
    }
  }

  /** Ingesting the same sample twice leaves the same table as ingesting it once. */
  lemma ObserveIdempotent(t: Table, keypath: string, v: Value)
    ensures Observe(Observe(t, keypath, v), keypath, v) == Observe(t, keypath, v)
  {
    ObserveAbsorbs(t, keypath, v);
    AbsorbedUnchanged(Observe(t, keypath, v), keypath, v);
  }
}

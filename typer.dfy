/**
 * The `Typer` class: the table of observations it accumulates, the
 * interface catalog it rebuilds, and the prefix of the last build. Each
 * method is proved to compute the corresponding function of the model.
 */
module TyperEngine {
  import opened OrderedMaps
  import opened Documents
  import opened Observer
  import opened ObserverLemmas
  import opened Override
  import opened Schema
  import opened Resolution
  import opened Nullables
  import TypeScript
  import PropTypes
  import VueValidation

  /** The `reduce` of lines 50-53: every key of the object, marked present. */
  method MemberPaths(v: Value) returns (paths: Presence)
    requires v.Obj?
    ensures paths == Paths(v)
  {
    paths := Empty();
    var i := 0;
    while i < |v.members|
      invariant 0 <= i <= |v.members|
      invariant paths == KeysPresent(v.members, i)
    {
      assert KeysPresent(v.members, i + 1) == KeysPresent(v.members, i).Set(v.members[i].key, true);
      paths := paths.Set(v.members[i].key, true);
      i := i + 1;
    }
    assert Paths(v) == KeysPresent(v.members, |v.members|);
  }

  /**
   * The two loops of lines 62-71, over the stored map `p` and the new
   * paths `q`: lower what `q` lacks, then add what `p` lacks as optional.
   */
  method MergeInPlace(p: Presence, q: Presence) returns (r: Presence)
    requires p.Valid() && q.Valid()
    ensures r == Merge(p, q)
  {
    r := LowerAbsent(p, q);
    r := AddAbsent(p, q, r);
  }

  /** The first loop (lines 62-66): a stored member the new sample lacks becomes optional. */
  method LowerAbsent(p: Presence, q: Presence) returns (r: Presence)
    requires p.Valid()
    ensures r.keys == p.keys && r.entries.Keys == p.entries.Keys
    ensures forall m :: m in p.entries ==> r.entries[m] == (p.entries[m] && Required(q, m))
  {
    r := p;
    var i := 0;
    while i < |p.keys|
      invariant 0 <= i <= |p.keys|
      invariant r.keys == p.keys && r.entries.Keys == p.entries.Keys
      invariant forall j :: 0 <= j < i ==>
        r.entries[p.keys[j]] == (p.entries[p.keys[j]] && Required(q, p.keys[j]))
      invariant forall j :: i <= j < |p.keys| ==> r.entries[p.keys[j]] == p.entries[p.keys[j]]
    {
      var key := p.keys[i];
      if !Required(q, key) {
        r := r.Set(key, false);
      }
      i := i + 1;
    }
    forall m | m in p.entries ensures r.entries[m] == (p.entries[m] && Required(q, m)) {
      var j :| 0 <= j < |p.keys| && p.keys[j] == m;
    }
  }

  /** The second loop (lines 67-71): a member only the new sample has is added as optional. */
  method AddAbsent(p: Presence, q: Presence, lowered: Presence) returns (r: Presence)
    requires p.Valid() && q.Valid()
    requires lowered.keys == p.keys && lowered.entries.Keys == p.entries.Keys
    requires forall m :: m in p.entries ==> lowered.entries[m] == (p.entries[m] && Required(q, m))
    ensures r == Merge(p, q)
  {
    r := lowered;
    var j := 0;
    while j < |q.keys|
      invariant 0 <= j <= |q.keys|
      invariant r == AddedUpTo(lowered, q, j)
    {
      var key := q.keys[j];
      if !(key in r.entries && r.entries[key]) {
        r := r.Set(key, false);
      }
      j := j + 1;
    }
    AddedAll(p, q, lowered);
  }

  /** Concatenation is associative; stated once so the loops below need not rediscover it. */
  lemma AppendAssoc<T>(a: seq<T>, b: seq<T>, c: seq<T>)
    ensures (a + b) + c == a + (b + c)
  {
  }

  /** The map after the first `j` turns of the second loop. */
  ghost function AddedUpTo(lowered: Presence, q: Presence, j: nat): Presence
    requires j <= |q.keys|
  {
    if j == 0 then lowered
    else
      var r, key := AddedUpTo(lowered, q, j - 1), q.keys[j - 1];
      if !(key in r.entries && r.entries[key]) then r.Set(key, false) else r
  }

  /** The invariant of the second loop. */
  lemma {:induction false} AddedInvariant(p: Presence, q: Presence, lowered: Presence, j: nat)
    requires p.Valid() && q.Valid() && j <= |q.keys|
    requires lowered.keys == p.keys && lowered.entries.Keys == p.entries.Keys
    requires forall m :: m in p.entries ==> lowered.entries[m] == (p.entries[m] && Required(q, m))
    ensures var r := AddedUpTo(lowered, q, j);
      && r.keys == p.keys + Fresh(p, q.keys[..j])
      && (forall m :: m in r.entries <==> m in p.entries || m in q.keys[..j])
      && (forall m :: m in p.entries ==> r.entries[m] == (p.entries[m] && Required(q, m)))
      && (forall m :: m in r.entries && m !in p.entries ==> !r.entries[m])
  {
    if j == 0 {
      assert q.keys[..0] == [] && Fresh(p, []) == [];
      assert p.keys + Fresh(p, q.keys[..0]) == p.keys;
    } else {
      AddedInvariant(p, q, lowered, j - 1);
      AddStep(p, q, AddedUpTo(lowered, q, j - 1), j - 1, AddedUpTo(lowered, q, j));
    }
  }

  lemma AddedAll(p: Presence, q: Presence, lowered: Presence)
    requires p.Valid() && q.Valid()
    requires lowered.keys == p.keys && lowered.entries.Keys == p.entries.Keys
    requires forall m :: m in p.entries ==> lowered.entries[m] == (p.entries[m] && Required(q, m))
    ensures AddedUpTo(lowered, q, |q.keys|) == Merge(p, q)
  {
    AddedInvariant(p, q, lowered, |q.keys|);
    assert q.keys[..|q.keys|] == q.keys;
    AllAdded(p, q, AddedUpTo(lowered, q, |q.keys|));
  }

  /** One turn of the second loop keeps its invariant. */
  lemma AddStep(p: Presence, q: Presence, r: Presence, j: nat, r': Presence)
    requires q.Valid() && j < |q.keys|
    requires r.keys == p.keys + Fresh(p, q.keys[..j])
    requires forall m :: m in r.entries <==> m in p.entries || m in q.keys[..j]
    requires forall m :: m in p.entries ==> r.entries[m] == (p.entries[m] && Required(q, m))
    requires forall m :: m in r.entries && m !in p.entries ==> !r.entries[m]
    requires var key := q.keys[j];
      r' == if !(key in r.entries && r.entries[key]) then r.Set(key, false) else r
    ensures r'.keys == p.keys + Fresh(p, q.keys[..j + 1])
    ensures forall m :: m in r'.entries <==> m in p.entries || m in q.keys[..j + 1]
    ensures forall m :: m in p.entries ==> r'.entries[m] == (p.entries[m] && Required(q, m))
    ensures forall m :: m in r'.entries && m !in p.entries ==> !r'.entries[m]
  {
    FreshStep(p, q.keys, j);
    AddStepKeys(p, q, r, j, r');
    AddStepEntries(p, q, r, j, r');
  }

  lemma AddStepKeys(p: Presence, q: Presence, r: Presence, j: nat, r': Presence)
    requires q.Valid() && j < |q.keys|
    requires r.keys == p.keys + Fresh(p, q.keys[..j])
    requires forall m :: m in r.entries <==> m in p.entries || m in q.keys[..j]
    requires var key := q.keys[j];
      r' == if !(key in r.entries && r.entries[key]) then r.Set(key, false) else r
    requires Fresh(p, q.keys[..j + 1]) == Fresh(p, q.keys[..j]) + (if q.keys[j] in p.entries then [] else [q.keys[j]])
    ensures r'.keys == p.keys + Fresh(p, q.keys[..j + 1])
  {
    var key := q.keys[j];
    var added := Fresh(p, q.keys[..j]);
    if key in p.entries {
      assert Fresh(p, q.keys[..j + 1]) == added + [];
      assert r'.keys == r.keys;
    } else {
      assert key !in q.keys[..j] by {
        assert forall i :: 0 <= i < j ==> q.keys[..j][i] == q.keys[i];
      }
      assert key !in r.entries;
      AppendAssoc(p.keys, added, [key]);
    }
  }

  lemma AddStepEntries(p: Presence, q: Presence, r: Presence, j: nat, r': Presence)
    requires j < |q.keys|
    requires forall m :: m in r.entries <==> m in p.entries || m in q.keys[..j]
    requires forall m :: m in p.entries ==> r.entries[m] == (p.entries[m] && Required(q, m))
    requires forall m :: m in r.entries && m !in p.entries ==> !r.entries[m]
    requires var key := q.keys[j];
      r' == if !(key in r.entries && r.entries[key]) then r.Set(key, false) else r
    requires q.keys[..j + 1] == q.keys[..j] + [q.keys[j]]
    ensures forall m :: m in r'.entries <==> m in p.entries || m in q.keys[..j + 1]
    ensures forall m :: m in p.entries ==> r'.entries[m] == (p.entries[m] && Required(q, m))
    ensures forall m :: m in r'.entries && m !in p.entries ==> !r'.entries[m]
  {
    var key := q.keys[j];
    forall m | m in p.entries ensures r'.entries[m] == (p.entries[m] && Required(q, m)) {
      if m == key && !(key in r.entries && r.entries[key]) {
        assert !Required(q, m) || !p.entries[m];
      }
    }
  }

  /** What the two loops leave is the merged map. */
  lemma AllAdded(p: Presence, q: Presence, r: Presence)
    requires q.Valid()
    requires r.keys == p.keys + Fresh(p, q.keys)
    requires forall m :: m in r.entries <==> m in p.entries || m in q.keys
    requires forall m :: m in p.entries ==> r.entries[m] == (p.entries[m] && Required(q, m))
    requires forall m :: m in r.entries && m !in p.entries ==> !r.entries[m]
    ensures r == Merge(p, q)
  {
    var merged := Merge(p, q);
    assert r.entries.Keys == merged.entries.Keys;
    forall m | m in r.entries ensures r.entries[m] == merged.entries[m] {
      MergeEntry(p, q, m);
    }
    assert r.entries == merged.entries;
  }

  lemma MergeEntry(p: Presence, q: Presence, m: string)
    requires m in p.entries || m in q.entries
    ensures m in Merge(p, q).entries
    ensures Merge(p, q).entries[m] == (m in p.entries && p.entries[m] && Required(q, m))
  {
  }

  lemma FreshStep(p: Presence, ks: seq<string>, j: nat)
    requires j < |ks|
    ensures ks[..j + 1] == ks[..j] + [ks[j]]
    ensures Fresh(p, ks[..j + 1]) == Fresh(p, ks[..j]) + (if ks[j] in p.entries then [] else [ks[j]])
  {
    assert ks[..j + 1][..j] == ks[..j];
  }

  /** One turn of the loop over an array's elements (line 48). */
  lemma ElementsTurn(t: Table, elementPath: string, v: Value, i: nat, before: Table, after: Table)
    requires v.Arr? && i < |v.elems|
    requires before == ObserveElements(t, elementPath, v, i)
    requires after == Observe(before, elementPath, v.elems[i])
    ensures after == ObserveElements(t, elementPath, v, i + 1)
  {
  }

  /** One turn of the loop over an object's members (lines 54-56). */
  lemma MembersTurn(t: Table, keypath: string, v: Value, i: nat, before: Table, after: Table)
    requires v.Obj? && i < |v.members|
    requires before == ObserveMembers(t, keypath, v, i)
    requires after == Observe(before, FieldPath(keypath, v.members[i].key), v.members[i].val)
    ensures after == ObserveMembers(t, keypath, v, i + 1)
  {
  }

  // The turns of the loops of `createASTForKeypath`, each stated once so
  // that the methods only chain them.

  /** One more copy: `start + k` copies, then one more, is `start + (k + 1)` copies. */
  lemma RepeatTurn<T>(start: seq<T>, s: seq<T>, k: nat, before: seq<T>, after: seq<T>)
    requires before == start + Repeat(s, k) && after == before + s
    ensures after == start + Repeat(s, k + 1)
  {
    AppendAssoc(start, Repeat(s, k), s);
  }

  /** One more element pass: both the catalog and the descriptors gain one more copy. */
  lemma ElementTurn<T, U>(start: seq<T>, s: seq<T>, k: nat, before: seq<T>, after: seq<T>,
                          values: seq<U>, tree: seq<U>, more: seq<U>)
    requires before == start + Repeat(s, k) && after == before + s
    requires values == Repeat(tree, k) && more == tree
    ensures after == start + Repeat(s, k + 1) && values + more == Repeat(tree, k + 1)
  {
    RepeatTurn(start, s, k, before, after);
  }

  /** One turn of the first loop over the tags: only an "object" tag pushes. */
  lemma InterfaceTurn(t: Table, nm: Namer, keypath: string, i: nat,
                      start: seq<Interface>, before: seq<Interface>, after: seq<Interface>)
    requires NoRootSelfLoop(t) && i < |Tags(t, keypath)|
    requires before == start + InterfacePass(t, nm, keypath, i)
    requires if Tags(t, keypath)[i] == "object"
      then keypath in t && after == before + ObjectPushes(t, nm, keypath)
      else after == before
    ensures after == start + InterfacePass(t, nm, keypath, i + 1)
  {
    var sofar := InterfacePass(t, nm, keypath, i);
    if Tags(t, keypath)[i] == "object" {
      AppendAssoc(start, sofar, ObjectPushes(t, nm, keypath));
    } else {
      assert InterfacePass(t, nm, keypath, i + 1) == sofar + [];
      assert sofar + [] == sofar;
    }
  }

  /** One turn of the second loop over the tags: one descriptor, and an array's pushes. */
  lemma DescriptorTurn(t: Table, nm: Namer, keypath: string, k: nat,
                       start: seq<Interface>, before: seq<Interface>, after: seq<Interface>,
                       r: seq<Ast>, a: Ast)
    requires NoRootSelfLoop(t) && k < |Tags(t, keypath)|
    requires before == start + ArrayPass(t, nm, keypath, k) && r == TagTrees(t, nm, keypath, k)
    requires var tag := Tags(t, keypath)[k];
      if tag == "object" then after == before && a == ObjectRef(nm.Name(keypath))
      else if tag == "array" then
        var ep, n := ElementPath(keypath), ElementCount(t, keypath);
        after == before + Repeat(Pushes(t, nm, ep), n) && a == ArrayOf(Repeat(Tree(t, nm, ep), n))
      else after == before && a == Prim(tag)
    ensures after == start + ArrayPass(t, nm, keypath, k + 1)
    ensures r + [a] == TagTrees(t, nm, keypath, k + 1)
  {
    assert keypath in t;
    var sofar := ArrayPass(t, nm, keypath, k);
    if Tags(t, keypath)[k] == "array" {
      AppendAssoc(start, sofar, Repeat(Pushes(t, nm, ElementPath(keypath)), ElementCount(t, keypath)));
    } else {
      assert ArrayPass(t, nm, keypath, k + 1) == sofar + [];
      assert sofar + [] == sofar;
    }
  }

  /** One turn of the loop over an object's members. */
  lemma FieldTurn(t: Table, nm: Namer, keypath: string, j: nat,
                  start: seq<Interface>, before: seq<Interface>, after: seq<Interface>,
                  fields: seq<Field>, field: Field)
    requires NoRootSelfLoop(t) && keypath in t && j < |Members(t, keypath)|
    requires before == start + FieldPushes(t, nm, keypath, j) && fields == Fields(t, nm, keypath, j)
    requires var m := Members(t, keypath)[j];
      && after == before + Pushes(t, nm, FieldPath(keypath, m))
      && field == Field(m, Required(PresenceOf(t[keypath], "object"), m), Tree(t, nm, FieldPath(keypath, m)))
    ensures after == start + FieldPushes(t, nm, keypath, j + 1)
    ensures fields + [field] == Fields(t, nm, keypath, j + 1)
  {
    var m := Members(t, keypath)[j];
    AppendAssoc(start, FieldPushes(t, nm, keypath, j), Pushes(t, nm, FieldPath(keypath, m)));
  }

  /** The two passes over the tags together push what `Pushes` says. */
  lemma BothPasses(t: Table, nm: Namer, keypath: string,
                   start: seq<Interface>, mid: seq<Interface>, after: seq<Interface>)
    requires NoRootSelfLoop(t)
    requires mid == start + InterfacePass(t, nm, keypath, |Tags(t, keypath)|)
    requires after == mid + ArrayPass(t, nm, keypath, |Tags(t, keypath)|)
    ensures after == start + Pushes(t, nm, keypath)
  {
    var n := |Tags(t, keypath)|;
    AppendAssoc(start, InterfacePass(t, nm, keypath, n), ArrayPass(t, nm, keypath, n));
  }

  class Typer {
    /** Keypath to tag to member to required flag. */
    var keypaths: Table
    /** The catalog of the last build. */
    var interfaces: seq<Interface>
    /** The prefix of the last build. */
    var prefix: string

    ghost predicate Valid()
      reads this
    {
      ValidTable(keypaths)
    }

    /** A typer that has seen nothing. */
    constructor()
      ensures Valid() && keypaths == map[] && interfaces == [] && prefix == ""
    {
      keypaths := map[];
      interfaces := [];
      prefix := "";
    }

    /** `calculateType(keypath, data)` (lines 39-76). */
    method CalculateType(keypath: string, data: Value)
      requires Valid()
      modifies this`keypaths
      ensures Valid()
      ensures keypaths == Observe(old(keypaths), keypath, data)
      decreases data, 1
    {
      ghost var before := keypaths;
      var tag := TagOf(data);
      var paths: Presence := Empty();
      match data {
        case Arr(_) =>
          paths := Empty<bool>().Set("[]", true);
          CalculateElements(keypath, data);
        case Obj(_) =>
          paths := MemberPaths(data);
          CalculateMembers(keypath, data);
        case _ =>
      }
      assert paths == Paths(data);
      PathsSpec(data);
      ghost var children := keypaths;
      assert children == ObserveChildren(before, keypath, data);
      ChildrenKeepValid(before, keypath, data);
      Store(keypath, tag, paths);
      assert keypaths == Observe(before, keypath, data);
      ObserveKeepsValid(before, keypath, data);
    }

    /** `data.map(value => this.calculateType(keypath + '[]', value))` (line 48). */
    method CalculateElements(keypath: string, data: Value)
      requires Valid() && data.Arr?
      modifies this`keypaths
      ensures Valid()
      ensures keypaths == ObserveChildren(old(keypaths), keypath, data)
      decreases data, 0
    {
      ghost var start := keypaths;
      var i := 0;
      while i < |data.elems|
        invariant 0 <= i <= |data.elems|
        invariant Valid()
        invariant keypaths == ObserveElements(start, ElementPath(keypath), data, i)
      {
        ghost var before := keypaths;
        CalculateType(ElementPath(keypath), data.elems[i]);
        ElementsTurn(start, ElementPath(keypath), data, i, before, keypaths);
        i := i + 1;
      }
      assert keypaths == ObserveChildren(start, keypath, data);
    }

    /** The `forEach` of lines 54-56: each member under its own keypath. */
    method CalculateMembers(keypath: string, data: Value)
      requires Valid() && data.Obj?
      modifies this`keypaths
      ensures Valid()
      ensures keypaths == ObserveChildren(old(keypaths), keypath, data)
      decreases data, 0
    {
      ghost var start := keypaths;
      var i := 0;
      while i < |data.members|
        invariant 0 <= i <= |data.members|
        invariant Valid()
        invariant keypaths == ObserveMembers(start, keypath, data, i)
      {
        ghost var before := keypaths;
        CalculateType(FieldPath(keypath, data.members[i].key), data.members[i].val);
        MembersTurn(start, keypath, data, i, before, keypaths);
        i := i + 1;
      }
      assert keypaths == ObserveChildren(start, keypath, data);
    }

    /** Lines 58-75: merge the new paths into the stored record of `keypath`. */
    method Store(keypath: string, tag: string, paths: Presence)
      requires paths.Valid() && ValidRecord(RecordAt(keypaths, keypath))
      modifies this`keypaths
      ensures keypaths == old(keypaths)[keypath := MergeRecord(RecordAt(old(keypaths), keypath), tag, paths)]
    {
      var current := RecordAt(keypaths, keypath);
      if tag in current.entries {
        var merged := MergeInPlace(current.entries[tag], paths);
        current := current.Set(tag, merged);
      } else {
        current := current.Set(tag, paths);
      }
      keypaths := keypaths[keypath := current];
    }

    /** `addDocument(doc)` (lines 83-85): observe a whole document at the root. */
    method AddDocument(doc: Value)
      requires Valid()
      modifies this`keypaths
      ensures Valid()
      ensures keypaths == Observe(old(keypaths), "", doc)
    {
      CalculateType("", doc);
    }

    /**
     * `addRootField(keyPath, type, required)` (lines 87-90). `ok` is false,
     * and nothing changes, where the source throws because the root was
     * never observed as an object.
     */
    method AddRootField(key: string, tag: string, required: bool) returns (ok: bool)
      requires Valid()
      modifies this`keypaths
      ensures Valid()
      ensures ok <==> old("" in keypaths && "object" in keypaths[""].entries)
      ensures ok ==> keypaths == WithRootField(old(keypaths), key, tag, required).value
      ensures !ok ==> keypaths == old(keypaths)
    {
      if "" in keypaths && "object" in keypaths[""].entries {
        RootFieldKeepsValid(keypaths, key, tag, required);
        var root := keypaths[""];
        keypaths := keypaths["" := root.Set("object", root.entries["object"].Set(key, required))];
        keypaths := keypaths[key := OrderedMap([tag], map[tag := Empty()])];
        ok := true;
      } else {
        ok := false;
      }
    }

    /**
     * `createASTForKeypath(keypath)` (lines 102-138): pushes the interfaces
     * of the keypath and returns its descriptors. `camel` stands for the
     * `camelcase` package.
     */
    method CreateASTForKeypath(camel: string -> string, keypath: string) returns (r: seq<Ast>)
      requires NoRootSelfLoop(keypaths)
      modifies this`interfaces
      ensures interfaces == old(interfaces) + Pushes(keypaths, Namer(camel, prefix), keypath)
      ensures r == Tree(keypaths, Namer(camel, prefix), keypath)
      decreases Rank(keypaths, keypath), 3
    {
      ghost var t, nm, start := keypaths, Namer(camel, prefix), interfaces;
      InterfaceLoop(camel, keypath);
      ghost var mid := interfaces;
      r := DescriptorLoop(camel, keypath);
      BothPasses(t, nm, keypath, start, mid, interfaces);
    }

    /** The first `forEach` over the tags (lines 105-119): only "object" pushes. */
    method InterfaceLoop(camel: string -> string, keypath: string)
      requires NoRootSelfLoop(keypaths)
      modifies this`interfaces
      ensures interfaces == old(interfaces)
        + InterfacePass(keypaths, Namer(camel, prefix), keypath, |Tags(keypaths, keypath)|)
      decreases Rank(keypaths, keypath), 2
    {
      ghost var t, nm, start := keypaths, Namer(camel, prefix), interfaces;
      var current := RecordAt(keypaths, keypath);
      var i := 0;
      while i < |current.keys|
        invariant 0 <= i <= |current.keys|
        invariant keypaths == t && prefix == nm.prefix
        invariant interfaces == start + InterfacePass(t, nm, keypath, i)
      {
        ghost var before := interfaces;
        if current.keys[i] == "object" {
          PushInterface(camel, keypath);
        }
        InterfaceTurn(t, nm, keypath, i, start, before, interfaces);
        i := i + 1;
      }
    }

    /** The `map` over the tags (lines 122-137): one descriptor per tag. */
    method DescriptorLoop(camel: string -> string, keypath: string) returns (r: seq<Ast>)
      requires NoRootSelfLoop(keypaths)
      modifies this`interfaces
      ensures var nm, n := Namer(camel, prefix), |Tags(keypaths, keypath)|;
        interfaces == old(interfaces) + ArrayPass(keypaths, nm, keypath, n)
        && r == TagTrees(keypaths, nm, keypath, n)
      decreases Rank(keypaths, keypath), 2
    {
      ghost var t, start := keypaths, interfaces;
      var nm := Namer(camel, prefix);
      var current := RecordAt(keypaths, keypath);
      r := [];
      var k := 0;
      while k < |current.keys|
        invariant 0 <= k <= |current.keys|
        invariant keypaths == t && prefix == nm.prefix
        invariant interfaces == start + ArrayPass(t, nm, keypath, k)
        invariant r == TagTrees(t, nm, keypath, k)
      {
        ghost var before := interfaces;
        var tag := current.keys[k];
        var a: Ast;
        if tag == "object" {
          a := ObjectRef(nm.Name(keypath));
        } else if tag == "array" {
          var values := ElementValues(camel, keypath);
          a := ArrayOf(values);
        } else {
          a := Prim(tag);
        }
        DescriptorTurn(t, nm, keypath, k, start, before, interfaces, r, a);
        r := r + [a];
        k := k + 1;
      }
    }

    /** Lines 107-118: the interface of an object keypath, pushed after those of its members. */
    method PushInterface(camel: string -> string, keypath: string)
      requires NoRootSelfLoop(keypaths) && keypath in keypaths
      modifies this`interfaces
      ensures interfaces == old(interfaces) + ObjectPushes(keypaths, Namer(camel, prefix), keypath)
      decreases Rank(keypaths, keypath), 1
    {
      var name := Namer(camel, prefix).Name(keypath);
      var fields := FieldLoop(camel, keypath);
      interfaces := interfaces + [Interface(name, fields)];
    }

    /** The `map` of lines 110-116: each member's descriptors, with its flag. */
    method FieldLoop(camel: string -> string, keypath: string) returns (fields: seq<Field>)
      requires NoRootSelfLoop(keypaths) && keypath in keypaths
      modifies this`interfaces
      ensures var nm, n := Namer(camel, prefix), |Members(keypaths, keypath)|;
        && interfaces == old(interfaces) + FieldPushes(keypaths, nm, keypath, n)
        && fields == Fields(keypaths, nm, keypath, n)
      decreases Rank(keypaths, keypath), 0
    {
      ghost var t, nm, start := keypaths, Namer(camel, prefix), interfaces;
      var members := PresenceOf(keypaths[keypath], "object");
      fields := [];
      var j := 0;
      while j < |members.keys|
        invariant 0 <= j <= |members.keys|
        invariant keypaths == t && prefix == nm.prefix
        invariant interfaces == start + FieldPushes(t, nm, keypath, j)
        invariant fields == Fields(t, nm, keypath, j)
      {
        var key := members.keys[j];
        ghost var before := interfaces;
        RankDrops(t, keypath, FieldPath(keypath, key));
        var value := CreateASTForKeypath(camel, FieldPath(keypath, key));
        var field := Field(key, Required(members, key), value);
        FieldTurn(t, nm, keypath, j, start, before, interfaces, fields, field);
        fields := fields + [field];
        j := j + 1;
      }
    }

    /** Lines 130-132: the element descriptors, once per key of the array presence map. */
    method ElementValues(camel: string -> string, keypath: string) returns (values: seq<Ast>)
      requires NoRootSelfLoop(keypaths) && keypath in keypaths
      modifies this`interfaces
      ensures var nm, ep, k := Namer(camel, prefix), ElementPath(keypath), ElementCount(keypaths, keypath);
        && interfaces == old(interfaces) + Repeat(Pushes(keypaths, nm, ep), k)
        && values == Repeat(Tree(keypaths, nm, ep), k)
      decreases Rank(keypaths, keypath), 0
    {
      ghost var t, start := keypaths, interfaces;
      var nm := Namer(camel, prefix);
      var elements := PresenceOf(keypaths[keypath], "array");
      ghost var pushed := Pushes(t, nm, ElementPath(keypath));
      ghost var tree := Tree(t, nm, ElementPath(keypath));
      assert |elements.keys| == ElementCount(t, keypath);
      values := [];
      var e := 0;
      while e < |elements.keys|
        invariant 0 <= e <= |elements.keys|
        invariant keypaths == t && Namer(camel, prefix) == nm
        invariant interfaces == start + Repeat(pushed, e)
        invariant values == Repeat(tree, e)
      {
        ghost var before := interfaces;
        RankDrops(t, keypath, ElementPath(keypath));
        var more := CreateASTForKeypath(camel, ElementPath(keypath));
        ElementTurn(start, pushed, e, before, interfaces, values, tree, more);
        values := values + more;
        e := e + 1;
      }
    }

    /** `createAST(prefix)` (lines 92-100): a fresh catalog, built from the root keypath. */
    method CreateAST(camel: string -> string, newPrefix: string) returns (b: Built)
      requires NoRootSelfLoop(keypaths)
      modifies this`prefix, this`interfaces
      ensures keypaths == old(keypaths) && prefix == newPrefix
      ensures b == Build(keypaths, Namer(camel, newPrefix)) && interfaces == b.interfaces
      ensures Closed(b.interfaces) && Refs(b.root) <= Names(b.interfaces)
    {
      prefix := newPrefix;
      interfaces := [];
      var root := CreateASTForKeypath(camel, "");
      b := Built(interfaces, root);
      BuildResolves(keypaths, Namer(camel, newPrefix));
    }

    /** `createTypeScript(prefix)` (lines 140-176), before formatting. */
    method CreateTypeScript(camel: string -> string, newPrefix: string) returns (text: string)
      requires NoRootSelfLoop(keypaths)
      modifies this`prefix, this`interfaces
      ensures keypaths == old(keypaths) && prefix == newPrefix
      ensures interfaces == Build(keypaths, Namer(camel, prefix)).interfaces
      ensures var b := Build(keypaths, Namer(camel, newPrefix));
        text == TypeScript.Declarations(b.interfaces, b.root, newPrefix)
    {
      var b := CreateAST(camel, newPrefix);
      text := TypeScript.Declarations(b.interfaces, b.root, newPrefix);
    }

    /** `createPropTypes(initialCode)` (lines 191-245), before formatting. */
    method CreatePropTypes(camel: string -> string, initialCode: string) returns (text: string)
      requires NoRootSelfLoop(keypaths)
      modifies this`prefix, this`interfaces
      ensures keypaths == old(keypaths) && prefix == ""
      ensures interfaces == Build(keypaths, Namer(camel, prefix)).interfaces
      ensures var b := Build(keypaths, Namer(camel, ""));
        Closed(b.interfaces) && PropTypes.Below(b.interfaces, b.root, |b.interfaces|)
        && text == PropTypes.Declaration(b.interfaces, b.root, initialCode)
    {
      var b := CreateAST(camel, "");
      assert b.interfaces[..|b.interfaces|] == b.interfaces;
      text := PropTypes.Declaration(b.interfaces, b.root, initialCode);
    }

    /** `createVueValidation()` (lines 247-282), before formatting. */
    method CreateVueValidation(camel: string -> string) returns (text: string)
      requires NoRootSelfLoop(keypaths)
      modifies this`prefix, this`interfaces
      ensures keypaths == old(keypaths) && prefix == ""
      ensures interfaces == Build(keypaths, Namer(camel, prefix)).interfaces
      ensures var b := Build(keypaths, Namer(camel, ""));
        Refs(b.root) <= Names(b.interfaces) && text == VueValidation.Code(b.interfaces, b.root)
    {
      var b := CreateAST(camel, "");
      text := VueValidation.Code(b.interfaces, b.root);
    }

    /**
     * `_filterNotNullables(field)` (lines 178-189): the variants that are
     * neither null nor undefined, in order, and the flag that stays up only
     * while none was dropped.
     */
    method FilterNotNullables(field: Field) returns (value: seq<Ast>, required: bool)
      ensures value == Collapse(field).value && required == Collapse(field).required
    {
      required := field.required;
      value := [];
      var i := 0;
      assert Collapse(Head(field, 0)).value == [] && Collapse(Head(field, 0)).required == field.required;
      while i < |field.value|
        invariant 0 <= i <= |field.value|
        invariant value == Collapse(Head(field, i)).value
        invariant required == Collapse(Head(field, i)).required
      {
        var v := field.value[i];
        var notNullable := v.Type() != "null" && v.Type() != "undefined";
        CollapseTurn(field, i);
        required := required && notNullable;
        if notNullable {
          value := value + [v];
        }
        i := i + 1;
      }
      assert Head(field, |field.value|) == field;
    }
  }
}

/**
 * What the catalog built by `createAST` guarantees its readers: every
 * interface name a descriptor refers to belongs to an interface pushed
 * earlier, so `interfaces.find(i => i.name === name)` always succeeds, and
 * following references from an interface only reaches earlier interfaces.
 */
module Resolution {
  import opened Documents
  import opened Observer
  import opened Schema

  /** The interface names a descriptor refers to, at any depth. */
  function RefsOf(a: Ast): set<string>
    decreases a
  {
    match a
    case Prim(_) => {}
    case ObjectRef(name) => {name}
    case ArrayOf(vs) => Refs(vs)
  }

  function Refs(vs: seq<Ast>): set<string>
    decreases vs
  {
    if vs == [] then {} else Refs(vs[..|vs| - 1]) + RefsOf(vs[|vs| - 1])
  }

  function FieldRefs(fs: seq<Field>): set<string>
  {
    if fs == [] then {} else FieldRefs(fs[..|fs| - 1]) + Refs(fs[|fs| - 1].value)
  }

  function Names(cat: seq<Interface>): set<string>
  {
    set i | 0 <= i < |cat| :: cat[i].name
  }

  /** Children before parents: each interface refers only to interfaces listed before it. */
  predicate Closed(cat: seq<Interface>)
  {
    forall j :: 0 <= j < |cat| ==> FieldRefs(cat[j].fields) <= Names(cat[..j])
  }

  lemma {:induction false} RefsAppend(a: seq<Ast>, b: seq<Ast>)
    ensures Refs(a + b) == Refs(a) + Refs(b)
    decreases |b|
  {
    if b == [] {
      assert a + b == a;
    } else {
      assert (a + b)[..|a + b| - 1] == a + b[..|b| - 1];
      RefsAppend(a, b[..|b| - 1]);
    }
  }

  lemma {:induction false} FieldRefsAppend(a: seq<Field>, b: seq<Field>)
    ensures FieldRefs(a + b) == FieldRefs(a) + FieldRefs(b)
    decreases |b|
  {
    if b == [] {
      assert a + b == a;
    } else {
      assert (a + b)[..|a + b| - 1] == a + b[..|b| - 1];
      FieldRefsAppend(a, b[..|b| - 1]);
    }
  }

  lemma NamesAppend(a: seq<Interface>, b: seq<Interface>)
    ensures Names(a + b) == Names(a) + Names(b)
  {
    forall n | n in Names(a + b) ensures n in Names(a) + Names(b) {
      var i :| 0 <= i < |a + b| && (a + b)[i].name == n;
      if i >= |a| {
        assert b[i - |a|].name == n;
      }
    }
    forall n | n in Names(a) + Names(b) ensures n in Names(a + b) {
      if n in Names(a) {
        var i :| 0 <= i < |a| && a[i].name == n;
        assert (a + b)[i].name == n;
      } else {
        var i :| 0 <= i < |b| && b[i].name == n;
        assert (a + b)[|a| + i].name == n;
      }
    }
  }

  lemma {:induction false} RepeatRefs(s: seq<Ast>, k: nat)
    ensures Refs(Repeat(s, k)) == if k == 0 then {} else Refs(s)
  {
    if k > 0 {
      RepeatRefs(s, k - 1);
      RefsAppend(Repeat(s, k - 1), s);
    }
  }

  lemma {:induction false} RepeatNames(c: seq<Interface>, k: nat)
    ensures Names(Repeat(c, k)) == if k == 0 then {} else Names(c)
  {
    if k > 0 {
      RepeatNames(c, k - 1);
      NamesAppend(Repeat(c, k - 1), c);
    }
  }

  lemma ClosedAppend(a: seq<Interface>, b: seq<Interface>)
    requires Closed(a) && Closed(b)
    ensures Closed(a + b)
  {
    forall j | 0 <= j < |a + b| ensures FieldRefs((a + b)[j].fields) <= Names((a + b)[..j]) {
      if j < |a| {
        assert (a + b)[..j] == a[..j];
      } else {
        assert (a + b)[..j] == a + b[..j - |a|];
        NamesAppend(a, b[..j - |a|]);
      }
    }
  }

  lemma ClosedPush(a: seq<Interface>, i: Interface)
    requires Closed(a) && FieldRefs(i.fields) <= Names(a)
    ensures Closed(a + [i])
  {
    forall j | 0 <= j < |a + [i]| ensures FieldRefs((a + [i])[j].fields) <= Names((a + [i])[..j]) {
      if j < |a| {
        assert (a + [i])[..j] == a[..j];
      } else {
        assert (a + [i])[..j] == a;
      }
    }
  }

  lemma {:induction false} RepeatClosed(c: seq<Interface>, k: nat)
    requires Closed(c)
    ensures Closed(Repeat(c, k))
  {
    if k > 0 {
      RepeatClosed(c, k - 1);
      ClosedAppend(Repeat(c, k - 1), c);
    }
  }

  /**
   * The interfaces `createASTForKeypath(keypath)` pushes are closed, and
   * every name its descriptors refer to is among them.
   */
  lemma {:induction false} BuiltClosed(t: Table, nm: Namer, keypath: string)
    requires NoRootSelfLoop(t)
    ensures Closed(Pushes(t, nm, keypath))
    ensures Refs(Tree(t, nm, keypath)) <= Names(Pushes(t, nm, keypath))
    decreases Rank(t, keypath), 3, 0
  {
    var n := |Tags(t, keypath)|;
    InterfacePassClosed(t, nm, keypath, n);
    ArrayPassClosed(t, nm, keypath, n);
    ClosedAppend(InterfacePass(t, nm, keypath, n), ArrayPass(t, nm, keypath, n));
    TagTreesRefs(t, nm, keypath, n);
    NamesAppend(InterfacePass(t, nm, keypath, n), ArrayPass(t, nm, keypath, n));
  }

  lemma {:induction false} TagTreesRefs(t: Table, nm: Namer, keypath: string, n: nat)
    requires NoRootSelfLoop(t) && n <= |Tags(t, keypath)|
    ensures Refs(TagTrees(t, nm, keypath, n))
         <= Names(InterfacePass(t, nm, keypath, n)) + Names(ArrayPass(t, nm, keypath, n))
    decreases Rank(t, keypath), 2, n
  {
    if n > 0 {
      var k: nat := n - 1;
      var tag := Tags(t, keypath)[k];
      var a := TagTree(t, nm, keypath, tag);
      var prev := TagTrees(t, nm, keypath, k);
      var ip, ap := InterfacePass(t, nm, keypath, k), ArrayPass(t, nm, keypath, k);
      var ix := if tag == "object" then ObjectPushes(t, nm, keypath) else [];
      var ax := if tag == "array"
        then Repeat(Pushes(t, nm, ElementPath(keypath)), ElementCount(t, keypath)) else [];
      PassesUnfold(t, nm, keypath, k);
      TagTreesRefs(t, nm, keypath, k);
      TagTreeRefs(t, nm, keypath, tag);
      TagStep(prev, a, ip, ix, ap, ax);
    }
  }

  /** One more tag: each of the three per-tag sequences grows by that tag's part. */
  lemma PassesUnfold(t: Table, nm: Namer, keypath: string, k: nat)
    requires NoRootSelfLoop(t) && k < |Tags(t, keypath)|
    ensures keypath in t
    ensures var tag := Tags(t, keypath)[k];
      && TagTrees(t, nm, keypath, k + 1) == TagTrees(t, nm, keypath, k) + [TagTree(t, nm, keypath, tag)]
      && InterfacePass(t, nm, keypath, k + 1) == InterfacePass(t, nm, keypath, k)
         + (if tag == "object" then ObjectPushes(t, nm, keypath) else [])
      && ArrayPass(t, nm, keypath, k + 1) == ArrayPass(t, nm, keypath, k)
         + (if tag == "array"
            then Repeat(Pushes(t, nm, ElementPath(keypath)), ElementCount(t, keypath)) else [])
  {
  }

  /** The names one tag's descriptor refers to are pushed by that tag's passes. */
  lemma TagTreeRefs(t: Table, nm: Namer, keypath: string, tag: string)
    requires NoRootSelfLoop(t) && keypath in t
    ensures RefsOf(TagTree(t, nm, keypath, tag))
         <= Names(if tag == "object" then ObjectPushes(t, nm, keypath) else [])
          + Names(if tag == "array"
                  then Repeat(Pushes(t, nm, ElementPath(keypath)), ElementCount(t, keypath)) else [])
    decreases Rank(t, keypath), 1, 1
  {
    if tag == "object" {
      ObjectPushesClosed(t, nm, keypath);
    } else if tag == "array" {
      var ep, k := ElementPath(keypath), ElementCount(t, keypath);
      BuiltClosed(t, nm, ep);
      RepeatRefs(Tree(t, nm, ep), k);
      RepeatNames(Pushes(t, nm, ep), k);
    }
  }

  lemma TagStep(prev: seq<Ast>, a: Ast, ip: seq<Interface>, ix: seq<Interface>,
                ap: seq<Interface>, ax: seq<Interface>)
    requires Refs(prev) <= Names(ip) + Names(ap)
    requires RefsOf(a) <= Names(ix) + Names(ax)
    ensures Refs(prev + [a]) <= Names(ip + ix) + Names(ap + ax)
  {
    RefsAppend(prev, [a]);
    assert Refs([a]) == RefsOf(a) by {
      assert [a][..0] == [];
    }
    NamesAppend(ip, ix);
    NamesAppend(ap, ax);
  }

  lemma {:induction false} InterfacePassClosed(t: Table, nm: Namer, keypath: string, n: nat)
    requires NoRootSelfLoop(t) && n <= |Tags(t, keypath)|
    ensures Closed(InterfacePass(t, nm, keypath, n))
    decreases Rank(t, keypath), 2, n
  {
    if n > 0 {
      var prev := InterfacePass(t, nm, keypath, n - 1);
      assert Closed(prev) by {
        InterfacePassClosed(t, nm, keypath, n - 1);
      }
      if Tags(t, keypath)[n - 1] == "object" {
        var obj := ObjectPushes(t, nm, keypath);
        assert InterfacePass(t, nm, keypath, n) == prev + obj;
        assert Closed(obj) by {
          ObjectPushesClosed(t, nm, keypath);
        }
        ClosedAppend(prev, obj);
      } else {
        assert InterfacePass(t, nm, keypath, n) == prev;
      }
    }
  }

  lemma {:induction false} ArrayPassClosed(t: Table, nm: Namer, keypath: string, n: nat)
    requires NoRootSelfLoop(t) && n <= |Tags(t, keypath)|
    ensures Closed(ArrayPass(t, nm, keypath, n))
    decreases Rank(t, keypath), 2, n
  {
    if n > 0 {
      var prev := ArrayPass(t, nm, keypath, n - 1);
      assert Closed(prev) by {
        ArrayPassClosed(t, nm, keypath, n - 1);
      }
      if Tags(t, keypath)[n - 1] == "array" {
        var ep := ElementPath(keypath);
        var elems := Repeat(Pushes(t, nm, ep), ElementCount(t, keypath));
        assert ArrayPass(t, nm, keypath, n) == prev + elems;
        assert Closed(elems) by {
          BuiltClosed(t, nm, ep);
          RepeatClosed(Pushes(t, nm, ep), ElementCount(t, keypath));
        }
        ClosedAppend(prev, elems);
      } else {
        assert ArrayPass(t, nm, keypath, n) == prev;
      }
    }
  }

  lemma ObjectPushesClosed(t: Table, nm: Namer, keypath: string)
    requires NoRootSelfLoop(t) && keypath in t
    ensures Closed(ObjectPushes(t, nm, keypath))
    ensures nm.Name(keypath) in Names(ObjectPushes(t, nm, keypath))
    decreases Rank(t, keypath), 1, 0
  {
    var n := |Members(t, keypath)|;
    var fp := FieldPushes(t, nm, keypath, n);
    var i := Interface(nm.Name(keypath), Fields(t, nm, keypath, n));
    assert ObjectPushes(t, nm, keypath) == fp + [i];
    assert Closed(fp + [i]) by {
      FieldPushesClosed(t, nm, keypath, n);
      ClosedPush(fp, i);
    }
    assert nm.Name(keypath) in Names(fp + [i]) by {
      NamesAppend(fp, [i]);
      assert [i][0].name == nm.Name(keypath);
    }
  }

  lemma {:induction false} FieldPushesClosed(t: Table, nm: Namer, keypath: string, n: nat)
    requires NoRootSelfLoop(t) && keypath in t && n <= |Members(t, keypath)|
    ensures Closed(FieldPushes(t, nm, keypath, n))
    ensures FieldRefs(Fields(t, nm, keypath, n)) <= Names(FieldPushes(t, nm, keypath, n))
    decreases Rank(t, keypath), 0, n
  {
    if n > 0 {
      var k: nat := n - 1;
      var m := Members(t, keypath)[k];
      var child := FieldPath(keypath, m);
      var fp := FieldPushes(t, nm, keypath, k);
      var fs := Fields(t, nm, keypath, k);
      var pushed := Pushes(t, nm, child);
      var f := Field(m, Required(PresenceOf(t[keypath], "object"), m), Tree(t, nm, child));
      assert FieldPushes(t, nm, keypath, n) == fp + pushed;
      assert Fields(t, nm, keypath, n) == fs + [f];
      FieldPushesClosed(t, nm, keypath, k);
      BuiltClosed(t, nm, child);
      FieldStep(fp, fs, pushed, f);
    }
  }

  /** Appending one field and the interfaces its descriptors needed keeps the catalog closed. */
  lemma FieldStep(fp: seq<Interface>, fs: seq<Field>, pushed: seq<Interface>, f: Field)
    requires Closed(fp) && FieldRefs(fs) <= Names(fp)
    requires Closed(pushed) && Refs(f.value) <= Names(pushed)
    ensures Closed(fp + pushed) && FieldRefs(fs + [f]) <= Names(fp + pushed)
  {
    ClosedAppend(fp, pushed);
    FieldRefsAppend(fs, [f]);
    assert FieldRefs([f]) == Refs(f.value) by {
      assert [f][..0] == [];
    }
    NamesAppend(fp, pushed);
  }

  /**
   * `interfaces.find(i => i.name === name)`, as the index of the first
   * interface with that name; `|cat|` when there is none.
   */
  function Find(cat: seq<Interface>, name: string): (i: nat)
    ensures i <= |cat|
    ensures i < |cat| ==> cat[i].name == name
    ensures forall j :: 0 <= j < i ==> cat[j].name != name
  {
    if cat == [] then 0
    else if cat[0].name == name then 0
    else 1 + Find(cat[1..], name)
  }

  /** A name listed before position `b` is found before position `b`. */
  lemma FindBefore(cat: seq<Interface>, name: string, b: nat)
    requires b <= |cat| && name in Names(cat[..b])
    ensures Find(cat, name) < b
  {
    var j :| 0 <= j < b && cat[..b][j].name == name;
    assert cat[j].name == name;
  }

  /** Every reference of an interface found by name is to an interface listed before it. */
  lemma FoundClosed(cat: seq<Interface>, name: string, b: nat)
    requires Closed(cat) && b <= |cat| && name in Names(cat[..b])
    ensures Find(cat, name) < b
    ensures FieldRefs(cat[Find(cat, name)].fields) <= Names(cat[..Find(cat, name)])
  {
    FindBefore(cat, name, b);
  }

  lemma {:induction false} RefsOfMember(vs: seq<Ast>, i: nat)
    requires i < |vs|
    ensures RefsOf(vs[i]) <= Refs(vs)
    decreases |vs|
  {
    if i < |vs| - 1 {
      assert vs[..|vs| - 1][i] == vs[i];
      RefsOfMember(vs[..|vs| - 1], i);
    }
  }

  lemma {:induction false} FieldRefsMember(fs: seq<Field>, i: nat)
    requires i < |fs|
    ensures Refs(fs[i].value) <= FieldRefs(fs)
    decreases |fs|
  {
    if i < |fs| - 1 {
      assert fs[..|fs| - 1][i] == fs[i];
      FieldRefsMember(fs[..|fs| - 1], i);
    }
  }

  /** `createAST`'s catalog is closed and every root reference resolves. */
  lemma BuildResolves(t: Table, nm: Namer)
    requires NoRootSelfLoop(t)
    ensures Closed(Build(t, nm).interfaces)
    ensures Refs(Build(t, nm).root) <= Names(Build(t, nm).interfaces)
  {
    BuiltClosed(t, nm, "");
  }
}

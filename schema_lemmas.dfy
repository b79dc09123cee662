/** Properties of the descriptors and names `createASTForKeypath` produces. */
module SchemaLemmas {
  import opened OrderedMaps
  import opened Documents
  import opened Observer
  import opened Schema

  /**
   * The one document the builders cannot take: a root object with a key "".
   * Its member's keypath is the root keypath itself (line 55), so the root's
   * object record lists "" as a member and `createASTForKeypath('')` would
   * recurse into itself (line 114).
   */
  lemma EmptyKeyLoops()
    ensures !NoRootSelfLoop(Observe(map[], "", Obj([Member("", Num(0.0))])))
  {
    var m := Member("", Num(0.0));
    var v := Obj([m]);
    var t0: Table := map[];
    assert FieldPath("", "") == "";
    assert ObserveMembers(t0, "", v, 0) == t0;
    var t1 := Observe(t0, "", Num(0.0));
    assert ObserveChildren(t0, "", v) == t1;
    var r1 := Empty<Presence>().Set("number", Empty());
    assert t1 == t0["" := r1];
    var q := Empty<bool>().Set("", true);
    assert Paths(v) == KeysPresent([m], 1) == q;
    assert "object" !in r1.entries;
    var t := Observe(t0, "", v);
    assert t == t1["" := r1.Set("object", q)];
    assert Members(t, "") == q.keys == [""];
  }

  /**
   * One descriptor per tag, in first-observed order: a reference for
   * "object", the element expansion for "array", the bare tag otherwise.
   */
  lemma TreeShape(t: Table, nm: Namer, keypath: string)
    requires NoRootSelfLoop(t)
    ensures var tree, tags := Tree(t, nm, keypath), Tags(t, keypath);
      && |tree| == |tags|
      && forall i :: 0 <= i < |tags| ==>
        && tree[i].Type() == tags[i]
        && (tags[i] == "object" ==> tree[i] == ObjectRef(nm.Name(keypath)))
        && (tags[i] == "array" ==>
              tree[i] == ArrayOf(Repeat(Tree(t, nm, ElementPath(keypath)), ElementCount(t, keypath))))
        && (tree[i].Prim? <==> tags[i] != "object" && tags[i] != "array")
  {
    TagTreesShape(t, nm, keypath, |Tags(t, keypath)|);
  }

  lemma {:induction false} TagTreesShape(t: Table, nm: Namer, keypath: string, n: nat)
    requires NoRootSelfLoop(t) && n <= |Tags(t, keypath)|
    ensures var tree, tags := TagTrees(t, nm, keypath, n), Tags(t, keypath);
      && |tree| == n
      && forall i :: 0 <= i < n ==>
        && tree[i].Type() == tags[i]
        && (tags[i] == "object" ==> tree[i] == ObjectRef(nm.Name(keypath)))
        && (tags[i] == "array" ==>
              tree[i] == ArrayOf(Repeat(Tree(t, nm, ElementPath(keypath)), ElementCount(t, keypath))))
        && (tree[i].Prim? <==> tags[i] != "object" && tags[i] != "array")
  {
    if n > 0 {
      TagTreesShape(t, nm, keypath, n - 1);
    }
  }

  /** A keypath that was never observed (an always-empty array's elements) gives nothing. */
  lemma Unobserved(t: Table, nm: Namer, keypath: string)
    requires NoRootSelfLoop(t) && keypath !in t
    ensures Tree(t, nm, keypath) == [] && Pushes(t, nm, keypath) == []
  {
    assert Tags(t, keypath) == [];
  }

  lemma ReplaceBracketsHead(s: string)
    requires s != ""
    ensures ReplaceBrackets(s) != ""
    ensures ReplaceBrackets(s)[0] == if |s| >= 2 && s[0] == '[' && s[1] == ']' then 'V' else s[0]
  {
  }

  /** After the replacement no `[]` is left (the `g` flag). */
  lemma {:induction false} ReplaceBracketsClean(s: string)
    ensures !HasBrackets(ReplaceBrackets(s))
    decreases |s|
  {
    var r := ReplaceBrackets(s);
    if |s| >= 2 && s[0] == '[' && s[1] == ']' {
      var r' := ReplaceBrackets(s[2..]);
      ReplaceBracketsClean(s[2..]);
      assert r == "Value" + r';
      forall i | 0 <= i < |r| - 1 ensures !(r[i] == '[' && r[i + 1] == ']') {
        if i >= 5 {
          assert r[i] == r'[i - 5] && r[i + 1] == r'[i - 4];
        }
      }
    } else if s != "" {
      var r' := ReplaceBrackets(s[1..]);
      ReplaceBracketsClean(s[1..]);
      assert r == [s[0]] + r';
      if s[1..] != "" {
        ReplaceBracketsHead(s[1..]);
      }
      forall i | 0 <= i < |r| - 1 ensures !(r[i] == '[' && r[i + 1] == ']') {
        if i >= 1 {
          assert r[i] == r'[i - 1] && r[i + 1] == r'[i];
        }
      }
    }
  }

  /** A string without `[]` is left as it is. */
  lemma {:induction false} ReplaceBracketsNone(s: string)
    requires !HasBrackets(s)
    ensures ReplaceBrackets(s) == s
    decreases |s|
  {
    if s != "" {
      assert !(|s| >= 2 && s[0] == '[' && s[1] == ']');
      assert !HasBrackets(s[1..]) by {
        forall i | 0 <= i < |s[1..]| - 1 ensures !(s[1..][i] == '[' && s[1..][i + 1] == ']') {
          assert s[1..][i] == s[i + 1] && s[1..][i + 1] == s[i + 2];
        }
      }
      ReplaceBracketsNone(s[1..]);
    }
  }
}

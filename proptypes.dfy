/**
 * `createPropTypes`: the PropTypes declaration text of a built catalog, as
 * it stands before it is formatted.
 */
module PropTypes {
  import opened Text
  import opened Schema
  import opened Resolution
  import opened Nullables

  /** Every interface reached from `vs` is listed before position `b`. */
  predicate Below(cat: seq<Interface>, vs: seq<Ast>, b: nat)
  {
    b <= |cat| && Refs(vs) <= Names(cat[..b])
  }

  /**
   * `codeForValue(a, isRoot)` (lines 199-236). The ghost bound `b` is a
   * catalog position below which every interface reached from `a` lies.
   * A non-root rendering never ends in 'd', so never in `.isRequired`.
   */
  function Value(cat: seq<Interface>, a: Ast, isRoot: bool, ghost b: nat): (r: string)
    requires Closed(cat) && b <= |cat| && RefsOf(a) <= Names(cat[..b])
    ensures !isRoot ==> r != "" && r[|r| - 1] != 'd'
    ensures isRoot && a.ObjectRef? ==> (r == "" <==> |cat[Find(cat, a.interfaceName)].fields| == 0)
    decreases b, 1, a, 2
  {
    match a
    case ArrayOf(vs) =>
      if |vs| == 0 then "PropTypes.array"
      else if |vs| == 1 then
        RefsOfMember(vs, 0);
        "PropTypes.arrayOf(" + Value(cat, vs[0], false, b) + ")"
      else "PropTypes.arrayOf(" + Union(cat, vs, b) + ")"
    case Prim(tag) =>
      if tag == "string" || tag == "number" || tag == "symbol" then "PropTypes." + tag
      else if tag == "boolean" then "PropTypes.bool"
      else if tag == "function" then "PropTypes.func"
      else "Unknown"
    case ObjectRef(name) =>
      FoundClosed(cat, name, b);
      var i := Find(cat, name);
      var fields := cat[i].fields;
      if |fields| == 0 then (if isRoot then "" else "PropTypes.object")
      else
        var code := "{\n          " + Join(Fields(cat, fields, i), ",") + "\n        }";
        if isRoot then code else "PropTypes.shape(" + code + ")"
  }

  /**
   * `codeForArray(vs)` (lines 193-198): one variant alone, several in
   * `oneOfType`. The last character is not 'd': a union never ends in `.isRequired`.
   */
  function Union(cat: seq<Interface>, vs: seq<Ast>, ghost b: nat): (r: string)
    requires Closed(cat) && Below(cat, vs, b)
    ensures r != "" && r[|r| - 1] != 'd'
    decreases b, 1, vs, 1
  {
    if |vs| == 1 then
      RefsOfMember(vs, 0);
      Value(cat, vs[0], false, b)
    else "PropTypes.oneOfType([" + Join(Values(cat, vs, b), ",") + "])"
  }

  function Values(cat: seq<Interface>, vs: seq<Ast>, ghost b: nat): (r: seq<string>)
    requires Closed(cat) && Below(cat, vs, b)
    ensures |r| == |vs|
    decreases b, 1, vs, 0
  {
    if vs == [] then []
    else
      RefsAppend(vs[..|vs| - 1], [vs[|vs| - 1]]);
      assert vs[..|vs| - 1] + [vs[|vs| - 1]] == vs;
      RefsOfMember(vs, |vs| - 1);
      Values(cat, vs[..|vs| - 1], b) + [Value(cat, vs[|vs| - 1], false, b)]
  }

  /** One property of a shape (lines 226-230), from the field with its nullable variants dropped. */
  function FieldCode(cat: seq<Interface>, f: Field, ghost i: nat): (r: string)
    requires Closed(cat) && Below(cat, f.value, i)
    decreases i, 2, 0, 0
  {
    var c := Collapse(f);
    NonNullablesRefs(f.value);
    "\"" + f.name + "\": " + Union(cat, c.value, i) + (if c.required then ".isRequired" else "")
  }

  function Fields(cat: seq<Interface>, fs: seq<Field>, ghost i: nat): (r: seq<string>)
    requires Closed(cat) && i <= |cat| && FieldRefs(fs) <= Names(cat[..i])
    ensures |r| == |fs|
    decreases i, 3, fs, 0
  {
    if fs == [] then []
    else
      FieldRefsMember(fs, |fs| - 1);
      assert FieldRefs(fs[..|fs| - 1]) <= FieldRefs(fs);
      Fields(cat, fs[..|fs| - 1], i) + [FieldCode(cat, fs[|fs| - 1], i)]
  }

  /** Dropping variants drops no reference that was not there. */
  lemma {:induction false} NonNullablesRefs(vs: seq<Ast>)
    ensures Refs(NonNullables(vs)) <= Refs(vs)
  {
    if vs != [] {
      var init, last := vs[..|vs| - 1], vs[|vs| - 1];
      NonNullablesRefs(init);
      RefsAppend(NonNullables(init), if IsNullable(last) then [] else [last]);
      assert Refs([last]) == RefsOf(last) by {
        assert [last][..0] == [];
      }
    }
  }

  /** The root is a single object whose interface has no fields. */
  predicate EmptyObjectRoot(cat: seq<Interface>, root: seq<Ast>)
  {
    && |root| == 1 && root[0].ObjectRef?
    && var i := Find(cat, root[0].interfaceName); i < |cat| && |cat[i].fields| == 0
  }

  /** The right-hand side (lines 237-240): a lone object root is written as a bare object literal. */
  function Code(cat: seq<Interface>, root: seq<Ast>): (r: string)
    requires Closed(cat) && Below(cat, root, |cat|)
    ensures r == "" <==> EmptyObjectRoot(cat, root)
  {
    if |root| == 1 && root[0].ObjectRef? then
      RefsOfMember(root, 0);
      Value(cat, root[0], true, |cat|)
    else Union(cat, root, |cat|)
  }

  /** The text of `createPropTypes(initialCode)` before formatting (lines 242-244). */
  function Declaration(cat: seq<Interface>, root: seq<Ast>, initialCode: string): (r: string)
    requires Closed(cat) && Below(cat, root, |cat|)
  {
    var code := Code(cat, root);
    if code != "" then initialCode + " = " + code else ""
  }

  /** The declaration is empty exactly when the root is one object with no fields. */
  lemma DeclarationEmpty(cat: seq<Interface>, root: seq<Ast>, initialCode: string)
    requires Closed(cat) && Below(cat, root, |cat|)
    ensures Declaration(cat, root, initialCode) == "" <==> EmptyObjectRoot(cat, root)
    ensures Declaration(cat, root, initialCode) != "" ==>
      Declaration(cat, root, initialCode) == initialCode + " = " + Code(cat, root)
  {
  }

  /** A property is marked `.isRequired` exactly when the collapsed field is still required. */
  lemma FieldRequired(cat: seq<Interface>, f: Field, i: nat)
    requires Closed(cat) && Below(cat, f.value, i)
    ensures EndsWith(FieldCode(cat, f, i), ".isRequired") <==> Collapse(f).required
  {
    var r := FieldCode(cat, f, i);
    if !Collapse(f).required {
      NonNullablesRefs(f.value);
      var u := Union(cat, Collapse(f).value, i);
      assert r == "\"" + f.name + "\": " + u;
      assert r[|r| - 1] == u[|u| - 1];
    }
  }

  /**
   * No single variant is written as a `oneOfType`: every rendering of
   * `codeForValue` starts with another word.
   */
  lemma {:induction false} NotOneOf(cat: seq<Interface>, a: Ast, b: nat)
    requires Closed(cat) && b <= |cat| && RefsOf(a) <= Names(cat[..b])
    ensures !StartsWith(Value(cat, a, false, b), "PropTypes.oneOf")
  {
    match a
    case ArrayOf(vs) => ArrayNotOneOf(cat, vs, b);
    case Prim(tag) => PrimNotOneOf(cat, tag, b);
    case ObjectRef(name) => ObjectNotOneOf(cat, name, b);
  }

  lemma {:induction false} ArrayNotOneOf(cat: seq<Interface>, vs: seq<Ast>, b: nat)
    requires Closed(cat) && b <= |cat| && RefsOf(ArrayOf(vs)) <= Names(cat[..b])
    ensures !StartsWith(Value(cat, ArrayOf(vs), false, b), "PropTypes.oneOf")
  {
    var r := Value(cat, ArrayOf(vs), false, b);
    if |vs| == 1 {
      ArrayOfOne(cat, vs, b);
      assert r[10] == "PropTypes.arrayOf("[10];
    } else if |vs| >= 2 {
      ArrayOfSeveral(cat, vs, b);
      assert r[10] == "PropTypes.arrayOf("[10];
    }
    DiffersAt(r, "PropTypes.oneOf", 10);
  }

  /** An array of one variant is written as `arrayOf` of that variant. */
  lemma {:induction false} ArrayOfOne(cat: seq<Interface>, vs: seq<Ast>, b: nat)
    requires Closed(cat) && b <= |cat| && RefsOf(ArrayOf(vs)) <= Names(cat[..b]) && |vs| == 1
    ensures RefsOf(vs[0]) <= Names(cat[..b])
    ensures Value(cat, ArrayOf(vs), false, b) == "PropTypes.arrayOf(" + Value(cat, vs[0], false, b) + ")"
  {
    RefsOfMember(vs, 0);
  }

  /** An array of several variants is written as `arrayOf` of their union. */
  lemma {:induction false} ArrayOfSeveral(cat: seq<Interface>, vs: seq<Ast>, b: nat)
    requires Closed(cat) && b <= |cat| && RefsOf(ArrayOf(vs)) <= Names(cat[..b]) && |vs| >= 2
    ensures Value(cat, ArrayOf(vs), false, b) == "PropTypes.arrayOf(" + Union(cat, vs, b) + ")"
  {
  }

  lemma {:induction false} PrimNotOneOf(cat: seq<Interface>, tag: string, b: nat)
    requires Closed(cat) && b <= |cat|
    ensures !StartsWith(Value(cat, Prim(tag), false, b), "PropTypes.oneOf")
  {
    var r := Value(cat, Prim(tag), false, b);
    if r == "Unknown" {
      DiffersAt(r, "PropTypes.oneOf", 0);
    } else {
      assert r[10] != 'o';
      DiffersAt(r, "PropTypes.oneOf", 10);
    }
  }

  lemma {:induction false} ObjectNotOneOf(cat: seq<Interface>, name: string, b: nat)
    requires Closed(cat) && b <= |cat| && RefsOf(ObjectRef(name)) <= Names(cat[..b])
    ensures !StartsWith(Value(cat, ObjectRef(name), false, b), "PropTypes.oneOf")
  {
    var r := Value(cat, ObjectRef(name), false, b);
    FoundClosed(cat, name, b);
    if |cat[Find(cat, name)].fields| == 0 {
      assert r == "PropTypes.object";
      DiffersAt(r, "PropTypes.oneOf", 11);
    } else {
      var i := Find(cat, name);
      var code := "{\n          " + Join(Fields(cat, cat[i].fields, i), ",") + "\n        }";
      assert r == "PropTypes.shape(" + code + ")";
      DiffersAt(r, "PropTypes.oneOf", 10);
    }
  }

  /** A union is written as `oneOfType([...])` exactly when it has other than one variant. */
  lemma {:induction false} UnionForm(cat: seq<Interface>, vs: seq<Ast>, b: nat)
    requires Closed(cat) && Below(cat, vs, b)
    ensures StartsWith(Union(cat, vs, b), "PropTypes.oneOfType([") <==> |vs| != 1
  {
    if |vs| == 1 {
      RefsOfMember(vs, 0);
      var v := Value(cat, vs[0], false, b);
      assert Union(cat, vs, b) == v;
      NotOneOf(cat, vs[0], b);
      assert !StartsWith(v, "PropTypes.oneOfType([") by {
        if |v| >= 21 {
          assert v[..21][..15] == v[..15];
        }
      }
    }
  }

  /** An array is written as the bare `PropTypes.array` exactly when it has no variant. */
  lemma {:induction false} ArrayEmptyForm(cat: seq<Interface>, vs: seq<Ast>, b: nat)
    requires Closed(cat) && Below(cat, vs, b)
    ensures RefsOf(ArrayOf(vs)) <= Names(cat[..b])
    ensures Value(cat, ArrayOf(vs), false, b) == "PropTypes.array" <==> vs == []
  {
    if vs != [] {
      assert |Value(cat, ArrayOf(vs), false, b)| > |"PropTypes.array"|;
    }
  }

  /**
   * An array is written as `arrayOf(oneOfType([...]))` exactly when it has
   * several variants; one variant is `arrayOf` of that variant alone.
   */
  lemma {:induction false} ArrayUnionForm(cat: seq<Interface>, vs: seq<Ast>, b: nat)
    requires Closed(cat) && Below(cat, vs, b)
    ensures RefsOf(ArrayOf(vs)) <= Names(cat[..b])
    ensures StartsWith(Value(cat, ArrayOf(vs), false, b), "PropTypes.arrayOf(PropTypes.oneOfType([") <==> |vs| >= 2
  {
    if |vs| >= 2 {
      ArraySeveral(cat, vs, b);
    } else if |vs| == 1 {
      ArrayOne(cat, vs, b);
    }
  }

  lemma {:induction false} ArraySeveral(cat: seq<Interface>, vs: seq<Ast>, b: nat)
    requires Closed(cat) && Below(cat, vs, b) && |vs| >= 2
    ensures RefsOf(ArrayOf(vs)) <= Names(cat[..b])
    ensures StartsWith(Value(cat, ArrayOf(vs), false, b), "PropTypes.arrayOf(PropTypes.oneOfType([")
  {
    ArrayOfSeveral(cat, vs, b);
    UnionForm(cat, vs, b);
    PrefixThrough("PropTypes.arrayOf(", Union(cat, vs, b), "PropTypes.oneOfType([", ")");
    ArrayOpening();
  }

  lemma {:induction false} ArrayOne(cat: seq<Interface>, vs: seq<Ast>, b: nat)
    requires Closed(cat) && Below(cat, vs, b) && |vs| == 1
    ensures RefsOf(ArrayOf(vs)) <= Names(cat[..b])
    ensures !StartsWith(Value(cat, ArrayOf(vs), false, b), "PropTypes.arrayOf(PropTypes.oneOfType([")
  {
    ArrayOfOne(cat, vs, b);
    var v := Value(cat, vs[0], false, b);
    NotOneOf(cat, vs[0], b);
    ClosedAfter("PropTypes.arrayOf(", v, "PropTypes.oneOf");
    ArrayOpening();
    NotLonger(Value(cat, ArrayOf(vs), false, b), "PropTypes.arrayOf(PropTypes.oneOfType([", 33);
  }

  /** The opening of an array of a union, and its first 33 characters. */
  lemma ArrayOpening()
    ensures "PropTypes.arrayOf(" + "PropTypes.oneOfType([" == "PropTypes.arrayOf(PropTypes.oneOfType(["
    ensures ("PropTypes.arrayOf(PropTypes.oneOfType([")[..33] == "PropTypes.arrayOf(" + "PropTypes.oneOf"
  {
  }
}

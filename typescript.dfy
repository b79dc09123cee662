/**
 * `createTypeScript`: the declarations text of a built catalog, as it
 * stands before it is formatted.
 */
module TypeScript {
  import opened Text
  import opened Schema

  /** `codeForValue(value)` (lines 144-155). */
  function Value(a: Ast): string
    decreases a, 2
  {
    match a
    case ArrayOf(vs) => "Array<" + Union(vs) + ">"
    case ObjectRef(name) => name
    case Prim(tag) => if tag == "function" then "{ (): any }" else tag
  }

  /** `codeForArray(arr)` (lines 142-143): `any` for no variant, else the variants joined by `|`. */
  function Union(vs: seq<Ast>): string
    decreases vs, 1
  {
    if |vs| == 0 then "any" else Join(Values(vs), " | ")
  }

  /** One rendering per variant, in order. */
  function Values(vs: seq<Ast>): (r: seq<string>)
    ensures |r| == |vs|
    ensures forall i :: 0 <= i < |vs| ==> r[i] == Value(vs[i])
    decreases vs, 0
  {
    if vs == [] then [] else Values(vs[..|vs| - 1]) + [Value(vs[|vs| - 1])]
  }

  /** One property of an interface (lines 162-166). */
  function FieldCode(f: Field): (r: string)
  {
    f.name + (if f.required then "" else "?") + ": " + Union(f.value)
  }

  /** One interface declaration (lines 159-169). */
  function InterfaceCode(i: Interface): string
  {
    "\n          interface " + i.name + " {\n            "
    + Join(FieldCodes(i.fields), ";\n") + "\n          }\n        "
  }

  function FieldCodes(fs: seq<Field>): seq<string>
  {
    seq(|fs|, i requires 0 <= i < |fs| => FieldCode(fs[i]))
  }

  function InterfaceCodes(cat: seq<Interface>): seq<string>
  {
    seq(|cat|, i requires 0 <= i < |cat| => InterfaceCode(cat[i]))
  }

  /** The text `createTypeScript(prefix)` formats (lines 156-172). */
  function Declarations(cat: seq<Interface>, root: seq<Ast>, prefix: string): string
  {
    Join(InterfaceCodes(cat), "\n") + Export(prefix, root)
  }

  /** The closing line: the root type exported under the requested name. */
  function Export(prefix: string, root: seq<Ast>): string
  {
    "\n    export type " + prefix + " = " + Union(root) + "\n    "
  }

  /** A property carries the optional marker `?` exactly when it is not required. */
  lemma OptionalMarker(f: Field)
    ensures |FieldCode(f)| > |f.name|
    ensures FieldCode(f)[|f.name|] == '?' <==> !f.required
  {
  }

  /** The text ends with the exported root type, `any` when the root has no variant. */
  lemma ExportLine(cat: seq<Interface>, root: seq<Ast>, prefix: string)
    ensures EndsWith(Declarations(cat, root, prefix), Export(prefix, root))
    ensures root == [] ==> Export(prefix, root) == "\n    export type " + prefix + " = any\n    "
  {
    EndsWithConcat(Join(InterfaceCodes(cat), "\n"), Export(prefix, root));
  }

  /** A descriptor whose tag or interface name is a single token. */
  predicate Plain(a: Ast)
  {
    (a.Prim? ==> Token(a.tag)) && (a.ObjectRef? ==> Token(a.interfaceName))
  }

  /**
   * Exactly the arrays render as `Array<...>`, and exactly the function tag
   * renders as the callable-object type `{ (): any }`.
   */
  lemma RenderingForms(a: Ast)
    requires Plain(a)
    ensures StartsWith(Value(a), "Array<") <==> a.ArrayOf?
    ensures Value(a) == "{ (): any }" <==> a == Prim("function")
  {
    var r := Value(a);
    match a
    case ArrayOf(vs) =>
      assert r[..6] == "Array<";
      assert r[0] != '{';
    case Prim(tag) =>
      if tag != "function" {
        assert r == tag;
        if |tag| >= 6 {
          assert tag[5] != '<';
        }
        if |tag| > 0 {
          assert tag[0] != '{';
        }
      }
    case ObjectRef(name) =>
      if |name| >= 6 {
        assert name[5] != '<';
      }
      if |name| > 0 {
        assert name[0] != '{';
      }
  }

  /**
   * A union renders as `any` exactly when it has no variant, provided no
   * variant is itself named `any`: several variants always carry a ` | `.
   */
  lemma UnionAny(vs: seq<Ast>)
    requires forall i :: 0 <= i < |vs| ==> vs[i] != Prim("any") && vs[i] != ObjectRef("any")
    ensures Union(vs) == "any" <==> vs == []
  {
    if |vs| == 1 {
      UnionOne(vs);
      ValueNotAny(vs[0]);
    } else if |vs| >= 2 {
      UnionSeveral(vs);
    }
  }

  lemma UnionOne(vs: seq<Ast>)
    requires |vs| == 1
    ensures Union(vs) == Value(vs[0])
  {
    assert Values(vs)[0] == Value(vs[0]);
  }

  lemma UnionSeveral(vs: seq<Ast>)
    requires |vs| >= 2
    ensures ' ' in Union(vs)
  {
    JoinSpace(Values(vs));
  }

  lemma ValueNotAny(a: Ast)
    requires a != Prim("any") && a != ObjectRef("any")
    ensures Value(a) != "any"
  {
    if a.ArrayOf? {
      assert Value(a)[0] == 'A';
    }
  }

  /** Two or more parts joined by ` | ` contain a space. */
  lemma JoinSpace(parts: seq<string>)
    requires |parts| >= 2
    ensures ' ' in Join(parts, " | ")
  {
    var j := Join(parts[..|parts| - 1], " | ");
    var r := Join(parts, " | ");
    assert r == j + " | " + parts[|parts| - 1];
    assert r[|j|] == ' ';
  }
}

/**
 * The AST Builder of `Typer` (`createAST`, `createASTForKeypath`,
 * `interfaceName`): the interface catalog and root descriptors a table
 * gives, as functions. The class in typer.dfy builds them in place and is
 * proved to compute `Tree` and `Pushes`.
 */
module Schema {
  import opened OrderedMaps
  import opened Documents
  import opened Observer
  import opened Text

  /** A type descriptor (`AST`): a primitive tag, an array of variants, or a reference to an interface. */
  datatype Ast = Prim(tag: string) | ArrayOf(values: seq<Ast>) | ObjectRef(interfaceName: string)
  {
    /** The `type` property of the descriptor. */
    function Type(): string
    {
      match this
      case Prim(tag) => tag
      case ArrayOf(_) => "array"
      case ObjectRef(_) => "object"
    }
  }

  datatype Field = Field(name: string, required: bool, value: seq<Ast>)

  datatype Interface = Interface(name: string, fields: seq<Field>)

  /** What `createAST` returns. */
  datatype Built = Built(interfaces: seq<Interface>, root: seq<Ast>)

  /** `s.replace(/\[\]/g, 'Value')`: every `[]`, scanning left to right. */
  function ReplaceBrackets(s: string): string
  {
    if |s| >= 2 && s[0] == '[' && s[1] == ']' then "Value" + ReplaceBrackets(s[2..])
    else if s == "" then ""
    else [s[0]] + ReplaceBrackets(s[1..])
  }

  predicate HasBrackets(s: string)
  {
    exists i :: 0 <= i < |s| - 1 && s[i] == '[' && s[i + 1] == ']'
  }

  /**
   * The naming of interfaces. `camel` stands for the `camelcase` package,
   * which is not part of this model.
   */
  datatype Namer = Namer(camel: string -> string, prefix: string)
  {
    /** `interfaceName(key)` */
    function Name(key: string): (r: string)
      ensures |r| >= 1 && r[0] == 'I'
    {
      "I" + UpperFirst(camel(ReplaceBrackets(prefix + " " + key)))
    }
  }

  /** The length of the longest keypath in `s`. */
  ghost function MaxLen(s: set<string>): (r: nat)
    ensures forall x :: x in s ==> |x| <= r
  {
    if s == {} then 0
    else
      var x :| x in s;
      var m := MaxLen(s - {x});
      if |x| > m then |x| else m
  }

  /**
   * How far a keypath is from the longest recorded keypath: the recursion of
   * `createASTForKeypath` only visits recorded keypaths longer than its own.
   */
  ghost function Rank(t: Table, keypath: string): nat
  {
    if keypath in t then MaxLen(t.Keys) + 1 - |keypath| else 0
  }

  /** A recorded keypath ranks above every longer keypath. */
  lemma RankDrops(t: Table, keypath: string, longer: string)
    requires keypath in t && |longer| > |keypath|
    ensures Rank(t, longer) < Rank(t, keypath)
  {
  }

  /**
   * The root was never given a member named "": for such a member the child
   * keypath of "" is "" again, and `createASTForKeypath('')` never returns.
   */
  predicate NoRootSelfLoop(t: Table)
  {
    "" !in Members(t, "")
  }

  /** `Object.keys(current)` */
  function Tags(t: Table, keypath: string): seq<string>
  {
    RecordAt(t, keypath).keys
  }

  /** `Object.keys(current['object'])` */
  function Members(t: Table, keypath: string): seq<string>
  {
    PresenceOf(RecordAt(t, keypath), "object").keys
  }

  /** `Object.keys(current['array'])`, counted. */
  function ElementCount(t: Table, keypath: string): nat
  {
    |PresenceOf(RecordAt(t, keypath), "array").keys|
  }

  /** `k` copies of `s`, one after the other. */
  function Repeat<T>(s: seq<T>, k: nat): seq<T>
  {
    if k == 0 then [] else Repeat(s, k - 1) + s
  }

  /** The descriptors `createASTForKeypath(keypath)` returns (lines 122-137). */
  function Tree(t: Table, nm: Namer, keypath: string): seq<Ast>
    requires NoRootSelfLoop(t)
    decreases Rank(t, keypath), 2, 0
  {
    TagTrees(t, nm, keypath, |Tags(t, keypath)|)
  }

  /** The descriptors of the first `n` tags. */
  function TagTrees(t: Table, nm: Namer, keypath: string, n: nat): seq<Ast>
    requires NoRootSelfLoop(t) && n <= |Tags(t, keypath)|
    decreases Rank(t, keypath), 1, n
  {
    if n == 0 then []
    else TagTrees(t, nm, keypath, n - 1) + [TagTree(t, nm, keypath, Tags(t, keypath)[n - 1])]
  }

  /** The descriptor of one tag of a keypath. */
  function TagTree(t: Table, nm: Namer, keypath: string, tag: string): Ast
    requires NoRootSelfLoop(t) && keypath in t
    decreases Rank(t, keypath), 0, 0
  {
    if tag == "object" then ObjectRef(nm.Name(keypath))
    else if tag == "array" then
      ArrayOf(Repeat(Tree(t, nm, ElementPath(keypath)), ElementCount(t, keypath)))
    else Prim(tag)
  }

  /** The interfaces `createASTForKeypath(keypath)` pushes, in push order. */
  function Pushes(t: Table, nm: Namer, keypath: string): seq<Interface>
    requires NoRootSelfLoop(t)
    decreases Rank(t, keypath), 3, 0
  {
    InterfacePass(t, nm, keypath, |Tags(t, keypath)|) + ArrayPass(t, nm, keypath, |Tags(t, keypath)|)
  }

  /** The pushes of the first loop over the tags (lines 105-119) for the first `n` tags. */
  function InterfacePass(t: Table, nm: Namer, keypath: string, n: nat): seq<Interface>
    requires NoRootSelfLoop(t) && n <= |Tags(t, keypath)|
    decreases Rank(t, keypath), 2, n
  {
    if n == 0 then []
    else
      InterfacePass(t, nm, keypath, n - 1)
      + (if Tags(t, keypath)[n - 1] == "object" then ObjectPushes(t, nm, keypath) else [])
  }

  /** The interfaces of the members first, then the object's own interface. */
  function ObjectPushes(t: Table, nm: Namer, keypath: string): seq<Interface>
    requires NoRootSelfLoop(t) && keypath in t
    decreases Rank(t, keypath), 1, 0
  {
    var n := |Members(t, keypath)|;
    FieldPushes(t, nm, keypath, n) + [Interface(nm.Name(keypath), Fields(t, nm, keypath, n))]
  }

  /** The pushes made while building the first `n` fields. */
  function FieldPushes(t: Table, nm: Namer, keypath: string, n: nat): seq<Interface>
    requires NoRootSelfLoop(t) && keypath in t && n <= |Members(t, keypath)|
    decreases Rank(t, keypath), 0, n
  {
    if n == 0 then []
    else FieldPushes(t, nm, keypath, n - 1) + Pushes(t, nm, FieldPath(keypath, Members(t, keypath)[n - 1]))
  }

  /** The first `n` fields of the object interface of a keypath (lines 110-116). */
  function Fields(t: Table, nm: Namer, keypath: string, n: nat): seq<Field>
    requires NoRootSelfLoop(t) && keypath in t && n <= |Members(t, keypath)|
    decreases Rank(t, keypath), 0, n
  {
    if n == 0 then []
    else
      var m := Members(t, keypath)[n - 1];
      var required := Required(PresenceOf(t[keypath], "object"), m);
      Fields(t, nm, keypath, n - 1) + [Field(m, required, Tree(t, nm, FieldPath(keypath, m)))]
  }

  /** The pushes of the second loop over the tags (lines 122-137) for the first `n` tags. */
  function ArrayPass(t: Table, nm: Namer, keypath: string, n: nat): seq<Interface>
    requires NoRootSelfLoop(t) && n <= |Tags(t, keypath)|
    decreases Rank(t, keypath), 2, n
  {
    if n == 0 then []
    else
      ArrayPass(t, nm, keypath, n - 1)
      + (if Tags(t, keypath)[n - 1] == "array"
         then Repeat(Pushes(t, nm, ElementPath(keypath)), ElementCount(t, keypath))
         else [])
  }

  /** `createAST(prefix)`: an empty catalog, then the root keypath. */
  function Build(t: Table, nm: Namer): Built
    requires NoRootSelfLoop(t)
  {
    Built(Pushes(t, nm, ""), Tree(t, nm, ""))
  }
}

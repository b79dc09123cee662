/**
 * `createVueValidation`: the Vue props validation object of a built
 * catalog, as it stands before it is formatted.
 */
module VueValidation {
  import opened Text
  import opened Schema
  import opened Resolution
  import opened Nullables

  /** `codeForSingleValue(value, required)` (lines 255-262). */
  function Single(a: Ast, required: bool): string
  {
    var upper := UpperFirst(a.Type());
    if required then "{ type: " + upper + ", required: true }" else upper
  }

  /** `codeForValue(value, required)` (lines 264-269): several variants become a list. */
  function Value(vs: seq<Ast>, required: bool): string
  {
    if |vs| == 1 then Single(vs[0], required) else "[" + Join(Singles(vs, required), ", ") + "]"
  }

  /** Each variant, with the same required flag. */
  function Singles(vs: seq<Ast>, required: bool): seq<string>
  {
    seq(|vs|, i requires 0 <= i < |vs| => Single(vs[i], required))
  }

  /** `codeForField(field)` (lines 271-277). */
  function FieldCode(f: Field): string
  {
    var c := Collapse(f);
    JsonString(f.name) + ": " + Value(c.value, c.required)
  }

  function FieldCodes(fs: seq<Field>): seq<string>
  {
    seq(|fs|, i requires 0 <= i < |fs| => FieldCode(fs[i]))
  }

  /** The object `createVueValidation` formats (lines 248-280); "" unless the root is one object. */
  function Code(cat: seq<Interface>, root: seq<Ast>): (r: string)
    requires Refs(root) <= Names(cat)
    ensures r == "" <==> !(|root| == 1 && root[0].ObjectRef?)
  {
    if |root| != 1 || !root[0].ObjectRef? then ""
    else
      RefsOfMember(root, 0);
      assert cat[..|cat|] == cat;
      FindBefore(cat, root[0].interfaceName, |cat|);
      var i := Find(cat, root[0].interfaceName);
      "{ " + Join(FieldCodes(cat[i].fields), ", ") + " }"
  }

  /**
   * A variant is written as its type name with the first letter upper-cased
   * (`string` as `String`, `object` as `Object`) and the rest unchanged.
   */
  lemma TypeName(a: Ast)
    ensures var t, r := a.Type(), Single(a, false);
      && |r| == |t|
      && (t != "" ==> r[1..] == t[1..] && !('a' <= r[0] <= 'z')
                      && (r[0] == t[0] || r[0] as int == t[0] as int - 32))
  {
  }

  /**
   * A variant whose type is a plain word is marked `required: true` exactly
   * when the flag is set, and then it is wrapped in a `{ type: ... }` object.
   */
  lemma {:induction false} Marked(a: Ast, required: bool)
    requires Token(a.Type())
    ensures StartsWith(Single(a, required), "{ type: ") <==> required
    ensures EndsWith(Single(a, required), ", required: true }") <==> required
  {
    var t := a.Type();
    var u := UpperFirst(t);
    if required {
      assert Single(a, required)[..8] == "{ type: ";
      EndsWithConcat("{ type: " + u, ", required: true }");
    } else {
      assert Single(a, required) == u;
      if u != "" {
        assert u[0] != '{' by {
          assert t[0] in t;
        }
        DiffersAt(u, "{ type: ", 0);
        assert u[|u| - 1] != '}' by {
          if |u| >= 2 {
            assert u[|u| - 1] == u[1..][|u| - 2] == t[1..][|t| - 2] == t[|t| - 1];
          }
          assert t[|t| - 1] in t;
        }
      }
    }
  }

  /**
   * Several variants, or none, are written as a list; one alone is not; every
   * entry of the list carries the field's flag.
   */
  lemma {:induction false} ListForm(vs: seq<Ast>, required: bool)
    requires forall i :: 0 <= i < |vs| ==> Token(vs[i].Type())
    ensures StartsWith(Value(vs, required), "[") <==> |vs| != 1
    ensures vs == [] ==> Value(vs, required) == "[]"
    ensures |Singles(vs, required)| == |vs|
    ensures forall i :: 0 <= i < |vs| ==>
      (EndsWith(Singles(vs, required)[i], ", required: true }") <==> required)
  {
    if |vs| == 1 {
      var t := vs[0].Type();
      var s := Single(vs[0], required);
      if required {
        Marked(vs[0], required);
        DiffersAt(s, "[", 0);
      } else if t != "" {
        assert t[0] in t;
        DiffersAt(s, "[", 0);
      }
    } else {
      assert Value(vs, required)[..1] == "[";
    }
    forall i | 0 <= i < |vs|
      ensures EndsWith(Singles(vs, required)[i], ", required: true }") <==> required
    {
      Marked(vs[i], required);
    }
  }

  /** A variant written without the flag contains no closing brace. */
  lemma {:induction false} PlainEntry(a: Ast)
    requires Token(a.Type())
    ensures '}' !in Single(a, false)
  {
    var t, u := a.Type(), Single(a, false);
    forall k | 0 <= k < |u| ensures u[k] != '}' {
      assert t[k] in t;
      if k > 0 {
        assert u[k] == u[1..][k - 1] == t[1..][k - 1];
      }
    }
  }

  /**
   * A property is marked `required: true` exactly when the field is required
   * and has no null or undefined variant: its one remaining variant, or the
   * last entry of its list, ends with the mark; with no variant left it is
   * the empty list.
   */
  lemma {:induction false} FieldFlag(f: Field)
    requires forall i :: 0 <= i < |f.value| ==> Token(f.value[i].Type())
    ensures var vs, marked := NonNullables(f.value), f.required && NoNullable(f.value);
      && (|vs| == 1 ==> (EndsWith(FieldCode(f), ", required: true }") <==> marked))
      && (|vs| >= 2 ==> (EndsWith(FieldCode(f), ", required: true }]") <==> marked))
      && (vs == [] ==> EndsWith(FieldCode(f), ": []"))
  {
    var vs, req := NonNullables(f.value), f.required && NoNullable(f.value);
    var key := JsonString(f.name) + ": ";
    assert FieldCode(f) == key + Value(vs, req);
    NonNullablesMembers(f.value);
    forall i | 0 <= i < |vs| ensures Token(vs[i].Type()) {
      assert vs[i] in vs;
    }
    if vs == [] {
      assert FieldCode(f) == JsonString(f.name) + ": []";
      EndsWithConcat(JsonString(f.name), ": []");
    } else if |vs| == 1 {
      OneMarked(key, vs, req);
    } else {
      ListMarked(key, vs, req);
    }
  }

  /** One variant after `key`: the text ends with the mark exactly when the flag is set. */
  lemma {:induction false} OneMarked(key: string, vs: seq<Ast>, required: bool)
    requires key != "" && key[|key| - 1] == ' '
    requires |vs| == 1 && Token(vs[0].Type())
    ensures EndsWith(key + Value(vs, required), ", required: true }") <==> required
  {
    var s := Single(vs[0], required);
    var text := key + s;
    var mark := ", required: true }";
    assert key + Value(vs, required) == text;
    if required {
      Marked(vs[0], required);
      EndsWithTrans(text, s, mark) by {
        EndsWithConcat(key, s);
      }
    } else {
      PlainEntry(vs[0]);
      if s != "" {
        assert s[|s| - 1] in s;
        assert text[|text| - 1] == s[|s| - 1];
      }
      NotEndsWithAt(text, mark, 1);
    }
  }

  /** Several variants after `key`: the list's last entry carries the mark exactly when the flag is set. */
  lemma {:induction false} ListMarked(key: string, vs: seq<Ast>, required: bool)
    requires |vs| >= 2 && forall i :: 0 <= i < |vs| ==> Token(vs[i].Type())
    ensures EndsWith(key + Value(vs, required), ", required: true }]") <==> required
  {
    if required {
      ListWithMark(key, vs);
    } else {
      ListWithoutMark(key, vs);
    }
  }

  lemma {:induction false} ListWithMark(key: string, vs: seq<Ast>)
    requires |vs| >= 2 && Token(vs[|vs| - 1].Type())
    ensures EndsWith(key + Value(vs, true), ", required: true }]")
  {
    var entries := Singles(vs, true);
    var j := Join(entries, ", ");
    var mark := ", required: true }";
    assert key + Value(vs, true) == key + "[" + j + "]";
    Marked(vs[|vs| - 1], true);
    JoinEnds(entries, ", ");
    EndsWithTrans(j, entries[|vs| - 1], mark);
    EndsWithWrap(key + "[", j, mark, "]");
  }

  lemma {:induction false} ListWithoutMark(key: string, vs: seq<Ast>)
    requires |vs| >= 2 && forall i :: 0 <= i < |vs| ==> Token(vs[i].Type())
    ensures !EndsWith(key + Value(vs, false), ", required: true }]")
  {
    var entries := Singles(vs, false);
    var j := Join(entries, ", ");
    var text := key + "[" + j + "]";
    assert key + Value(vs, false) == text;
    forall i | 0 <= i < |entries| ensures '}' !in entries[i] {
      PlainEntry(vs[i]);
    }
    JoinFree(entries, ", ", '}');
    if j != "" {
      assert j[|j| - 1] in j;
      assert text[|text| - 2] == j[|j| - 1];
    }
    NotEndsWithAt(text, ", required: true }]", 2);
  }

  /**
   * Each property begins with its key, `JSON.stringify` of the field name,
   * from which the name is recovered: `JSON.stringify` is injective on strings.
   */
  lemma FieldKey(f: Field)
    ensures var k := JsonString(f.name);
      |k| <= |FieldCode(f)| && ParseJsonString(FieldCode(f)[..|k|]) == f.name
  {
    var k := JsonString(f.name);
    assert FieldCode(f)[..|k|] == k;
    JsonStringRoundTrip(f.name);
  }
}

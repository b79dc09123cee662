/** `_filterNotNullables`: dropping the null and undefined variants of a field. */
module Nullables {
  import opened Schema

  predicate IsNullable(a: Ast)
  {
    a.Type() == "null" || a.Type() == "undefined"
  }

  predicate NoNullable(vs: seq<Ast>)
  {
    forall i :: 0 <= i < |vs| ==> !IsNullable(vs[i])
  }

  /** `value.filter(val => val.type !== 'null' && val.type !== 'undefined')` */
  function NonNullables(vs: seq<Ast>): (r: seq<Ast>)
    ensures |r| <= |vs|
  {
    if vs == [] then []
    else
      var last := vs[|vs| - 1];
      NonNullables(vs[..|vs| - 1]) + (if IsNullable(last) then [] else [last])
  }

  /** A variant is kept exactly when it is there and is not nullable. */
  lemma {:induction false} NonNullablesMembers(vs: seq<Ast>)
    ensures forall a :: a in NonNullables(vs) <==> a in vs && !IsNullable(a)
  {
    if vs != [] {
      var init, last := vs[..|vs| - 1], vs[|vs| - 1];
      NonNullablesMembers(init);
      assert vs == init + [last];
    }
  }

  /** What `_filterNotNullables(field)` returns: the kept variants and the new required flag. */
  function Collapse(f: Field): Field
  {
    Field(f.name, f.required && NoNullable(f.value), NonNullables(f.value))
  }

  /** Filtering distributes over concatenation, so the kept variants keep their order. */
  lemma {:induction false} NonNullablesAppend(a: seq<Ast>, b: seq<Ast>)
    ensures NonNullables(a + b) == NonNullables(a) + NonNullables(b)
    decreases |b|
  {
    if b == [] {
      assert a + b == a;
    } else {
      assert (a + b)[..|a + b| - 1] == a + b[..|b| - 1];
      NonNullablesAppend(a, b[..|b| - 1]);
    }
  }

  /** Nothing is dropped exactly when there is nothing nullable. */
  lemma {:induction false} NonNullablesKeepAll(vs: seq<Ast>)
    ensures |NonNullables(vs)| == |vs| <==> NoNullable(vs)
    ensures NoNullable(vs) ==> NonNullables(vs) == vs
  {
    if vs != [] {
      var init, last := vs[..|vs| - 1], vs[|vs| - 1];
      NonNullablesKeepAll(init);
      NoNullableSnoc(vs);
      if IsNullable(last) {
        assert NonNullables(vs) == NonNullables(init) + [];
        assert |NonNullables(vs)| < |vs|;
      } else {
        assert NonNullables(vs) == NonNullables(init) + [last];
        assert vs == init + [last];
      }
    }
  }

  lemma NoNullableSnoc(vs: seq<Ast>)
    requires vs != []
    ensures NoNullable(vs) <==> NoNullable(vs[..|vs| - 1]) && !IsNullable(vs[|vs| - 1])
  {
    var init := vs[..|vs| - 1];
    if NoNullable(init) && !IsNullable(vs[|vs| - 1]) {
      forall i | 0 <= i < |vs| ensures !IsNullable(vs[i]) {
        if i < |vs| - 1 {
          assert vs[i] == init[i];
        }
      }
    }
    if NoNullable(vs) {
      forall i | 0 <= i < |init| ensures !IsNullable(init[i]) {
        assert init[i] == vs[i];
      }
    }
  }

  /** The field cut to its first `i` variants. */
  function Head(f: Field, i: nat): Field
    requires i <= |f.value|
  {
    Field(f.name, f.required, f.value[..i])
  }

  /**
   * One more variant: it is kept exactly when it is not nullable, and the
   * flag survives it exactly when it is not nullable.
   */
  lemma CollapseTurn(f: Field, i: nat)
    requires i < |f.value|
    ensures var c, c' := Collapse(Head(f, i)), Collapse(Head(f, i + 1));
      && c'.required == (c.required && !IsNullable(f.value[i]))
      && c'.value == if IsNullable(f.value[i]) then c.value else c.value + [f.value[i]]
  {
    var vs := f.value;
    assert vs[..i + 1][..i] == vs[..i];
    NoNullableSnoc(vs[..i + 1]);
    if IsNullable(vs[i]) {
      assert NonNullables(vs[..i]) + [] == NonNullables(vs[..i]);
    }
  }

  /**
   * The collapsed field: the same name, no nullable variants left, and
   * required exactly when it was required and nothing was dropped.
   */
  lemma CollapseSpec(f: Field)
    ensures Collapse(f).name == f.name
    ensures NoNullable(Collapse(f).value)
    ensures Collapse(f).required <==> f.required && |Collapse(f).value| == |f.value|
    ensures !f.required ==> !Collapse(f).required
  {
    NonNullablesKeepAll(f.value);
    NonNullablesMembers(f.value);
    var r := NonNullables(f.value);
    forall i | 0 <= i < |r| ensures !IsNullable(r[i]) {
      assert r[i] in r;
    }
  }
}

/**
 * The Override Layer of `Typer` (`addRootField`): forcing the required flag
 * of a root field and resetting that field's own record to a single tag.
 */
module Override {
  import opened OrderedMaps
  import opened Observer

  datatype Option<T> = None | Some(value: T)

  /** The record `{ [tag]: {} }`. */
  function SingleTag(tag: string): (r: Record)
    ensures ValidRecord(r) && r.keys == [tag] && tag in r.entries && r.entries[tag] == Empty()
  {
    Empty<Presence>().Set(tag, Empty())
  }

  /** The root record with member `key` of its object tag set to `required` (line 88). */
  function ForceRootMember(root: Record, key: string, required: bool): Record
    requires "object" in root.entries
  {
    root.Set("object", root.entries["object"].Set(key, required))
  }

  /**
   * `addRootField(key, tag, required)` (lines 87-90): `None` when the root was
   * never observed as an object, where the source throws a TypeError.
   */
  function WithRootField(t: Table, key: string, tag: string, required: bool): (r: Option<Table>)
    ensures r.Some? <==> "" in t && "object" in t[""].entries
    ensures r.Some? ==> key in r.value && r.value[key] == SingleTag(tag)
    ensures r.Some? ==> forall k :: k != key && k != "" ==>
      (k in r.value <==> k in t) && (k in t ==> r.value[k] == t[k])
  {
    if "" in t && "object" in t[""].entries then
      Some(t["" := ForceRootMember(t[""], key, required)][key := SingleTag(tag)])
    else
      None
  }

  /**
   * For a root field other than "", the root's object record now holds the
   * forced flag; its other members, flags and tags are as they were.
   */
  lemma RootFieldForced(t: Table, key: string, tag: string, required: bool)
    requires "" in t && "object" in t[""].entries && key != ""
    ensures var t' := WithRootField(t, key, tag, required).value;
      && "" in t' && t'[""].keys == t[""].keys && t'[""].entries.Keys == t[""].entries.Keys
      && (forall tg :: tg in t[""].entries && tg != "object" ==> t'[""].entries[tg] == t[""].entries[tg])
  {
  }

  lemma RootMemberForced(t: Table, key: string, tag: string, required: bool)
    requires "" in t && "object" in t[""].entries && key != ""
    ensures var t' := WithRootField(t, key, tag, required).value;
      var obj, obj' := t[""].entries["object"], t'[""].entries["object"];
      && key in obj'.entries && obj'.entries[key] == required
      && (forall m :: m != key ==> (m in obj'.entries <==> m in obj.entries))
      && (forall m :: m != key && m in obj.entries ==> obj'.entries[m] == obj.entries[m])
      && (key in obj.entries ==> obj'.keys == obj.keys)
      && (key !in obj.entries ==> obj'.keys == obj.keys + [key])
  {
    RootFieldForced(t, key, tag, required);
  }

  /** Overriding keeps every tag and member listed exactly once. */
  lemma RootFieldKeepsValid(t: Table, key: string, tag: string, required: bool)
    requires ValidTable(t) && "" in t && "object" in t[""].entries
    ensures ValidTable(WithRootField(t, key, tag, required).value)
  {
    var root' := ForceRootMember(t[""], key, required);
    ForcedRootValid(t[""], key, required);
    var t' := t["" := root'][key := SingleTag(tag)];
    assert WithRootField(t, key, tag, required).value == t';
    forall kp | kp in t' ensures ValidRecord(t'[kp]) {
      if kp != key && kp != "" {
        assert t'[kp] == t[kp];
      }
    }
  }

  lemma ForcedRootValid(root: Record, key: string, required: bool)
    requires ValidRecord(root) && "object" in root.entries
    ensures ValidRecord(ForceRootMember(root, key, required))
  {
    var obj := root.entries["object"];
    var root' := ForceRootMember(root, key, required);
    obj.SetValid(key, required);
    root.SetValid("object", obj.Set(key, required));
    assert forall tg :: tg in root'.entries && tg != "object" ==> root'.entries[tg] == root.entries[tg];
  }
}

/** Laying one config file over another (config-snapshot-tooling/src/source.rs), compared
    with the merge patch of section 2 of RFC 7396. */
module JsonOverlay {
  import opened JsonValues
  import opened Wrappers

  type Fields = map<string, Json>

  function Get(fields: Fields, key: string): Option<Json> {
    if key in fields then Some(fields[key]) else None
  }

  predicate BothObjects(base: Fields, overlay: Fields, key: string) {
    key in base && key in overlay && base[key].Obj? && overlay[key].Obj?
  }

  /** The pointwise merge: null removes, two objects merge, anything else replaces. */
  function Merge(base: Fields, overlay: Fields): Fields
    decreases Obj(overlay)
  {
    map key | key in base.Keys + overlay.Keys && !(key in overlay && overlay[key].Null?) ::
      if key !in overlay then base[key]
      else if BothObjects(base, overlay, key) then Obj(Merge(base[key].fields, overlay[key].fields))
      else overlay[key]
  }

  /** Takes the members of the overlay in any order and changes the base member by member. */
  method Overlay(base: Fields, overlay: Fields) returns (result: Fields)
    ensures result == Merge(base, overlay)
    decreases Obj(overlay)
  {
    result := base;
    var left := overlay.Keys;
    while left != {}
      invariant left <= overlay.Keys
      invariant forall key :: key in left || key !in overlay ==> Get(result, key) == Get(base, key)
      invariant forall key :: key in overlay && key !in left ==> Get(result, key) == Get(Merge(base, overlay), key)
      decreases left
    {
      var key :| key in left;
      var incoming := overlay[key];
      assert Get(result, key) == Get(base, key);
      if incoming.Null? {
        result := result - {key};
      } else if key in result && result[key].Obj? && incoming.Obj? {
        var nested := Overlay(result[key].fields, incoming.fields);
        assert BothObjects(base, overlay, key);
        result := result[key := Obj(nested)];
      } else {
        result := result[key := incoming];
      }
      left := left - {key};
    }
    SameMembers(result, base, overlay);
  }

  lemma SameMembers(result: Fields, base: Fields, overlay: Fields)
    requires forall key :: key !in overlay ==> Get(result, key) == Get(base, key)
    requires forall key :: key in overlay ==> Get(result, key) == Get(Merge(base, overlay), key)
    ensures result == Merge(base, overlay)
  {
    var merged := Merge(base, overlay);
    forall key
      ensures Get(result, key) == Get(merged, key)
    {
    }
    assert forall key :: key in result <==> Get(result, key).Some?;
    assert forall key :: key in merged <==> Get(merged, key).Some?;
    forall key | key in result
      ensures result[key] == merged[key]
    {
      assert Get(result, key) == Get(merged, key);
    }
  }

  // ----- The merge patch of RFC 7396 -----

  function MergePatch(target: Json, patch: Json): Json
    decreases patch
  {
    if !patch.Obj? then patch
    else
      var base := if target.Obj? then target.fields else map[];
      Obj(map key | key in base.Keys + patch.fields.Keys && !(key in patch.fields && patch.fields[key].Null?) ::
            if key in patch.fields then MergePatch(if key in base then base[key] else Null, patch.fields[key])
            else base[key])
  }

  /** No object inside the value, reached through objects, has a null member. */
  predicate NoNullMembers(value: Json) {
    value.Obj? ==> forall key :: key in value.fields ==> !value.fields[key].Null? && NoNullMembers(value.fields[key])
  }

  /** No object that the overlay puts in whole has a null member. */
  predicate InsertsNoNulls(base: Fields, overlay: Fields)
    decreases Obj(overlay)
  {
    forall key :: key in overlay ==>
      if BothObjects(base, overlay, key) then InsertsNoNulls(base[key].fields, overlay[key].fields)
      else overlay[key].Null? || NoNullMembers(overlay[key])
  }

  /** Patching a missing value drops every null member, so it keeps exactly the values without one. */
  lemma {:induction false} PatchOfNothing(value: Json, target: Json)
    requires !target.Obj?
    ensures MergePatch(target, value) == value <==> NoNullMembers(value)
    decreases value
  {
    if value.Obj? {
      var patched := MergePatch(target, value).fields;
      forall key | key in value.fields
        ensures MergePatch(Null, value.fields[key]) == value.fields[key] <==> NoNullMembers(value.fields[key])
      {
        PatchOfNothing(value.fields[key], Null);
      }
      if NoNullMembers(value) {
        assert patched == value.fields;
      } else {
        var key :| key in value.fields && (value.fields[key].Null? || !NoNullMembers(value.fields[key]));
        assert key in patched ==> patched[key] == MergePatch(Null, value.fields[key]);
      }
    }
  }

  /** The overlay is the merge patch exactly if it inserts no object with a null member. */
  lemma {:induction false} OverlayIsMergePatch(base: Fields, overlay: Fields)
    ensures Obj(Merge(base, overlay)) == MergePatch(Obj(base), Obj(overlay)) <==> InsertsNoNulls(base, overlay)
    decreases Obj(overlay)
  {
    var merged, patched := Merge(base, overlay), MergePatch(Obj(base), Obj(overlay)).fields;
    assert merged.Keys == patched.Keys;
    forall key | key in overlay && !overlay[key].Null?
      ensures merged[key] == patched[key] <==>
              if BothObjects(base, overlay, key) then InsertsNoNulls(base[key].fields, overlay[key].fields)
              else NoNullMembers(overlay[key])
    {
      var target := if key in base then base[key] else Null;
      assert patched[key] == MergePatch(target, overlay[key]);
      if BothObjects(base, overlay, key) {
        OverlayIsMergePatch(base[key].fields, overlay[key].fields);
        assert base[key] == Obj(base[key].fields) && overlay[key] == Obj(overlay[key].fields);
      } else {
        if target.Obj? {
          assert !overlay[key].Obj?;
        } else {
          PatchOfNothing(overlay[key], target);
        }
      }
    }
    if InsertsNoNulls(base, overlay) {
      assert merged == patched;
    } else {
      var key :| key in overlay && !overlay[key].Null? &&
        !(if BothObjects(base, overlay, key) then InsertsNoNulls(base[key].fields, overlay[key].fields)
          else NoNullMembers(overlay[key]));
      assert merged[key] != patched[key];
    }
  }

  /** An object laid over itself loses its null members and nothing else. */
  lemma {:induction false} SelfOverlay(fields: Fields)
    ensures Merge(fields, fields) == fields <==> NoNullMembers(Obj(fields))
    decreases Obj(fields)
  {
    var merged := Merge(fields, fields);
    forall key | key in fields && fields[key].Obj?
      ensures Merge(fields[key].fields, fields[key].fields) == fields[key].fields <==> NoNullMembers(fields[key])
    {
      SelfOverlay(fields[key].fields);
      assert Obj(fields[key].fields) == fields[key];
    }
    if NoNullMembers(Obj(fields)) {
      assert merged == fields;
    } else {
      var key :| key in fields && (fields[key].Null? || !NoNullMembers(fields[key]));
      assert key in merged ==> merged[key] == Obj(Merge(fields[key].fields, fields[key].fields));
    }
  }

  /** Laying the same file over twice changes nothing more under the same condition. */
  lemma {:induction false} OverlayIdempotent(base: Fields, overlay: Fields)
    ensures Merge(Merge(base, overlay), overlay) == Merge(base, overlay) <==> InsertsNoNulls(base, overlay)
    decreases Obj(overlay)
  {
    var once := Merge(base, overlay);
    var twice := Merge(once, overlay);
    assert forall key :: key in overlay && key in once ==> !overlay[key].Null?;
    assert forall key :: key in overlay && !overlay[key].Null? ==> key in once && key in twice;
    assert twice.Keys == once.Keys;
    forall key | key in overlay && !overlay[key].Null?
      ensures twice[key] == once[key] <==>
              if BothObjects(base, overlay, key) then InsertsNoNulls(base[key].fields, overlay[key].fields)
              else NoNullMembers(overlay[key])
    {
      if BothObjects(base, overlay, key) {
        OverlayIdempotent(base[key].fields, overlay[key].fields);
        assert BothObjects(once, overlay, key);
      } else if overlay[key].Obj? {
        assert once[key] == overlay[key] && BothObjects(once, overlay, key);
        SelfOverlay(overlay[key].fields);
        assert Obj(overlay[key].fields) == overlay[key];
      }
    }
    if InsertsNoNulls(base, overlay) {
      forall key | key in once
        ensures twice[key] == once[key]
      {
      }
      assert twice == once;
    } else {
      var key :| key in overlay && !overlay[key].Null? &&
        !(if BothObjects(base, overlay, key) then InsertsNoNulls(base[key].fields, overlay[key].fields)
          else NoNullMembers(overlay[key]));
      assert twice[key] != once[key];
    }
  }

  /** A file without nulls can be laid over anything. */
  lemma {:induction false} NullFreeInsertsNoNulls(base: Fields, overlay: Fields)
    requires NoNullMembers(Obj(overlay))
    ensures InsertsNoNulls(base, overlay)
    decreases Obj(overlay)
  {
    forall key | key in overlay && BothObjects(base, overlay, key)
      ensures InsertsNoNulls(base[key].fields, overlay[key].fields)
    {
      assert Obj(overlay[key].fields) == overlay[key];
      NullFreeInsertsNoNulls(base[key].fields, overlay[key].fields);
    }
  }

  /** Laying a file with a new object that has a null member over nothing keeps the null;
      laying it over the result removes it, and so does the merge patch at once. */
  lemma InsertedNull()
    ensures var nested := map["x" := Null, "y" := Bool(true)];
            var overlay := map["a" := Obj(nested)];
            var patched := map["a" := Obj(map["y" := Bool(true)])];
            && Merge(map[], overlay) == overlay
            && Merge(overlay, overlay) == patched != overlay
            && MergePatch(Obj(map[]), Obj(overlay)) == Obj(patched)
  {
    var nested := map["x" := Null, "y" := Bool(true)];
    var overlay := map["a" := Obj(nested)];
    var less := map["y" := Bool(true)];
    assert Merge(nested, nested) == less;
    assert Merge(overlay, overlay) == map["a" := Obj(less)];
    assert "x" in nested && "x" !in less;
    assert overlay["a"].fields != less;
    assert MergePatch(Null, Obj(nested)) == Obj(less);
    assert MergePatch(Obj(map[]), Obj(overlay)) == Obj(map["a" := Obj(less)]);
  }
}

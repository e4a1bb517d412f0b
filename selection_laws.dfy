/**
  What the validator admits, and what an admitted selection resolves to.
 */
module SelectionLaws {
  import opened Schema
  import opened Targets
  import opened Shapes
  import opened Selection

  /** The fields of a single object, seen as a one-member clause. */
  lemma SingleClause(arena: Arena, obj: ObjName, k: FieldName)
    ensures k in ClauseFields(arena, [obj]) <==> k in FieldsOf(arena, obj)
    ensures k in FieldsOf(arena, obj) ==> ClauseFields(arena, [obj])[k] == Agreed(FieldsOf(arena, obj)[k])
  {
    OneMemberClause(arena, obj);
  }

  /**
    Against one object, a selection is admissible exactly when it shares a
    key with the object (or either is empty) and every key the object has
    carries an admissible directive; keys the object lacks are not checked.
   */
  lemma {:induction false} SingleObjectAdmits(arena: Arena, check: Check, spec: map<FieldName, Arg>, obj: ObjName)
    ensures SelectArgs(arena, check, ASpec(spec), [[obj]]) <==>
      && (|FieldsOf(arena, obj)| == 0 || |spec| == 0 || exists k :: k in spec && k in FieldsOf(arena, obj))
      && forall k :: k in spec && k in FieldsOf(arena, obj) ==>
           DirectiveAdmits(arena, check, spec[k], Agreed(FieldsOf(arena, obj)[k]))
  {
    OneMemberClause(arena, obj);
    var fields := ClauseFields(arena, [obj]);
    assert |fields| == |FieldsOf(arena, obj)| by {
      assert fields.Keys == FieldsOf(arena, obj).Keys;
    }
    assert SelectArgs(arena, check, ASpec(spec), [[obj]]) <==> ClauseAdmits(arena, check, ASpec(spec), fields) by {
      assert [[obj]][0] == [obj];
    }
  }

  /**
    A polymorphic target admits a selection exactly when one of its
    variants does: joining two targets admits what either admits.
   */
  lemma {:induction false} VariantsDistribute(arena: Arena, check: Check, spec: Arg, t1: Target, t2: Target)
    ensures SelectArgs(arena, check, spec, t1 + t2) <==> SelectArgs(arena, check, spec, t1) || SelectArgs(arena, check, spec, t2)
  {
    if SelectArgs(arena, check, spec, t1 + t2) {
      JoinedVariantAdmits(arena, check, spec, t1, t2);
    }
    if SelectArgs(arena, check, spec, t1) || SelectArgs(arena, check, spec, t2) {
      VariantAdmitsJoined(arena, check, spec, t1, t2);
    }
  }

  lemma JoinedVariantAdmits(arena: Arena, check: Check, spec: Arg, t1: Target, t2: Target)
    requires SelectArgs(arena, check, spec, t1 + t2)
    ensures SelectArgs(arena, check, spec, t1) || SelectArgs(arena, check, spec, t2)
  {
    var t := t1 + t2;
    var i :| 0 <= i < |t| && ClauseAdmits(arena, check, spec, ClauseFields(arena, t[i]));
    if i < |t1| {
      assert t[i] == t1[i];
    } else {
      assert t[i] == t2[i - |t1|];
    }
  }

  lemma VariantAdmitsJoined(arena: Arena, check: Check, spec: Arg, t1: Target, t2: Target)
    requires SelectArgs(arena, check, spec, t1) || SelectArgs(arena, check, spec, t2)
    ensures SelectArgs(arena, check, spec, t1 + t2)
  {
    var t := t1 + t2;
    if SelectArgs(arena, check, spec, t1) {
      var i :| 0 <= i < |t1| && ClauseAdmits(arena, check, spec, ClauseFields(arena, t1[i]));
      assert t[i] == t1[i];
    } else {
      var i :| 0 <= i < |t2| && ClauseAdmits(arena, check, spec, ClauseFields(arena, t2[i]));
      assert t[|t1| + i] == t2[i];
    }
  }

  /**
    Once a selection names some field of the object, an entry for a name
    the object lacks is never checked, whatever its directive.
   */
  lemma UnknownKeyUnchecked(arena: Arena, check: Check, spec: map<FieldName, Arg>, obj: ObjName, k: FieldName, d: Arg)
    requires SelectArgs(arena, check, ASpec(spec), [[obj]])
    requires k !in FieldsOf(arena, obj)
    requires exists j :: j in spec && j in FieldsOf(arena, obj)
    ensures SelectArgs(arena, check, ASpec(spec[k := d]), [[obj]])
  {
    SingleObjectAdmits(arena, check, spec, obj);
    SingleObjectAdmits(arena, check, spec[k := d], obj);
    var j :| j in spec && j in FieldsOf(arena, obj);
    assert j in spec[k := d];
  }

  /**
    A selection whose only entry names no field of a non-empty object is
    rejected, even when that entry is a `Computable`: the select-args type
    is weak, and the selection shares no key with it.
   */
  lemma LoneUnknownKeyRejected(arena: Arena, check: Check, obj: ObjName, k: FieldName, d: Arg)
    requires |FieldsOf(arena, obj)| > 0
    requires k !in FieldsOf(arena, obj)
    ensures !SelectArgs(arena, check, ASpec(map[k := d]), [[obj]])
  {
    SingleObjectAdmits(arena, check, map[k := d], obj);
  }

  /**
    A field that is neither a property nor a link admits only `undefined`
    (the optional key's own value), and so does a clash; every field admits
    `undefined`.
   */
  lemma OtherFieldsAdmitNothing(arena: Arena, check: Check, d: Arg, ty: Ty, f: Merged)
    ensures DirectiveAdmits(arena, check, d, Agreed(ComputableDesc(ty))) <==> d.AUndefined?
    ensures DirectiveAdmits(arena, check, d, Clash) <==> d.AUndefined?
    ensures DirectiveAdmits(arena, check, AUndefined, f)
  {
  }

  /** An empty target admits no selection, and a directive that is not an object is never a selection. */
  lemma NothingSelectsEmptyTarget(arena: Arena, check: Check, spec: Arg, view: Target)
    ensures |view| == 0 ==> !SelectArgs(arena, check, spec, view)
    ensures !spec.ASpec? ==> !SelectArgs(arena, check, spec, view)
  {
  }

  /**
    Under the intended override check, an admissible property directive
    resolves to the declared scalar, `undefined`, or their union.
   */
  lemma AdmittedDirectiveKeepsScalar(arena: Arena, d: Arg, s: Scalar, c: Cardinality)
    requires DirectiveAdmits(arena, Intended, d, Agreed(PropertyDesc(s, c)))
    ensures Alts(UnpackBoolArg(d, TScalar(s))) <= {TScalar(s), TUndefined}
  {
  }

  /**
    Under the intended override check, an admitted directive never changes
    the type of a property field: the result is its declared scalar,
    `undefined`, or their union.
   */
  lemma AdmittedPropertyKeepsScalar(arena: Arena, spec: map<FieldName, Arg>, obj: ObjName, k: FieldName)
    requires SelectArgs(arena, Intended, ASpec(spec), [[obj]])
    requires k in spec && k in FieldsOf(arena, obj) && FieldsOf(arena, obj)[k].PropertyDesc?
    ensures k in Result(arena, spec, obj)
    ensures Alts(Result(arena, spec, obj)[k]) <= {TScalar(FieldsOf(arena, obj)[k].scalar), TUndefined}
  {
    var desc := FieldsOf(arena, obj)[k];
    SingleObjectAdmits(arena, Intended, spec, obj);
    assert DirectiveAdmits(arena, Intended, spec[k], Agreed(desc));
    OneMemberClause(arena, obj);
    assert k in ViewKeys(arena, [[obj]]);
    assert FieldAt(arena, [[obj]], k) == PropView(TScalar(desc.scalar)) by {
      assert [[obj]][0] == [obj];
    }
    PropertyEntryUnpacks(arena, spec, [[obj]], k);
    AdmittedDirectiveKeepsScalar(arena, spec[k], desc.scalar, desc.card);
  }

  /** A selection entry on a field every clause has resolves through `ResolveKey`. */
  lemma PropertyEntryUnpacks(arena: Arena, spec: map<FieldName, Arg>, view: Target, k: FieldName)
    requires k in spec && k in ViewKeys(arena, view) && FieldAt(arena, view, k).PropView?
    ensures k in ResultFields(arena, ASpec(spec), view)
    ensures ResultFields(arena, ASpec(spec), view)[k] == UnpackBoolArg(spec[k], FieldAt(arena, view, k).ppt)
  {
  }

  /** With the override check as TypeScript performs it, a property of another scalar type is admitted. */
  lemma PhantomScalarOverride(arena: Arena, s: Scalar, other: Scalar, c: Cardinality)
    requires s != other
    ensures DirectiveAdmits(arena, AsWritten, AProp(other, c), Agreed(PropertyDesc(s, c)))
    ensures !DirectiveAdmits(arena, Intended, AProp(other, c), Agreed(PropertyDesc(s, c)))
  {
  }

  /** Whatever the intended validator admits, TypeScript's admits too. */
  lemma {:induction false} IntendedAdmitsLess(arena: Arena, spec: Arg, view: Target)
    decreases spec, 1
    ensures SelectArgs(arena, Intended, spec, view) ==> SelectArgs(arena, AsWritten, spec, view)
  {
    if SelectArgs(arena, Intended, spec, view) {
      var i :| 0 <= i < |view| && ClauseAdmits(arena, Intended, spec, ClauseFields(arena, view[i]));
      var fields := ClauseFields(arena, view[i]);
      forall k | k in spec.fields && k in fields
        ensures DirectiveAdmits(arena, AsWritten, spec.fields[k], fields[k])
      {
        DirectiveIntendedAdmitsLess(arena, spec.fields[k], fields[k]);
      }
      assert ClauseAdmits(arena, AsWritten, spec, fields);
    }
  }

  lemma {:induction false} DirectiveIntendedAdmitsLess(arena: Arena, d: Arg, f: Merged)
    decreases d, 2
    ensures DirectiveAdmits(arena, Intended, d, f) ==> DirectiveAdmits(arena, AsWritten, d, f)
  {
    if f.Agreed? && f.desc.LinkDesc? {
      IntendedAdmitsLess(arena, d, f.desc.target);
    }
  }
}

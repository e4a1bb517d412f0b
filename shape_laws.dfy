/**
  What the shape resolver promises: which keys a result has, what each
  kind of directive resolves to, and that cardinality never changes a
  result.
 */
module ShapeLaws {
  import opened Schema
  import opened Targets
  import opened Shapes

  /**
    The result has the keys present in both the target and the selection,
    plus the selection keys the target lacks: for a spec, or any directive
    that is not a boolean, that is exactly the selection's keys. A boolean
    directive keeps only its members the target has. A target field the
    selection does not mention never appears.
   */
  lemma ResultKeySet(arena: Arena, args: Arg, view: Target)
    ensures ResultFields(arena, args, view).Keys <= Members(args).Keys
    ensures !IsBoolean(args) ==> ResultFields(arena, args, view).Keys == Members(args).Keys
    ensures IsBoolean(args) ==> ResultFields(arena, args, view).Keys == ViewKeys(arena, view) * {"valueOf"}
    ensures forall k :: k in ViewKeys(arena, view) && k !in Members(args) ==> k !in ResultFields(arena, args, view)
  {
  }

  /**
    A property field: `true` gives its scalar type, `false` gives
    `undefined` (the key stays), `boolean` gives scalar or `undefined`, a
    `Property<P, C>` directive gives `P`, and any other directive the
    declared scalar.
   */
  lemma PropertyDirective(arena: Arena, spec: map<FieldName, Arg>, view: Target, k: FieldName)
    requires k in spec && k in ViewKeys(arena, view) && FieldAt(arena, view, k).PropView?
    ensures k in ResultFields(arena, ASpec(spec), view)
    ensures var r, p := ResultFields(arena, ASpec(spec), view)[k], FieldAt(arena, view, k).ppt;
      && (spec[k] == ATrue ==> r == p)
      && (spec[k] == AFalse ==> r == TUndefined)
      && (spec[k] == ABool ==> Alts(r) == Alts(p) + {TUndefined})
      && (spec[k].AProp? ==> r == TScalar(spec[k].scalar))
      && (!IsBoolean(spec[k]) && !spec[k].AProp? ==> r == p)
  {
  }

  /**
    A link field resolves the nested directive against the link's target,
    and the nested shape is never wrapped as a collection; a boolean
    directive keeps only the members of `boolean` the target has, so on a
    target without a `valueOf` field `friends: true` gives `{}`.
   */
  lemma LinkDirective(arena: Arena, spec: map<FieldName, Arg>, view: Target, k: FieldName)
    requires k in spec && k in ViewKeys(arena, view) && FieldAt(arena, view, k).LinkView?
    ensures k in ResultFields(arena, ASpec(spec), view)
    ensures ResultFields(arena, ASpec(spec), view)[k]
      == TShape(ResultFields(arena, spec[k], FieldAt(arena, view, k).target))
    ensures IsBoolean(spec[k]) ==>
      ResultFields(arena, ASpec(spec), view)[k].fields.Keys == ViewKeys(arena, FieldAt(arena, view, k).target) * {"valueOf"}
  {
    ResultKeySet(arena, spec[k], FieldAt(arena, view, k).target);
  }

  /**
    A selection key the target lacks resolves to `CT` when its directive is
    a `Computable<CT>` and to `never` otherwise; a target field that is
    neither a property nor a link resolves to `unknown`.
   */
  lemma AbsentAndOtherFields(arena: Arena, spec: map<FieldName, Arg>, view: Target, k: FieldName)
    requires k in spec
    ensures k in ResultFields(arena, ASpec(spec), view)
    ensures k !in ViewKeys(arena, view) ==>
      ResultFields(arena, ASpec(spec), view)[k] == if spec[k].AComp? then spec[k].ty else TNever
    ensures k in ViewKeys(arena, view) && FieldAt(arena, view, k).OtherView? ==>
      ResultFields(arena, ASpec(spec), view)[k] == TUnknown
  {
  }

  /** A result is determined entry by entry: the spec's keys, each resolved by `ResolveKey`. */
  lemma ResultFromEntries(arena: Arena, spec: map<FieldName, Arg>, view: Target, e: map<FieldName, Ty>)
    requires e.Keys == spec.Keys
    requires forall k :: k in spec ==> ResolveKey(arena, spec[k], view, k) == e[k]
    ensures ResultFields(arena, ASpec(spec), view) == e
  {
    ResultKeySet(arena, ASpec(spec), view);
  }

  /**
    A directive that is not a spec resolves only its interface members, each
    as a leaf; a boolean directive only those the target has.
   */
  lemma LeafResult(arena: Arena, args: Arg, view: Target)
    requires !args.ASpec?
    ensures !IsBoolean(args) ==> ResultFields(arena, args, view) == map k | k in Members(args) :: LeafKey(arena, view, k)
    ensures IsBoolean(args) ==>
      ResultFields(arena, args, view) == map k | k in Members(args) && k in ViewKeys(arena, view) :: LeafKey(arena, view, k)
  {
    ResultKeySet(arena, args, view);
  }

  /** An interface member of a non-spec directive resolves like any directive that is neither a spec nor a `Computable`. */
  lemma LeafKeyIsOther(arena: Arena, view: Target, k: FieldName)
    ensures LeafKey(arena, view, k) == ResolveKey(arena, AOther, view, k)
  {
    if k in ViewKeys(arena, view) && FieldAt(arena, view, k).LinkView? {
      ResultKeySet(arena, AOther, FieldAt(arena, view, k).target);
    }
  }

  // ---------------------------------------------------------------------
  // Cardinality is never consulted.

  function EraseCard(d: Descriptor): Descriptor
  {
    match d
    case PropertyDesc(s, _) => PropertyDesc(s, One)
    case LinkDesc(t, _) => LinkDesc(t, One)
    case ComputableDesc(_) => d
  }

  /** The same schema with every cardinality replaced by `One`. */
  function EraseCards(arena: Arena): Arena
  {
    map n | n in arena :: map k | k in arena[n] :: EraseCard(arena[n][k])
  }

  function EraseMerged(m: Merged): Merged
  {
    if m.Agreed? then Agreed(EraseCard(m.desc)) else Clash
  }

  /**
    No two objects declare one field name with descriptors that differ in
    cardinality alone; only then could an intersection of them notice a
    cardinality.
   */
  ghost predicate NoCardinalityClash(arena: Arena)
  {
    forall a, b, k ::
      (a in arena && b in arena && k in arena[a] && k in arena[b] && EraseCard(arena[a][k]) == EraseCard(arena[b][k]))
      ==> arena[a][k] == arena[b][k]
  }

  lemma {:induction false} EraseClause(arena: Arena, clause: seq<ObjName>, k: FieldName)
    requires NoCardinalityClash(arena)
    decreases |clause|
    ensures k in ClauseFields(EraseCards(arena), clause) <==> k in ClauseFields(arena, clause)
    ensures k in ClauseFields(arena, clause) ==>
      ClauseFields(EraseCards(arena), clause)[k] == EraseMerged(ClauseFields(arena, clause)[k])
  {
    if clause != [] {
      var e := EraseCards(arena);
      var tail := clause[1..];
      EraseClause(arena, tail, k);
      var head := FieldsOf(arena, clause[0]);
      var rest := ClauseFields(arena, tail);
      if k in head && k in rest && rest[k].Agreed? && rest[k].desc != head[k] {
        ClauseFieldsKeys(arena, tail, k);
        var j :| 0 <= j < |tail| && k in FieldsOf(arena, tail[j]);
        ClauseFieldsAgree(arena, tail, k, rest[k].desc);
        assert FieldsOf(arena, tail[j])[k] == rest[k].desc;
        assert tail[j] in arena && clause[0] in arena;
        assert EraseCard(rest[k].desc) != EraseCard(head[k]);
      }
    }
  }

  lemma ClauseViewErased(arena: Arena, clause: seq<ObjName>, k: FieldName)
    requires NoCardinalityClash(arena)
    ensures ClauseView(EraseCards(arena), clause, k) == ClauseView(arena, clause, k)
  {
    EraseClause(arena, clause, k);
  }

  lemma {:induction false} ViewKeysErased(arena: Arena, t: Target, k: FieldName)
    requires NoCardinalityClash(arena)
    decreases |t|
    ensures k in ViewKeys(EraseCards(arena), t) <==> k in ViewKeys(arena, t)
  {
    if |t| > 0 {
      EraseClause(arena, t[0], k);
    }
    if |t| > 1 {
      ViewKeysErased(arena, t[1..], k);
    }
  }

  lemma {:induction false} FieldAtErased(arena: Arena, t: Target, k: FieldName)
    requires NoCardinalityClash(arena) && k in ViewKeys(arena, t)
    decreases |t|
    ensures k in ViewKeys(EraseCards(arena), t)
    ensures FieldAt(EraseCards(arena), t, k) == FieldAt(arena, t, k)
  {
    ViewKeysErased(arena, t, k);
    ClauseViewErased(arena, t[0], k);
    if |t| > 1 {
      FieldAtErased(arena, t[1..], k);
    }
  }

  /** The resolved shape is the same whatever cardinalities the schema declares. */
  lemma {:induction false} CardinalityIgnored(arena: Arena, args: Arg, view: Target)
    requires NoCardinalityClash(arena)
    decreases args, 0
    ensures ResultFields(EraseCards(arena), args, view) == ResultFields(arena, args, view)
  {
    var e := EraseCards(arena);
    forall k ensures k in ViewKeys(e, view) <==> k in ViewKeys(arena, view) {
      ViewKeysErased(arena, view, k);
    }
    assert ResultKeys(e, args, view) == ResultKeys(arena, args, view);
    if args.ASpec? {
      forall k | k in ResultKeys(arena, args, view)
        ensures ResolveKey(e, args.fields[k], view, k) == ResolveKey(arena, args.fields[k], view, k)
      {
        ResolveKeyErased(arena, args.fields[k], view, k);
      }
    } else {
      forall k | k in ResultKeys(arena, args, view)
        ensures LeafKey(e, view, k) == LeafKey(arena, view, k)
      {
        LeafKeyErased(arena, view, k);
      }
    }
  }

  lemma LeafKeyErased(arena: Arena, view: Target, k: FieldName)
    requires NoCardinalityClash(arena)
    ensures LeafKey(EraseCards(arena), view, k) == LeafKey(arena, view, k)
  {
    ViewKeysErased(arena, view, k);
    if k in ViewKeys(arena, view) {
      FieldAtErased(arena, view, k);
    }
  }

  lemma {:induction false} ResolveKeyErased(arena: Arena, d: Arg, view: Target, k: FieldName)
    requires NoCardinalityClash(arena)
    decreases d, 1
    ensures ResolveKey(EraseCards(arena), d, view, k) == ResolveKey(arena, d, view, k)
  {
    ViewKeysErased(arena, view, k);
    if k in ViewKeys(arena, view) {
      FieldAtErased(arena, view, k);
      if FieldAt(arena, view, k).LinkView? {
        CardinalityIgnored(arena, d, FieldAt(arena, view, k).target);
      }
    }
  }
}

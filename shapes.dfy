/**
  The shape resolver: `_UnpackBoolArg`, `_OnlyArgs` and `_Result`
  (src/m3.ts:66-92).

  `ResultFields(arena, args, view)` is `_Result<Args, T>` with `Args` the
  selection (`args`) and `T` the flattened target described by `view` (for a
  top-level `shape` call, the single object itself). The recursion follows
  the selection, never the schema, so cyclic schemas are no obstacle.
  `Expand` (src/m3.ts:60-64) only flattens the result for display and is
  treated as the identity. That is exact for `string`, `number`, `boolean`,
  literal types and shapes; for a `Date` in a result TypeScript maps each
  method of `Date` to `{}`, and the model keeps `Date`.
 */
module Shapes {
  import opened Schema
  import opened Targets

  /** `_UnpackBoolArg<Arg, T>`: the type a property field gets for directive `d`, `t` being its declared scalar. */
  function UnpackBoolArg(d: Arg, t: Ty): (r: Ty)
    ensures d.AProp? ==> r == TScalar(d.scalar)
    ensures !d.AProp? ==> Alts(r) <= Alts(t) + {TUndefined}
  {
    match d
    case ATrue => t
    case AFalse => TUndefined
    case ABool => Or(t, TUndefined)
    case AProp(s, _) => TScalar(s)
    case _ => t
  }

  /**
    `_OnlyArgs<Args, T>`: the entries of the selection that name no field of
    the target. The mapped type over `keyof Args` is homomorphic, and a
    homomorphic mapped type applied to a primitive is that primitive, so for
    `true`, `false` or `boolean` the result is `boolean["valueOf"]`, a method
    type and no key.
   */
  function OnlyArgs(arena: Arena, args: Arg, view: Target): (r: set<FieldName>)
    ensures r <= Members(args).Keys
    ensures forall k :: k in r ==> k !in ViewKeys(arena, view)
    ensures !IsBoolean(args) ==> forall k :: k in Members(args) && k !in ViewKeys(arena, view) ==> k in r
    ensures IsBoolean(args) ==> r == {}
  {
    if IsBoolean(args) then {} else set k | k in Members(args) && k !in ViewKeys(arena, view)
  }

  /** The keys of `_Result<Args, T>`: `(keyof T & keyof Args) | _OnlyArgs<Args, T>`. */
  function ResultKeys(arena: Arena, args: Arg, view: Target): set<FieldName>
  {
    (ViewKeys(arena, view) * Members(args).Keys) + OnlyArgs(arena, args, view)
  }

  /** `_Result<Args, T>`. */
  function ResultFields(arena: Arena, args: Arg, view: Target): (r: map<FieldName, Ty>)
    decreases args, 0
    ensures r.Keys == ResultKeys(arena, args, view)
  {
    if args.ASpec? then
      map k | k in ResultKeys(arena, args, view) :: ResolveKey(arena, args.fields[k], view, k)
    else
      map k | k in ResultKeys(arena, args, view) :: LeafKey(arena, view, k)
  }

  /** The type `_Result` gives to one entry `k` whose directive is `d`. */
  function ResolveKey(arena: Arena, d: Arg, view: Target, k: FieldName): Ty
    decreases d, 1
  {
    if k in ViewKeys(arena, view) then
      match FieldAt(arena, view, k)
      case PropView(ppt) => UnpackBoolArg(d, ppt)
      case LinkView(t) => TShape(ResultFields(arena, d, t))
      case OtherView => TUnknown
    else if d.AComp? then d.ty
    else TNever
  }

  /**
    The type `_Result` gives to a member of a directive's interface (a
    string, an enum member or a function, none of them a nested spec or a
    `Computable`), when a non-spec directive stands for a link.
   */
  function LeafKey(arena: Arena, view: Target, k: FieldName): Ty
  {
    if k in ViewKeys(arena, view) then
      match FieldAt(arena, view, k)
      case PropView(ppt) => ppt
      case LinkView(_) => TShape(map[])
      case OtherView => TUnknown
    else TNever
  }

  /** `Result<Spec, typeof O>`: the shape a `shape(spec)` call on object `obj` declares. */
  function Result(arena: Arena, spec: map<FieldName, Arg>, obj: ObjName): (r: map<FieldName, Ty>)
    ensures r.Keys == spec.Keys
  {
    ResultFields(arena, ASpec(spec), [[obj]])
  }
}

/**
  The selection validator: `MakeSelectArgs` (src/m3.ts:94-104).

  `shape` is declared as `<Spec extends MakeSelectArgs<T>>(spec: Spec)`, so
  a selection is admissible when its inferred type is assignable to
  `MakeSelectArgs<T>`. That mapped type makes every key optional and, being
  homomorphic, distributes over the variants of a polymorphic target. For
  each key of the target it admits:
  - a property field: the same `Property`, a `Computable` of its scalar, or
    a boolean;
  - a link field: the same `Link`, a nested selection for the link's
    unpacked target, a `Computable` of that target, or a boolean;
  - any other field: nothing;
  and, the key being optional, `undefined` on every field.
  Keys the target lacks are not checked (the type argument is inferred, so
  there is no excess-property check), except that a type whose properties
  are all optional is "weak" in TypeScript: a non-empty selection must
  share at least one key with it.

  The validator takes the override check as a parameter: `AsWritten` is the
  check TypeScript performs, `Intended` the one the code means.
 */
module Selection {
  import opened Schema
  import opened Targets

  /**
    The `Property<P, C>` override as `MakeSelectArgs` means it: the very
    same property type, scalar included.
   */
  predicate PropertyOverrideIntended(d: Arg, s: Scalar, c: Cardinality)
  {
    d == AProp(s, c)
  }

  /**
    The `Property<P, C>` override as TypeScript checks it: no member of
    `Property` mentions its scalar parameter, so two `Property` types with
    one cardinality are assignable to each other whatever their scalars.
   */
  predicate PropertyOverrideAsWritten(d: Arg, s: Scalar, c: Cardinality)
  {
    d.AProp? && d.card == c
  }

  /** Which override check the validator applies: TypeScript's, or the intended one. */
  datatype Check = AsWritten | Intended

  predicate PropertyOverride(check: Check, d: Arg, s: Scalar, c: Cardinality)
  {
    match check
    case AsWritten => PropertyOverrideAsWritten(d, s, c)
    case Intended => PropertyOverrideIntended(d, s, c)
  }

  /** Whether `spec` is assignable to `MakeSelectArgs<UnpackDNF<view>>`: to the select-args of some variant. */
  predicate SelectArgs(arena: Arena, check: Check, spec: Arg, view: Target)
    decreases spec, 1
    ensures SelectArgs(arena, check, spec, view) ==> spec.ASpec? && |view| > 0
  {
    spec.ASpec? && exists i :: 0 <= i < |view| && ClauseAdmits(arena, check, spec, ClauseFields(arena, view[i]))
  }

  /** Whether `spec` is assignable to `MakeSelectArgs` of one variant whose fields are `fields`. */
  predicate ClauseAdmits(arena: Arena, check: Check, spec: Arg, fields: map<FieldName, Merged>)
    requires spec.ASpec?
    decreases spec, 0
    ensures ClauseAdmits(arena, check, spec, fields) ==>
      forall k :: k in spec.fields && k in fields && !spec.fields[k].AUndefined? ==>
        fields[k].Agreed? && !fields[k].desc.ComputableDesc?
  {
    && (|fields| == 0 || |spec.fields| == 0 || exists k :: k in spec.fields && k in fields)
    && forall k :: k in spec.fields && k in fields ==> DirectiveAdmits(arena, check, spec.fields[k], fields[k])
  }

  /**
    The directive forms admissible for one field. Every key is optional, so
    `undefined` is admitted anywhere; a clash or a field that is neither
    property nor link admits nothing else.
   */
  predicate DirectiveAdmits(arena: Arena, check: Check, d: Arg, f: Merged)
    decreases d, 2
    ensures DirectiveAdmits(arena, check, d, f) && !d.AUndefined? ==> f.Agreed? && !f.desc.ComputableDesc?
  {
    d.AUndefined? ||
    match f
    case Agreed(PropertyDesc(s, c)) =>
      IsBoolean(d) || PropertyOverride(check, d, s, c) || (d.AComp? && Assignable(d.ty, TScalar(s)))
    case Agreed(LinkDesc(t, c)) =>
      IsBoolean(d) || d == ALink(t, c) || SelectArgs(arena, check, d, t) || (d.AComp? && Assignable(d.ty, UnpackDNF(t)))
    case _ => false
  }
}

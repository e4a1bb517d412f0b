/**
  The data model of the selection-and-shape engine: schema descriptors,
  the types a selection resolves to, and the directives a selection spec
  may hold.

  The engine in `src/m3.ts` is written as TypeScript types, so the Dafny
  values below stand for TypeScript *types*: a `Descriptor` is the type of
  one schema getter, an `Arg` is the type of one entry of a selection spec
  (or of the whole spec), and a `Ty` is what the conditional types compute.
 */
module Schema {

  /** `enum Kind`: a numeric TypeScript enum (computable = 0, property = 1, link = 2). */
  datatype Kind = Computable | Property | Link

  /** The number TypeScript assigns to each member of `enum Kind`. */
  function KindCode(k: Kind): (n: nat)
    ensures n < 3
  {
    match k
    case Computable => 0
    case Property => 1
    case Link => 2
  }

  /** Distinct members of `enum Kind` have distinct numbers. */
  lemma KindCodeInjective(a: Kind, b: Kind)
    ensures KindCode(a) == KindCode(b) <==> a == b
  {
  }

  /** `enum Cardinality`. */
  datatype Cardinality = AtMostOne | One | Many | AtLeastOne

  /** The scalar types a property may carry and `literal` accepts. */
  datatype Scalar = Str | Num | Bool | Date

  /** A constant handed to `literal`; numbers are modelled as integers. */
  datatype Value = NumV(n: int) | StrV(s: string) | BoolV(b: bool) | DateV(epochMs: int)

  type ObjName = string
  type FieldName = string

  /** A link target: a disjunction (outer) of conjunctions (inner) of objects. */
  type Target = seq<seq<ObjName>>

  /** The types the conditional types of the engine produce. */
  datatype Ty =
    | TScalar(scalar: Scalar)
    | TLit(lit: Value)                   // a literal type such as `42`
    | TUndefined
    | TUnknown
    | TNever
    | TObject(obj: ObjName)              // `typeof bases.X`
    | TInter(parts: seq<Ty>)             // `A & B & ...`
    | TUnion(alts: set<Ty>)              // `A | B | ...`
    | TShape(fields: map<FieldName, Ty>) // an object type `{k: T, ...}`

  /** The type of a schema getter: `Property<P, C>`, `Link<T, C>` or a `Computable<T>` field. */
  datatype Descriptor =
    | PropertyDesc(scalar: Scalar, card: Cardinality)
    | LinkDesc(target: Target, card: Cardinality)
    | ComputableDesc(ty: Ty)

  /** A schema object: its getters, keyed by field name. */
  type Object = map<FieldName, Descriptor>

  /** All schema objects, keyed by name; links refer to objects by name, so cycles are plain references. */
  type Arena = map<ObjName, Object>

  /** The fields of a named object; a name the arena lacks has none. */
  function FieldsOf(arena: Arena, n: ObjName): (f: Object)
    ensures n in arena ==> f == arena[n]
    ensures n !in arena ==> f == map[]
  {
    if n in arena then arena[n] else map[]
  }

  /**
    The TypeScript type of one selection-spec entry, or of a whole spec.
    `ATrue`, `AFalse` and `ABool` are `true`, `false` and `boolean`;
    `AProp`, `ALink` and `AComp` are `Property<P, C>`, `Link<T, C>` and
    `Computable<T>`; `ASpec` is a nested object of entries; `AUndefined`
    is `undefined`, which every optional key accepts; `AOther` is any other
    type (a number, a string, an enum member, a function).
   */
  datatype Arg =
    | ATrue
    | AFalse
    | ABool
    | AProp(scalar: Scalar, card: Cardinality)
    | ALink(target: Target, card: Cardinality)
    | AComp(ty: Ty)
    | ASpec(fields: map<FieldName, Arg>)
    | AUndefined
    | AOther

  predicate IsBoolean(a: Arg)
  {
    a.ATrue? || a.AFalse? || a.ABool?
  }

  /**
    `keyof` and the member types of a directive. A nested spec has its own
    entries; the other directives have the members of their interface
    (`keyof boolean` is `"valueOf"`; `Property` has `kind`, `name` and
    `cardinality`; `Link` adds `target`; `Computable` has `kind`, `name`
    and `__type`). Those members are strings, enum members, functions or
    tuples, all of them `AOther` here.
   */
  function Members(a: Arg): (m: map<FieldName, Arg>)
    ensures a.ASpec? ==> m == a.fields
    ensures !a.ASpec? ==> forall k :: k in m ==> m[k] == AOther
    ensures IsBoolean(a) ==> m.Keys == {"valueOf"}
    ensures a.AProp? ==> m.Keys == {"kind", "name", "cardinality"}
    ensures a.ALink? ==> m.Keys == {"kind", "name", "cardinality", "target"}
    ensures a.AComp? ==> m.Keys == {"kind", "name", "__type"}
    ensures a.AUndefined? || a.AOther? ==> m == map[]
  {
    match a
    case ASpec(fields) => fields
    case ATrue => map["valueOf" := AOther]
    case AFalse => map["valueOf" := AOther]
    case ABool => map["valueOf" := AOther]
    case AProp(_, _) => map["kind" := AOther, "name" := AOther, "cardinality" := AOther]
    case ALink(_, _) => map["kind" := AOther, "name" := AOther, "cardinality" := AOther, "target" := AOther]
    case AComp(_) => map["kind" := AOther, "name" := AOther, "__type" := AOther]
    case AUndefined => map[]
    case AOther => map[]
  }

  /** `T | U`, flattening unions one level. */
  function Or(a: Ty, b: Ty): (r: Ty)
    ensures a == b ==> r == a
    ensures Alts(r) == Alts(a) + Alts(b)
  {
    if a == b then a else TUnion(Alts(a) + Alts(b))
  }

  /** The members of a union, or the type itself. */
  function Alts(t: Ty): (s: set<Ty>)
    ensures t.TUnion? ==> s == t.alts
    ensures !t.TUnion? ==> s == {t}
  {
    if t.TUnion? then t.alts else {t}
  }

  /** The base type a literal type widens to. */
  function Widen(t: Ty): (r: Ty)
    ensures !t.TLit? ==> r == t
    ensures t.TLit? ==> r.TScalar?
  {
    match t
    case TLit(NumV(_)) => TScalar(Num)
    case TLit(StrV(_)) => TScalar(Str)
    case TLit(BoolV(_)) => TScalar(Bool)
    // TypeScript has no `Date` literal types and `literal` never builds one;
    // the case keeps `Widen` total over every `Ty`.
    case TLit(DateV(_)) => TScalar(Date)
    case _ => t
  }

  /**
    A type that is no union is assignable to `u` when it is `u`, a literal
    of `u`, or either of those for some member of the union `u`.
   */
  predicate MemberAssignable(a: Ty, u: Ty)
  {
    || a == u
    || (a.TLit? && Widen(a) == u)
    || (u.TUnion? && (a in u.alts || (a.TLit? && Widen(a) in u.alts)))
  }

  /** `t` is assignable to `u`: every member of `t` is. */
  predicate Assignable(t: Ty, u: Ty)
  {
    forall a :: a in Alts(t) ==> MemberAssignable(a, u)
  }

  /** Every type is assignable to itself, and a literal to its base type. */
  lemma AssignableBasics(t: Ty)
    ensures Assignable(t, t)
    ensures t.TLit? ==> Assignable(t, Widen(t))
  {
  }
}

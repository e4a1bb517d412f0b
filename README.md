# Selection-and-shape engine, modelled in Dafny

`src/m3.ts` prototypes the typed query builder of a database client almost
entirely at the TypeScript type level. A schema object (`bases.User`,
`bases.Preferences`, `bases.LegacyPreferences`) exposes one getter per field.
Each getter returns a `Property<Scalar, Cardinality>`, a
`Link<Target, Cardinality>` or a `Computable<T>` descriptor. A link's target
is a disjunction of conjunctions of objects. `User.shape(spec)` accepts a
selection spec only when it is assignable to `MakeSelectArgs<typeof bases.User>`
(the validator). It returns a `Query` whose type argument is
`Result<Spec, typeof bases.User>` (the shape resolver). `literal`, `std.ops.plus`
and `std.len` build the `Computable` expressions a spec may use as
aliases.

The Dafny values stand for the TypeScript *types* those conditional types
compute:

- `Schema.Descriptor` is the type of a getter.
- `Schema.Arg` is the type of one spec entry.
- `Schema.Ty` is a resolved type.
- The schema is an arena `map<ObjName, map<FieldName, Descriptor>>`. Link
  targets are `seq<seq<ObjName>>`, so the cycle `User.friends -> User` is
  only a name reference.

The modules:

| file | module | models |
|---|---|---|
| `wrappers.dfy` | `Wrappers` | `Option` and `Result` |
| `schema.dfy` | `Schema` | `Kind`, `Cardinality`, descriptors, directive types, `keyof` of a directive, unions, assignability |
| `targets.dfy` | `Targets` | `Intersect` and `UnpackDNF`: the keys and field types of a flattened link target |
| `shapes.dfy` | `Shapes` | `_UnpackBoolArg`, `_OnlyArgs`, `_Result`, `Result` |
| `shape_laws.dfy` | `ShapeLaws` | what the resolver promises, including that cardinality never changes a result |
| `selection.dfy` | `Selection` | `MakeSelectArgs`, the validator |
| `selection_laws.dfy` | `SelectionLaws` | what the validator admits and what an admitted selection resolves to |
| `expressions.dfy` | `Expressions` | `literal`, `std.ops.plus`, `std.len` |
| `query.dfy` | `Query` | `X.shape(spec)` |
| `sample.dfy` | `Sample` | the `bases` schema and the selections written against it |

Where the documented intent of the engine and the code differ, the model
follows the code:

- `false` keeps the key, typed `undefined`. It does not drop the key.
- Cardinality is never consulted. A `Many` link is not wrapped as a
  collection, and an `AtMostOne` property is not made optional.
- A `Computable` directive on a property resolves to the property's declared
  scalar, not to the computable's type. `_UnpackBoolArg` falls through to
  `T`.
- A spec key the object lacks is not rejected by itself, because the spec's
  type is inferred and no excess-property check applies.
  - Such a key resolves to the computable's type if it holds a
    `Computable`, and to `never` otherwise.
  - `MakeSelectArgs` makes every key optional, so it is a "weak" type. A
    spec that shares no key with the object is rejected, so the lone alias
    `{zzz: std.len(User.name)}` does not type-check, although its result
    type would be `{zzz: number}`.
- `MakeSelectArgs` distributes over the variants of a polymorphic target.
  A field only one variant has (`preferences: {value: true}`) is therefore
  admitted, but resolves to `never`.
- Every key of `MakeSelectArgs` is optional, so a spec entry may be
  `undefined` on any field, even one the validator otherwise refuses. Such
  an entry resolves like any directive that is neither a spec nor a
  `Computable`: the declared scalar on a property, `{}` on a link, `never`
  for a key the object lacks.
- Rejections carry no error kind or field path. A rejected `shape` call is
  simply not a valid call.
- A `true`, `false` or `boolean` directive on a link keeps only the members
  of `boolean` the target has. `_OnlyArgs` applies a homomorphic mapped type
  to the primitive, which gives the primitive back, so it adds no key.
  `User.shape({friends: true})` therefore types `friends` as `{}`.
- The validator takes the `Property` override check as a parameter.
  `AsWritten` is the check TypeScript performs, and `Query.Shape` uses it.
  `Intended` is the check the code means; it is used only to state the
  findings below.

## Model

| member | source | states |
|---|---|---|
| Schema.KindCode | src/m3.ts:17-21 | every member of `enum Kind` is numbered 0, 1 or 2 |
| Schema.KindCodeInjective | src/m3.ts:17-21 | two members of `Kind` have the same number exactly when they are the same member |
| Schema.Members | src/m3.ts:30-56 | `keyof` of a directive: a nested spec has its own entries; `true`/`false`/`boolean` have only `valueOf`; `Property` has exactly `kind`, `name`, `cardinality`, `Link` those and `target`, `Computable` exactly `kind`, `name`, `__type`, all of them leaves; `undefined` has none |
| Schema.Or | src/m3.ts:71 | the union of `T` and `undefined` has the alternatives of both sides, and the union of `T` with itself is `T` |
| Schema.AssignableBasics | src/m3.ts:102 | every type is assignable to itself and a literal type to its base type, so `Computable<T>` and `Computable<42>` are admitted where `Computable<number>` is expected |
| Targets.ClauseFields | src/m3.ts:1-5 | `Intersect` of a clause: its keys and descriptors are stated by `Targets.ClauseFieldsKeys` and `Targets.ClauseFieldsAgree` |
| Targets.ClauseFieldsKeys | src/m3.ts:1-5 | the intersection of a clause's members has a field exactly when some member has it |
| Targets.Join | src/m3.ts:7-15 | one field across two variants, joined: stated over a whole target by `Targets.FieldAtProperty` and `Targets.FieldAtLink` |
| Targets.ClauseFieldsAgree | src/m3.ts:1-5 | an intersection keeps a field's descriptor exactly when every member having the field declares that descriptor |
| Targets.ViewKeys | src/m3.ts:7-15 | `keyof UnpackDNF<T>`: stated by `Targets.ViewKeysCommon` and `Targets.UnpackKeys` |
| Targets.ViewKeysCommon | src/m3.ts:7-15 | `keyof UnpackDNF<T>` holds the fields every clause has, and nothing for an empty target |
| Targets.FieldAt | src/m3.ts:7-15 | `UnpackDNF<T>[k]`: stated by `Targets.FieldAtProperty` and `Targets.FieldAtLink` |
| Targets.FieldAtProperty | src/m3.ts:7-15 | over a union of clauses a field is a property exactly when it is one in every clause, and its scalar type is then the union of theirs |
| Targets.FieldAtLink | src/m3.ts:7-15 | over a union of clauses a field is a link exactly when it is one in every clause, and its target then holds exactly the clauses of their targets |
| Targets.ClauseTyKeys | src/m3.ts:9-13 | the keys of a clause's type (the member itself, or the intersection type) are those of the merged clause fields |
| Targets.UnpackKeys | src/m3.ts:7-15 | `keyof` of the type `UnpackDNF` builds equals the key set the resolver uses |
| Targets.OneMemberClause | src/m3.ts:9-10 | a one-member clause unpacks to that member, and its fields are the member's own |
| Targets.OneMemberField | src/m3.ts:9-10 | through a one-member target each field of the member is seen as declared |
| Targets.UnionOfTargets | src/m3.ts:7-15 | joining two non-empty targets into one union keeps exactly the fields both have |
| Targets.UnpackDNF | src/m3.ts:7-15 | `UnpackDNF` gives `never` exactly for an empty target, and otherwise a union whose members are exactly the clause types (keys: `Targets.UnpackKeys`) |
| Shapes.ResultFields | src/m3.ts:80-90 | the keys of `_Result<Args, T>` are the keys common to `T` and `Args` together with `_OnlyArgs<Args, T>`, each resolved by `ResolveKey` for a spec and as a leaf otherwise |
| Shapes.UnpackBoolArg | src/m3.ts:66-74 | a `Property<P>` directive gives `P`; any other directive gives the declared type, `undefined`, or their union (case by case: `ShapeLaws.PropertyDirective`) |
| Shapes.OnlyArgs | src/m3.ts:76-78 | the spec keys the target lacks; none for `true`, `false` or `boolean`, whose homomorphic mapping is the primitive itself |
| Shapes.Result | src/m3.ts:92 | `Result<Spec, typeof O>` has exactly the keys of `Spec` |
| ShapeLaws.ResultKeySet | src/m3.ts:76-81 | the result never has a key outside `keyof Args`; for a spec or any non-boolean directive it has exactly those keys; for `true`/`false`/`boolean` only the target keys among `{"valueOf"}`; a target field the spec does not name never appears |
| Shapes.ResolveKey | src/m3.ts:80-90 | one entry of `_Result`: stated by `ShapeLaws.PropertyDirective`, `ShapeLaws.LinkDirective` and `ShapeLaws.AbsentAndOtherFields` |
| ShapeLaws.PropertyDirective | src/m3.ts:66-83 | on a property field `true` gives the scalar, `false` gives `undefined` with the key kept, `boolean` gives scalar or `undefined`, `Property<P>` gives `P`, and any other directive the declared scalar |
| ShapeLaws.LinkDirective | src/m3.ts:84-85 | a link field resolves the nested directive against the link's unpacked target, with no collection wrapping; a boolean directive keeps only the target's keys among `{"valueOf"}` |
| ShapeLaws.AbsentAndOtherFields | src/m3.ts:86-89 | a key the target lacks resolves to `CT` for a `Computable<CT>` and to `never` otherwise; a field that is neither property nor link resolves to `unknown` |
| ShapeLaws.ResultFromEntries | src/m3.ts:80-90 | a result is determined entry by entry, each entry resolved on its own |
| ShapeLaws.LeafResult | src/m3.ts:76-90 | a directive that is not a spec resolves its interface members, each as a leaf, and a boolean directive only those members the target has |
| Shapes.LeafKey | src/m3.ts:80-90 | one interface member of a non-spec directive: stated by `ShapeLaws.LeafKeyIsOther` and `ShapeLaws.LeafResult` |
| ShapeLaws.LeafKeyIsOther | src/m3.ts:80-90 | an interface member of a directive resolves like any directive that is neither a spec nor a `Computable` |
| ShapeLaws.CardinalityIgnored | src/m3.ts:80-90 | when no two objects declare one field with descriptors that differ only in cardinality, the resolved shape is the same whatever the cardinalities |
| ShapeLaws.ResolveKeyErased | src/m3.ts:80-90 | the same for one entry of a result |
| SelectionLaws.SingleObjectAdmits | src/m3.ts:94-104 | under either override check, against one object a spec is admitted exactly when it shares a key with it (or either is empty) and every shared key carries an admissible directive |
| SelectionLaws.VariantsDistribute | src/m3.ts:94-104 | under either override check, a spec is admitted by a union of targets exactly when one of them admits it |
| SelectionLaws.UnknownKeyUnchecked | src/m3.ts:94-95 | under either override check, once a spec shares a key with the object, adding an entry for a name the object lacks never makes it rejected |
| SelectionLaws.LoneUnknownKeyRejected | src/m3.ts:94-95 | under either override check, a spec whose only key names no field of a non-empty object is rejected, whatever the directive |
| SelectionLaws.OtherFieldsAdmitNothing | src/m3.ts:94-103 | a field that is neither property nor link admits only `undefined`, and `undefined` is admitted on every field |
| SelectionLaws.NothingSelectsEmptyTarget | src/m3.ts:94-104 | an empty target admits no spec, and a directive that is not an object is no spec |
| SelectionLaws.AdmittedDirectiveKeepsScalar | src/m3.ts:101-102 | under the intended override check, an admissible property directive resolves to its declared scalar, `undefined`, or their union |
| SelectionLaws.AdmittedPropertyKeepsScalar | src/m3.ts:94-104 | under the intended override check, every property entry of an admitted spec resolves to the property's declared scalar, `undefined`, or their union |
| SelectionLaws.PhantomScalarOverride | src/m3.ts:44-48 | on a property field, a `Property` of another scalar with the same cardinality is admitted by TypeScript's check and rejected by the intended one |
| SelectionLaws.IntendedAdmitsLess | src/m3.ts:94-104 | every spec the intended validator admits, TypeScript's validator admits too |
| SelectionLaws.DirectiveIntendedAdmitsLess | src/m3.ts:97-103 | the same for one directive on one field |
| Selection.SelectArgs | src/m3.ts:94-104 | an admitted selection is an object spec and the target has a variant (laws: `SelectionLaws.SingleObjectAdmits`, `SelectionLaws.VariantsDistribute`) |
| Selection.ClauseAdmits | src/m3.ts:94-104 | an admitted spec puts a directive other than `undefined` only on the variant's properties and links |
| Selection.DirectiveAdmits | src/m3.ts:94-103 | a directive other than `undefined` is admitted only on a property or a link field, never on a clash or a `never` field |
| Expressions.DecodeKind | src/m3.ts:17-21 | a `kind` value read back as a `Kind` is that member's number |
| Expressions.DecodeKindCode | src/m3.ts:17-21 | every member of `Kind` is read back from its number |
| Expressions.DeclaredKind | src/m3.ts:39-41 | a `Computable` declares `kind: Kind.computable` |
| Expressions.WrittenNode | src/m3.ts:106-121 | the objects the factories write out keep their arguments and operator, but their `kind` is no member of `Kind` |
| Expressions.Literal | src/m3.ts:106-110 | `literal(x)` of a constant `x` has arguments `[x]` and no operator; its `T` is the literal type of `x` (`Computable<42>`), or `Date` for a date, and widens to the scalar of `x` |
| Expressions.PrimitivePlusTy | src/m3.ts:114 | for scalar and literal operands the type inferred for `plus` admits both exactly when they share a base type, and has only that base type |
| Expressions.InferPlusTy | src/m3.ts:114 | the `T` inferred for `plus` is one of the operand types or the union of both; when both operands are literals (or unions of literals) of one base type it is their union; otherwise, when the left operand is assignable to the right one, it is the right one |
| Expressions.LiteralUnionPlusTy | src/m3.ts:114 | for operands that are literals of one base type, both are assignable to the inferred `T`, which is again literals of that base |
| Expressions.Plus | src/m3.ts:112-117 | `plus(l, r)` has arguments `[l, r]` and operator `"plus"`, both operands are assignable to its `T`, for scalar and literal operands it is admitted exactly when they share a base type, and operands that are literals (or unions of literals) of one base are admitted with the union of their literal types |
| Expressions.PlusAsWritten | src/m3.ts:112-117 | as TypeScript checks it, any two properties can be added, and whatever the corrected `plus` admits it admits alike |
| Expressions.PlusCommutes | src/m3.ts:114 | for scalar and literal operands `plus` admits either order, with the same type |
| Expressions.PlusOfMismatchedProperties | src/m3.ts:114 | two properties of different scalars are added as written, typed by the left one, and rejected by the corrected `plus` |
| Expressions.Len | src/m3.ts:118-120 | `len(l)` has arguments `[l]`, no operator, and type `number` |
| Expressions.WrittenKindIsNoKind | src/m3.ts:109 | `literal`, `plus` and `len` write a `kind` that differs from `Kind.computable` and from every member of `Kind` |
| Query.Shape | src/m3.ts:231-235 | `X.shape(spec)` is a valid call exactly when TypeScript's validator admits the spec, which it does for every spec the intended validator admits; the query then carries `Result<Spec, X>`, which has the spec's keys |
| Sample.Bases | src/m3.ts:123-226 | the sample schema has exactly `User`, `LegacyPreferences` and `Preferences` |
| Sample.BasesClosed | src/m3.ts:151-170 | every link of the sample schema targets objects of the schema |
| Sample.BasesHaveNoCardinalityClash | src/m3.ts:123-226 | no field name is declared with two cardinalities, so the cardinality theorem applies to the sample |
| Sample.PreferenceView | src/m3.ts:160-170 | through `User.preferences` only `name` and `saveOnClose` are visible, both strings |
| Sample.UserKeys | src/m3.ts:124-171 | through `[[User]]` the keys are `User`'s five fields |
| Sample.ExampleResolves | src/m3.ts:270-292 | the nested example resolves to the shape its field directives determine, down to `friends.friends.preferences.name` |
| Sample.ExampleAdmitted | src/m3.ts:270-292 | the nested example passes `MakeSelectArgs<typeof bases.User>` under either override check |
| Sample.FriendsOnlyResolves | src/m3.ts:151-158 | selecting `friends` resolves the nested directive against `User` again |
| Sample.CyclicSelectionResolves | src/m3.ts:151-158 | `friends.friends.friends.name` unfolds the self-link exactly as deep as the spec |
| Sample.BooleanLinkDirective | src/m3.ts:84-85 | `friends: true` is admitted and resolves to `{friends: {}}` |
| Sample.LoneAliasRejected | src/m3.ts:94-104 | `{zzz: std.len(User.name)}` is rejected, though it would resolve to `{zzz: number}` |
| Sample.OverrideWithAnotherScalar | src/m3.ts:101-102 | `User.shape({age: User.name})` is a valid call whose query types `age` as `string`; the intended validator rejects it |
| Sample.VariantOnlyField | src/m3.ts:94-104 | `{preferences: {value: true}}` is admitted under either override check and resolves `value` to `never` |
| Sample.NestedLiteralPlus | src/m3.ts:112-117 | `plus(plus(literal(1), literal(2)), literal(3))` is admitted with type `1 \| 2 \| 3`, alike as written and corrected |
| Sample.UndefinedDirective | src/m3.ts:94-104 | `User.shape({name: undefined})` is admitted under either override check and types `name` as `string` |
| Sample.PlusOnUser | src/m3.ts:112-117 | `plus(User.name, User.age)` and `plus(literal("a"), User.age)` are admitted as written only, the second typed `"a"`; a literal adds to a property of its base type; two number literals give the union of their literal types |

## Left out

- `tools/makeSyntax.ts` is a build script made of file-system I/O and text rewriting. It is not part of this model.
- `src/reflection/generators/generateScalars.ts` emits code through helpers that are not available. It is not part of this model.
- The `shape` implementations only throw, and `Query.filter` returns `null`. The model keeps only the type argument a `Query` carries (`Query.Shape`).
- `Expand` only flattens a type for display. It is treated as the identity, which is exact for `string`, `number`, `boolean`, literal types and shapes. For a `Date` in a result, TypeScript maps each method of `Date` to `{}` (a mapped type drops call signatures); the model keeps `Date`.
- Expressions.Literal: only constant arguments are modelled, so its `T` is always the literal type of the constant (or `Date`). An argument whose static type is not a literal type (`literal(n)` with `n: number`, `literal(1 > 0)`) gives `Computable<number>` or `Computable<boolean>` in TypeScript; in the model such an operand of `plus` stands as a `CompParam` over an `Expr` whose `ty` is that scalar.
- The getters' runtime objects are not modelled beyond their types. Their `name` field always equals the key.
- Registration of objects, and a link to an unknown object, are absent from the source. The sample schema is a literal, checked closed by `Sample.BasesClosed`.
- Members of interfaces reached through a non-spec directive on a link (`kind`, `name`, `cardinality`, `target`, `__type`, `valueOf`) are leaves. Their own members are not modelled. `keyof` of a primitive directive is modelled only for `boolean` (`valueOf`); any other primitive directive has no members.
- When intersected members declare one field differently, TypeScript intersects the two descriptor types. The model marks the field as a clash instead: the resolver gives `unknown` and the validator admits nothing there.
- `keyof` of an empty union (`never`) is every key in TypeScript. The model gives an empty target no keys. `UnpackDNF` of an empty target is still `never`.
- Numbers are integers, and dates are their epoch milliseconds. No floating point is modelled.
- Assignability covers identity, literal widening and unions only. Object and intersection types are compared by equality, so a `Computable` of a structurally compatible but different object type is not admitted on a link.
- `true | false` is kept as a union of the two literal types. It is not normalised to `boolean`.
- Expressions.Plus: type inference covers scalar and literal operands and unions of literals of one base type. Other operand types fall back to assignability as modelled, keeping the right operand's type when the left is assignable to it and the left one otherwise.
- Selection.DirectiveAdmits: union-typed directives (such as `cond ? User.email : false`) other than `boolean`, and `null`, are not modelled. `undefined` is.
- TypeScript's error messages and their positions are not modelled. A rejection is only the `false` of `SelectArgs` or the `Err` of `Plus`.

## Findings

| source | as written | input that shows it | evidently intended | confidence | as-written member | corrected member |
|---|---|---|---|---|---|---|
| src/m3.ts:44-48 | `Property<scalar, C>` never uses `scalar`, so any two properties of one cardinality are mutually assignable, and the `Property<PT, PC>` override of `MakeSelectArgs` (line 102) admits a property of another scalar type | `User.shape({age: User.name})` is admitted, and the result types `age` as `string` although `User.age` is a number | an override must be a property of the same scalar type | not executed | Selection.PropertyOverrideAsWritten, used by `Query.Shape` (shown by SelectionLaws.PhantomScalarOverride and Sample.OverrideWithAnotherScalar) | Selection.PropertyOverrideIntended (proved by SelectionLaws.AdmittedPropertyKeepsScalar; SelectionLaws.IntendedAdmitsLess relates the two validators) |
| src/m3.ts:112-116 | the same phantom parameter lets `plus` accept a property operand of any scalar as a `Parameter<T>` | `std.ops.plus(User.name, User.age)` is admitted as `Computable<string>`, and `std.ops.plus(literal("a"), User.age)` as `Computable<"a">` | both operands of `plus` share one base type `T` | not executed | Expressions.PlusAsWritten (shown by Expressions.PlusOfMismatchedProperties and Sample.PlusOnUser) | Expressions.Plus (proved by Expressions.PrimitivePlusTy and its own contract) |
| src/m3.ts:109 | `literal`, `plus` and `len` build objects with `kind: "computable"`, a string, cast to `Computable`, whose `kind` is `Kind.computable`, the number 0 (same at lines 115 and 119) | `literal(42).kind === Kind.computable` is false at run time | the built objects carry `kind: Kind.computable` | not executed | Expressions.WrittenNode (shown by Expressions.WrittenKindIsNoKind) | Expressions.Literal, Expressions.Plus, Expressions.Len with Expressions.DeclaredKind |

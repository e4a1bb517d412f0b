/**
  `X.shape(spec)` for a schema object `X` (src/m3.ts:228-256): a call that
  type-checks only when the spec is assignable to `MakeSelectArgs<typeof X>`,
  and whose `Query<T>` carries `T = Result<Spec, typeof X>`.
 */
module Query {
  import Wrappers
  import opened Schema
  import opened Targets
  import opened Shapes
  import opened Selection
  import SelectionLaws

  /**
    The type argument of the `Query` a `shape` call returns; `None` when
    TypeScript rejects the call. Every spec the intended validator admits is
    among those accepted.
   */
  function Shape(arena: Arena, obj: ObjName, spec: map<FieldName, Arg>): (q: Wrappers.Option<map<FieldName, Ty>>)
    ensures q.Some? <==> SelectArgs(arena, AsWritten, ASpec(spec), [[obj]])
    ensures SelectArgs(arena, Intended, ASpec(spec), [[obj]]) ==> q.Some?
    ensures q.Some? ==> q.value.Keys == spec.Keys
    ensures q.Some? ==> q.value == Result(arena, spec, obj)
  {
    SelectionLaws.IntendedAdmitsLess(arena, ASpec(spec), [[obj]]);
    if SelectArgs(arena, AsWritten, ASpec(spec), [[obj]]) then Wrappers.Some(Result(arena, spec, obj)) else Wrappers.None
  }
}

/**
  The expression factory: `literal`, `std.ops.plus` and `std.len`
  (src/m3.ts:106-121).

  Each factory returns, at run time, a plain object (`kind`, `args` and,
  for `plus`, `op`) and, statically, a `Computable<T>`. An `Expr` below
  pairs the two: `node` is the object that is built and `ty` the `T`
  the signature declares. A call TypeScript rejects is an `Err`.
 */
module Expressions {
  import opened Wrappers
  import opened Schema

  /** A JavaScript value held in a `kind` field: a number or a string. */
  datatype JsValue = JsNum(n: int) | JsStr(s: string)

  /**
    A `Parameter<T>` (src/m3.ts:58): a property getter's value (its `name`
    and cardinality at run time, its scalar statically) or a computable.
   */
  datatype Param =
    | PropParam(name: FieldName, scalar: Scalar, card: Cardinality)
    | CompParam(c: Expr)

  /** An element of a node's `args`: a constant passed to `literal`, or an operand. */
  datatype NodeArg = ValueArg(v: Value) | ParamArg(p: Param)

  /** The object a factory builds. */
  datatype Node = Node(kind: JsValue, args: seq<NodeArg>, op: Option<string>)

  /** A `Computable<T>` value: the built object and its declared `T`. */
  datatype Expr = Expr(node: Node, ty: Ty)

  /** Reads a `kind` field back as a member of `enum Kind`. */
  function DecodeKind(v: JsValue): (r: Option<Kind>)
    ensures r.Some? ==> v == JsNum(KindCode(r.value))
  {
    match v
    case JsNum(0) => Some(Computable)
    case JsNum(1) => Some(Property)
    case JsNum(2) => Some(Link)
    case _ => None
  }

  /** Every member of `enum Kind` is read back from its number. */
  lemma DecodeKindCode(k: Kind)
    ensures DecodeKind(JsNum(KindCode(k))) == Some(k)
  {
  }

  /** The `kind` a `Computable` declares: `Kind.computable`. */
  function DeclaredKind(): (v: JsValue)
    ensures DecodeKind(v) == Some(Computable)
  {
    JsNum(KindCode(Computable))
  }

  /** The `kind` the factories write into the objects they build: the string `"computable"`. */
  const WrittenKind: JsValue := JsStr("computable")

  /** A built object as the factories write it out. */
  function WrittenNode(c: Expr): (n: Node)
    ensures n.args == c.node.args && n.op == c.node.op
    ensures DecodeKind(n.kind) == None
  {
    c.node.(kind := WrittenKind)
  }

  /** The type `T` a parameter contributes: a computable's `__type`, or a property's scalar. */
  function ParamTy(p: Param): Ty
  {
    match p
    case PropParam(_, s, _) => TScalar(s)
    case CompParam(c) => c.ty
  }

  /** As a selection directive, a computable is a `Computable<T>` with its declared `T`. */
  function AsDirective(c: Expr): (d: Arg)
    ensures d.AComp? && d.ty == c.ty
  {
    AComp(c.ty)
  }

  /** The `T` inferred for `literal(x)`: the literal type of a primitive, `Date` for a date. */
  function LiteralType(x: Value): Ty
  {
    match x
    case DateV(_) => TScalar(Date)
    case _ => TLit(x)
  }

  /** The scalar type of a constant. */
  function ScalarOf(x: Value): Scalar
  {
    match x
    case NumV(_) => Num
    case StrV(_) => Str
    case BoolV(_) => Bool
    case DateV(_) => Date
  }

  /**
    `literal(x)`: a computable whose only argument is `x`. Its `T` keeps the
    literal type of a primitive (the constraint on `T` is primitive), and is
    `Date` for a date; either way it widens to the scalar of `x`.
   */
  function Literal(x: Value): (c: Expr)
    ensures c.node.args == [ValueArg(x)] && c.node.op == None
    ensures DecodeKind(c.node.kind) == Some(Computable)
    ensures !x.DateV? ==> c.ty == TLit(x)
    ensures x.DateV? ==> c.ty == TScalar(Date)
    ensures Widen(c.ty) == TScalar(ScalarOf(x))
    ensures Assignable(c.ty, TScalar(ScalarOf(x)))
  {
    Expr(Node(DeclaredKind(), [ValueArg(x)], None), LiteralType(x))
  }

  /** A literal type, or a union of literal types, all of them of the scalar type `s`. */
  predicate LiteralsOf(t: Ty, s: Scalar)
  {
    Alts(t) != {} && forall a :: a in Alts(t) ==> a.TLit? && Widen(a) == TScalar(s)
  }

  /**
    Two operand types made of literals of one base type, such as `1 | 2` and
    `3`. No `Date` literal type arises from TypeScript or from `Literal`; the
    `Date` clause is kept so that the literal laws below hold for every
    scalar alike.
   */
  predicate SameLiteralBase(tl: Ty, tr: Ty)
  {
    || (LiteralsOf(tl, Str) && LiteralsOf(tr, Str))
    || (LiteralsOf(tl, Num) && LiteralsOf(tr, Num))
    || (LiteralsOf(tl, Bool) && LiteralsOf(tr, Bool))
    || (LiteralsOf(tl, Date) && LiteralsOf(tr, Date))
  }

  /**
    The `T` inferred for `plus(l, r)` from the operand types `tl` and `tr`
    (a computable's `__type`, a property's scalar), as TypeScript's common
    supertype of the two candidates: their union when both are made of
    literals of one base type, and otherwise the right one when the left
    one is assignable to it, else the left one.
   */
  function InferPlusTy(tl: Ty, tr: Ty): (t: Ty)
    ensures t == tl || t == tr || Alts(t) == Alts(tl) + Alts(tr)
    ensures SameLiteralBase(tl, tr) ==> Alts(t) == Alts(tl) + Alts(tr)
    ensures Assignable(tl, tr) && !SameLiteralBase(tl, tr) ==> t == tr
  {
    if SameLiteralBase(tl, tr) then Or(tl, tr)
    else if Assignable(tl, tr) then tr
    else tl
  }

  /** A union of literals of one base type admits both operands, and has only literals of that base. */
  lemma LiteralUnionPlusTy(tl: Ty, tr: Ty, s: Scalar)
    requires LiteralsOf(tl, s) && LiteralsOf(tr, s)
    ensures Assignable(tl, InferPlusTy(tl, tr)) && Assignable(tr, InferPlusTy(tl, tr))
    ensures LiteralsOf(InferPlusTy(tl, tr), s)
  {
    var u := InferPlusTy(tl, tr);
    assert SameLiteralBase(tl, tr);
    forall a | a in Alts(tl) ensures MemberAssignable(a, u) {
      if u.TUnion? {
        assert a in u.alts;
      }
    }
    forall a | a in Alts(tr) ensures MemberAssignable(a, u) {
      if u.TUnion? {
        assert a in u.alts;
      } else {
        assert tl == tr;
      }
    }
  }

  /** A scalar or a literal type. */
  predicate Primitive(t: Ty)
  {
    t.TScalar? || t.TLit?
  }

  /** For scalar and literal operands `T` admits both exactly when they share a base type, and has only that base type. */
  lemma PrimitivePlusTy(tl: Ty, tr: Ty)
    ensures Primitive(tl) && Primitive(tr) ==>
      (Assignable(tl, InferPlusTy(tl, tr)) && Assignable(tr, InferPlusTy(tl, tr)) <==> Widen(tl) == Widen(tr))
    ensures Primitive(tl) && Primitive(tr) && Widen(tl) == Widen(tr) ==>
      forall a :: a in Alts(InferPlusTy(tl, tr)) ==> Widen(a) == Widen(tl)
  {
    if Primitive(tl) && Primitive(tr) {
      var t := InferPlusTy(tl, tr);
      if tl.TLit? && tr.TLit? && Widen(tl) == Widen(tr) {
        assert Alts(t) == {tl, tr};
        assert MemberAssignable(tl, t) && MemberAssignable(tr, t);
      } else if tl.TLit? && tr.TLit? {
        assert Alts(tl) == {tl} && !MemberAssignable(tl, tr);
        assert t == tl;
        assert !MemberAssignable(tr, t);
      } else if Assignable(tl, tr) {
        assert MemberAssignable(tl, tr);
        assert Alts(tr) == {tr};
      } else {
        assert !MemberAssignable(tl, tr);
        assert t == tl && Alts(tr) == {tr};
        assert MemberAssignable(tr, tl) ==> Widen(tr) == Widen(tl);
      }
    }
  }

  /**
    `std.ops.plus(l, r)` with both operands checked against `Parameter<T>`.
    For scalar and literal operands it is admitted exactly when they share
    a base type, and then every member of `T` has that base type; operands
    made of literals of one base type, such as `1 | 2` and `3`, are
    admitted with the union of their literals.
   */
  function Plus(l: Param, r: Param): (res: Result<Expr, string>)
    ensures res.Ok? ==>
      && res.value.node.args == [ParamArg(l), ParamArg(r)]
      && res.value.node.op == Some("plus")
      && DecodeKind(res.value.node.kind) == Some(Computable)
      && Assignable(ParamTy(l), res.value.ty)
      && Assignable(ParamTy(r), res.value.ty)
    ensures Primitive(ParamTy(l)) && Primitive(ParamTy(r)) ==>
      (res.Ok? <==> Widen(ParamTy(l)) == Widen(ParamTy(r)))
    ensures res.Ok? && Primitive(ParamTy(l)) && Primitive(ParamTy(r)) ==>
      forall a :: a in Alts(res.value.ty) ==> Widen(a) == Widen(ParamTy(l))
    ensures forall s :: LiteralsOf(ParamTy(l), s) && LiteralsOf(ParamTy(r), s) ==>
      res.Ok? && Alts(res.value.ty) == Alts(ParamTy(l)) + Alts(ParamTy(r)) && LiteralsOf(res.value.ty, s)
  {
    var t := InferPlusTy(ParamTy(l), ParamTy(r));
    PrimitivePlusTy(ParamTy(l), ParamTy(r));
    forall s | LiteralsOf(ParamTy(l), s) && LiteralsOf(ParamTy(r), s) {
      LiteralUnionPlusTy(ParamTy(l), ParamTy(r), s);
    }
    if Assignable(ParamTy(l), t) && Assignable(ParamTy(r), t) then
      Ok(Expr(Node(DeclaredKind(), [ParamArg(l), ParamArg(r)], Some("plus")), t))
    else
      Err("operands of plus have different types")
  }

  /**
    `std.ops.plus(l, r)` as TypeScript checks it: the scalar parameter of
    `Property` is used by none of its members, so a property operand is
    assignable to `Parameter<T>` whatever its scalar, and two properties
    can always be added.
   */
  function PlusAsWritten(l: Param, r: Param): (res: Result<Expr, string>)
    ensures l.PropParam? && r.PropParam? ==> res.Ok?
    ensures res.Ok? ==> res.value.ty == InferPlusTy(ParamTy(l), ParamTy(r))
    ensures Plus(l, r).Ok? ==> res == Plus(l, r)
  {
    var t := InferPlusTy(ParamTy(l), ParamTy(r));
    if (l.PropParam? || Assignable(ParamTy(l), t)) && (r.PropParam? || Assignable(ParamTy(r), t)) then
      Ok(Expr(Node(DeclaredKind(), [ParamArg(l), ParamArg(r)], Some("plus")), t))
    else
      Err("operands of plus have different types")
  }

  /** `plus` admits its operands in either order, and gives the same type. */
  lemma PlusCommutes(l: Param, r: Param)
    requires Primitive(ParamTy(l)) && Primitive(ParamTy(r))
    ensures Plus(l, r).Ok? <==> Plus(r, l).Ok?
    ensures Plus(l, r).Ok? ==> Plus(l, r).value.ty == Plus(r, l).value.ty
  {
    var tl, tr := ParamTy(l), ParamTy(r);
    if Widen(tl) == Widen(tr) {
      assert Alts(tl) == {tl} && Alts(tr) == {tr};
      if tl.TLit? && tr.TLit? {
        assert Or(tl, tr) == Or(tr, tl);
      } else if tl.TLit? {
        assert !MemberAssignable(tr, tl);
      } else if tr.TLit? {
        assert !MemberAssignable(tl, tr);
      }
    }
  }

  /** Adding two properties of different scalar types is admitted as written, typed by the left one. */
  lemma PlusOfMismatchedProperties(a: FieldName, s: Scalar, b: FieldName, other: Scalar, c: Cardinality, d: Cardinality)
    requires s != other
    ensures PlusAsWritten(PropParam(a, s, c), PropParam(b, other, d)).Ok?
    ensures PlusAsWritten(PropParam(a, s, c), PropParam(b, other, d)).value.ty == TScalar(s)
    ensures Plus(PropParam(a, s, c), PropParam(b, other, d)).Err?
  {
  }

  /** `std.len(l)`: any parameter, one argument, and a number. */
  function Len(l: Param): (c: Expr)
    ensures c.node.args == [ParamArg(l)] && c.node.op == None
    ensures DecodeKind(c.node.kind) == Some(Computable)
    ensures c.ty == TScalar(Num)
  {
    Expr(Node(DeclaredKind(), [ParamArg(l)], None), TScalar(Num))
  }

  /** The objects `literal`, `plus` and `len` write out carry a `kind` that is no member of `enum Kind`. */
  lemma WrittenKindIsNoKind(x: Value, l: Param, r: Param)
    ensures WrittenNode(Literal(x)).kind != DeclaredKind()
    ensures Plus(l, r).Ok? ==> WrittenNode(Plus(l, r).value).kind != DeclaredKind()
    ensures WrittenNode(Len(l)).kind != DeclaredKind()
    ensures forall k: Kind :: WrittenKind != JsNum(KindCode(k))
  {
  }
}

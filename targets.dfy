/**
  Link-target flattening: `Intersect` and `UnpackDNF` (src/m3.ts:1-15).

  A link target is a disjunction of clauses, each clause a conjunction of
  objects. `UnpackDNF` turns it into the union, over the clauses, of one
  shape per clause: the member itself for a one-member clause, the
  intersection of the members otherwise.

  The engine only ever asks two questions of the flattened type `T`:
  `keyof T` and `T[k]`. `ViewKeys` and `FieldAt` answer them directly on the
  target (a union has the keys common to all its members, an intersection
  those of any member); `UnpackDNF` builds the flattened type itself and
  `TyKeys` is `keyof` on types, so that the lemmas below can tie the two
  readings together.
 */
module Targets {
  import opened Schema

  /** One field of an intersection `A & B & ...`: the members agree on it, or they clash. */
  datatype Merged = Agreed(desc: Descriptor) | Clash

  function Meet(m: Merged, d: Descriptor): (r: Merged)
    ensures r == Agreed(d) <==> m == Agreed(d)
    ensures r.Agreed? ==> r == m
  {
    if m == Agreed(d) then m else Clash
  }

  /** The fields of the intersection of a clause's members (`Intersect<T[k][number]>`). */
  function ClauseFields(arena: Arena, clause: seq<ObjName>): map<FieldName, Merged>
    decreases |clause|
  {
    if clause == [] then map[]
    else
      var head := FieldsOf(arena, clause[0]);
      var rest := ClauseFields(arena, clause[1..]);
      map k | k in head.Keys + rest.Keys ::
        if k in head && k in rest then Meet(rest[k], head[k])
        else if k in head then Agreed(head[k])
        else rest[k]
  }

  /** An intersection carries the fields of every member. */
  lemma {:induction false} ClauseFieldsKeys(arena: Arena, clause: seq<ObjName>, k: FieldName)
    decreases |clause|
    ensures k in ClauseFields(arena, clause) <==> exists i :: 0 <= i < |clause| && k in FieldsOf(arena, clause[i])
  {
    if clause != [] {
      var tail := clause[1..];
      ClauseFieldsKeys(arena, tail, k);
      if k in ClauseFields(arena, tail) {
        var j :| 0 <= j < |tail| && k in FieldsOf(arena, tail[j]);
        assert clause[j + 1] == tail[j];
      }
      if i :| 0 <= i < |clause| && k in FieldsOf(arena, clause[i]) {
        if i > 0 {
          assert tail[i - 1] == clause[i];
        }
      }
    }
  }

  /**
    A field of an intersection keeps its descriptor exactly when every
    member that has the field declares that same descriptor.
   */
  lemma {:induction false} ClauseFieldsAgree(arena: Arena, clause: seq<ObjName>, k: FieldName, d: Descriptor)
    requires k in ClauseFields(arena, clause)
    decreases |clause|
    ensures ClauseFields(arena, clause)[k] == Agreed(d) <==>
      forall i :: 0 <= i < |clause| && k in FieldsOf(arena, clause[i]) ==> FieldsOf(arena, clause[i])[k] == d
  {
    var tail := clause[1..];
    var head := FieldsOf(arena, clause[0]);
    ClauseFieldsKeys(arena, tail, k);
    assert forall i :: 1 <= i < |clause| ==> clause[i] == tail[i - 1];
    if k in ClauseFields(arena, tail) {
      ClauseFieldsAgree(arena, tail, k, d);
    }
  }

  /** `keyof UnpackDNF<T>`: the fields that every clause has. */
  function ViewKeys(arena: Arena, t: Target): set<FieldName>
    decreases |t|
  {
    if |t| == 0 then {}
    else if |t| == 1 then ClauseFields(arena, t[0]).Keys
    else ClauseFields(arena, t[0]).Keys * ViewKeys(arena, t[1..])
  }

  /** A union of shapes has the fields common to all of them; an empty target has none. */
  lemma {:induction false} ViewKeysCommon(arena: Arena, t: Target, k: FieldName)
    decreases |t|
    ensures k in ViewKeys(arena, t) <==> |t| > 0 && forall i :: 0 <= i < |t| ==> k in ClauseFields(arena, t[i])
  {
    if |t| > 1 {
      ViewKeysCommon(arena, t[1..], k);
      assert forall i :: 1 <= i < |t| ==> t[i] == t[1..][i - 1];
    }
  }

  /** What the conditional types can tell about `T[k]`: a property with scalar type `ppt`, a link, or neither. */
  datatype FieldView = PropView(ppt: Ty) | LinkView(target: Target) | OtherView

  function ViewOf(m: Merged): FieldView
  {
    match m
    case Agreed(PropertyDesc(s, _)) => PropView(TScalar(s))
    case Agreed(LinkDesc(t, _)) => LinkView(t)
    case _ => OtherView
  }

  /** The field `k` of one clause, seen by the conditional types (neither, when the clause lacks it). */
  function ClauseView(arena: Arena, clause: seq<ObjName>, k: FieldName): FieldView
  {
    var fields := ClauseFields(arena, clause);
    if k in fields then ViewOf(fields[k]) else OtherView
  }

  /**
    `A[k] | B[k]`: a union of properties is a property whose inferred
    scalar is the union of theirs; a union of links is a link whose target
    is the union of theirs; anything else is neither.
   */
  function Join(a: FieldView, b: FieldView): FieldView
  {
    if a.PropView? && b.PropView? then PropView(Or(a.ppt, b.ppt))
    else if a.LinkView? && b.LinkView? then LinkView(a.target + b.target)
    else OtherView
  }

  /** `UnpackDNF<T>[k]`, for a field every clause has. */
  function FieldAt(arena: Arena, t: Target, k: FieldName): FieldView
    requires k in ViewKeys(arena, t)
    decreases |t|
  {
    var here := ClauseView(arena, t[0], k);
    if |t| == 1 then here else Join(here, FieldAt(arena, t[1..], k))
  }

  /**
    Over a union of clauses, a field is a property exactly when it is a
    property in every clause, and its scalar type is then the union of the
    clauses' scalar types.
   */
  lemma {:induction false} FieldAtProperty(arena: Arena, t: Target, k: FieldName)
    requires k in ViewKeys(arena, t)
    decreases |t|
    ensures FieldAt(arena, t, k).PropView? <==> forall i :: 0 <= i < |t| ==> ClauseView(arena, t[i], k).PropView?
    ensures FieldAt(arena, t, k).PropView? ==>
      Alts(FieldAt(arena, t, k).ppt) == set i | 0 <= i < |t| && ClauseView(arena, t[i], k).PropView? :: ClauseView(arena, t[i], k).ppt
  {
    if |t| > 1 {
      var tail := t[1..];
      FieldAtProperty(arena, tail, k);
      assert forall i :: 1 <= i < |t| ==> t[i] == tail[i - 1];
      if FieldAt(arena, t, k).PropView? {
        var here := ClauseView(arena, t[0], k);
        var all := set i | 0 <= i < |t| && ClauseView(arena, t[i], k).PropView? :: ClauseView(arena, t[i], k).ppt;
        var rest := set i | 0 <= i < |tail| && ClauseView(arena, tail[i], k).PropView? :: ClauseView(arena, tail[i], k).ppt;
        assert here.ppt == TScalar(here.ppt.scalar);
        assert all == {here.ppt} + rest by {
          forall x | x in all ensures x in {here.ppt} + rest {
            var i :| 0 <= i < |t| && ClauseView(arena, t[i], k).PropView? && x == ClauseView(arena, t[i], k).ppt;
            if i > 0 {
              assert ClauseView(arena, tail[i - 1], k).ppt == x;
            }
          }
          forall x | x in rest ensures x in all {
            var i :| 0 <= i < |tail| && ClauseView(arena, tail[i], k).PropView? && x == ClauseView(arena, tail[i], k).ppt;
            assert ClauseView(arena, t[i + 1], k).ppt == x;
          }
        }
      }
    }
  }

  /**
    Over a union of clauses, a field is a link exactly when it is a link in
    every clause, and its target then holds the clauses of all their targets.
   */
  lemma {:induction false} FieldAtLink(arena: Arena, t: Target, k: FieldName)
    requires k in ViewKeys(arena, t)
    decreases |t|
    ensures FieldAt(arena, t, k).LinkView? <==> forall i :: 0 <= i < |t| ==> ClauseView(arena, t[i], k).LinkView?
    ensures FieldAt(arena, t, k).LinkView? ==> forall c ::
      c in FieldAt(arena, t, k).target <==>
        exists i :: 0 <= i < |t| && ClauseView(arena, t[i], k).LinkView? && c in ClauseView(arena, t[i], k).target
  {
    if |t| > 1 {
      var tail := t[1..];
      FieldAtLink(arena, tail, k);
      assert forall i :: 1 <= i < |t| ==> t[i] == tail[i - 1];
      if FieldAt(arena, t, k).LinkView? {
        forall c | c in FieldAt(arena, tail, k).target
          ensures exists i :: 0 <= i < |t| && ClauseView(arena, t[i], k).LinkView? && c in ClauseView(arena, t[i], k).target
        {
          var i :| 0 <= i < |tail| && ClauseView(arena, tail[i], k).LinkView? && c in ClauseView(arena, tail[i], k).target;
          assert t[i + 1] == tail[i];
        }
      }
    }
  }

  /** The type of one clause: the member itself, or the intersection of the members. */
  function ClauseTy(clause: seq<ObjName>): Ty
  {
    if |clause| == 1 then TObject(clause[0])
    else TInter(seq(|clause|, i requires 0 <= i < |clause| => TObject(clause[i])))
  }

  /** `UnpackDNF<T>`: no shape (`never`) for an empty target, else the union of the clause types. */
  function UnpackDNF(t: Target): (r: Ty)
    ensures |t| == 0 <==> r == TNever
    ensures |t| > 0 ==> ClauseTy(t[0]) in Alts(r)
    ensures |t| > 0 ==> Alts(r) == set i | 0 <= i < |t| :: ClauseTy(t[i])
  {
    if |t| == 0 then TNever
    else if |t| == 1 then ClauseTy(t[0])
    else TUnion(set i | 0 <= i < |t| :: ClauseTy(t[i]))
  }

  /** `keyof` on types: an object's fields, the fields of any part of an intersection, the fields common to a union. */
  function TyKeys(arena: Arena, t: Ty): set<FieldName>
    decreases t
  {
    match t
    case TObject(n) => FieldsOf(arena, n).Keys
    case TInter(parts) => set i, k | 0 <= i < |parts| && k in TyKeys(arena, parts[i]) :: k
    case TUnion(alts) =>
      set a, k | a in alts && k in TyKeys(arena, a) && (forall b :: b in alts ==> k in TyKeys(arena, b)) :: k
    case TShape(fields) => fields.Keys
    case _ => {}
  }

  /** The keys of a clause's type are those of its intersection. */
  lemma ClauseTyKeys(arena: Arena, clause: seq<ObjName>)
    ensures TyKeys(arena, ClauseTy(clause)) == ClauseFields(arena, clause).Keys
  {
    forall k ensures k in TyKeys(arena, ClauseTy(clause)) <==> k in ClauseFields(arena, clause) {
      ClauseFieldsKeys(arena, clause, k);
      if |clause| != 1 {
        var parts := seq(|clause|, i requires 0 <= i < |clause| => TObject(clause[i]));
        assert forall i :: 0 <= i < |clause| ==> TyKeys(arena, parts[i]) == FieldsOf(arena, clause[i]).Keys;
      }
    }
  }

  /** A field is a key of the union of the clause types exactly when every clause has it. */
  lemma UnionKeysAt(arena: Arena, t: Target, k: FieldName)
    requires |t| > 1
    ensures k in TyKeys(arena, UnpackDNF(t)) <==> k in ViewKeys(arena, t)
  {
    ViewKeysCommon(arena, t, k);
    forall i | 0 <= i < |t| ensures TyKeys(arena, ClauseTy(t[i])) == ClauseFields(arena, t[i]).Keys {
      ClauseTyKeys(arena, t[i]);
    }
    if k in ViewKeys(arena, t) {
      UnionKeysFromClauses(arena, t, k);
    }
    if k in TyKeys(arena, UnpackDNF(t)) {
      UnionKeysToClauses(arena, t, k);
    }
  }

  lemma UnionKeysFromClauses(arena: Arena, t: Target, k: FieldName)
    requires |t| > 1
    requires forall i :: 0 <= i < |t| ==> k in TyKeys(arena, ClauseTy(t[i]))
    ensures k in TyKeys(arena, UnpackDNF(t))
  {
    var alts := set i | 0 <= i < |t| :: ClauseTy(t[i]);
    assert UnpackDNF(t) == TUnion(alts);
    assert ClauseTy(t[0]) in alts;
    forall b | b in alts ensures k in TyKeys(arena, b) {
      var i :| 0 <= i < |t| && b == ClauseTy(t[i]);
    }
  }

  lemma UnionKeysToClauses(arena: Arena, t: Target, k: FieldName)
    requires |t| > 1
    requires k in TyKeys(arena, UnpackDNF(t))
    ensures forall i :: 0 <= i < |t| ==> k in TyKeys(arena, ClauseTy(t[i]))
  {
    var alts := set i | 0 <= i < |t| :: ClauseTy(t[i]);
    assert UnpackDNF(t) == TUnion(alts);
    forall i | 0 <= i < |t| ensures k in TyKeys(arena, ClauseTy(t[i])) {
      assert ClauseTy(t[i]) in alts;
    }
  }

  /** `keyof UnpackDNF<T>` computed on the flattened type agrees with `ViewKeys` on the target. */
  lemma {:induction false} UnpackKeys(arena: Arena, t: Target)
    ensures TyKeys(arena, UnpackDNF(t)) == ViewKeys(arena, t)
  {
    if |t| == 1 {
      ClauseTyKeys(arena, t[0]);
    } else if |t| > 1 {
      forall k ensures k in TyKeys(arena, UnpackDNF(t)) <==> k in ViewKeys(arena, t) {
        UnionKeysAt(arena, t, k);
      }
    }
  }

  /** A clause with exactly one member unpacks to that member, with its fields unchanged. */
  lemma OneMemberClause(arena: Arena, n: ObjName)
    ensures UnpackDNF([[n]]) == TObject(n)
    ensures ClauseFields(arena, [n]) == map k | k in FieldsOf(arena, n) :: Agreed(FieldsOf(arena, n)[k])
    ensures ViewKeys(arena, [[n]]) == FieldsOf(arena, n).Keys
  {
    assert [n][1..] == [];
  }

  /** Through a one-member target, each field of the member is seen as it is declared. */
  lemma OneMemberField(arena: Arena, n: ObjName, k: FieldName)
    requires k in FieldsOf(arena, n)
    ensures k in ViewKeys(arena, [[n]])
    ensures FieldAt(arena, [[n]], k) == ViewOf(Agreed(FieldsOf(arena, n)[k]))
  {
    OneMemberClause(arena, n);
    assert [[n]][0] == [n];
  }

  /** Joining two targets into one union keeps only the fields both of them have. */
  lemma UnionOfTargets(arena: Arena, t1: Target, t2: Target)
    requires |t1| > 0 && |t2| > 0
    ensures ViewKeys(arena, t1 + t2) == ViewKeys(arena, t1) * ViewKeys(arena, t2)
  {
    forall k ensures k in ViewKeys(arena, t1 + t2) <==> k in ViewKeys(arena, t1) && k in ViewKeys(arena, t2) {
      UnionOfTargetsAt(arena, t1, t2, k);
    }
  }

  lemma UnionOfTargetsAt(arena: Arena, t1: Target, t2: Target, k: FieldName)
    requires |t1| > 0 && |t2| > 0
    ensures k in ViewKeys(arena, t1 + t2) <==> k in ViewKeys(arena, t1) && k in ViewKeys(arena, t2)
  {
    var t := t1 + t2;
    ViewKeysCommon(arena, t, k);
    ViewKeysCommon(arena, t1, k);
    ViewKeysCommon(arena, t2, k);
    if k in ViewKeys(arena, t) {
      forall i | 0 <= i < |t2| ensures k in ClauseFields(arena, t2[i]) {
        assert t[|t1| + i] == t2[i];
      }
      forall i | 0 <= i < |t1| ensures k in ClauseFields(arena, t1[i]) {
        assert t[i] == t1[i];
      }
    }
    if k in ViewKeys(arena, t1) && k in ViewKeys(arena, t2) {
      forall i | 0 <= i < |t| ensures k in ClauseFields(arena, t[i]) {
        if i >= |t1| {
          assert t[i] == t2[i - |t1|];
        } else {
          assert t[i] == t1[i];
        }
      }
    }
  }
}

/**
 Types with the limits of their byte strings lifted.  The dry check does not look at those limits
 (types/ssz_bytes.go:94-97), and it is proved to check a type as if they were lifted.
 */
module Unlimited {
  import opened Bits
  import opened Bytes
  import opened Grammar
  import opened Serialization

  const MAX_LIMIT: nat := 0xffff_ffff_ffff_ffff

  /** `t` with the greatest possible limit for every byte string in it */
  function Lift(t: SszType): SszType
    decreases t
  {
    match t
    case Bytes(_) => Bytes(MAX_LIMIT)
    case Vector(e, n) => Vector(Lift(e), n)
    case List(e, limit) => List(Lift(e), limit)
    case Container(ts) => Container(LiftAll(ts))
    case _ => t
  }

  function LiftAll(ts: seq<SszType>): (r: seq<SszType>)
    ensures |r| == |ts|
    decreases ts
  {
    if ts == [] then [] else [Lift(ts[0])] + LiftAll(ts[1..])
  }

  lemma LiftTail(ts: seq<SszType>)
    requires ts != []
    ensures LiftAll(ts)[0] == Lift(ts[0]) && LiftAll(ts)[1..] == LiftAll(ts[1..])
  {
  }

  lemma {:induction false} LiftAt(ts: seq<SszType>, i: nat)
    requires i < |ts|
    ensures LiftAll(ts)[i] == Lift(ts[i])
  {
    if i > 0 {
      LiftTail(ts);
      LiftAt(ts[1..], i - 1);
    }
  }

  lemma {:induction false} LiftRepeat(e: SszType, n: nat)
    ensures LiftAll(Repeat(e, n)) == Repeat(Lift(e), n)
    decreases n
  {
    if n > 0 {
      RepeatTail(e, n);
      LiftRepeat(e, n - 1);
    }
  }

  lemma LiftParts(t: SszType, n: nat)
    requires t.Composite()
    ensures Lift(t).Composite() && Parts(Lift(t), n) == LiftAll(Parts(t, n))
  {
    if !t.Container? { LiftRepeat(t.elem, n); }
  }

  lemma {:induction false} LiftShape(t: SszType)
    ensures IsFixed(Lift(t)) == IsFixed(t) && FixedLen(Lift(t)) == FixedLen(t)
    decreases t
  {
    match t
    case Vector(e, _) => LiftShape(e);
    case List(e, _) => LiftShape(e);
    case Container(ts) => LiftShapes(ts);
    case _ =>
  }

  lemma {:induction false} LiftShapes(ts: seq<SszType>)
    ensures AllFixed(LiftAll(ts)) == AllFixed(ts) && HeadsLen(LiftAll(ts)) == HeadsLen(ts)
    decreases ts
  {
    if ts != [] {
      LiftTail(ts);
      LiftShape(ts[0]);
      LiftShapes(ts[1..]);
    }
  }

  /** Byte strings are within their limits. */
  predicate BytesWithin(t: SszType, v: Value)
    decreases Height(t), 0, 0
  {
    if t.Composite() then v.Elems? ==> BytesWithinAll(Parts(t, |v.vs|), v.vs)
    else t.Bytes? && v.Raw? ==> |v.data| <= t.limit
  }

  predicate BytesWithinAll(ts: seq<SszType>, vs: seq<Value>)
    decreases MaxHeight(ts), 1, |ts|
  {
    ts == [] || vs == [] || (BytesWithin(ts[0], vs[0]) && BytesWithinAll(ts[1..], vs[1..]))
  }

  /** No byte string has a limit below the greatest. */
  predicate NoLimits(t: SszType)
    decreases t
  {
    match t
    case Bytes(limit) => limit == MAX_LIMIT
    case Vector(e, _) => NoLimits(e)
    case List(e, _) => NoLimits(e)
    case Container(ts) => NoLimitsAll(ts)
    case _ => true
  }

  predicate NoLimitsAll(ts: seq<SszType>)
    decreases ts
  {
    ts == [] || (NoLimits(ts[0]) && NoLimitsAll(ts[1..]))
  }

  lemma {:induction false} NothingToLift(t: SszType)
    ensures Lift(t) == t <==> NoLimits(t)
    decreases t
  {
    match t
    case Vector(e, _) => NothingToLift(e);
    case List(e, _) => NothingToLift(e);
    case Container(ts) => NothingToLiftAll(ts);
    case _ =>
  }

  lemma {:induction false} NothingToLiftAll(ts: seq<SszType>)
    ensures LiftAll(ts) == ts <==> NoLimitsAll(ts)
    decreases ts
  {
    if ts != [] {
      LiftTail(ts);
      NothingToLift(ts[0]);
      NothingToLiftAll(ts[1..]);
      assert ts == [ts[0]] + ts[1..];
    }
  }

  // ----- lifting limits changes nothing else

  lemma {:induction false} LiftSerialize(t: SszType, v: Value)
    ensures Serialize(Lift(t), v) == Serialize(t, v)
    decreases Height(t), 0, 0
  {
    if t.Composite() && v.Elems? {
      var ts := Parts(t, |v.vs|);
      LiftParts(t, |v.vs|);
      LiftShapes(ts);
      LiftLayout(ts, v.vs, HeadsLen(ts));
    }
  }

  lemma {:induction false} LiftLayout(ts: seq<SszType>, vs: seq<Value>, offset: nat)
    ensures Slots(LiftAll(ts), vs, offset) == Slots(ts, vs, offset)
    ensures Heads(LiftAll(ts), Slots(ts, vs, offset)) == Heads(ts, Slots(ts, vs, offset))
    ensures Tails(LiftAll(ts), vs) == Tails(ts, vs)
    decreases MaxHeight(ts), 1, |ts|
  {
    if ts != [] && vs != [] {
      LiftTail(ts);
      LiftShape(ts[0]);
      LiftSerialize(ts[0], vs[0]);
      var next := if IsFixed(ts[0]) then offset else offset + |Serialize(ts[0], vs[0])|;
      LiftLayout(ts[1..], vs[1..], next);
      assert Slots(ts, vs, offset)[1..] == Slots(ts[1..], vs[1..], next);
    }
  }

  lemma {:induction false} LiftTyped(t: SszType, v: Value)
    ensures Typed(Lift(t), v) <==> Typed(t, v)
    decreases Height(t), 0, 0
  {
    if t.Composite() && v.Elems? {
      LiftParts(t, |v.vs|);
      LiftTypedAll(Parts(t, |v.vs|), v.vs);
    }
  }

  lemma {:induction false} LiftTypedAll(ts: seq<SszType>, vs: seq<Value>)
    ensures TypedAll(LiftAll(ts), vs) <==> TypedAll(ts, vs)
    decreases MaxHeight(ts), 1, |ts|
  {
    if ts != [] && vs != [] {
      LiftTail(ts);
      LiftTyped(ts[0], vs[0]);
      LiftTypedAll(ts[1..], vs[1..]);
    }
  }

  lemma {:induction false} LiftEncodable(t: SszType, v: Value)
    ensures Encodable(Lift(t), v) <==> Encodable(t, v)
    decreases Height(t), 0, 0
  {
    if t.Composite() && v.Elems? {
      var ts := Parts(t, |v.vs|);
      LiftParts(t, |v.vs|);
      LiftShapes(ts);
      LiftEncodableAll(ts, v.vs, HeadsLen(ts));
    }
  }

  lemma {:induction false} LiftEncodableAll(ts: seq<SszType>, vs: seq<Value>, offset: nat)
    ensures EncodableAll(LiftAll(ts), vs, offset) <==> EncodableAll(ts, vs, offset)
    decreases MaxHeight(ts), 1, |ts|
  {
    if ts != [] && vs != [] {
      LiftTail(ts);
      LiftShape(ts[0]);
      LiftSerialize(ts[0], vs[0]);
      LiftEncodable(ts[0], vs[0]);
      LiftEncodableAll(ts[1..], vs[1..], if IsFixed(ts[0]) then offset else offset + |Serialize(ts[0], vs[0])|);
    }
  }

  /** What the dry check does not see is just whether byte strings are within their limits. */
  lemma {:induction false} LiftLegal(t: SszType, v: Value)
    requires Typed(t, v) && |Serialize(t, v)| < TWO_63 && Sized(t)
    ensures Legal(t, v) <==> Legal(Lift(t), v) && BytesWithin(t, v)
    decreases Height(t), 0, 0
  {
    if t.Composite() {
      LiftParts(t, |v.vs|);
      if t.List? { LiftShape(t.elem); }
      PartsSized(t, |v.vs|);
      PartsLens(t, |v.vs|);
      LiftLegalAll(Parts(t, |v.vs|), v.vs, HeadsLen(Parts(t, |v.vs|)));
    }
  }

  lemma {:induction false} PartsSized(t: SszType, n: nat)
    requires t.Composite() && Sized(t)
    ensures AllSized(Parts(t, n))
    decreases n
  {
    if !t.Container? && n > 0 {
      RepeatTail(t.elem, n);
      PartsSized(t, n - 1);
    }
  }

  lemma {:induction false} LiftLegalAll(ts: seq<SszType>, vs: seq<Value>, offset: nat)
    requires TypedAll(ts, vs) && AllSized(ts)
    requires |Heads(ts, Slots(ts, vs, offset))| + |Tails(ts, vs)| < TWO_63
    ensures LegalAll(ts, vs) <==> LegalAll(LiftAll(ts), vs) && BytesWithinAll(ts, vs)
    decreases MaxHeight(ts), 1, |ts|
  {
    if ts != [] {
      LiftTail(ts);
      var slots := Slots(ts, vs, offset);
      var next := if IsFixed(ts[0]) then offset else offset + |Serialize(ts[0], vs[0])|;
      assert slots[1..] == Slots(ts[1..], vs[1..], next);
      assert Heads(ts, slots) == Head(ts[0], slots[0]) + Heads(ts[1..], slots[1..]);
      LiftLegal(ts[0], vs[0]);
      LiftLegalAll(ts[1..], vs[1..], next);
    }
  }

  // ----- what is legal when byte strings have no limit

  /** What SSZ asks of a value, except that byte strings may be of any length. */
  predicate DryLegal(t: SszType, v: Value)
    decreases Height(t), 0, 0
  {
    if t.Composite() then LegalHere(t, v) && (v.Elems? ==> DryLegalAll(Parts(t, |v.vs|), v.vs))
    else t.Bytes? || LegalHere(t, v)
  }

  predicate DryLegalAll(ts: seq<SszType>, vs: seq<Value>)
    decreases MaxHeight(ts), 1, |ts|
  {
    ts == [] || vs == [] || (DryLegal(ts[0], vs[0]) && DryLegalAll(ts[1..], vs[1..]))
  }

  /** Lifting gives up the limits of all byte strings, and nothing else. */
  lemma {:induction false} LiftIsDryLegal(t: SszType, v: Value)
    requires Typed(t, v) && |Serialize(t, v)| <= MAX_LIMIT
    ensures Legal(Lift(t), v) <==> DryLegal(t, v)
    decreases Height(t), 0, 0
  {
    if t.Composite() {
      LiftParts(t, |v.vs|);
      if t.List? { LiftShape(t.elem); }
      LiftAreDryLegal(Parts(t, |v.vs|), v.vs, HeadsLen(Parts(t, |v.vs|)));
    }
  }

  lemma {:induction false} LiftAreDryLegal(ts: seq<SszType>, vs: seq<Value>, offset: nat)
    requires TypedAll(ts, vs)
    requires |Heads(ts, Slots(ts, vs, offset))| + |Tails(ts, vs)| <= MAX_LIMIT
    ensures LegalAll(LiftAll(ts), vs) <==> DryLegalAll(ts, vs)
    decreases MaxHeight(ts), 1, |ts|
  {
    if ts != [] {
      LiftTail(ts);
      var slots := Slots(ts, vs, offset);
      var next := if IsFixed(ts[0]) then offset else offset + |Serialize(ts[0], vs[0])|;
      assert slots[1..] == Slots(ts[1..], vs[1..], next);
      assert Heads(ts, slots) == Head(ts[0], slots[0]) + Heads(ts[1..], slots[1..]);
      LiftIsDryLegal(ts[0], vs[0]);
      LiftAreDryLegal(ts[1..], vs[1..], next);
    }
  }
}

/**
 The serialized form of a value, as the SSZ specification defines it ("Serialization" in
 simple-serialize.md): the fixed-size parts in order, with an offset in place of each
 variable-size part, followed by the variable-size parts.
 */
module Serialization {
  import opened Bytes
  import opened Grammar

  /** Offsets are written as uint32. */
  const OFFSET_LIMIT: nat := 0x1_0000_0000

  /** What the fixed-size section holds for a part: the part itself, or where it is. */
  datatype Slot = Inline(v: Value) | Offset(o: nat)

  function SerializeLeaf(t: SszType, v: Value): seq<byte> {
    match v
    case Num(n) => if t.Scalar? then LE(n, t.kind.Size()) else []
    case Raw(data) => data
    case Nums(ns) => if t.BasicVector? || t.BasicList? then Pack(t.kind.Size(), ns) else []
    case Elems(_) => []
  }

  function Serialize(t: SszType, v: Value): seq<byte>
    decreases Height(t), 0, 0
  {
    if t.Composite() && v.Elems? then
      var ts := Parts(t, |v.vs|);
      Heads(ts, Slots(ts, v.vs, HeadsLen(ts))) + Tails(ts, v.vs)
    else
      SerializeLeaf(t, v)
  }

  /** The slots of the fixed-size section, when the first variable-size part lies at `offset`. */
  function Slots(ts: seq<SszType>, vs: seq<Value>, offset: nat): (slots: seq<Slot>)
    decreases MaxHeight(ts), 1, |ts|
  {
    if ts == [] || vs == [] then []
    else if IsFixed(ts[0]) then [Inline(vs[0])] + Slots(ts[1..], vs[1..], offset)
    else [Offset(offset)] + Slots(ts[1..], vs[1..], offset + |Serialize(ts[0], vs[0])|)
  }

  /** The fixed-size section. */
  function Heads(ts: seq<SszType>, slots: seq<Slot>): (b: seq<byte>)
    decreases MaxHeight(ts), 1, |ts|
  {
    if ts == [] || slots == [] then [] else Head(ts[0], slots[0]) + Heads(ts[1..], slots[1..])
  }

  function Head(t: SszType, slot: Slot): (b: seq<byte>)
    decreases Height(t), 1, 0
  {
    match slot
    case Inline(v) => Serialize(t, v)
    case Offset(o) => LE(o, BYTES_PER_LENGTH_OFFSET)
  }

  /** The variable-size parts. */
  function Tails(ts: seq<SszType>, vs: seq<Value>): (b: seq<byte>)
    decreases MaxHeight(ts), 1, |ts|
  {
    if ts == [] || vs == [] then []
    else if IsFixed(ts[0]) then Tails(ts[1..], vs[1..])
    else Serialize(ts[0], vs[0]) + Tails(ts[1..], vs[1..])
  }

  /** Every offset that serialization calls for is below 2^32. */
  predicate Encodable(t: SszType, v: Value)
    decreases Height(t), 0, 0
  {
    t.Composite() && v.Elems? ==>
      var ts := Parts(t, |v.vs|);
      EncodableAll(ts, v.vs, HeadsLen(ts))
  }

  predicate EncodableAll(ts: seq<SszType>, vs: seq<Value>, offset: nat)
    decreases MaxHeight(ts), 1, |ts|
  {
    ts == [] || vs == [] || (
      && Encodable(ts[0], vs[0])
      && if IsFixed(ts[0]) then EncodableAll(ts[1..], vs[1..], offset)
         else offset < OFFSET_LIMIT && EncodableAll(ts[1..], vs[1..], offset + |Serialize(ts[0], vs[0])|))
  }

  // ----- lengths

  lemma SerializeLeafLen(t: SszType, v: Value)
    requires IsFixed(t) && TypedLeaf(t, v)
    ensures |SerializeLeaf(t, v)| == FixedLen(t)
  {
  }

  lemma {:induction false} SerializeLen(t: SszType, v: Value)
    requires Typed(t, v)
    ensures IsFixed(t) ==> |Serialize(t, v)| == FixedLen(t)
    ensures |Serialize(t, v)| >= FixedLen(t)
    decreases Height(t), 0, 0
  {
    if t.Composite() {
      var ts := Parts(t, |v.vs|);
      PartsLens(t, |v.vs|);
      HeadsLength(ts, v.vs, HeadsLen(ts));
      if IsFixed(t) { NoTails(ts, v.vs); }
    } else if IsFixed(t) {
      SerializeLeafLen(t, v);
    }
  }

  lemma {:induction false} HeadsLength(ts: seq<SszType>, vs: seq<Value>, offset: nat)
    requires TypedAll(ts, vs)
    ensures |Heads(ts, Slots(ts, vs, offset))| == HeadsLen(ts)
    ensures |Slots(ts, vs, offset)| == |ts|
    decreases MaxHeight(ts), 1, |ts|
  {
    if ts != [] {
      var slots := Slots(ts, vs, offset);
      if IsFixed(ts[0]) {
        SerializeLen(ts[0], vs[0]);
        HeadsLength(ts[1..], vs[1..], offset);
        assert slots[1..] == Slots(ts[1..], vs[1..], offset);
      } else {
        var next := offset + |Serialize(ts[0], vs[0])|;
        HeadsLength(ts[1..], vs[1..], next);
        assert slots[1..] == Slots(ts[1..], vs[1..], next);
      }
    }
  }

  lemma {:induction false} NoTails(ts: seq<SszType>, vs: seq<Value>)
    requires AllFixed(ts)
    ensures Tails(ts, vs) == []
  {
    if ts != [] && vs != [] { NoTails(ts[1..], vs[1..]); }
  }
}

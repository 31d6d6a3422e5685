/**
 Encoding (the SizeOf and Encode methods of the types package, types/elem_fixed_size_series.go and
 types/elem_var_size_series.go).  Sizes are computed without encoding, offsets are written before the
 parts they point to, and the outcome is proved to be the serialized form; a panic occurs
 exactly when some offset does not fit.
 */
module Encoder {
  import opened Bytes
  import opened Grammar
  import opened Serialization
  import opened PartLemmas
  import opened EncodingWriting
  import opened Outcomes

  // ----- sizes

  method SizeOf(t: SszType, v: Value) returns (size: nat)
    requires Typed(t, v)
    ensures size == |Serialize(t, v)|
    decreases Height(t), 0, 0
  {
    SerializeLen(t, v);
    if IsFixed(t) {
      return FixedLen(t);
    }
    match t
    case Bytes(_) => size := |v.data|;
    case Bitlist(_) => size := |v.data|;
    case BasicList(k, _) => size := |v.ns| * k.Size();
    case Vector(e, n) =>
      CompositeSize(t, v);
      size := SizeOfElems(e, v.vs, FixedLen(t));
    case List(e, _) =>
      CompositeSize(t, v);
      RepeatLens(e, |v.vs|);
      RepeatFixed(e, |v.vs|);
      if IsFixed(e) {
        NoTails(Repeat(e, |v.vs|), v.vs);
        size := |v.vs| * FixedLen(e);
      } else {
        size := SizeOfElems(e, v.vs, |v.vs| * BYTES_PER_LENGTH_OFFSET);
      }
    case Container(ts) =>
      CompositeSize(t, v);
      size := SizeOfFields(ts, v.vs, FixedLen(t));
  }

  lemma CompositeSize(t: SszType, v: Value)
    requires t.Composite() && Typed(t, v)
    ensures var ts := Parts(t, |v.vs|);
            && |Serialize(t, v)| == HeadsLen(ts) + |Tails(ts, v.vs)|
            && (!t.List? ==> HeadsLen(ts) == FixedLen(t))
  {
    PartsLens(t, |v.vs|);
    HeadsLength(Parts(t, |v.vs|), v.vs, HeadsLen(Parts(t, |v.vs|)));
  }

  /** `start` and the sizes of variable-size elements */
  method SizeOfElems(e: SszType, vs: seq<Value>, start: nat) returns (out: nat)
    requires !IsFixed(e) && TypedAll(Repeat(e, |vs|), vs)
    ensures out == start + |Tails(Repeat(e, |vs|), vs)|
    decreases Height(e), 1, 0
  {
    ghost var ts := Repeat(e, |vs|);
    TailsFromStart(ts, vs);
    out := start;
    for i := 0 to |vs|
      invariant out + |TailsFrom(ts, vs, i)| == start + |Tails(ts, vs)|
    {
      TypedAt(ts, vs, i);
      TailsFromStep(ts, vs, i);
      var size := SizeOf(e, vs[i]);
      out := out + size;
    }
  }

  method SizeOfFields(ts: seq<SszType>, vs: seq<Value>, start: nat) returns (out: nat)
    requires TypedAll(ts, vs)
    ensures out == start + |Tails(ts, vs)|
    decreases MaxHeight(ts), 1, 0
  {
    TailsFromStart(ts, vs);
    out := start;
    for i := 0 to |ts|
      invariant out + |TailsFrom(ts, vs, i)| == start + |Tails(ts, vs)|
    {
      TypedAt(ts, vs, i);
      HeightAt(ts, i);
      TailsFromStep(ts, vs, i);
      if !IsFixed(ts[i]) {
        var size := SizeOf(ts[i], vs[i]);
        out := out + size;
      }
    }
  }

  // ----- encoding

  /** `ok` is false for a panic. */
  method Encode(t: SszType, v: Value, ew: EncodingWriter) returns (ok: bool)
    requires Typed(t, v)
    requires ew.Valid()
    modifies ew
    ensures ew.Valid()
    ensures ok <==> Encodable(t, v)
    ensures ok ==> ew.sink == old(ew.sink) + Serialize(t, v)
    decreases Height(t), 0, 0
  {
    if !t.Composite() {
      EncodeLeaf(t, v, ew);
      return true;
    }
    EncodablePartsOf(t, v);
    match t
    case Vector(e, n) => ok := EncodeSeries(e, v.vs, ew);
    case List(e, _) => ok := EncodeSeries(e, v.vs, ew);
    case Container(ts) => ok := EncodeContainer(ts, v.vs, ew);
  }

  lemma EncodablePartsOf(t: SszType, v: Value)
    requires t.Composite() && Typed(t, v)
    ensures var ts := Parts(t, |v.vs|);
            && (Encodable(t, v) <==> HeadsEncodable(ts, v.vs, HeadsLen(ts)) && TailsEncodable(ts, v.vs))
  {
    EncodableParts(Parts(t, |v.vs|), v.vs, HeadsLen(Parts(t, |v.vs|)));
  }

  method EncodeLeaf(t: SszType, v: Value, ew: EncodingWriter)
    requires !t.Composite() && Typed(t, v)
    requires ew.Valid()
    modifies ew
    ensures ew.Valid()
    ensures ew.sink == old(ew.sink) + Serialize(t, v)
  {
    match v
    case Num(n) => ew.Write(LE(n, t.kind.Size()));
    case Raw(data) => ew.Write(data);
    case Nums(ns) => ew.Write(Pack(t.kind.Size(), ns));
  }

  /** The parts of a value have been written after `before`. */
  ghost predicate Wrote(before: seq<byte>, after: seq<byte>, ts: seq<SszType>, vs: seq<Value>) {
    after == before + Heads(ts, Slots(ts, vs, HeadsLen(ts))) + Tails(ts, vs)
  }

  method EncodeSeries(e: SszType, vs: seq<Value>, ew: EncodingWriter) returns (ok: bool)
    requires TypedAll(Repeat(e, |vs|), vs)
    requires ew.Valid()
    modifies ew
    ensures ew.Valid()
    ensures var ts := Repeat(e, |vs|);
            && (ok <==> HeadsEncodable(ts, vs, HeadsLen(ts)) && TailsEncodable(ts, vs))
            && (ok ==> Wrote(old(ew.sink), ew.sink, ts, vs))
    decreases Height(e), 3, 0
  {
    ghost var ts := Repeat(e, |vs|);
    RepeatLens(e, |vs|);
    RepeatFixed(e, |vs|);
    if IsFixed(e) {
      NoTails(ts, vs);
      NothingToPoint(ts, vs);
      ok := EncodeFixedSeries(e, vs, ew, HeadsLen(ts));
    } else {
      ok := EncodeOffsets(e, vs, ew);
      if ok { ok := EncodePayloads(e, vs, ew); }
    }
  }

  lemma {:induction false} NothingToPoint(ts: seq<SszType>, vs: seq<Value>)
    requires AllFixed(ts)
    ensures TailsEncodable(ts, vs)
  {
    if ts != [] && vs != [] { NothingToPoint(ts[1..], vs[1..]); }
  }

  method EncodeFixedSeries(e: SszType, vs: seq<Value>, ew: EncodingWriter, ghost offset: nat) returns (ok: bool)
    requires IsFixed(e) && TypedAll(Repeat(e, |vs|), vs)
    requires ew.Valid()
    modifies ew
    ensures ew.Valid()
    ensures var ts := Repeat(e, |vs|);
            && (ok <==> HeadsEncodable(ts, vs, offset))
            && (ok ==> ew.sink == old(ew.sink) + Heads(ts, Slots(ts, vs, offset)))
    decreases Height(e), 1, 0
  {
    ghost var ts := Repeat(e, |vs|);
    ghost var goal := ew.sink + Heads(ts, Slots(ts, vs, offset));
    ghost var can := HeadsEncodable(ts, vs, offset);
    HeadsBegin(ew.sink, ts, vs, offset);
    for i := 0 to |vs|
      invariant ew.Valid() && HeadsToGo(goal, can, ew.sink, ts, vs, i, offset)
    {
      TypedAt(ts, vs, i);
      HeadsOn(goal, can, ew.sink, ts, vs, i, offset);
      ok := Encode(e, vs[i], ew);
      if !ok { return; }
    }
    HeadsEnd(goal, can, ew.sink, ts, vs, offset);
    return true;
  }

  /** All offsets of a series, each predicted from the size of the element before. */
  method EncodeOffsets(e: SszType, vs: seq<Value>, ew: EncodingWriter) returns (ok: bool)
    requires !IsFixed(e) && TypedAll(Repeat(e, |vs|), vs)
    requires ew.Valid()
    modifies ew
    ensures ew.Valid()
    ensures var ts := Repeat(e, |vs|);
            && (ok <==> HeadsEncodable(ts, vs, BYTES_PER_LENGTH_OFFSET * |vs|))
            && (ok ==> ew.sink == old(ew.sink) + Heads(ts, Slots(ts, vs, BYTES_PER_LENGTH_OFFSET * |vs|)))
    decreases Height(e), 1, 0
  {
    ghost var ts := Repeat(e, |vs|);
    var prevOffset: nat, prevSize: nat := BYTES_PER_LENGTH_OFFSET * |vs|, 0;
    ghost var goal := ew.sink + Heads(ts, Slots(ts, vs, prevOffset));
    ghost var can := HeadsEncodable(ts, vs, prevOffset);
    HeadsBegin(ew.sink, ts, vs, prevOffset);
    for i := 0 to |vs|
      invariant ew.Valid() && HeadsToGo(goal, can, ew.sink, ts, vs, i, prevOffset + prevSize)
    {
      TypedAt(ts, vs, i);
      ghost var was := prevOffset + prevSize;
      HeadsOn(goal, can, ew.sink, ts, vs, i, was);
      var offset := ew.WriteOffset(prevOffset, prevSize);
      if offset.Panic? { return false; }
      prevOffset := offset.value;
      prevSize := SizeOf(e, vs[i]);
      assert prevOffset + prevSize == Next(ts[i], vs[i], was);
    }
    HeadsEnd(goal, can, ew.sink, ts, vs, prevOffset + prevSize);
    return true;
  }

  method EncodePayloads(e: SszType, vs: seq<Value>, ew: EncodingWriter) returns (ok: bool)
    requires !IsFixed(e) && TypedAll(Repeat(e, |vs|), vs)
    requires ew.Valid()
    modifies ew
    ensures ew.Valid()
    ensures var ts := Repeat(e, |vs|);
            && (ok <==> TailsEncodable(ts, vs))
            && (ok ==> ew.sink == old(ew.sink) + Tails(ts, vs))
    decreases Height(e), 1, 0
  {
    ghost var ts := Repeat(e, |vs|);
    ghost var goal := ew.sink + Tails(ts, vs);
    ghost var can := TailsEncodable(ts, vs);
    TailsBegin(ew.sink, ts, vs);
    for i := 0 to |vs|
      invariant ew.Valid() && TailsToGo(goal, can, ew.sink, ts, vs, i)
    {
      TypedAt(ts, vs, i);
      TailsOn(goal, can, ew.sink, ts, vs, i);
      ok := Encode(e, vs[i], ew);
      if !ok { return; }
    }
    TailsEnd(goal, can, ew.sink, ts, vs);
    return true;
  }

  method EncodeContainer(ts: seq<SszType>, vs: seq<Value>, ew: EncodingWriter) returns (ok: bool)
    requires TypedAll(ts, vs)
    requires ew.Valid()
    modifies ew
    ensures ew.Valid()
    ensures ok <==> HeadsEncodable(ts, vs, HeadsLen(ts)) && TailsEncodable(ts, vs)
    ensures ok ==> Wrote(old(ew.sink), ew.sink, ts, vs)
    decreases MaxHeight(ts), 3, 0
  {
    ok := EncodeFixedPart(ts, vs, ew);
    if AllFixed(ts) {
      // the hot path for fixed-size containers has no second pass
      NoTails(ts, vs);
      NothingToPoint(ts, vs);
    } else if ok {
      ok := EncodeDynamicPart(ts, vs, ew);
    }
  }

  /** The fixed-size fields, with offsets in place of the others. */
  method EncodeFixedPart(ts: seq<SszType>, vs: seq<Value>, ew: EncodingWriter) returns (ok: bool)
    requires TypedAll(ts, vs)
    requires ew.Valid()
    modifies ew
    ensures ew.Valid()
    ensures ok <==> HeadsEncodable(ts, vs, HeadsLen(ts))
    ensures ok ==> ew.sink == old(ew.sink) + Heads(ts, Slots(ts, vs, HeadsLen(ts)))
    decreases MaxHeight(ts), 1, 0
  {
    var prevOffset: nat, prevSize: nat := HeadsLen(ts), 0;
    ghost var goal := ew.sink + Heads(ts, Slots(ts, vs, prevOffset));
    ghost var can := HeadsEncodable(ts, vs, prevOffset);
    HeadsBegin(ew.sink, ts, vs, prevOffset);
    for i := 0 to |ts|
      invariant ew.Valid() && HeadsToGo(goal, can, ew.sink, ts, vs, i, prevOffset + prevSize)
    {
      TypedAt(ts, vs, i);
      HeightAt(ts, i);
      ghost var was := prevOffset + prevSize;
      HeadsOn(goal, can, ew.sink, ts, vs, i, was);
      if IsFixed(ts[i]) {
        ok := Encode(ts[i], vs[i], ew);
        if !ok { return; }
      } else {
        var offset := ew.WriteOffset(prevOffset, prevSize);
        if offset.Panic? { return false; }
        prevOffset := offset.value;
        prevSize := SizeOf(ts[i], vs[i]);
      }
      assert prevOffset + prevSize == Next(ts[i], vs[i], was);
    }
    HeadsEnd(goal, can, ew.sink, ts, vs, prevOffset + prevSize);
    return true;
  }

  method EncodeDynamicPart(ts: seq<SszType>, vs: seq<Value>, ew: EncodingWriter) returns (ok: bool)
    requires TypedAll(ts, vs)
    requires ew.Valid()
    modifies ew
    ensures ew.Valid()
    ensures ok <==> TailsEncodable(ts, vs)
    ensures ok ==> ew.sink == old(ew.sink) + Tails(ts, vs)
    decreases MaxHeight(ts), 1, 0
  {
    ghost var goal := ew.sink + Tails(ts, vs);
    ghost var can := TailsEncodable(ts, vs);
    TailsBegin(ew.sink, ts, vs);
    for i := 0 to |ts|
      invariant ew.Valid() && TailsToGo(goal, can, ew.sink, ts, vs, i)
    {
      TypedAt(ts, vs, i);
      HeightAt(ts, i);
      TailsOn(goal, can, ew.sink, ts, vs, i);
      if !IsFixed(ts[i]) {
        ok := Encode(ts[i], vs[i], ew);
        if !ok { return; }
      }
    }
    TailsEnd(goal, can, ew.sink, ts, vs);
    return true;
  }
}

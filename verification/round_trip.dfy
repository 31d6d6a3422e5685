/**
 Decoding inverts encoding.  For every value that its Go type can hold and that can be encoded, parsing
 the serialized form returns exactly that value if it is legal, and rejects it otherwise.
 */
module RoundTrip {
  import opened Bits
  import opened Bytes
  import opened Bitfields
  import opened Grammar
  import opened Serialization
  import opened Parsing
  import opened Outcomes

  /** `Accept` of a legal value */
  function Expected(t: SszType, v: Value): Parsed {
    if Legal(t, v) then Accept(v, |Serialize(t, v)|) else Reject
  }

  lemma SeriesComplete(k: Basic, ns: seq<nat>, rest: seq<byte>)
    requires InRangeAll(k, ns)
    ensures ParseSeries(k, |ns|, Pack(k.Size(), ns) + rest) == Accept(Nums(ns), |Pack(k.Size(), ns)|)
  {
    var b := Pack(k.Size(), ns);
    assert (b + rest)[..|b|] == b;
    BoolInRange();
    UnpackOfPack(k.Size(), ns);
  }

  lemma BoolInRange()
    ensures Pow256(1) == 256
  {
  }

  lemma LeafComplete(t: SszType, v: Value, rest: seq<byte>)
    requires !t.Composite() && TypedLeaf(t, v) && (IsFixed(t) || rest == [])
    ensures ParseLeaf(t, SerializeLeaf(t, v) + rest)
            == if LegalHere(t, v) then Accept(v, |SerializeLeaf(t, v)|) else Reject
  {
    var b := SerializeLeaf(t, v);
    var s := b + rest;
    assert s[..|b|] == b;
    assert rest == [] ==> s == b;
    match t
    case Scalar(k) =>
      BoolInRange();
      FromLEOfLE(v.n, k.Size());
    case BasicVector(k, count) => SeriesComplete(k, v.ns, rest);
    case BasicList(k, limit) =>
      SeriesComplete(k, v.ns, rest);
      CountOfBytes(|v.ns|, k.Size(), limit);
    case _ =>
  }

  lemma CountOfBytes(count: nat, size: nat, limit: nat)
    requires size > 0
    ensures count * size % size == 0 && count * size / size == count
    ensures count * size <= limit * size <==> count <= limit
  {
    DivOfMul(count, size);
    if count > limit {
      MulLess(limit, count, size);
    } else if count < limit {
      MulLess(count, limit, size);
    }
  }

  lemma MulLess(a: nat, b: nat, size: nat)
    requires a < b
    ensures a * size + size <= b * size
  {
    assert b * size == a * size + (b - a) * size;
    assert (b - a) * size == size + (b - a - 1) * size;
  }

  lemma DivOfMul(count: nat, size: nat)
    requires size > 0
    ensures count * size % size == 0 && count * size / size == count
  {
    var q := count * size / size;
    assert q * size <= count * size < q * size + size;
    if q < count {
      MulLess(q, count, size);
    } else if count < q {
      MulLess(count, q, size);
    }
  }

  /** the fixed-size parts are legal */
  ghost predicate InlineLegal(ts: seq<SszType>, vs: seq<Value>) {
    ts == [] || vs == [] || ((IsFixed(ts[0]) ==> Legal(ts[0], vs[0])) && InlineLegal(ts[1..], vs[1..]))
  }

  /** the variable-size parts are legal */
  ghost predicate OffsetLegal(ts: seq<SszType>, vs: seq<Value>) {
    ts == [] || vs == [] || ((!IsFixed(ts[0]) ==> Legal(ts[0], vs[0])) && OffsetLegal(ts[1..], vs[1..]))
  }

  lemma {:induction false} LegalParts(ts: seq<SszType>, vs: seq<Value>)
    ensures LegalAll(ts, vs) <==> InlineLegal(ts, vs) && OffsetLegal(ts, vs)
  {
    if ts != [] && vs != [] { LegalParts(ts[1..], vs[1..]); }
  }

  ghost function ExpectedHeads(ts: seq<SszType>, vs: seq<Value>, offset: nat): ParsedHeads {
    if InlineLegal(ts, vs) then AcceptHeads(Slots(ts, vs, offset), HeadsLen(ts)) else RejectHeads
  }

  lemma {:induction false} HeadsComplete(ts: seq<SszType>, vs: seq<Value>, offset: nat, rest: seq<byte>)
    requires TypedAll(ts, vs) && EncodableAll(ts, vs, offset)
    ensures ParseHeads(ts, Heads(ts, Slots(ts, vs, offset)) + rest) == ExpectedHeads(ts, vs, offset)
    decreases MaxHeight(ts), 1, |ts|
  {
    if ts != [] {
      var next := if IsFixed(ts[0]) then offset else offset + |Serialize(ts[0], vs[0])|;
      var slot := if IsFixed(ts[0]) then Inline(vs[0]) else Offset(offset);
      var more := Heads(ts[1..], Slots(ts[1..], vs[1..], next)) + rest;
      HeadsComplete(ts[1..], vs[1..], next, rest);
      HeadComplete(ts[0], vs[0], slot, more);
      ExpectedHeadsStep(ts, vs, offset, slot, next);
      Regroup(Head(ts[0], slot), Heads(ts[1..], Slots(ts[1..], vs[1..], next)), rest);
    }
  }

  lemma Regroup(a: seq<byte>, b: seq<byte>, c: seq<byte>)
    ensures a + b + c == a + (b + c) && (a + (b + c))[|a|..] == b + c
  {
  }

  lemma ExpectedHeadsStep(ts: seq<SszType>, vs: seq<Value>, offset: nat, slot: Slot, next: nat)
    requires ts != [] && vs != []
    requires slot == if IsFixed(ts[0]) then Inline(vs[0]) else Offset(offset)
    requires next == if IsFixed(ts[0]) then offset else offset + |Serialize(ts[0], vs[0])|
    ensures Heads(ts, Slots(ts, vs, offset)) == Head(ts[0], slot) + Heads(ts[1..], Slots(ts[1..], vs[1..], next))
    ensures ExpectedHeads(ts, vs, offset) ==
            if IsFixed(ts[0]) && !Legal(ts[0], vs[0]) then RejectHeads
            else Behind([slot], HeadLen(ts[0]), ExpectedHeads(ts[1..], vs[1..], next))
  {
    SlotsInFront(ts, vs, offset, slot, next);
  }

  lemma SlotsInFront(ts: seq<SszType>, vs: seq<Value>, offset: nat, slot: Slot, next: nat)
    requires ts != [] && vs != []
    requires slot == if IsFixed(ts[0]) then Inline(vs[0]) else Offset(offset)
    requires next == if IsFixed(ts[0]) then offset else offset + |Serialize(ts[0], vs[0])|
    ensures Slots(ts, vs, offset) == [slot] + Slots(ts[1..], vs[1..], next)
    ensures Heads(ts, Slots(ts, vs, offset)) == Head(ts[0], slot) + Heads(ts[1..], Slots(ts[1..], vs[1..], next))
  {
    assert ([slot] + Slots(ts[1..], vs[1..], next))[1..] == Slots(ts[1..], vs[1..], next);
  }

  lemma {:induction false} HeadComplete(t: SszType, v: Value, slot: Slot, rest: seq<byte>)
    requires Typed(t, v) && Encodable(t, v)
    requires if IsFixed(t) then slot == Inline(v) else slot.Offset? && slot.o < OFFSET_LIMIT
    ensures |Head(t, slot)| == HeadLen(t)
    ensures ParseHead(t, Head(t, slot) + rest)
            == if IsFixed(t) && !Legal(t, v) then RejectHeads else AcceptHeads([slot], HeadLen(t))
    decreases Height(t), 1, 0
  {
    if IsFixed(t) {
      SerializeLen(t, v);
      ParseComplete(t, v, rest);
    } else {
      Pow256Of4();
      FromLEOfLE(slot.o, BYTES_PER_LENGTH_OFFSET);
      assert (Head(t, slot) + rest)[..BYTES_PER_LENGTH_OFFSET] == Head(t, slot);
    }
  }

  /** Where the next variable-size part starts, the one before ends. */
  lemma {:induction false} NextOffsetOfSlots(ts: seq<SszType>, vs: seq<Value>, offset: nat, end: nat)
    requires |ts| == |vs|
    ensures NextOffset(Slots(ts, vs, offset), end) == if AllFixed(ts) then end else offset
  {
    if ts != [] {
      if IsFixed(ts[0]) {
        var slots := Slots(ts, vs, offset);
        assert slots[1..] == Slots(ts[1..], vs[1..], offset);
        NextOffsetOfSlots(ts[1..], vs[1..], offset, end);
      }
    }
  }

  ghost function ExpectedTails(ts: seq<SszType>, vs: seq<Value>, c: nat): ParsedParts {
    if OffsetLegal(ts, vs) then AcceptParts(vs, c + |Tails(ts, vs)|) else RejectParts
  }

  lemma {:induction false} SlotCount(ts: seq<SszType>, vs: seq<Value>, offset: nat)
    requires |ts| == |vs|
    ensures |Slots(ts, vs, offset)| == |ts|
    decreases |ts|
  {
    if ts != [] {
      SlotCount(ts[1..], vs[1..], if IsFixed(ts[0]) then offset else offset + |Serialize(ts[0], vs[0])|);
    }
  }

  lemma {:induction false} TailsComplete(ts: seq<SszType>, vs: seq<Value>, s: seq<byte>, c: nat)
    requires TypedAll(ts, vs) && EncodableAll(ts, vs, c) && c <= |s|
    requires AllFixed(ts) || s[c..] == Tails(ts, vs)
    ensures |Slots(ts, vs, c)| == |ts|
    ensures ParseTails(ts, Slots(ts, vs, c), s, c) == ExpectedTails(ts, vs, c)
    decreases MaxHeight(ts), 1, |ts|
  {
    SlotCount(ts, vs, c);
    if ts != [] {
      if IsFixed(ts[0]) {
        SlotsInFront(ts, vs, c, Inline(vs[0]), c);
        assert Slots(ts, vs, c)[1..] == Slots(ts[1..], vs[1..], c);
        TailsComplete(ts[1..], vs[1..], s, c);
        assert vs == [vs[0]] + vs[1..];
      } else {
        TailComplete(ts, vs, s, c);
      }
    }
  }

  /** A variable-size part lies between its own offset and the next. */
  lemma TailScope(ts: seq<SszType>, vs: seq<Value>, s: seq<byte>, c: nat, end: nat)
    requires ts != [] && !IsFixed(ts[0]) && |ts| == |vs|
    requires c <= |s| && s[c..] == Tails(ts, vs) && end == c + |Serialize(ts[0], vs[0])|
    ensures end <= |s| && s[c..end] == Serialize(ts[0], vs[0]) && s[end..] == Tails(ts[1..], vs[1..])
    ensures NextOffset(Slots(ts[1..], vs[1..], end), |s|) == end
  {
    var b, rest := Serialize(ts[0], vs[0]), Tails(ts[1..], vs[1..]);
    assert s[c..] == b + rest;
    assert s[c..end] == s[c..][..|b|] && s[end..] == s[c..][|b|..];
    if AllFixed(ts[1..]) { NoTails(ts[1..], vs[1..]); }
    NextOffsetOfSlots(ts[1..], vs[1..], end, |s|);
  }

  lemma ExpectedTailsStep(ts: seq<SszType>, vs: seq<Value>, c: nat, end: nat)
    requires ts != [] && !IsFixed(ts[0]) && |ts| == |vs| && end == c + |Serialize(ts[0], vs[0])|
    ensures ExpectedTails(ts, vs, c) ==
            match Expected(ts[0], vs[0])
            case Reject => RejectParts
            case Accept(v, n) => After([v], ExpectedTails(ts[1..], vs[1..], end))
  {
    assert vs == [vs[0]] + vs[1..];
  }

  lemma {:induction false} TailComplete(ts: seq<SszType>, vs: seq<Value>, s: seq<byte>, c: nat)
    requires ts != [] && !IsFixed(ts[0]) && TypedAll(ts, vs) && EncodableAll(ts, vs, c)
    requires c <= |s| && s[c..] == Tails(ts, vs) && |Slots(ts, vs, c)| == |ts|
    ensures ParseTails(ts, Slots(ts, vs, c), s, c) == ExpectedTails(ts, vs, c)
    decreases MaxHeight(ts), 1, |ts|, 0
  {
    var end := c + |Serialize(ts[0], vs[0])|;
    TailScope(ts, vs, s, c, end);
    ParseComplete(ts[0], vs[0], []);
    assert s[c..end] == Serialize(ts[0], vs[0]) + [];
    TailsComplete(ts[1..], vs[1..], s, end);
    var slots := Slots(ts, vs, c);
    SlotsInFront(ts, vs, c, Offset(c), end);
    assert slots[1..] == Slots(ts[1..], vs[1..], end);
    TailAt(ts, slots, s, c, end, Expected(ts[0], vs[0]));
    ExpectedTailsStep(ts, vs, c, end);
  }

  lemma {:induction false} PartsComplete(ts: seq<SszType>, vs: seq<Value>, rest: seq<byte>)
    requires TypedAll(ts, vs) && EncodableAll(ts, vs, HeadsLen(ts)) && (AllFixed(ts) || rest == [])
    ensures var b := Heads(ts, Slots(ts, vs, HeadsLen(ts))) + Tails(ts, vs);
            ParseParts(ts, b + rest) == if LegalAll(ts, vs) then AcceptParts(vs, |b|) else RejectParts
    decreases MaxHeight(ts), 2, 0
  {
    var n := HeadsLen(ts);
    var heads, tails := Heads(ts, Slots(ts, vs, n)), Tails(ts, vs);
    var s := heads + tails + rest;
    HeadsLength(ts, vs, n);
    assert s == heads + (tails + rest);
    HeadsComplete(ts, vs, n, tails + rest);
    assert s[n..] == tails + rest;
    assert rest == [] ==> tails + rest == tails;
    TailsComplete(ts, vs, s, n);
    LegalParts(ts, vs);
  }

  // ----- the number of elements of a list

  lemma {:induction false} TailsAtLeast(e: SszType, vs: seq<Value>)
    requires !IsFixed(e) && TypedAll(Repeat(e, |vs|), vs)
    ensures |Tails(Repeat(e, |vs|), vs)| >= FixedLen(e) * |vs|
  {
    if vs != [] {
      RepeatTail(e, |vs|);
      TailsAtLeast(e, vs[1..]);
      SerializeLen(e, vs[0]);
      MulStep(FixedLen(e), |vs|);
    }
  }

  lemma FixedCountComplete(t: SszType, v: Value)
    requires t.List? && IsFixed(t.elem) && Typed(t, v)
    ensures FixedLen(t.elem) > 0 ==> FixedElemCount(t.elem, Serialize(t, v)) == Some(|v.vs|)
  {
    var n := |v.vs|;
    var ts := Repeat(t.elem, n);
    RepeatFixed(t.elem, n);
    RepeatLens(t.elem, n);
    HeadsLength(ts, v.vs, HeadsLen(ts));
    NoTails(ts, v.vs);
    if FixedLen(t.elem) > 0 { DivOfMul(n, FixedLen(t.elem)); }
  }

  lemma FirstOffset(t: SszType, v: Value)
    requires t.List? && !IsFixed(t.elem) && Typed(t, v) && Encodable(t, v) && v.vs != []
    ensures var s, first := Serialize(t, v), BYTES_PER_LENGTH_OFFSET * |v.vs|;
            && |s| >= first && FromLE(s[..BYTES_PER_LENGTH_OFFSET]) == first
            && |s| >= FixedLen(t.elem) * |v.vs|
  {
    var n := |v.vs|;
    var ts := Repeat(t.elem, n);
    var s := Serialize(t, v);
    var first := BYTES_PER_LENGTH_OFFSET * n;
    RepeatLens(t.elem, n);
    HeadsLength(ts, v.vs, first);
    SlotsInFront(ts, v.vs, first, Offset(first), first + |Serialize(ts[0], v.vs[0])|);
    assert s[..BYTES_PER_LENGTH_OFFSET] == LE(first, BYTES_PER_LENGTH_OFFSET);
    Pow256Of4();
    FromLEOfLE(first, BYTES_PER_LENGTH_OFFSET);
    TailsAtLeast(t.elem, v.vs);
  }

  lemma VarCountComplete(t: SszType, v: Value)
    requires t.List? && !IsFixed(t.elem) && Typed(t, v) && Encodable(t, v)
    ensures VarElemCount(t.elem, Serialize(t, v)) == Some(|v.vs|)
  {
    if v.vs != [] {
      FirstOffset(t, v);
      var product := FixedLen(t.elem) * |v.vs|;
      assert product % TWO_64 <= product;
    }
  }

  lemma CountComplete(t: SszType, v: Value, rest: seq<byte>)
    requires t.Composite() && Typed(t, v) && Encodable(t, v) && (IsFixed(t) || rest == [])
    ensures PartCount(t, Serialize(t, v) + rest) == if LegalHere(t, v) then Some(|v.vs|) else None
  {
    if t.List? {
      assert Serialize(t, v) + [] == Serialize(t, v);
      if IsFixed(t.elem) { FixedCountComplete(t, v); } else { VarCountComplete(t, v); }
    }
  }

  /** The main result, for every type and every value; after a fixed-size value anything may follow. */
  lemma {:induction false} ParseComplete(t: SszType, v: Value, rest: seq<byte>)
    requires Typed(t, v) && Encodable(t, v) && (IsFixed(t) || rest == [])
    ensures Parse(t, Serialize(t, v) + rest) == Expected(t, v)
    decreases Height(t), 0, 0
  {
    if t.Composite() {
      CountComplete(t, v, rest);
      if LegalHere(t, v) {
        var ts := Parts(t, |v.vs|);
        if t.Vector? { RepeatFixed(t.elem, t.length); }
        PartsComplete(ts, v.vs, rest);
      }
    } else {
      LeafComplete(t, v, rest);
    }
  }
}

/**
 Decoding (the Decode methods of the types package, types/elem_fixed_size_series.go and
 types/elem_var_size_series.go), outside fuzz mode.  Every method is proved to deliver what parsing
 the bytes of its scope delivers.
 */
module Decoder {
  import opened Bits
  import opened Bytes
  import opened Bitfields
  import opened Grammar
  import opened GrammarLaws
  import opened Serialization
  import opened Parsing
  import opened Canonical
  import opened PartLemmas
  import opened DecodeLoops
  import opened DecodingReading
  import opened Outcomes

  /** `r` is the outcome `p`, if reading it has advanced the index by `n`. */
  ghost predicate Agrees(p: Parsed, r: Option<Value>, n: int) {
    match p
    case Reject => r.None?
    case Accept(v, m) => r == Some(v) && n == m
  }

  ghost predicate AgreesAll(p: ParsedParts, r: Option<seq<Value>>, n: int) {
    match p
    case RejectParts => r.None?
    case AcceptParts(vs, m) => r == Some(vs) && n == m
  }

  // ----- leaves

  method DecodeLeaf(t: SszType, dr: DecodingReader) returns (r: Option<Value>)
    requires !t.Composite() && dr.Valid() && Sized(t)
    modifies dr, dr.input
    ensures dr.Kept(old(dr.Base()), old(dr.Scoped()))
    ensures Agrees(ParseLeaf(t, old(dr.Ahead())), r, dr.i - old(dr.i))
  {
    ghost var s := dr.Ahead();
    assert s[..|s|] == s;
    match t
    case Scalar(k) => r := DecodeScalar(k, dr);
    case BytesN(n) => r := DecodeRaw(n, dr);
    case Bitvector(bits) =>
      r := DecodeRaw((bits + 7) / 8, dr);
      if r.Some? && !BitvectorCheck(r.value.data, bits) { r := None; }
    case Bytes(limit) =>
      if dr.BytesSpan() > limit { return None; }
      r := DecodeRaw(dr.BytesSpan(), dr);
    case Bitlist(limit) =>
      r := DecodeRaw(dr.BytesSpan(), dr);
      if r.Some? && !BitlistCheck(r.value.data, limit) { r := None; }
    case BasicVector(k, n) => r := DecodeBasicSeries(k, n, dr);
    case BasicList(k, limit) =>
      var bytesLen := dr.BytesSpan();
      if bytesLen % k.Size() != 0 { return None; }
      if bytesLen > limit * k.Size() { return None; }
      r := DecodeBasicSeries(k, bytesLen / k.Size(), dr);
  }

  /** Reads `n` bytes as they are. */
  method DecodeRaw(n: nat, dr: DecodingReader) returns (r: Option<Value>)
    requires dr.Valid() && n < TWO_63
    modifies dr, dr.input
    ensures dr.Kept(old(dr.Base()), old(dr.Scoped()))
    ensures r == if |old(dr.Ahead())| < n then None else Some(Raw(old(dr.Ahead())[..n]))
    ensures dr.i == old(dr.i) + if r.Some? then n else 0
  {
    var b := dr.Read(n);
    if b.None? { return None; }
    return Some(Raw(b.value));
  }

  method DecodeScalar(k: Basic, dr: DecodingReader) returns (r: Option<Value>)
    requires dr.Valid()
    modifies dr, dr.input
    ensures dr.Kept(old(dr.Base()), old(dr.Scoped()))
    ensures Agrees(ParseLeaf(Scalar(k), old(dr.Ahead())), r, dr.i - old(dr.i))
  {
    var b := dr.Read(k.Size());
    if b.None? { return None; }
    ScalarRange(k, b.value);
    if k.BoolKind? && b.value[0] > 1 { return None; }
    return Some(Num(FromLE(b.value)));
  }

  lemma ScalarRange(k: Basic, b: seq<byte>)
    requires |b| == k.Size()
    ensures k.InRange(FromLE(b)) <==> (k.BoolKind? ==> b[0] <= 1)
  {
    LEOfFromLE(b);
    if k.BoolKind? { assert FromLE(b[1..]) == 0; }
  }

  /** Reads a memory image of `n` elements; bytes of booleans are checked one by one. */
  method DecodeBasicSeries(k: Basic, n: nat, dr: DecodingReader) returns (r: Option<Value>)
    requires dr.Valid() && n * k.Size() < TWO_63
    modifies dr, dr.input
    ensures dr.Kept(old(dr.Base()), old(dr.Scoped()))
    ensures Agrees(ParseSeries(k, n, old(dr.Ahead())), r, dr.i - old(dr.i))
    ensures r.Some? ==> r.value.Nums? && |r.value.ns| == n && n * k.Size() <= |old(dr.Ahead())|
    ensures r.Some? ==> HoldsNumbers(k.Size(), r.value.ns, old(dr.Ahead())[..n * k.Size()])
  {
    var data := dr.Read(n * k.Size());
    if data.None? { return None; }
    SeriesHeld(k, n, data.value);
    var ok := true;
    if k.BoolKind? { ok := AllBools(data.value); }
    SeriesRange(k, n, data.value);
    if !ok { return None; }
    return Some(Nums(Unpack(k.Size(), n, data.value)));
  }

  lemma SeriesHeld(k: Basic, n: nat, data: seq<byte>)
    requires |data| == n * k.Size()
    ensures HoldsNumbers(k.Size(), Unpack(k.Size(), n, data), data)
  {
    PackOfUnpack(k.Size(), n, data);
    PackHolds(k.Size(), Unpack(k.Size(), n, data));
  }

  method AllBools(data: seq<byte>) returns (ok: bool)
    ensures ok <==> forall j :: 0 <= j < |data| ==> data[j] <= 1
  {
    for i := 0 to |data|
      invariant forall j :: 0 <= j < i ==> data[j] <= 1
    {
      if data[i] > 1 { return false; }
    }
    return true;
  }

  lemma SeriesRange(k: Basic, n: nat, data: seq<byte>)
    requires |data| == n * k.Size()
    ensures InRangeAll(k, Unpack(k.Size(), n, data)) <==>
            (k.BoolKind? ==> forall j :: 0 <= j < |data| ==> data[j] <= 1)
  {
    PackOfUnpack(k.Size(), n, data);
    if k.BoolKind? { UnpackBytes(n, data); }
  }

  // ----- dispatch

  method Decode(t: SszType, dr: DecodingReader) returns (r: Option<Value>)
    requires dr.Valid() && Sized(t) && (IsFixed(t) || dr.i == 0)
    modifies dr, dr.input
    ensures r.Some? ==> dr.Kept(old(dr.Base()), old(dr.Scoped()))
    ensures Agrees(Parse(t, old(dr.Ahead())), r, dr.i - old(dr.i))
    decreases Height(t), 0, 0
  {
    if !t.Composite() {
      r := DecodeLeaf(t, dr);
      return;
    }
    ghost var s := dr.Ahead();
    var vs: Option<seq<Value>>;
    match t {
      case Vector(e, n) => vs := DecodeVector(e, n, dr);
      case List(e, limit) => vs := DecodeList(e, limit, dr);
      case Container(ts) => vs := DecodeContainer(ts, dr);
    }
    assert CompositeAgrees(t, s, vs, dr.i - old(dr.i));
    if vs.None? { return None; }
    return Some(Elems(vs.value));
  }

  /** `vs` are the parts of a value of type `t` at the start of `s`, of `n` bytes. */
  ghost predicate CompositeAgrees(t: SszType, s: seq<byte>, vs: Option<seq<Value>>, n: int)
    requires t.Composite()
  {
    match PartCount(t, s)
    case None => vs.None?
    case Some(count) => AgreesAll(Filling(t, ParseParts(Parts(t, count), s), s), vs, n)
  }

  /** `p`, unless the scope `s` has to be used up and is not */
  ghost function Filling(t: SszType, p: ParsedParts, s: seq<byte>): ParsedParts {
    if p.AcceptParts? && MustFill(t) && p.n != |s| then RejectParts else p
  }

  method DecodeVector(e: SszType, n: nat, dr: DecodingReader) returns (r: Option<seq<Value>>)
    requires dr.Valid() && Sized(e) && (IsFixed(e) || dr.i == 0)
    modifies dr, dr.input
    ensures r.Some? ==> dr.Kept(old(dr.Base()), old(dr.Scoped()))
    ensures CompositeAgrees(Vector(e, n), old(dr.Ahead()), r, dr.i - old(dr.i))
    decreases Height(e), 3, 0
  {
    if IsFixed(e) {
      r := DecodeFixedSeries(e, n, dr);
    } else {
      var offsets := ReadVarSeriesOffsets(e, n, dr);
      if offsets.None? { return None; }
      r := DecodeFromOffsets(e, offsets.value, dr);
    }
  }

  method DecodeList(e: SszType, limit: nat, dr: DecodingReader) returns (r: Option<seq<Value>>)
    requires dr.Valid() && Sized(e) && dr.i == 0
    modifies dr, dr.input
    ensures r.Some? ==> dr.Kept(old(dr.Base()), old(dr.Scoped()))
    ensures CompositeAgrees(List(e, limit), old(dr.Ahead()), r, dr.i - old(dr.i))
    decreases Height(e), 3, 0
  {
    if IsFixed(e) {
      var n := CalcFixedSliceLength(FixedLen(e), dr.BytesSpan(), limit);
      if n.None? { return None; }
      r := DecodeFixedSeries(e, n.value, dr);
    } else {
      var offsets := ReadVarSliceOffsets(e, FixedLen(e), dr.BytesSpan(), limit, dr);
      if offsets.None? { return None; }
      r := DecodeFromOffsets(e, offsets.value, dr);
    }
  }

  function CalcFixedSliceLength(elemLen: nat, bytesLen: nat, limit: nat): Option<nat> {
    if elemLen == 0 then None
    else if bytesLen / elemLen > limit then None
    else Some(bytesLen / elemLen)
  }

  // ----- series of fixed-size elements

  method DecodeFixedSeries(e: SszType, n: nat, dr: DecodingReader) returns (r: Option<seq<Value>>)
    requires dr.Valid() && Sized(e) && IsFixed(e)
    modifies dr, dr.input
    ensures r.Some? ==> dr.Kept(old(dr.Base()), old(dr.Scoped()))
    ensures AgreesAll(ParseParts(Repeat(e, n), old(dr.Ahead())), r, dr.i - old(dr.i))
    decreases Height(e), 1, 0
  {
    var vs := [];
    ghost var ts, whole, i0 := Repeat(e, n), dr.Scoped(), dr.i;
    HeadsReadBegin(ts, whole[i0..]);
    for k := 0 to n
      invariant dr.Kept(old(dr.Base()), whole) && |vs| == k
      invariant SeriesRead(ts, whole, i0, vs, dr.i)
    {
      var v := DecodeElem(e, ts, vs, dr, whole, i0);
      if v.None? { return None; }
      vs := vs + [v.value];
    }
    FixedEnd(ts, whole[i0..], vs, dr.i - i0);
    return Some(vs);
  }

  /** The next of a series of fixed-size elements. */
  method DecodeElem(e: SszType, ghost ts: seq<SszType>, ghost vs: seq<Value>, dr: DecodingReader,
                    ghost whole: seq<byte>, ghost i0: nat)
    returns (r: Option<Value>)
    requires dr.Valid() && Sized(e) && IsFixed(e) && |vs| < |ts| && ts[|vs|] == e
    requires whole == dr.Scoped() && SeriesRead(ts, whole, i0, vs, dr.i)
    modifies dr, dr.input
    ensures r.Some? ==> dr.Kept(old(dr.Base()), old(dr.Scoped()))
    ensures r.Some? ==> SeriesRead(ts, whole, i0, vs + [r.value], dr.i)
    ensures r.None? ==> ParseParts(ts, whole[i0..]).RejectParts?
    decreases Height(e), 0, 1
  {
    assert dr.Ahead() == whole[dr.i..];
    ghost var p := Parse(e, dr.Ahead());
    ElemOn(ts, whole, i0, vs, dr.i, p);
    r := Decode(e, dr);
  }

  // ----- series of variable-size elements

  /** The offsets `r`, or that the series is rejected for its offsets. */
  ghost predicate OffsetsRead(ts: seq<SszType>, s: seq<byte>, r: Option<seq<nat>>, n: int) {
    if r.None? then ParseParts(ts, s).RejectParts?
    else |r.value| == |ts| && n >= 0 && ParseHeads(ts, s) == AcceptHeads(OffsetSlots(r.value), n)
  }

  /** The offsets of a series of known length. */
  method ReadVarSeriesOffsets(ghost e: SszType, length: nat, dr: DecodingReader) returns (r: Option<seq<nat>>)
    requires dr.Valid() && !IsFixed(e) && dr.i == 0
    modifies dr, dr.input
    ensures dr.Kept(old(dr.Base()), old(dr.Scoped()))
    ensures OffsetsRead(Repeat(e, length), old(dr.Ahead()), r, dr.i)
  {
    ghost var s := dr.Ahead();
    if length == 0 {
      assert OffsetSlots([]) == [];
      return Some([]);
    }
    var firstOffset := dr.ReadOffset();
    if firstOffset.None? {
      ShortOffsets(e, length, s);
      return None;
    }
    if length != firstOffset.value / BYTES_PER_LENGTH_OFFSET {
      WrongFirstOffset(e, length, s);
      return None;
    }
    r := ReadMoreOffsets(e, length, firstOffset.value, dr, s);
  }

  lemma ShortOffsets(e: SszType, n: nat, s: seq<byte>)
    requires n > 0 && !IsFixed(e) && |s| < BYTES_PER_LENGTH_OFFSET
    ensures ParseParts(Repeat(e, n), s).RejectParts?
  {
    assert ParseHeads(Repeat(e, n), s).RejectHeads?;
  }

  /** The first offset has to be the length of all offsets. */
  lemma WrongFirstOffset(e: SszType, n: nat, s: seq<byte>)
    requires n > 0 && !IsFixed(e) && |s| >= BYTES_PER_LENGTH_OFFSET
    requires FromLE(s[..BYTES_PER_LENGTH_OFFSET]) != BYTES_PER_LENGTH_OFFSET * n
    ensures ParseParts(Repeat(e, n), s).RejectParts?
  {
    var ts := Repeat(e, n);
    var h := ParseHeads(ts, s);
    if h.AcceptHeads? {
      OffsetHeadsLen(e, n, s);
      assert h.slots[0] == Offset(FromLE(s[..BYTES_PER_LENGTH_OFFSET]));
    }
  }

  lemma {:induction false} OffsetHeadsLen(e: SszType, n: nat, s: seq<byte>)
    requires !IsFixed(e) && ParseHeads(Repeat(e, n), s).AcceptHeads?
    ensures ParseHeads(Repeat(e, n), s).n == BYTES_PER_LENGTH_OFFSET * n
    decreases n
  {
    if n > 0 {
      RepeatTail(e, n);
      OffsetHeadsLen(e, n - 1, s[BYTES_PER_LENGTH_OFFSET..]);
    }
  }

  method ReadMoreOffsets(ghost e: SszType, length: nat, firstOffset: nat, dr: DecodingReader, ghost s: seq<byte>)
    returns (r: Option<seq<nat>>)
    requires dr.Valid() && !IsFixed(e) && length > 0 && dr.i == BYTES_PER_LENGTH_OFFSET
    requires s == dr.Scoped() && firstOffset == FromLE(s[..BYTES_PER_LENGTH_OFFSET])
    modifies dr, dr.input
    ensures dr.Kept(old(dr.Base()), old(dr.Scoped()))
    ensures OffsetsRead(Repeat(e, length), s, r, dr.i)
    ensures r.Some? ==> dr.i == BYTES_PER_LENGTH_OFFSET * length
  {
    var offsets := [firstOffset];
    ghost var ts, whole := Repeat(e, length), s;
    HeadsReadBegin(ts, s);
    assert s[0..] == s && OffsetSlots([]) == [] && [] + [firstOffset] == offsets;
    OffsetOn(ts, s, [], 0, s);
    for k := 1 to length
      invariant dr.Kept(old(dr.Base()), whole) && |offsets| == k
      invariant dr.i == BYTES_PER_LENGTH_OFFSET * k && HeadsRead(ts, s, OffsetSlots(offsets), dr.i)
    {
      OffsetOn(ts, s, offsets, dr.i, dr.Ahead());
      var offset := dr.ReadOffset();
      if offset.None? { return None; }
      offsets := offsets + [offset.value];
    }
    HeadsReadEnd(ts, s, OffsetSlots(offsets), dr.i);
    return Some(offsets);
  }

  /** The offsets of a list, as many as the first offset tells. */
  method ReadVarSliceOffsets(ghost e: SszType, minElemLen: nat, bytesLen: nat, limit: nat, dr: DecodingReader)
    returns (r: Option<seq<nat>>)
    requires dr.Valid() && !IsFixed(e) && minElemLen == FixedLen(e) && bytesLen == dr.max - dr.i && dr.i == 0
    modifies dr, dr.input
    ensures dr.Kept(old(dr.Base()), old(dr.Scoped()))
    ensures match PartCount(List(e, limit), old(dr.Ahead()))
            case None => r.None?
            case Some(n) => OffsetsRead(Repeat(e, n), old(dr.Ahead()), r, dr.i)
  {
    ghost var s := dr.Ahead();
    if bytesLen == 0 {
      assert OffsetSlots([]) == [];
      return Some([]);
    }
    if dr.i != 0 { return None; }
    var firstOffset := dr.ReadOffset();
    if firstOffset.None? { return None; }
    var first := firstOffset.value;
    if first > bytesLen || first % BYTES_PER_LENGTH_OFFSET != 0 { return None; }
    var length := first / BYTES_PER_LENGTH_OFFSET;
    if length > limit { return None; }
    if minElemLen * length % TWO_64 > dr.max { return None; }
    if length == 0 {
      // an offset has been read, where none was expected
      return None;
    }
    r := ReadMoreOffsets(e, length, first, dr, s);
  }

  /** The elements at `offsets`, which have to use up the scope. */
  method DecodeFromOffsets(e: SszType, offsets: seq<nat>, dr: DecodingReader) returns (r: Option<seq<Value>>)
    requires dr.Valid() && Sized(e) && !IsFixed(e)
    modifies dr, dr.input
    ensures r.Some? ==> dr.Kept(old(dr.Base()), old(dr.Scoped()))
    ensures var s := old(dr.Scoped());
            var p := ParseTails(Repeat(e, |offsets|), OffsetSlots(offsets), s, old(dr.i));
            AgreesAll(if p.AcceptParts? && p.n != |s| then RejectParts else p, r, dr.i)
    decreases Height(e), 1, 0
  {
    var vs := [];
    ghost var ts, slots := Repeat(e, |offsets|), OffsetSlots(offsets);
    ghost var whole, c0 := dr.Scoped(), dr.i;
    ghost var s := whole;
    TailsReadBegin(ts, slots, s, c0);
    for k := 0 to |offsets|
      invariant dr.Kept(old(dr.Base()), whole) && |vs| == k
      invariant TailsRead(ts, slots, s, c0, vs, dr.i)
    {
      NextOffsetInSeries(offsets, k, dr.max);
      var scope := ElemScope(offsets, k, dr);
      var v := DecodePart(e, scope, ts, slots, vs, dr, s, c0);
      if v.None? { return None; }
      vs := vs + [v.value];
    }
    TailsReadEnd(ts, slots, s, c0, vs, dr.i);
    if dr.i != dr.max { return None; }
    return Some(vs);
  }

  /** The length of the scope of a part whose offset is `offset` and is followed by `next`. */
  ghost function ScopeOf(offset: nat, next: nat, dr: DecodingReader): Option<nat>
    reads dr
  {
    if offset != dr.i || next < dr.i || next > dr.max then None else Some(next - dr.i)
  }

  /** The length of the scope for element `k`, from the next offset or the end of the scope. */
  method ElemScope(offsets: seq<nat>, k: nat, dr: DecodingReader) returns (r: Option<nat>)
    requires dr.Valid() && k < |offsets|
    ensures r == ScopeOf(offsets[k], if k + 1 < |offsets| then offsets[k + 1] else dr.max, dr)
  {
    var currentOffset := dr.i;
    if currentOffset != offsets[k] { return None; }
    var scope;
    if k + 1 < |offsets| {
      if offsets[k + 1] < currentOffset { return None; }
      scope := offsets[k + 1] - currentOffset;
    } else {
      scope := Sub64(dr.max, currentOffset);
    }
    if dr.BytesSpan() < scope { return None; }
    return Some(scope);
  }

  /** The next part, in a new scope of the given length. */
  method DecodePart(t: SszType, scope: Option<nat>, ghost ts: seq<SszType>, ghost slots: seq<Slot>,
                    ghost vs: seq<Value>, dr: DecodingReader, ghost s: seq<byte>, ghost c0: nat)
    returns (r: Option<Value>)
    requires dr.Valid() && Sized(t) && |vs| < |ts| && ts[|vs|] == t
    requires s == dr.Scoped() && TailsRead(ts, slots, s, c0, vs, dr.i) && slots[|vs|].Offset?
    requires scope == ScopeOf(slots[|vs|].o, NextOffset(slots[|vs| + 1..], dr.max), dr)
    modifies dr, dr.input
    ensures r.Some? ==> dr.Kept(old(dr.Base()), old(dr.Scoped()))
    ensures r.Some? ==> TailsRead(ts, slots, s, c0, vs + [r.value], dr.i)
    ensures r.None? ==> ParseTails(ts, slots, s, c0).RejectParts?
    decreases Height(t), 0, 2
  {
    ghost var c, end, p := dr.i, NextOffset(slots[|vs| + 1..], dr.max), Reject;
    if scope.None? {
      r := None;
    } else {
      p := Parse(t, dr.Ahead()[..scope.value]);
      r := DecodeScoped(t, scope.value, dr);
    }
    PartAgrees(ts, slots, s, c0, vs, c, end, scope, p, r, dr.i);
  }

  lemma PartAgrees(ts: seq<SszType>, slots: seq<Slot>, s: seq<byte>, c0: nat, vs: seq<Value>, c: nat, end: nat,
                   scope: Option<nat>, p: Parsed, r: Option<Value>, i: nat)
    requires TailsRead(ts, slots, s, c0, vs, c) && |vs| < |ts|
    requires slots[|vs|].Offset? && NextOffset(slots[|vs| + 1..], |s|) == end
    requires scope == if slots[|vs|].o != c || end < c || end > |s| then None else Some(end - c)
    requires p == if scope.None? then Reject else Parse(ts[|vs|], s[c..][..scope.value])
    requires Agrees(p, r, i - c)
    ensures r.Some? ==> TailsRead(ts, slots, s, c0, vs + [r.value], i)
    ensures r.None? ==> ParseTails(ts, slots, s, c0).RejectParts?
  {
    TailsReadOn(ts, slots, s, c0, vs, c, end, scope, p);
    if p.Accept? { assert c + p.n == i; }
  }

  method DecodeScoped(t: SszType, scope: nat, dr: DecodingReader) returns (r: Option<Value>)
    requires dr.Valid() && Sized(t) && scope <= dr.max - dr.i
    modifies dr, dr.input
    ensures r.Some? ==> dr.Kept(old(dr.Base()), old(dr.Scoped()))
    ensures Agrees(Parse(t, old(dr.Ahead()[..scope])), r, dr.i - old(dr.i))
    decreases Height(t), 0, 1
  {
    var scoped := dr.Scope(scope);
    if scoped.None? { return None; }
    var child := scoped.value;
    r := Decode(t, child);
    if r.None? { return; }
    dr.UpdateIndexFromScoped(child);
  }

  // ----- containers

  method DecodeContainer(ts: seq<SszType>, dr: DecodingReader) returns (r: Option<seq<Value>>)
    requires dr.Valid() && AllSized(ts) && (AllFixed(ts) || dr.i == 0)
    modifies dr, dr.input
    ensures r.Some? ==> dr.Kept(old(dr.Base()), old(dr.Scoped()))
    ensures CompositeAgrees(Container(ts), old(dr.Ahead()), r, dr.i - old(dr.i))
    decreases MaxHeight(ts), 3, 0
  {
    ghost var s, i0 := dr.Ahead(), dr.i;
    var slots := ProcessFixedPart(ts, dr);
    if slots.None? { return None; }
    r := DecodeDynamicPart(ts, slots.value, Offsets(slots.value), dr, s, i0);
  }

  ghost predicate SlotAgrees(p: ParsedHeads, r: Option<Slot>, n: int) {
    match p
    case RejectHeads => r.None?
    case AcceptHeads(slots, m) => r.Some? && slots == [r.value] && n == m
  }

  ghost predicate SlotsAgree(p: ParsedHeads, r: Option<seq<Slot>>, n: int) {
    match p
    case RejectHeads => r.None?
    case AcceptHeads(slots, m) => r == Some(slots) && n == m
  }

  method ProcessFixedPart(ts: seq<SszType>, dr: DecodingReader) returns (r: Option<seq<Slot>>)
    requires dr.Valid() && AllSized(ts)
    modifies dr, dr.input
    ensures r.Some? ==> dr.Kept(old(dr.Base()), old(dr.Scoped())) && Matching(ts, r.value)
    ensures SlotsAgree(ParseHeads(ts, old(dr.Ahead())), r, dr.i - old(dr.i))
    decreases MaxHeight(ts), 2, 0
  {
    var slots := [];
    var i0 := dr.i;
    ghost var whole := dr.Scoped();
    var fixedI := i0;
    HeadsReadBegin(ts, whole[i0..]);
    for k := 0 to |ts|
      invariant dr.Kept(old(dr.Base()), whole) && |slots| == k
      invariant dr.i == fixedI && FieldsRead(ts, whole, i0, slots, fixedI)
    {
      fixedI := fixedI + HeadLen(ts[k]);
      var slot := ProcessNext(ts, k, dr, whole, i0, slots);
      if slot.None? || dr.i != fixedI { return None; }
      slots := slots + [slot.value];
    }
    FieldsEnd(ts, whole[i0..], slots, dr.i - i0);
    if dr.i != HeadsLen(ts) + i0 { return None; }
    return Some(slots);
  }

  /** Field `k` of the fixed-size section; it takes up just its length there. */
  method ProcessNext(ts: seq<SszType>, k: nat, dr: DecodingReader, ghost whole: seq<byte>, ghost i0: nat,
                     ghost slots: seq<Slot>)
    returns (r: Option<Slot>)
    requires dr.Valid() && AllSized(ts) && |slots| == k < |ts|
    requires whole == dr.Scoped() && FieldsRead(ts, whole, i0, slots, dr.i)
    modifies dr, dr.input
    ensures r.Some? ==> dr.Kept(old(dr.Base()), old(dr.Scoped())) && dr.i == old(dr.i) + HeadLen(ts[k])
    ensures r.Some? ==> FieldsRead(ts, whole, i0, slots + [r.value], dr.i)
    ensures r.None? ==> ParseHeads(ts, whole[i0..]).RejectHeads?
    decreases MaxHeight(ts), 1, 1
  {
    SizedAt(ts, k);
    HeightAt(ts, k);
    FieldOn(ts, whole, i0, slots, dr.i, dr.Ahead(), ParseHead(ts[k], dr.Ahead()));
    r := ProcessField(ts[k], dr);
  }

  /** The fields `slots` have been found in the bytes from `i0` to `i`. */
  ghost predicate FieldsRead(ts: seq<SszType>, whole: seq<byte>, i0: nat, slots: seq<Slot>, i: nat) {
    i0 <= i <= |whole| && HeadsRead(ts, whole[i0..], slots, i - i0)
  }

  lemma FieldsEnd(ts: seq<SszType>, s: seq<byte>, slots: seq<Slot>, c: nat)
    requires HeadsRead(ts, s, slots, c) && |slots| == |ts|
    ensures ParseHeads(ts, s) == AcceptHeads(slots, c) && c == HeadsLen(ts) && Matching(ts, slots)
  {
    HeadsReadEnd(ts, s, slots, c);
    HeadsMatch(ts, s);
    HeadsSound(ts, s);
  }

  /** One field of the fixed-size section. */
  method ProcessField(t: SszType, dr: DecodingReader) returns (r: Option<Slot>)
    requires dr.Valid() && Sized(t)
    modifies dr, dr.input
    ensures r.Some? ==> dr.Kept(old(dr.Base()), old(dr.Scoped())) && (r.value.Inline? <==> IsFixed(t))
    ensures SlotAgrees(ParseHead(t, old(dr.Ahead())), r, dr.i - old(dr.i))
    decreases Height(t), 1, 0
  {
    if IsFixed(t) {
      var v := Decode(t, dr);
      if v.None? { return None; }
      return Some(Inline(v.value));
    } else {
      var offset := dr.ReadOffset();
      if offset.None? { return None; }
      return Some(Offset(offset.value));
    }
  }

  /** The next field is `h`; a fixed-size field takes up just its fixed length, an offset four bytes. */
  lemma FieldOn(ts: seq<SszType>, whole: seq<byte>, i0: nat, slots: seq<Slot>, i: nat, ahead: seq<byte>, h: ParsedHeads)
    requires FieldsRead(ts, whole, i0, slots, i)
    requires |slots| < |ts| && ahead == whole[i..] && h == ParseHead(ts[|slots|], ahead)
    ensures h.RejectHeads? ==> ParseHeads(ts, whole[i0..]).RejectHeads?
    ensures h.AcceptHeads? ==> h.n == HeadLen(ts[|slots|]) && h.slots == [h.slots[0]]
    ensures h.AcceptHeads? ==> FieldsRead(ts, whole, i0, slots + [h.slots[0]], i + h.n)
  {
    assert whole[i0..][i - i0..] == ahead;
    if h.AcceptHeads? { OneSlot(ts[|slots|], ahead); }
    FieldStep(ts, whole[i0..], slots, i - i0, ahead, h);
  }

  lemma FieldStep(ts: seq<SszType>, s: seq<byte>, slots: seq<Slot>, c: nat, ahead: seq<byte>, h: ParsedHeads)
    requires HeadsRead(ts, s, slots, c) && |slots| < |ts| && ahead == s[c..] && h == ParseHead(ts[|slots|], ahead)
    ensures h.RejectHeads? ==> ParseHeads(ts, s).RejectHeads?
    ensures h.AcceptHeads? ==> HeadsRead(ts, s, slots + h.slots, c + h.n)
  {
    HeadsReadOn(ts, s, slots, c, h);
  }

  lemma OneSlot(t: SszType, s: seq<byte>)
    requires ParseHead(t, s).AcceptHeads?
    ensures ParseHead(t, s).n == HeadLen(t) && ParseHead(t, s).slots == [ParseHead(t, s).slots[0]]
  {
    HeadSound(t, s);
  }

  /** The offsets from number `i` on are those of the slots from number `k` on. */
  ghost predicate Pointing(slots: seq<Slot>, offsets: seq<nat>, k: nat, i: nat) {
    k <= |slots| && i <= |offsets| && offsets[i..] == Offsets(slots[k..])
  }

  lemma PointingOn(slots: seq<Slot>, offsets: seq<nat>, k: nat, i: nat)
    requires Pointing(slots, offsets, k, i) && k < |slots|
    ensures slots[k].Inline? ==> Pointing(slots, offsets, k + 1, i)
    ensures slots[k].Offset? ==> i < |offsets| && slots[k].o == offsets[i] && Pointing(slots, offsets, k + 1, i + 1)
  {
    OffsetsFrom(slots, k);
    if i < |offsets| { DropOne(offsets, i); }
  }

  /** Field `k` was read with the fixed-size section. */
  lemma InlineNext(ts: seq<SszType>, slots: seq<Slot>, offsets: seq<nat>, k: nat, i: nat, s: seq<byte>, c0: nat,
                   vs: seq<Value>, c: nat)
    requires TailsRead(ts, slots, s, c0, vs, c) && Pointing(slots, offsets, k, i)
    requires |vs| == k < |ts| && slots[k].Inline?
    ensures TailsRead(ts, slots, s, c0, vs + [slots[k].v], c) && Pointing(slots, offsets, k + 1, i)
  {
    PointingOn(slots, offsets, k, i);
    TailsReadInline(ts, slots, s, c0, vs, c);
  }

  lemma {:induction false} FixedAt(ts: seq<SszType>, k: nat)
    requires AllFixed(ts) && k < |ts|
    ensures IsFixed(ts[k])
  {
    if k > 0 { FixedAt(ts[1..], k - 1); }
  }

  method DecodeDynamicPart(ts: seq<SszType>, slots: seq<Slot>, offsets: seq<nat>, dr: DecodingReader,
                           ghost s: seq<byte>, ghost i0: nat)
    returns (r: Option<seq<Value>>)
    requires dr.Valid() && AllSized(ts) && Matching(ts, slots) && offsets == Offsets(slots)
    requires (AllFixed(ts) || i0 == 0) && i0 <= dr.i && s == dr.Scoped()[i0..]
    modifies dr, dr.input
    ensures r.Some? ==> dr.Kept(old(dr.Base()), old(dr.Scoped()))
    ensures AgreesAll(ParseTails(ts, slots, s, old(dr.i) - i0), r, dr.i - i0)
    decreases MaxHeight(ts), 2, 0
  {
    var vs := [];
    var i := 0;
    ghost var whole, c0 := dr.Scoped(), dr.i - i0;
    TailsReadBegin(ts, slots, s, c0);
    assert slots[0..] == slots && offsets[0..] == offsets;
    for k := 0 to |ts|
      invariant dr.Kept(old(dr.Base()), whole) && |vs| == k
      invariant Pointing(slots, offsets, k, i)
      invariant i0 <= dr.i && TailsRead(ts, slots, s, c0, vs, dr.i - i0)
    {
      var v;
      v, i := DecodeNext(ts, slots, offsets, k, i, vs, dr, s, i0, c0);
      if v.None? { return None; }
      vs := vs + [v.value];
    }
    TailsReadEnd(ts, slots, s, c0, vs, dr.i - i0);
    return Some(vs);
  }

  /** The value of field `k`: it was read with the fixed-size section, or it is at offset `i`. */
  method DecodeNext(ts: seq<SszType>, slots: seq<Slot>, offsets: seq<nat>, k: nat, i: nat, vs: seq<Value>,
                    dr: DecodingReader, ghost s: seq<byte>, ghost i0: nat, ghost c0: nat)
    returns (r: Option<Value>, next: nat)
    requires dr.Valid() && AllSized(ts) && Matching(ts, slots) && |vs| == k < |ts|
    requires (AllFixed(ts) || i0 == 0) && i0 <= dr.i && s == dr.Scoped()[i0..]
    requires Pointing(slots, offsets, k, i) && TailsRead(ts, slots, s, c0, vs, dr.i - i0)
    modifies dr, dr.input
    ensures r.Some? ==> dr.Kept(old(dr.Base()), old(dr.Scoped())) && Pointing(slots, offsets, k + 1, next)
    ensures r.Some? ==> i0 <= dr.i && TailsRead(ts, slots, s, c0, vs + [r.value], dr.i - i0)
    ensures r.None? ==> ParseTails(ts, slots, s, c0).RejectParts?
    decreases MaxHeight(ts), 1, 1
  {
    if IsFixed(ts[k]) {
      InlineNext(ts, slots, offsets, k, i, s, c0, vs, dr.i - i0);
      return Some(slots[k].v), i;
    }
    PointingOn(slots, offsets, k, i);
    if AllFixed(ts) { FixedAt(ts, k); }
    assert dr.Scoped()[0..] == dr.Scoped();
    r := DecodeField(ts, slots, offsets, i, vs, dr, s, c0);
    next := i + 1;
  }

  /** The next variable-size field, number `i` among them. */
  method DecodeField(ts: seq<SszType>, ghost slots: seq<Slot>, offsets: seq<nat>, i: nat, vs: seq<Value>,
                     dr: DecodingReader, ghost s: seq<byte>, ghost c0: nat)
    returns (r: Option<Value>)
    requires dr.Valid() && AllSized(ts) && |vs| < |ts| == |slots| && i < |offsets|
    requires slots[|vs|] == Offset(offsets[i]) && Pointing(slots, offsets, |vs| + 1, i + 1)
    requires s == dr.Scoped() && TailsRead(ts, slots, s, c0, vs, dr.i)
    modifies dr, dr.input
    ensures r.Some? ==> dr.Kept(old(dr.Base()), old(dr.Scoped()))
    ensures r.Some? ==> TailsRead(ts, slots, s, c0, vs + [r.value], dr.i)
    ensures r.None? ==> ParseTails(ts, slots, s, c0).RejectParts?
    decreases MaxHeight(ts), 1, 0
  {
    SizedAt(ts, |vs|);
    HeightAt(ts, |vs|);
    var scope := FieldScope(offsets, i, dr);
    r := DecodePart(ts[|vs|], scope, ts, slots, vs, dr, s, c0);
  }

  /** As `ElemScope`, in another order: a wrapped difference never passes the check that follows. */
  method FieldScope(offsets: seq<nat>, i: nat, dr: DecodingReader) returns (r: Option<nat>)
    requires dr.Valid() && i < |offsets|
    ensures r == ScopeOf(offsets[i], if i + 1 < |offsets| then offsets[i + 1] else dr.max, dr)
  {
    var scope;
    var currentOffset := offsets[i];
    if i + 1 < |offsets| {
      if offsets[i + 1] < currentOffset { return None; }
      scope := offsets[i + 1] - currentOffset;
    } else {
      scope := Sub64(dr.max, currentOffset);
    }
    if dr.i != offsets[i] { return None; }
    if dr.BytesSpan() < scope { return None; }
    return Some(scope);
  }
}

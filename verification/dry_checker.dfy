/**
 The dry check (the DryCheck methods of the types package): the format is checked without decoding.
 Every method is proved to accept just what decoding accepts, and to read as much, once the limits
 of byte strings are lifted.
 */
module DryChecker {
  import opened Bits
  import opened Bytes
  import opened Bitfields
  import opened Grammar
  import opened Serialization
  import opened Parsing
  import opened PartLemmas
  import opened DecodeLoops
  import opened DecodingReading
  import opened Outcomes
  import opened Unlimited
  import Decoder

  /** `ok` and the advance `n` of the index are those of the outcome `p`. */
  ghost predicate Checks(p: Parsed, ok: bool, n: int) {
    match p
    case Reject => !ok
    case Accept(_, m) => ok && n == m
  }

  ghost predicate ChecksAll(p: ParsedParts, ok: bool, n: int) {
    match p
    case RejectParts => !ok
    case AcceptParts(_, m) => ok && n == m
  }

  // ----- leaves

  method DryCheckLeaf(t: SszType, dr: DecodingReader) returns (ok: bool)
    requires !t.Composite() && dr.Valid() && Sized(t)
    modifies dr, dr.input
    ensures dr.Kept(old(dr.Base()), old(dr.Scoped()))
    ensures Checks(ParseLeaf(Lift(t), old(dr.Ahead())), ok, dr.i - old(dr.i))
  {
    match t
    case Scalar(k) => ok := DryCheckScalar(k, dr);
    case BytesN(n) => ok := dr.Skip(n);
    case Bitvector(bits) => ok := DryCheckBitvector(bits, dr);
    case Bytes(_) => ok := dr.Skip(dr.BytesSpan());
    case Bitlist(limit) => ok := DryCheckBitlist(limit, dr);
    case BasicVector(k, n) => ok := DryCheckSeries(k, n, dr);
    case BasicList(k, limit) => ok := DryCheckBasicList(k, limit, dr);
  }

  method DryCheckBasicList(k: Basic, limit: nat, dr: DecodingReader) returns (ok: bool)
    requires dr.Valid()
    modifies dr, dr.input
    ensures dr.Kept(old(dr.Base()), old(dr.Scoped()))
    ensures Checks(ParseLeaf(BasicList(k, limit), old(dr.Ahead())), ok, dr.i - old(dr.i))
  {
    var bytesLen := dr.BytesSpan();
    if bytesLen % k.Size() != 0 { return false; }
    if bytesLen > limit * k.Size() { return false; }
    ok := DryCheckSeries(k, bytesLen / k.Size(), dr);
  }

  method DryCheckScalar(k: Basic, dr: DecodingReader) returns (ok: bool)
    requires dr.Valid()
    modifies dr, dr.input
    ensures dr.Kept(old(dr.Base()), old(dr.Scoped()))
    ensures Checks(ParseLeaf(Scalar(k), old(dr.Ahead())), ok, dr.i - old(dr.i))
  {
    ghost var s := dr.Ahead();
    if |s| >= k.Size() { Decoder.ScalarRange(k, s[..k.Size()]); }
    if k.BoolKind? {
      var b := dr.ReadByte();
      ok := b.Some? && b.value <= 1;
    } else {
      ok := dr.Skip(k.Size());
    }
  }

  method DryCheckBitvector(bits: nat, dr: DecodingReader) returns (ok: bool)
    requires dr.Valid() && (bits + 7) / 8 < TWO_63
    modifies dr, dr.input
    ensures dr.Kept(old(dr.Base()), old(dr.Scoped()))
    ensures Checks(ParseLeaf(Bitvector(bits), old(dr.Ahead())), ok, dr.i - old(dr.i))
  {
    if bits == 0 { return true; }
    var byteLen := (bits + 7) / 8;
    ghost var s := dr.Ahead();
    if byteLen > 1 {
      ok := dr.Skip(byteLen - 1);
      if !ok { return; }
    }
    var last := dr.ReadByte();
    if last.None? { return false; }
    assert last.value == s[byteLen - 1];
    return BitvectorCheckLastByte(last.value, bits);
  }

  method DryCheckBitlist(limit: nat, dr: DecodingReader) returns (ok: bool)
    requires dr.Valid()
    modifies dr, dr.input
    ensures dr.Kept(old(dr.Base()), old(dr.Scoped()))
    ensures Checks(ParseLeaf(Bitlist(limit), old(dr.Ahead())), ok, dr.i - old(dr.i))
  {
    var span := dr.BytesSpan();
    ghost var s := dr.Ahead();
    if !BitlistCheckByteLen(span, limit) { return false; }
    ok := dr.Skip(span - 1);
    if !ok { return; }
    var last := dr.ReadByte();
    if last.None? { return false; }
    assert last.value == s[|s| - 1];
    return BitlistCheckLastByte(last.value, Sub64(limit, 8 * (span - 1)));
  }

  /** Booleans are read one by one, all else is skipped. */
  method DryCheckSeries(k: Basic, n: nat, dr: DecodingReader) returns (ok: bool)
    requires dr.Valid() && n * k.Size() < TWO_63
    modifies dr, dr.input
    ensures dr.Kept(old(dr.Base()), old(dr.Scoped()))
    ensures Checks(ParseSeries(k, n, old(dr.Ahead())), ok, dr.i - old(dr.i))
  {
    ghost var s := dr.Ahead();
    if |s| >= n * k.Size() { Decoder.SeriesRange(k, n, s[..n * k.Size()]); }
    if k.BoolKind? {
      ok := DryCheckBools(n, dr);
    } else {
      ok := dr.Skip(n * k.Size());
    }
  }

  method DryCheckBools(n: nat, dr: DecodingReader) returns (ok: bool)
    requires dr.Valid()
    modifies dr, dr.input
    ensures dr.Kept(old(dr.Base()), old(dr.Scoped()))
    ensures ok <==> n <= |old(dr.Ahead())| && forall j :: 0 <= j < n ==> old(dr.Ahead())[j] <= 1
    ensures ok ==> dr.i == old(dr.i) + n
  {
    ghost var s := dr.Ahead();
    for j := 0 to n
      invariant dr.Kept(old(dr.Base()), old(dr.Scoped())) && dr.i == old(dr.i) + j
      invariant forall l :: 0 <= l < j ==> s[l] <= 1
    {
      var b := dr.ReadByte();
      if b.None? || b.value > 1 { return false; }
    }
    return true;
  }

  // ----- dispatch

  method DryCheck(t: SszType, dr: DecodingReader) returns (ok: bool)
    requires dr.Valid() && Sized(t) && (IsFixed(t) || dr.i == 0)
    modifies dr, dr.input
    ensures ok ==> dr.Kept(old(dr.Base()), old(dr.Scoped()))
    ensures Checks(Parse(Lift(t), old(dr.Ahead())), ok, dr.i - old(dr.i))
    decreases Height(t), 0, 0
  {
    if !t.Composite() {
      ok := DryCheckLeaf(t, dr);
      return;
    }
    ghost var s := dr.Ahead();
    match t {
      case Vector(e, n) => ok := DryCheckVector(e, n, dr);
      case List(e, limit) => ok := DryCheckList(e, limit, dr);
      case Container(ts) => ok := DryCheckContainer(ts, dr);
    }
    assert CompositeChecks(Lift(t), s, ok, dr.i - old(dr.i));
  }

  ghost predicate CompositeChecks(t: SszType, s: seq<byte>, ok: bool, n: int)
    requires t.Composite()
  {
    match PartCount(t, s)
    case None => !ok
    case Some(count) => ChecksAll(Decoder.Filling(t, ParseParts(Parts(t, count), s), s), ok, n)
  }

  method DryCheckVector(e: SszType, n: nat, dr: DecodingReader) returns (ok: bool)
    requires dr.Valid() && Sized(e) && (IsFixed(e) || dr.i == 0)
    modifies dr, dr.input
    ensures ok ==> dr.Kept(old(dr.Base()), old(dr.Scoped()))
    ensures CompositeChecks(Vector(Lift(e), n), old(dr.Ahead()), ok, dr.i - old(dr.i))
    decreases Height(e), 3, 0
  {
    LiftShape(e);
    if IsFixed(e) {
      ok := DryCheckFixedSeries(e, n, dr);
    } else {
      var offsets := Decoder.ReadVarSeriesOffsets(Lift(e), n, dr);
      if offsets.None? { return false; }
      ok := DryCheckFromOffsets(e, offsets.value, dr);
    }
  }

  method DryCheckList(e: SszType, limit: nat, dr: DecodingReader) returns (ok: bool)
    requires dr.Valid() && Sized(e) && dr.i == 0
    modifies dr, dr.input
    ensures ok ==> dr.Kept(old(dr.Base()), old(dr.Scoped()))
    ensures CompositeChecks(List(Lift(e), limit), old(dr.Ahead()), ok, dr.i - old(dr.i))
    decreases Height(e), 3, 0
  {
    LiftShape(e);
    if IsFixed(e) {
      var n := Decoder.CalcFixedSliceLength(FixedLen(e), dr.BytesSpan(), limit);
      if n.None? { return false; }
      ok := DryCheckFixedSeries(e, n.value, dr);
    } else {
      var offsets := Decoder.ReadVarSliceOffsets(Lift(e), FixedLen(e), dr.BytesSpan(), limit, dr);
      if offsets.None? { return false; }
      ok := DryCheckFromOffsets(e, offsets.value, dr);
    }
  }

  // ----- series

  method DryCheckFixedSeries(e: SszType, n: nat, dr: DecodingReader) returns (ok: bool)
    requires dr.Valid() && Sized(e) && IsFixed(e)
    modifies dr, dr.input
    ensures ok ==> dr.Kept(old(dr.Base()), old(dr.Scoped()))
    ensures ChecksAll(ParseParts(Repeat(Lift(e), n), old(dr.Ahead())), ok, dr.i - old(dr.i))
    decreases Height(e), 1, 0
  {
    ghost var vs := [];
    ghost var ts, whole, i0 := Repeat(Lift(e), n), dr.Scoped(), dr.i;
    HeadsReadBegin(ts, whole[i0..]);
    for k := 0 to n
      invariant dr.Kept(old(dr.Base()), whole) && |vs| == k
      invariant SeriesRead(ts, whole, i0, vs, dr.i)
    {
      ghost var v;
      ok, v := DryCheckElem(e, ts, vs, dr, whole, i0);
      if !ok { return; }
      vs := vs + [v];
    }
    FixedEnd(ts, whole[i0..], vs, dr.i - i0);
    return true;
  }

  /** The next of a series of fixed-size elements; `v` is what decoding would deliver. */
  method DryCheckElem(e: SszType, ghost ts: seq<SszType>, ghost vs: seq<Value>, dr: DecodingReader,
                      ghost whole: seq<byte>, ghost i0: nat)
    returns (ok: bool, ghost v: Value)
    requires dr.Valid() && Sized(e) && IsFixed(e) && |vs| < |ts| && ts[|vs|] == Lift(e)
    requires whole == dr.Scoped() && SeriesRead(ts, whole, i0, vs, dr.i)
    modifies dr, dr.input
    ensures ok ==> dr.Kept(old(dr.Base()), old(dr.Scoped()))
    ensures if ok then SeriesRead(ts, whole, i0, vs + [v], dr.i) else ParseParts(ts, whole[i0..]).RejectParts?
    decreases Height(e), 0, 1
  {
    LiftShape(e);
    assert dr.Ahead() == whole[dr.i..];
    ghost var p := Parse(Lift(e), dr.Ahead());
    ElemOn(ts, whole, i0, vs, dr.i, p);
    v := if p.Accept? then p.v else Num(0);
    ok := DryCheck(e, dr);
  }

  method DryCheckFromOffsets(e: SszType, offsets: seq<nat>, dr: DecodingReader) returns (ok: bool)
    requires dr.Valid() && Sized(e) && !IsFixed(e)
    modifies dr, dr.input
    ensures ok ==> dr.Kept(old(dr.Base()), old(dr.Scoped()))
    ensures var s := old(dr.Scoped());
            var p := ParseTails(Repeat(Lift(e), |offsets|), OffsetSlots(offsets), s, old(dr.i));
            ChecksAll(if p.AcceptParts? && p.n != |s| then RejectParts else p, ok, dr.i)
    decreases Height(e), 1, 0
  {
    ghost var vs := [];
    ghost var ts, slots := Repeat(Lift(e), |offsets|), OffsetSlots(offsets);
    ghost var whole, c0 := dr.Scoped(), dr.i;
    TailsReadBegin(ts, slots, whole, c0);
    for k := 0 to |offsets|
      invariant dr.Kept(old(dr.Base()), whole) && |vs| == k
      invariant TailsRead(ts, slots, whole, c0, vs, dr.i)
    {
      NextOffsetInSeries(offsets, k, dr.max);
      var scope := Decoder.ElemScope(offsets, k, dr);
      ghost var v;
      ok, v := DryCheckPart(e, scope, ts, slots, vs, dr, whole, c0);
      if !ok { return; }
      vs := vs + [v];
    }
    TailsReadEnd(ts, slots, whole, c0, vs, dr.i);
    return dr.i == dr.max;
  }

  /** The next part, in a new scope of the given length; `v` is what decoding would deliver. */
  method DryCheckPart(t: SszType, scope: Option<nat>, ghost ts: seq<SszType>, ghost slots: seq<Slot>,
                      ghost vs: seq<Value>, dr: DecodingReader, ghost s: seq<byte>, ghost c0: nat)
    returns (ok: bool, ghost v: Value)
    requires dr.Valid() && Sized(t) && |vs| < |ts| && ts[|vs|] == Lift(t)
    requires s == dr.Scoped() && TailsRead(ts, slots, s, c0, vs, dr.i) && slots[|vs|].Offset?
    requires scope == Decoder.ScopeOf(slots[|vs|].o, NextOffset(slots[|vs| + 1..], dr.max), dr)
    modifies dr, dr.input
    ensures ok ==> dr.Kept(old(dr.Base()), old(dr.Scoped()))
    ensures if ok then TailsRead(ts, slots, s, c0, vs + [v], dr.i) else ParseTails(ts, slots, s, c0).RejectParts?
    decreases Height(t), 0, 2
  {
    ghost var c, end, p := dr.i, NextOffset(slots[|vs| + 1..], dr.max), Reject;
    if scope.None? {
      ok := false;
    } else {
      p := Parse(Lift(t), dr.Ahead()[..scope.value]);
      ok := DryCheckScoped(t, scope.value, dr);
    }
    v := if p.Accept? then p.v else Num(0);
    Decoder.PartAgrees(ts, slots, s, c0, vs, c, end, scope, p, if ok then Some(v) else None, dr.i);
  }

  method DryCheckScoped(t: SszType, scope: nat, dr: DecodingReader) returns (ok: bool)
    requires dr.Valid() && Sized(t) && scope <= dr.max - dr.i
    modifies dr, dr.input
    ensures ok ==> dr.Kept(old(dr.Base()), old(dr.Scoped()))
    ensures Checks(Parse(Lift(t), old(dr.Ahead()[..scope])), ok, dr.i - old(dr.i))
    decreases Height(t), 0, 1
  {
    var scoped := dr.Scope(scope);
    if scoped.None? { return false; }
    var child := scoped.value;
    ok := DryCheck(t, child);
    if !ok { return; }
    dr.UpdateIndexFromScoped(child);
  }

  // ----- containers

  method DryCheckContainer(ts: seq<SszType>, dr: DecodingReader) returns (ok: bool)
    requires dr.Valid() && AllSized(ts) && (AllFixed(ts) || dr.i == 0)
    modifies dr, dr.input
    ensures ok ==> dr.Kept(old(dr.Base()), old(dr.Scoped()))
    ensures CompositeChecks(Container(LiftAll(ts)), old(dr.Ahead()), ok, dr.i - old(dr.i))
    decreases MaxHeight(ts), 3, 0
  {
    ghost var s, i0 := dr.Ahead(), dr.i;
    var offsets;
    ghost var slots;
    ok, offsets, slots := ProcessFixedPart(ts, dr);
    if !ok { return; }
    ok := DryCheckDynamicPart(ts, slots, offsets, dr, s, i0);
    ContainerChecks(LiftAll(ts), s, slots, HeadsLen(LiftAll(ts)), ok, dr.i - i0);
  }

  lemma ContainerChecks(tl: seq<SszType>, s: seq<byte>, slots: seq<Slot>, c: nat, ok: bool, n: int)
    requires ParseHeads(tl, s) == AcceptHeads(slots, c) && ChecksAll(ParseTails(tl, slots, s, c), ok, n)
    ensures CompositeChecks(Container(tl), s, ok, n)
  {
  }

  /** Whether the fixed-size section can be read, its offsets, and what decoding would find. */
  ghost predicate FixedPartRead(ts: seq<SszType>, s: seq<byte>, ok: bool, offsets: seq<nat>, slots: seq<Slot>, n: int) {
    if ok then
      && ParseHeads(ts, s) == AcceptHeads(slots, HeadsLen(ts)) && n == HeadsLen(ts)
      && Matching(ts, slots) && offsets == Offsets(slots)
    else ParseHeads(ts, s).RejectHeads?
  }

  method ProcessFixedPart(ts: seq<SszType>, dr: DecodingReader)
    returns (ok: bool, offsets: seq<nat>, ghost slots: seq<Slot>)
    requires dr.Valid() && AllSized(ts)
    modifies dr, dr.input
    ensures ok ==> dr.Kept(old(dr.Base()), old(dr.Scoped()))
    ensures FixedPartRead(LiftAll(ts), old(dr.Ahead()), ok, offsets, slots, dr.i - old(dr.i))
    decreases MaxHeight(ts), 2, 0
  {
    slots, offsets := [], [];
    var i0 := dr.i;
    ghost var tl, whole := LiftAll(ts), dr.Scoped();
    var fixedI := i0;
    HeadsReadBegin(tl, whole[i0..]);
    for k := 0 to |ts|
      invariant dr.Kept(old(dr.Base()), whole) && |slots| == k
      invariant dr.i == fixedI && FieldsRead(tl, whole, i0, slots, offsets, fixedI)
    {
      ghost var slot;
      fixedI := fixedI + HeadLen(ts[k]);
      ok, offsets, slot := ProcessNext(ts, k, offsets, dr, whole, i0, slots);
      if !ok || dr.i != fixedI { return false, [], []; }
      slots := slots + [slot];
    }
    Decoder.FieldsEnd(tl, whole[i0..], slots, dr.i - i0);
    LiftShapes(ts);
    if dr.i != HeadsLen(ts) + i0 { return false, [], []; }
    return true, offsets, slots;
  }

  /** The fields `slots`, with these offsets, have been found in the bytes from `i0` to `i`. */
  ghost predicate FieldsRead(tl: seq<SszType>, whole: seq<byte>, i0: nat, slots: seq<Slot>, offsets: seq<nat>, i: nat) {
    Decoder.FieldsRead(tl, whole, i0, slots, i) && offsets == Offsets(slots)
  }

  lemma FieldOn(tl: seq<SszType>, whole: seq<byte>, i0: nat, slots: seq<Slot>, offsets: seq<nat>, i: nat,
                ahead: seq<byte>, h: ParsedHeads)
    requires FieldsRead(tl, whole, i0, slots, offsets, i)
    requires |slots| < |tl| && ahead == whole[i..] && h == ParseHead(tl[|slots|], ahead)
    ensures h.RejectHeads? ==> ParseHeads(tl, whole[i0..]).RejectHeads?
    ensures h.AcceptHeads? ==> h.n == HeadLen(tl[|slots|]) && h.slots == [h.slots[0]]
    ensures h.AcceptHeads? ==> FieldsRead(tl, whole, i0, slots + [h.slots[0]], offsets + Offsets(h.slots), i + h.n)
  {
    Decoder.FieldOn(tl, whole, i0, slots, i, ahead, h);
    if h.AcceptHeads? { OffsetsConcat(slots, h.slots); }
  }

  /** The next field of the fixed-size section; it takes up just its length there. */
  method ProcessNext(ts: seq<SszType>, k: nat, offsets: seq<nat>, dr: DecodingReader,
                     ghost whole: seq<byte>, ghost i0: nat, ghost slots: seq<Slot>)
    returns (ok: bool, offsets': seq<nat>, ghost slot: Slot)
    requires dr.Valid() && AllSized(ts) && |slots| == k < |ts|
    requires whole == dr.Scoped() && FieldsRead(LiftAll(ts), whole, i0, slots, offsets, dr.i)
    modifies dr, dr.input
    ensures ok ==> dr.Kept(old(dr.Base()), old(dr.Scoped())) && dr.i == old(dr.i) + HeadLen(ts[k])
    ensures if ok then FieldsRead(LiftAll(ts), whole, i0, slots + [slot], offsets', dr.i)
            else ParseHeads(LiftAll(ts), whole[i0..]).RejectHeads?
    decreases MaxHeight(ts), 1, 1
  {
    FieldFacts(ts, k);
    ghost var h := ParseHead(LiftAll(ts)[k], dr.Ahead());
    FieldOn(LiftAll(ts), whole, i0, slots, offsets, dr.i, dr.Ahead(), h);
    slot := if h.AcceptHeads? then h.slots[0] else Offset(0);
    ok, offsets' := ProcessField(ts[k], offsets, dr);
  }

  lemma FieldFacts(ts: seq<SszType>, k: nat)
    requires AllSized(ts) && k < |ts|
    ensures Sized(ts[k]) && Height(ts[k]) <= MaxHeight(ts)
    ensures LiftAll(ts)[k] == Lift(ts[k])
    ensures HeadLen(Lift(ts[k])) == HeadLen(ts[k]) && IsFixed(Lift(ts[k])) == IsFixed(ts[k])
  {
    SizedAt(ts, k);
    HeightAt(ts, k);
    LiftAt(ts, k);
    LiftShape(ts[k]);
  }

  /** One field of the fixed-size section; its offset is appended. */
  method ProcessField(t: SszType, offsets: seq<nat>, dr: DecodingReader) returns (ok: bool, offsets': seq<nat>)
    requires dr.Valid() && Sized(t)
    modifies dr, dr.input
    ensures ok ==> dr.Kept(old(dr.Base()), old(dr.Scoped()))
    ensures match ParseHead(Lift(t), old(dr.Ahead()))
            case RejectHeads => !ok
            case AcceptHeads(slots, m) => (ok && dr.i - old(dr.i) == m && offsets' == offsets + Offsets(slots))
    decreases Height(t), 1, 0
  {
    LiftShape(t);
    if IsFixed(t) {
      ok := DryCheck(t, dr);
      offsets' := offsets;
    } else {
      var offset := dr.ReadOffset();
      ok := offset.Some?;
      offsets' := if ok then offsets + [offset.value] else offsets;
    }
  }

  lemma {:induction false} OffsetsConcat(a: seq<Slot>, b: seq<Slot>)
    ensures Offsets(a + b) == Offsets(a) + Offsets(b)
  {
    if a == [] {
      assert a + b == b;
    } else {
      assert (a + b)[1..] == a[1..] + b;
      OffsetsConcat(a[1..], b);
    }
  }

  method DryCheckDynamicPart(ts: seq<SszType>, ghost slots: seq<Slot>, offsets: seq<nat>, dr: DecodingReader,
                             ghost s: seq<byte>, ghost i0: nat)
    returns (ok: bool)
    requires dr.Valid() && AllSized(ts) && Matching(LiftAll(ts), slots) && offsets == Offsets(slots)
    requires (AllFixed(ts) || i0 == 0) && i0 <= dr.i && s == dr.Scoped()[i0..]
    modifies dr, dr.input
    ensures ok ==> dr.Kept(old(dr.Base()), old(dr.Scoped()))
    ensures ChecksAll(ParseTails(LiftAll(ts), slots, s, old(dr.i) - i0), ok, dr.i - i0)
    decreases MaxHeight(ts), 2, 0
  {
    ghost var vs := [];
    var i := 0;
    ghost var tl, whole, c0 := LiftAll(ts), dr.Scoped(), dr.i - i0;
    TailsReadBegin(tl, slots, s, c0);
    assert slots[0..] == slots && offsets[0..] == offsets;
    for k := 0 to |ts|
      invariant dr.Kept(old(dr.Base()), whole) && |vs| == k
      invariant Decoder.Pointing(slots, offsets, k, i)
      invariant i0 <= dr.i && TailsRead(tl, slots, s, c0, vs, dr.i - i0)
    {
      ghost var v;
      ok, i, v := DryCheckNext(ts, slots, offsets, k, i, vs, dr, s, i0, c0);
      if !ok { return; }
      vs := vs + [v];
    }
    TailsReadEnd(tl, slots, s, c0, vs, dr.i - i0);
    return true;
  }

  /** The next field: it was checked with the fixed-size section, or it is at offset `i`. */
  method DryCheckNext(ts: seq<SszType>, ghost slots: seq<Slot>, offsets: seq<nat>, k: nat, i: nat, ghost vs: seq<Value>,
                      dr: DecodingReader, ghost s: seq<byte>, ghost i0: nat, ghost c0: nat)
    returns (ok: bool, next: nat, ghost v: Value)
    requires dr.Valid() && AllSized(ts) && Matching(LiftAll(ts), slots) && |vs| == k < |ts|
    requires (AllFixed(ts) || i0 == 0) && i0 <= dr.i && s == dr.Scoped()[i0..]
    requires Decoder.Pointing(slots, offsets, k, i) && TailsRead(LiftAll(ts), slots, s, c0, vs, dr.i - i0)
    modifies dr, dr.input
    ensures ok ==> dr.Kept(old(dr.Base()), old(dr.Scoped()))
    ensures if ok then
              && i0 <= dr.i && TailsRead(LiftAll(ts), slots, s, c0, vs + [v], dr.i - i0)
              && Decoder.Pointing(slots, offsets, k + 1, next)
            else ParseTails(LiftAll(ts), slots, s, c0).RejectParts?
    decreases MaxHeight(ts), 1, 1
  {
    FieldFacts(ts, k);
    if IsFixed(ts[k]) {
      Decoder.InlineNext(LiftAll(ts), slots, offsets, k, i, s, c0, vs, dr.i - i0);
      return true, i, slots[k].v;
    }
    Decoder.PointingOn(slots, offsets, k, i);
    if AllFixed(ts) { Decoder.FixedAt(ts, k); }
    assert dr.Scoped()[0..] == dr.Scoped();
    ok, v := DryCheckField(ts, slots, offsets, k, i, vs, dr, s, c0);
    next := i + 1;
  }

  /** The next variable-size field, number `i` among them. */
  method DryCheckField(ts: seq<SszType>, ghost slots: seq<Slot>, offsets: seq<nat>, k: nat, i: nat,
                       ghost vs: seq<Value>, dr: DecodingReader, ghost s: seq<byte>, ghost c0: nat)
    returns (ok: bool, ghost v: Value)
    requires dr.Valid() && AllSized(ts) && |vs| == k < |ts| == |slots| && i < |offsets|
    requires slots[k] == Offset(offsets[i]) && Decoder.Pointing(slots, offsets, k + 1, i + 1)
    requires s == dr.Scoped() && TailsRead(LiftAll(ts), slots, s, c0, vs, dr.i)
    modifies dr, dr.input
    ensures ok ==> dr.Kept(old(dr.Base()), old(dr.Scoped()))
    ensures if ok then TailsRead(LiftAll(ts), slots, s, c0, vs + [v], dr.i)
            else ParseTails(LiftAll(ts), slots, s, c0).RejectParts?
    decreases MaxHeight(ts), 1, 0
  {
    FieldFacts(ts, k);
    var scope := Decoder.FieldScope(offsets, i, dr);
    ok, v := DryCheckPart(ts[k], scope, LiftAll(ts), slots, vs, dr, s, c0);
  }
}

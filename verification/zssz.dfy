/** The entry points (zssz.go), and what they promise together. */
module Zssz {
  import opened Bits
  import opened Bytes
  import opened Bitfields
  import opened Grammar
  import opened GrammarLaws
  import opened Serialization
  import opened Parsing
  import opened Canonical
  import opened RoundTrip
  import opened Lengths
  import opened Unlimited
  import opened EncodingWriting
  import opened DecodingReading
  import opened Outcomes
  import Encoder
  import Decoder
  import DryChecker

  /** What decoding delivers for an object of exactly the bytes `s`. */
  function Decoded(t: SszType, s: seq<byte>): Option<Value> {
    if |s| < MinLen(t) then None
    else
      match Parse(t, s)
      case Reject => None
      case Accept(v, n) => if n == |s| then Some(v) else None
  }

  /** the next `n` bytes of the input, if there are as many */
  ghost function Upcoming(input: Input, n: nat): Option<seq<byte>>
    reads input
  {
    if input.pos + n <= |input.data| then Some(input.data[input.pos..input.pos + n]) else None
  }

  /** A reader of just the next `bytesLen` bytes. */
  method Open(input: Input, bytesLen: nat) returns (r: Option<DecodingReader>)
    requires bytesLen < TWO_63
    ensures r.Some? <==> Upcoming(input, bytesLen).Some?
    ensures r.Some? ==> fresh(r.value) && r.value.input == input && r.value.i == 0 && r.value.max == bytesLen
    ensures r.Some? ==> r.value.Valid() && Some(r.value.Ahead()) == Upcoming(input, bytesLen)
  {
    var unscoped := new DecodingReader(input);
    var scoped := unscoped.Scope(bytesLen);
    if scoped.None? || input.pos + bytesLen > |input.data| { return None; }
    var dr := scoped.value;
    assert dr.Base() == input.pos && dr.Valid();
    ghost var s := dr.Scoped();
    assert dr.Ahead() == s[0..] == s;
    return scoped;
  }

  /** Decodes an object of `bytesLen` bytes, which all have to be used. */
  method Decode(input: Input, bytesLen: nat, t: SszType) returns (r: Option<Value>)
    requires Sized(t) && bytesLen < TWO_63
    modifies input
    ensures r == match old(Upcoming(input, bytesLen))
                 case None => None
                 case Some(s) => Decoded(t, s)
    ensures r.Some? ==> input.pos == old(input.pos) + bytesLen
  {
    if bytesLen < MinLen(t) { return None; }
    var scoped := Open(input, bytesLen);
    if scoped.None? { return None; }
    var dr := scoped.value;
    r := Decoder.Decode(t, dr);
    if r.Some? && dr.i != bytesLen { return None; }
  }

  /** Checks the format of an object of `bytesLen` bytes without decoding it. */
  method DryCheck(input: Input, bytesLen: nat, t: SszType) returns (ok: bool)
    requires Sized(t) && bytesLen < TWO_63
    modifies input
    ensures ok == match old(Upcoming(input, bytesLen))
                  case None => false
                  case Some(s) => Decoded(Lift(t), s).Some?
    ensures ok ==> input.pos == old(input.pos) + bytesLen
  {
    LiftMinLen(t);
    if bytesLen < MinLen(t) { return false; }
    var scoped := Open(input, bytesLen);
    if scoped.None? { return false; }
    var dr := scoped.value;
    ok := DryChecker.DryCheck(t, dr);
    if ok && dr.i != bytesLen { return false; }
  }

  /** Encodes `v`, and counts the bytes written. */
  method Encode(t: SszType, v: Value) returns (written: Outcome<nat>, sink: seq<byte>)
    requires Typed(t, v)
    ensures written == if Encodable(t, v) then Done(|Serialize(t, v)|) else Panic
    ensures written.Done? ==> sink == Serialize(t, v)
    ensures written.Done? && !t.Composite() ==> HoldsLeaf(t, v, sink)
  {
    if !t.Composite() { LeafHolds(t, v); }
    var ew := new EncodingWriter();
    var ok := Encoder.Encode(t, v, ew);
    sink := ew.sink;
    written := if ok then Done(ew.n) else Panic;
  }

  // ----- encoding and decoding are inverse to each other

  /**
   Decoding delivers `v` from `s` exactly when `v` is a legal value, `s` is its serialized form, and
   encoding it does not panic.
   */
  lemma DecodedExactly(t: SszType, v: Value, s: seq<byte>)
    ensures Decoded(t, s) == Some(v) <==> Encodes(t, v, s)
  {
    if Decoded(t, s) == Some(v) {
      ParseSound(t, s);
      assert s[..|s|] == s;
    } else if Encodes(t, v, s) {
      ParseComplete(t, v, []);
      assert s + [] == s;
      MinLenBound(t, v);
    }
  }

  /** Encoding and then decoding returns the value, unless it is not legal; then it is refused. */
  lemma EncodeThenDecode(t: SszType, v: Value)
    requires Typed(t, v) && Encodable(t, v)
    ensures Decoded(t, Serialize(t, v)) == if Legal(t, v) then Some(v) else None
  {
    ParseComplete(t, v, []);
    assert Serialize(t, v) + [] == Serialize(t, v);
    if Legal(t, v) { MinLenBound(t, v); }
  }

  /** A list with elements of no length is never decoded, not even from no bytes. */
  lemma EmptyElementsAreRefused(e: SszType, limit: nat, s: seq<byte>)
    requires IsFixed(e) && FixedLen(e) == 0
    ensures Decoded(List(e, limit), s).None?
  {
    assert PartCount(List(e, limit), s).None?;
  }

  /** Though the empty list of empty containers, for one, is encoded. */
  lemma EmptyElementsAreEncoded()
    ensures var t, v := List(Container([]), 1), Elems([]);
            Sized(t) && Typed(t, v) && Encodable(t, v) && Serialize(t, v) == [] && Decoded(t, []).None?
  {
    EmptyElementsAreRefused(Container([]), 1, []);
    assert Parts(List(Container([]), 1), 0) == [];
  }

  // ----- the bytes of values without parts

  /** The bytes are those of a legal value of a type without parts. */
  ghost predicate LeafBytes(t: SszType, s: seq<byte>) {
    match t
    case Scalar(k) => |s| == k.Size() && (k.BoolKind? ==> s[0] <= 1)
    case BytesN(n) => |s| == n
    case Bitvector(n) => 8 * |s| - 8 < n <= 8 * |s| && forall i :: n <= i < 8 * |s| ==> !GetBit(s, i)
    case Bytes(limit) => |s| <= limit
    case Bitlist(limit) => s != [] && s[|s| - 1] != 0 && BitlistLen(s) <= limit
    case BasicVector(k, n) => |s| == n * k.Size() && SeriesBytes(k, s)
    case BasicList(k, limit) => |s| % k.Size() == 0 && |s| <= limit * k.Size() && SeriesBytes(k, s)
    case _ => false
  }

  predicate SeriesBytes(k: Basic, s: seq<byte>) {
    k.BoolKind? ==> forall i :: 0 <= i < |s| ==> s[i] <= 1
  }

  lemma SeriesDecodes(k: Basic, n: nat, s: seq<byte>)
    requires |s| == n * k.Size()
    ensures ParseSeries(k, n, s).Accept? <==> SeriesBytes(k, s)
    ensures ParseSeries(k, n, s).Accept? ==> ParseSeries(k, n, s).n == |s|
  {
    assert s[..n * k.Size()] == s;
    Decoder.SeriesRange(k, n, s);
  }

  lemma LeafDecodes(t: SszType, s: seq<byte>)
    requires !t.Composite() && Sized(t)
    ensures Decoded(t, s).Some? <==> LeafBytes(t, s)
  {
    match t
    case Scalar(k) => if |s| == k.Size() { ScalarDecodes(k, s); }
    case Bitvector(n) => BitvectorDecodes(n, s);
    case Bitlist(limit) => BitlistCheckMeaning(s, limit);
    case BasicVector(k, n) => if |s| == n * k.Size() { SeriesDecodes(k, n, s); }
    case BasicList(k, limit) => BasicListDecodes(k, limit, s);
    case _ =>
  }

  lemma BitvectorDecodes(n: nat, s: seq<byte>)
    ensures Decoded(Bitvector(n), s).Some? <==> LeafBytes(Bitvector(n), s)
  {
    BitvectorCheckMeaning(s, n);
    if |s| == (n + 7) / 8 { assert s[..|s|] == s; }
  }

  lemma BasicListDecodes(k: Basic, limit: nat, s: seq<byte>)
    ensures Decoded(BasicList(k, limit), s).Some? <==> LeafBytes(BasicList(k, limit), s)
  {
    var n := |s| / k.Size();
    if |s| % k.Size() == 0 {
      assert |s| == n * k.Size();
      SeriesDecodes(k, n, s);
    }
  }

  /** Just those bytes are decoded, and the value is what they hold. */
  lemma LeafDecodedExactly(t: SszType, s: seq<byte>)
    requires !t.Composite() && Sized(t)
    ensures Decoded(t, s).Some? <==> LeafBytes(t, s)
    ensures Decoded(t, s).Some? ==> HoldsLeaf(t, Decoded(t, s).value, s)
  {
    LeafDecodes(t, s);
    if Decoded(t, s).Some? {
      DecodedExactly(t, Decoded(t, s).value, s);
      LeafHolds(t, Decoded(t, s).value);
    }
  }

  lemma ScalarDecodes(k: Basic, s: seq<byte>)
    requires |s| == k.Size()
    ensures k.InRange(FromLE(s)) <==> (k.BoolKind? ==> s[0] <= 1)
    ensures s[..k.Size()] == s
  {
    LEOfFromLE(s);
  }

  /** No other value has the encoding of a legal value, not even one that is not legal. */
  lemma EncodeIsInjective(t: SszType, v: Value, w: Value)
    requires Typed(t, v) && Encodable(t, v) && Legal(t, v)
    requires Typed(t, w) && Encodable(t, w) && Serialize(t, v) == Serialize(t, w)
    ensures v == w
  {
    EncodeThenDecode(t, v);
    EncodeThenDecode(t, w);
  }

  /** No two byte strings decode to the same value. */
  lemma DecodeIsInjective(t: SszType, s: seq<byte>, s': seq<byte>)
    requires Decoded(t, s).Some? && Decoded(t, s) == Decoded(t, s')
    ensures s == s'
  {
    DecodedExactly(t, Decoded(t, s).value, s);
    DecodedExactly(t, Decoded(t, s).value, s');
  }

  // ----- values of less than 2^32 bytes never make the encoder panic

  lemma {:induction false} SmallIsEncodable(t: SszType, v: Value)
    requires Typed(t, v) && |Serialize(t, v)| < OFFSET_LIMIT
    ensures Encodable(t, v)
    decreases Height(t), 0, 0
  {
    if t.Composite() {
      CompositeLen(t, v);
      var ts := Parts(t, |v.vs|);
      SmallAreEncodable(ts, v.vs, HeadsLen(ts));
    }
  }

  lemma {:induction false} SmallAreEncodable(ts: seq<SszType>, vs: seq<Value>, offset: nat)
    requires TypedAll(ts, vs) && HeadsLen(ts) < OFFSET_LIMIT && offset + |Tails(ts, vs)| < OFFSET_LIMIT
    ensures EncodableAll(ts, vs, offset)
    decreases MaxHeight(ts), 1, |ts|
  {
    if ts != [] {
      SerializeLen(ts[0], vs[0]);
      SmallIsEncodable(ts[0], vs[0]);
      SmallAreEncodable(ts[1..], vs[1..], if IsFixed(ts[0]) then offset else offset + |Serialize(ts[0], vs[0])|);
    }
  }

  /** Every legal value of less than 2^32 bytes is encoded, and comes back. */
  lemma SmallRoundTrip(t: SszType, v: Value)
    requires Typed(t, v) && Legal(t, v) && |Serialize(t, v)| < OFFSET_LIMIT
    ensures Encodable(t, v) && Decoded(t, Serialize(t, v)) == Some(v)
  {
    SmallIsEncodable(t, v);
    EncodeThenDecode(t, v);
  }

  // ----- dry checks

  lemma {:induction false} LiftMinLen(t: SszType)
    ensures MinLen(Lift(t)) == MinLen(t)
    decreases t
  {
    LiftShape(t);
    match t
    case Vector(e, _) =>
      LiftShape(e);
      LiftMinLen(e);
    case Container(ts) => LiftMinLens(ts);
    case _ =>
  }

  lemma {:induction false} LiftMinLens(ts: seq<SszType>)
    ensures MinLens(LiftAll(ts)) == MinLens(ts)
    decreases ts
  {
    if ts != [] {
      LiftTail(ts);
      LiftShape(ts[0]);
      LiftMinLen(ts[0]);
      LiftMinLens(ts[1..]);
    }
  }

  lemma LiftEncodes(t: SszType, v: Value, s: seq<byte>)
    requires Sized(t) && |s| < TWO_63
    ensures Encodes(t, v, s) <==> Encodes(Lift(t), v, s) && BytesWithin(t, v)
  {
    LiftTyped(t, v);
    LiftEncodable(t, v);
    LiftSerialize(t, v);
    if Typed(t, v) && Serialize(t, v) == s { LiftLegal(t, v); }
  }

  /**
   What decoding delivers is what the dry check accepts, without the values that have a byte string above
   its limit.
   */
  lemma DecodeIsDryCheckWithLimits(t: SszType, v: Value, s: seq<byte>)
    requires Sized(t) && |s| < TWO_63
    ensures Decoded(t, s) == Some(v) <==> Decoded(Lift(t), s) == Some(v) && BytesWithin(t, v)
  {
    DecodedExactly(t, v, s);
    DecodedExactly(Lift(t), v, s);
    LiftEncodes(t, v, s);
  }

  /** Whatever can be decoded passes the dry check. */
  lemma DecodedPassesDryCheck(t: SszType, s: seq<byte>)
    requires Sized(t) && |s| < TWO_63 && Decoded(t, s).Some?
    ensures Decoded(Lift(t), s) == Decoded(t, s)
  {
    DecodeIsDryCheckWithLimits(t, Decoded(t, s).value, s);
  }

  /**
   The dry check accepts just the serialized forms of values that are legal except that their byte strings may be of any
   length.
   */
  lemma DryCheckedExactly(t: SszType, v: Value, s: seq<byte>)
    requires |s| <= MAX_LIMIT
    ensures Decoded(Lift(t), s) == Some(v) <==>
            Typed(t, v) && DryLegal(t, v) && Encodable(t, v) && Serialize(t, v) == s
  {
    DecodedExactly(Lift(t), v, s);
    LiftTyped(t, v);
    LiftEncodable(t, v);
    LiftSerialize(t, v);
    if Typed(t, v) && Serialize(t, v) == s { LiftIsDryLegal(t, v); }
  }

  /** For a type without byte strings below the greatest limit the dry check tells exactly what can be decoded. */
  lemma DryCheckIsExact(t: SszType, s: seq<byte>)
    requires NoLimits(t)
    ensures Decoded(Lift(t), s) == Decoded(t, s)
  {
    NothingToLift(t);
  }

  /** A byte string of any length passes the dry check, though above its limit it cannot be decoded. */
  lemma DryCheckMissesLimit(limit: nat, s: seq<byte>)
    requires |s| <= MAX_LIMIT
    ensures Decoded(Lift(Bytes(limit)), s) == Some(Raw(s))
    ensures Decoded(Bytes(limit), s) == if |s| <= limit then Some(Raw(s)) else None
  {
    DryCheckedExactly(Bytes(limit), Raw(s), s);
  }
}

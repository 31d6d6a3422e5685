/**
 Decoding in fuzz mode (the branches for fuzz mode in the Decode methods of the types package, and
 DecodeFuzzBytes in zssz.go), proved to compute `FuzzParse`.
 */
module FuzzDecoder {
  import opened Bits
  import opened Bytes
  import opened Bitfields
  import opened Grammar
  import opened PartLemmas
  import opened DecodingReading
  import opened Fuzzing
  import opened Outcomes

  /** The lengths for fuzz mode do not wrap around in uint64, and lists of basic elements, when full, fit in memory. */
  predicate FuzzSized(t: SszType)
    decreases t
  {
    && Sized(t)
    && FuzzMinLen(t) < TWO_64
    && FuzzMaxLen(t) < TWO_64
    && match t
       case BasicList(k, limit) => limit * k.Size() < TWO_63
       case Vector(e, _) => FuzzSized(e)
       case List(e, _) => FuzzSized(e)
       case Container(ts) => AllFuzzSized(ts)
       case _ => true
  }

  predicate AllFuzzSized(ts: seq<SszType>)
    decreases ts
  {
    ts == [] || (FuzzSized(ts[0]) && AllFuzzSized(ts[1..]))
  }

  lemma {:induction false} FuzzSizedAt(ts: seq<SszType>, i: nat)
    requires AllFuzzSized(ts) && i < |ts|
    ensures FuzzSized(ts[i])
  {
    if i > 0 { FuzzSizedAt(ts[1..], i - 1); }
  }

  // ----- leaves

  method ReadRaw(n: nat, dr: DecodingReader) returns (r: Fuzz<Value>)
    requires dr.Valid() && n < TWO_63
    modifies dr, dr.input
    ensures dr.Kept(old(dr.Base()), old(dr.Scoped())) && dr.fuzzMode == old(dr.fuzzMode)
    ensures r == FuzzRaw(n, old(dr.Ahead()))
    ensures r.Fuzzed? ==> dr.i == old(dr.i) + r.n
  {
    var b := dr.Read(n);
    if b.None? { return Fails(BeyondScope); }
    return Fuzzed(Raw(b.value), n);
  }

  /** Makes bytes of a boolean series correct where necessary. */
  method Tame(b: seq<byte>) returns (data: seq<byte>)
    ensures data == Tamed(b)
  {
    data := b;
    for i := 0 to |b|
      invariant |data| == |b| && data[i..] == b[i..]
      invariant data[..i] == Tamed(b)[..i]
    {
      assert data[i] == data[i..][0] == b[i];
      if data[i] > 1 { data := data[i := 1]; }
    }
  }

  method ReadSeries(k: Basic, n: nat, dr: DecodingReader) returns (r: Fuzz<Value>)
    requires dr.Valid() && n * k.Size() < TWO_63
    modifies dr, dr.input
    ensures dr.Kept(old(dr.Base()), old(dr.Scoped())) && dr.fuzzMode == old(dr.fuzzMode)
    ensures r == FuzzSeries(k, n, old(dr.Ahead()))
    ensures r.Fuzzed? ==> dr.i == old(dr.i) + r.n
  {
    var b := dr.Read(n * k.Size());
    if b.None? { return Fails(BeyondScope); }
    var data := b.value;
    if k.BoolKind? { data := Tame(data); }
    return Fuzzed(Nums(Unpack(k.Size(), n, data)), n * k.Size());
  }

  method DrawBitlist(x: nat, available: nat, limit: nat) returns (byteLen: nat)
    ensures byteLen == BitlistDraw(x, available, limit) && 0 < byteLen <= (limit + 7) / 8 + 1
  {
    byteLen := 0;
    var span := Sub64(available, 1);
    if span > (limit + 7) / 8 { span := (limit + 7) / 8; }
    if span != 0 { byteLen := x % span; }
    byteLen := byteLen + 1;
  }

  method ReadBitlist(x: nat, limit: nat, dr: DecodingReader) returns (r: Fuzz<Value>)
    requires dr.Valid() && limit < TWO_64
    modifies dr, dr.input
    ensures dr.Kept(old(dr.Base()), old(dr.Scoped())) && dr.fuzzMode == old(dr.fuzzMode)
    ensures r == FuzzBitlist(BitlistDraw(x, |old(dr.Ahead())|, limit), limit, old(dr.Ahead()))
    ensures r.Fuzzed? ==> dr.i == old(dr.i) + r.n
  {
    var byteLen := DrawBitlist(x, dr.BytesSpan(), limit);
    var b := dr.Read(byteLen);
    if b.None? { return Fails(BeyondScope); }
    var data := b.value[byteLen - 1 := MaskLast(b.value[byteLen - 1], limit)];
    if !BitlistCheck(data, limit) { return Fails(Malformed); }
    return Fuzzed(Raw(data), byteLen);
  }

  method ReadBasicList(x: nat, k: Basic, limit: nat, dr: DecodingReader) returns (r: Fuzz<Value>)
    requires dr.Valid() && limit * k.Size() < TWO_63
    modifies dr, dr.input
    ensures dr.Kept(old(dr.Base()), old(dr.Scoped())) && dr.fuzzMode == old(dr.fuzzMode)
    ensures r == FuzzBasicList(k, limit, x, old(dr.Ahead()))
    ensures r.Fuzzed? ==> dr.i == old(dr.i) + r.n
  {
    var byteLimit, span := limit * k.Size(), dr.BytesSpan();
    if byteLimit > span { span := byteLimit; }
    if span == 0 { return Fuzzed(Nums([]), 0); }
    var bytesLen := DrawBytes(x, span, k);
    if bytesLen > byteLimit { return Fails(OverLimit); }
    r := ReadSeries(k, bytesLen / k.Size(), dr);
  }

  /** a number of bytes below `span` that makes up whole elements */
  method DrawBytes(x: nat, span: nat, k: Basic) returns (bytesLen: nat)
    requires span > 0
    ensures bytesLen / k.Size() == x % span / k.Size() && bytesLen == x % span / k.Size() * k.Size()
  {
    bytesLen := x % span;
    WholeElems(bytesLen, k);
    bytesLen := bytesLen - bytesLen % k.Size();
  }

  lemma WholeElems(n: nat, k: Basic)
    ensures var m := n - n % k.Size(); m >= 0 && m / k.Size() == n / k.Size() && m == n / k.Size() * k.Size()
  {
    match k
    case BoolKind =>
    case Uint8Kind =>
    case Uint16Kind =>
    case Uint32Kind =>
    case Uint64Kind =>
  }

  /** A random number from the input. */
  method ReadDraw(dr: DecodingReader) returns (x: Option<nat>)
    requires dr.Valid()
    modifies dr, dr.input
    ensures dr.Kept(old(dr.Base()), old(dr.Scoped())) && dr.fuzzMode == old(dr.fuzzMode)
    ensures if |old(dr.Ahead())| < 8 then x.None?
            else x == Some(FromLE(old(dr.Ahead())[..8])) && dr.Ahead() == old(dr.Ahead())[8..] && dr.i == old(dr.i) + 8
  {
    var b := dr.Read(8);
    if b.None? { return None; }
    return Some(FromLE(b.value));
  }

  method ReadDrawn(t: SszType, dr: DecodingReader) returns (r: Fuzz<Value>)
    requires (t.Bytes? || t.Bitlist? || t.BasicList?) && dr.Valid() && FuzzSized(t)
    modifies dr, dr.input
    ensures dr.Kept(old(dr.Base()), old(dr.Scoped())) && dr.fuzzMode == old(dr.fuzzMode)
    ensures r == FuzzLeaf(t, old(dr.Ahead()))
    ensures r.Fuzzed? ==> dr.i == old(dr.i) + r.n
  {
    var draw := ReadDraw(dr);
    if draw.None? { return Fails(BeyondScope); }
    var x := draw.value;
    match t
    case Bytes(limit) =>
      var length, span := 0, Min(dr.BytesSpan(), limit);
      if span != 0 { length := x % span; }
      if length > limit { return Fails(OverLimit); }
      r := ReadRaw(length, dr);
      r := Later(8, r);
    case Bitlist(limit) =>
      r := ReadBitlist(x, limit, dr);
      r := Later(8, r);
    case BasicList(k, limit) =>
      r := ReadBasicList(x, k, limit, dr);
      r := Later(8, r);
  }

  method DecodeLeaf(t: SszType, dr: DecodingReader) returns (r: Fuzz<Value>)
    requires !t.Composite() && dr.Valid() && FuzzSized(t)
    modifies dr, dr.input
    ensures dr.Kept(old(dr.Base()), old(dr.Scoped())) && dr.fuzzMode == old(dr.fuzzMode)
    ensures r == FuzzLeaf(t, old(dr.Ahead()))
    ensures r.Fuzzed? ==> dr.i == old(dr.i) + r.n
  {
    match t
    case Scalar(k) =>
      var b := dr.Read(k.Size());
      if b.None? { return Fails(BeyondScope); }
      var x := FromLE(b.value);
      return Fuzzed(Num(if k.BoolKind? then x % 2 else x), k.Size());
    case BytesN(n) => r := ReadRaw(n, dr);
    case Bitvector(bits) =>
      r := ReadRaw((bits + 7) / 8, dr);
      if r.Fuzzed? && !BitvectorCheck(r.v.data, bits) { r := Fails(Malformed); }
    case BasicVector(k, n) => r := ReadSeries(k, n, dr);
    case Bytes(_) => r := ReadDrawn(t, dr);
    case Bitlist(_) => r := ReadDrawn(t, dr);
    case BasicList(_, _) => r := ReadDrawn(t, dr);
  }

  // ----- loops over parts

  /** `goal` is what is read from `s` when the first `k` parts are `vs` and took `c` bytes. */
  ghost predicate FuzzOn(goal: Fuzz<seq<Value>>, scoped: bool, ts: seq<SszType>, s: seq<byte>, vs: seq<Value>, c: nat) {
    && |vs| <= |ts| && c <= |s|
    && goal == FuzzAfter(vs, c, FuzzParts(scoped, ts[|vs|..], s[c..]))
  }

  lemma FuzzBegin(scoped: bool, ts: seq<SszType>, s: seq<byte>)
    ensures FuzzOn(FuzzParts(scoped, ts, s), scoped, ts, s, [], 0)
  {
    assert ts[0..] == ts && s[0..] == s;
    var r := FuzzParts(scoped, ts, s);
    if r.Fuzzed? { assert [] + r.v == r.v; }
  }

  /** What is read for the next part, with `leftOver` bytes kept for those behind it. */
  function Next(t: SszType, leftOver: nat, s: seq<byte>): Fuzz<Value> {
    if |s| < leftOver then Fails(UnderEstimated) else FuzzParse(t, s[..|s| - leftOver])
  }

  /** Decides the whole if `part` is not read, and otherwise is one step on. */
  ghost predicate Stops(goal: Fuzz<seq<Value>>, part: Fuzz<Value>) {
    && (part.Panics? ==> goal == Panics)
    && (part.Fails? ==> goal == Fails(part.e))
  }

  lemma FuzzStep(goal: Fuzz<seq<Value>>, scoped: bool, ts: seq<SszType>, s: seq<byte>, vs: seq<Value>, c: nat,
                 ahead: seq<byte>, part: Fuzz<Value>)
    requires FuzzOn(goal, scoped, ts, s, vs, c) && |vs| < |ts| && ahead == s[c..]
    requires part == Next(ts[|vs|], Kept(scoped, ts[|vs| + 1..]), ahead)
    ensures Stops(goal, part)
    ensures part.Fuzzed? ==> part.n <= |ahead| && FuzzOn(goal, scoped, ts, s, vs + [part.v], c + part.n)
  {
    FuzzNext(scoped, ts, |vs|, ahead, part);
    if part.Fuzzed? {
      assert ahead[part.n..] == s[c + part.n..];
      AfterAfter(vs, c, part.v, part.n, FuzzParts(scoped, ts[|vs| + 1..], ahead[part.n..]));
    }
  }

  /** What is read from part `k` on, which is `part`. */
  lemma FuzzNext(scoped: bool, ts: seq<SszType>, k: nat, ahead: seq<byte>, part: Fuzz<Value>)
    requires k < |ts| && part == Next(ts[k], Kept(scoped, ts[k + 1..]), ahead)
    ensures Stops(FuzzParts(scoped, ts[k..], ahead), part)
    ensures part.Fuzzed? ==>
              && part.n <= |ahead|
              && FuzzParts(scoped, ts[k..], ahead)
                 == FuzzAfter([part.v], part.n, FuzzParts(scoped, ts[k + 1..], ahead[part.n..]))
  {
    DropOne(ts, k);
    if part.Fuzzed? { ParseFits(ts[k], ahead[..|ahead| - Kept(scoped, ts[k + 1..])]); }
  }

  lemma AfterAfter(vs: seq<Value>, c: nat, v: Value, n: nat, rest: Fuzz<seq<Value>>)
    ensures FuzzAfter(vs, c, FuzzAfter([v], n, rest)) == FuzzAfter(vs + [v], c + n, rest)
  {
    if rest.Fuzzed? { assert vs + ([v] + rest.v) == (vs + [v]) + rest.v; }
  }

  lemma FuzzEnd(goal: Fuzz<seq<Value>>, scoped: bool, ts: seq<SszType>, s: seq<byte>, vs: seq<Value>, c: nat)
    requires FuzzOn(goal, scoped, ts, s, vs, c) && |vs| == |ts|
    ensures goal == Fuzzed(vs, c)
  {
    assert ts[|vs|..] == [] && vs + [] == vs;
  }

  /** Gives up with the failure of a part. */
  function Failing(part: Fuzz<Value>): Fuzz<seq<Value>>
    requires !part.Fuzzed?
  {
    match part
    case Panics => Panics
    case Fails(e) => Fails(e)
  }

  /** As `FuzzOn`, for parts that are read from the bytes from `i0` to `i`. */
  ghost predicate PartsOn(goal: Fuzz<seq<Value>>, scoped: bool, ts: seq<SszType>, whole: seq<byte>, i0: nat,
                          vs: seq<Value>, i: nat) {
    i0 <= i <= |whole| && FuzzOn(goal, scoped, ts, whole[i0..], vs, i - i0)
  }

  lemma PartsStep(goal: Fuzz<seq<Value>>, scoped: bool, ts: seq<SszType>, whole: seq<byte>, i0: nat,
                  vs: seq<Value>, i: nat, part: Fuzz<Value>)
    requires PartsOn(goal, scoped, ts, whole, i0, vs, i) && |vs| < |ts|
    requires part == Next(ts[|vs|], Kept(scoped, ts[|vs| + 1..]), whole[i..])
    ensures Stops(goal, part)
    ensures part.Fuzzed? ==> PartsOn(goal, scoped, ts, whole, i0, vs + [part.v], i + part.n)
  {
    var c := i - i0;
    assert whole[i0..][c..] == whole[i..];
    FuzzStep(goal, scoped, ts, whole[i0..], vs, c, whole[i..], part);
  }

  /** One part, in a scope that keeps `leftOver` bytes. */
  method DecodePart(t: SszType, leftOver: nat, dr: DecodingReader) returns (r: Fuzz<Value>)
    requires dr.Valid() && FuzzSized(t)
    modifies dr, dr.input
    ensures r.Fuzzed? ==> dr.Kept(old(dr.Base()), old(dr.Scoped())) && dr.i == old(dr.i) + r.n
    ensures r.Fuzzed? ==> dr.fuzzMode == old(dr.fuzzMode)
    ensures r == Next(t, leftOver, old(dr.Ahead()))
    decreases Height(t), 1, 1
  {
    var span := dr.BytesSpan();
    if span < leftOver { return Fails(UnderEstimated); }
    r := DecodeScoped(t, span - leftOver, dr);
  }

  method DecodeScoped(t: SszType, available: nat, dr: DecodingReader) returns (r: Fuzz<Value>)
    requires dr.Valid() && FuzzSized(t) && available <= dr.max - dr.i
    modifies dr, dr.input
    ensures r.Fuzzed? ==> dr.Kept(old(dr.Base()), old(dr.Scoped())) && dr.i == old(dr.i) + r.n
    ensures r.Fuzzed? ==> dr.fuzzMode == old(dr.fuzzMode)
    ensures r == FuzzParse(t, old(dr.Ahead()[..available]))
    decreases Height(t), 1, 0
  {
    var scoped := dr.Scope(available);
    if scoped.None? { return Fails(BeyondScope); }
    var child := scoped.value;
    child.EnableFuzzMode();
    assert child.Valid() && child.Ahead() == dr.Ahead()[..available];
    ParseFits(t, child.Ahead());
    r := Decode(t, child);
    if !r.Fuzzed? { return; }
    dr.UpdateIndexFromScoped(child);
  }

  /** Elements without scopes. */
  method DecodeFixedSeries(e: SszType, n: nat, dr: DecodingReader) returns (r: Fuzz<seq<Value>>)
    requires dr.Valid() && FuzzSized(e) && dr.fuzzMode
    modifies dr, dr.input
    ensures r.Fuzzed? ==> dr.Kept(old(dr.Base()), old(dr.Scoped())) && dr.i == old(dr.i) + r.n && dr.fuzzMode
    ensures r == FuzzParts(false, Repeat(e, n), old(dr.Ahead()))
    decreases Height(e), 2, 0
  {
    var vs := [];
    var i0 := dr.i;
    ghost var ts, whole := Repeat(e, n), dr.Scoped();
    ghost var goal := FuzzParts(false, ts, dr.Ahead());
    FuzzBegin(false, ts, dr.Ahead());
    for k := 0 to n
      invariant dr.Kept(old(dr.Base()), whole) && dr.fuzzMode && |vs| == k
      invariant PartsOn(goal, false, ts, whole, i0, vs, dr.i)
    {
      var v := DecodeElem(e, dr, goal, ts, whole, i0, vs);
      if !v.Fuzzed? { return Failing(v); }
      vs := vs + [v.v];
    }
    FuzzEnd(goal, false, ts, whole[i0..], vs, dr.i - i0);
    return Fuzzed(vs, dr.i - i0);
  }

  method DecodeElem(e: SszType, dr: DecodingReader, ghost goal: Fuzz<seq<Value>>, ghost ts: seq<SszType>,
                    ghost whole: seq<byte>, ghost i0: nat, ghost vs: seq<Value>)
    returns (r: Fuzz<Value>)
    requires dr.Valid() && FuzzSized(e) && dr.fuzzMode && |vs| < |ts| && ts[|vs|] == e
    requires whole == dr.Scoped() && PartsOn(goal, false, ts, whole, i0, vs, dr.i)
    modifies dr, dr.input
    ensures r.Fuzzed? ==> dr.Kept(old(dr.Base()), old(dr.Scoped())) && dr.fuzzMode
    ensures r.Fuzzed? ==> PartsOn(goal, false, ts, whole, i0, vs + [r.v], dr.i)
    ensures Stops(goal, r)
    decreases Height(e), 1, 0
  {
    ghost var ahead := dr.Ahead();
    assert ahead[..|ahead| - 0] == ahead;
    PartsStep(goal, false, ts, whole, i0, vs, dr.i, Next(e, 0, ahead));
    r := Decode(e, dr);
  }

  /** What is kept shrinks by the minimum length of one element. */
  lemma LeftOver(e: SszType, n: nat, k: nat)
    requires k < n
    ensures FuzzMinLens(Repeat(e, n)[k..]) == FuzzMinLen(e) + FuzzMinLens(Repeat(e, n)[k + 1..])
    ensures Repeat(e, n)[k] == e
  {
    DropOne(Repeat(e, n), k);
  }

  lemma LeftOverStart(e: SszType, n: nat)
    ensures FuzzMinLens(Repeat(e, n)[0..]) == n * FuzzMinLen(e)
  {
    RepeatFuzzLens(e, n);
    assert Repeat(e, n)[0..] == Repeat(e, n);
  }

  /** Series of variable-size elements. */
  method DecodeVarSeriesFuzzMode(e: SszType, length: nat, dr: DecodingReader) returns (r: Fuzz<seq<Value>>)
    requires dr.Valid() && FuzzSized(e)
    modifies dr, dr.input
    ensures r.Fuzzed? ==> dr.Kept(old(dr.Base()), old(dr.Scoped())) && dr.i == old(dr.i) + r.n
    ensures r.Fuzzed? ==> dr.fuzzMode == old(dr.fuzzMode)
    ensures r == FuzzParts(true, Repeat(e, length), old(dr.Ahead()))
    decreases Height(e), 2, 1
  {
    LeftOverStart(e, length);
    r := DecodeVarElems(e, length, length * FuzzMinLen(e), dr);
  }

  method DecodeVarElems(e: SszType, length: nat, required: nat, dr: DecodingReader) returns (r: Fuzz<seq<Value>>)
    requires dr.Valid() && FuzzSized(e) && required == FuzzMinLens(Repeat(e, length)[0..])
    modifies dr, dr.input
    ensures r.Fuzzed? ==> dr.Kept(old(dr.Base()), old(dr.Scoped())) && dr.i == old(dr.i) + r.n
    ensures r.Fuzzed? ==> dr.fuzzMode == old(dr.fuzzMode)
    ensures r == FuzzParts(true, Repeat(e, length), old(dr.Ahead()))
    decreases Height(e), 2, 0
  {
    var vs := [];
    var lengthLeftOver := required;
    var i0 := dr.i;
    ghost var ts, whole := Repeat(e, length), dr.Scoped();
    ghost var goal := FuzzParts(true, ts, dr.Ahead());
    FuzzBegin(true, ts, dr.Ahead());
    for k := 0 to length
      invariant dr.Kept(old(dr.Base()), whole) && dr.fuzzMode == old(dr.fuzzMode) && |vs| == k
      invariant PartsOn(goal, true, ts, whole, i0, vs, dr.i) && lengthLeftOver == FuzzMinLens(ts[k..])
    {
      var v;
      v, lengthLeftOver := DecodeNextElem(e, length, lengthLeftOver, dr, goal, whole, i0, vs);
      if !v.Fuzzed? { return Failing(v); }
      vs := vs + [v.v];
    }
    FuzzEnd(goal, true, ts, whole[i0..], vs, dr.i - i0);
    return Fuzzed(vs, dr.i - i0);
  }

  method DecodeNextElem(e: SszType, ghost length: nat, required: nat, dr: DecodingReader, ghost goal: Fuzz<seq<Value>>,
                        ghost whole: seq<byte>, ghost i0: nat, ghost vs: seq<Value>)
    returns (r: Fuzz<Value>, lengthLeftOver: nat)
    requires dr.Valid() && FuzzSized(e) && |vs| < length && required == FuzzMinLens(Repeat(e, length)[|vs|..])
    requires whole == dr.Scoped() && PartsOn(goal, true, Repeat(e, length), whole, i0, vs, dr.i)
    modifies dr, dr.input
    ensures r.Fuzzed? ==> dr.Kept(old(dr.Base()), old(dr.Scoped())) && dr.fuzzMode == old(dr.fuzzMode)
    ensures r.Fuzzed? ==> PartsOn(goal, true, Repeat(e, length), whole, i0, vs + [r.v], dr.i)
    ensures Stops(goal, r) && lengthLeftOver == FuzzMinLens(Repeat(e, length)[|vs| + 1..])
    decreases Height(e), 1, 3
  {
    LeftOver(e, length, |vs|);
    lengthLeftOver := required - FuzzMinLen(e);
    r := DecodeNext(e, lengthLeftOver, dr, goal, Repeat(e, length), whole, i0, vs);
  }

  /** The next part, when it is known what the parts behind it need. */
  method DecodeNext(t: SszType, lengthLeftOver: nat, dr: DecodingReader, ghost goal: Fuzz<seq<Value>>,
                    ghost ts: seq<SszType>, ghost whole: seq<byte>, ghost i0: nat, ghost vs: seq<Value>)
    returns (r: Fuzz<Value>)
    requires dr.Valid() && FuzzSized(t) && |vs| < |ts| && ts[|vs|] == t
    requires lengthLeftOver == FuzzMinLens(ts[|vs| + 1..])
    requires whole == dr.Scoped() && PartsOn(goal, true, ts, whole, i0, vs, dr.i)
    modifies dr, dr.input
    ensures r.Fuzzed? ==> dr.Kept(old(dr.Base()), old(dr.Scoped())) && dr.fuzzMode == old(dr.fuzzMode)
    ensures r.Fuzzed? ==> PartsOn(goal, true, ts, whole, i0, vs + [r.v], dr.i)
    ensures Stops(goal, r)
    decreases Height(t), 1, 2
  {
    PartsStep(goal, true, ts, whole, i0, vs, dr.i, Next(t, lengthLeftOver, dr.Ahead()));
    r := DecodePart(t, lengthLeftOver, dr);
  }

  /** Containers, of fixed size or not. */
  method DecodeVarSizeFuzzMode(ts: seq<SszType>, dr: DecodingReader) returns (r: Fuzz<seq<Value>>)
    requires dr.Valid() && AllFuzzSized(ts)
    modifies dr, dr.input
    ensures r.Fuzzed? ==> dr.Kept(old(dr.Base()), old(dr.Scoped())) && dr.i == old(dr.i) + r.n
    ensures r.Fuzzed? ==> dr.fuzzMode == old(dr.fuzzMode)
    ensures r == FuzzParts(true, ts, old(dr.Ahead()))
    decreases MaxHeight(ts), 2, 0
  {
    var vs := [];
    var lengthLeftOver := FuzzMinLens(ts);
    var i0 := dr.i;
    ghost var whole := dr.Scoped();
    ghost var goal := FuzzParts(true, ts, dr.Ahead());
    FuzzBegin(true, ts, dr.Ahead());
    assert ts[0..] == ts;
    for k := 0 to |ts|
      invariant dr.Kept(old(dr.Base()), whole) && dr.fuzzMode == old(dr.fuzzMode) && |vs| == k
      invariant PartsOn(goal, true, ts, whole, i0, vs, dr.i) && lengthLeftOver == FuzzMinLens(ts[k..])
    {
      DropOne(ts, k);
      FuzzSizedAt(ts, k);
      HeightAt(ts, k);
      lengthLeftOver := lengthLeftOver - FuzzMinLen(ts[k]);
      var v := DecodeNext(ts[k], lengthLeftOver, dr, goal, ts, whole, i0, vs);
      if !v.Fuzzed? { return Failing(v); }
      vs := vs + [v.v];
    }
    FuzzEnd(goal, true, ts, whole[i0..], vs, dr.i - i0);
    return Fuzzed(vs, dr.i - i0);
  }

  method DrawLength(x: nat, span: nat, min: nat) returns (length: Option<nat>)
    ensures length == DrawCount(x, span, min)
  {
    if span == 0 { return Some(0); }
    if min == 0 { return None; }
    return Some(x % span / min);
  }

  method DecodeElems(e: SszType, n: nat, dr: DecodingReader) returns (r: Fuzz<seq<Value>>)
    requires dr.Valid() && FuzzSized(e) && dr.fuzzMode
    modifies dr, dr.input
    ensures r.Fuzzed? ==> dr.Kept(old(dr.Base()), old(dr.Scoped())) && dr.i == old(dr.i) + r.n && dr.fuzzMode
    ensures r == FuzzParts(!IsFixed(e), Repeat(e, n), old(dr.Ahead()))
    decreases Height(e), 3, 0
  {
    if IsFixed(e) {
      r := DecodeFixedSeries(e, n, dr);
    } else {
      r := DecodeVarSeriesFuzzMode(e, n, dr);
    }
  }

  method DecodeList(e: SszType, limit: nat, dr: DecodingReader) returns (r: Fuzz<Value>)
    requires dr.Valid() && FuzzSized(e) && dr.fuzzMode
    modifies dr, dr.input
    ensures r.Fuzzed? ==> dr.Kept(old(dr.Base()), old(dr.Scoped())) && dr.i == old(dr.i) + r.n && dr.fuzzMode
    ensures r == FuzzList(e, limit, old(dr.Ahead()))
    decreases Height(e), 6, 0
  {
    var x := ReadDraw(dr);
    if x.None? { return Fails(BeyondScope); }
    r := DecodeDrawnList(e, limit, x.value, dr);
    r := Later(8, r);
  }

  method DecodeDrawnList(e: SszType, limit: nat, x: nat, dr: DecodingReader) returns (r: Fuzz<Value>)
    requires dr.Valid() && FuzzSized(e) && dr.fuzzMode
    modifies dr, dr.input
    ensures r.Fuzzed? ==> dr.Kept(old(dr.Base()), old(dr.Scoped())) && dr.i == old(dr.i) + r.n && dr.fuzzMode
    ensures r == FuzzDrawnList(e, limit, x, old(dr.Ahead()))
    decreases Height(e), 5, 0
  {
    var span := ListFill(e, limit, dr.BytesSpan());
    var length := DrawLength(x, span, FuzzMinLen(e));
    r := DecodeCounted(e, length, dr);
  }

  method DecodeCounted(e: SszType, length: Option<nat>, dr: DecodingReader) returns (r: Fuzz<Value>)
    requires dr.Valid() && FuzzSized(e) && dr.fuzzMode
    modifies dr, dr.input
    ensures r.Fuzzed? ==> dr.Kept(old(dr.Base()), old(dr.Scoped())) && dr.i == old(dr.i) + r.n && dr.fuzzMode
    ensures r == FuzzElems(e, length, old(dr.Ahead()))
    decreases Height(e), 4, 0
  {
    if length.None? { return Panics; }
    var vs := DecodeElems(e, length.value, dr);
    return Whole(vs);
  }

  method Decode(t: SszType, dr: DecodingReader) returns (r: Fuzz<Value>)
    requires dr.Valid() && FuzzSized(t) && dr.fuzzMode
    modifies dr, dr.input
    ensures r.Fuzzed? ==> dr.Kept(old(dr.Base()), old(dr.Scoped())) && dr.i == old(dr.i) + r.n && dr.fuzzMode
    ensures r == FuzzParse(t, old(dr.Ahead()))
    decreases Height(t), 0, 0
  {
    if !t.Composite() {
      r := DecodeLeaf(t, dr);
      return;
    }
    var vs;
    match t
    case Vector(e, n) =>
      vs := DecodeElems(e, n, dr);
      r := Whole(vs);
    case List(e, limit) => r := DecodeList(e, limit, dr);
    case Container(ts) =>
      vs := DecodeVarSizeFuzzMode(ts, dr);
      r := Whole(vs);
  }

  /** A reader of just the next `bytesLen` bytes, in fuzz mode. */
  method Open(input: Input, bytesLen: nat) returns (dr: DecodingReader)
    requires bytesLen < TWO_63 && input.pos + bytesLen <= |input.data|
    ensures fresh(dr) && dr.input == input && dr.i == 0 && dr.fuzzMode
    ensures dr.Valid() && dr.Ahead() == input.data[input.pos..input.pos + bytesLen]
  {
    var unscoped := new DecodingReader(input);
    var scoped := unscoped.Scope(bytesLen);
    if scoped.None? { assert false; }  // the unscoped reader has no end
    dr := scoped.value;
    dr.EnableFuzzMode();
    ghost var s := dr.Scoped();
    assert dr.Ahead() == s[0..] == s;
  }

  lemma Outcome(t: SszType, s: seq<byte>, r: Fuzz<Value>)
    requires FuzzMinLen(t) <= |s| && r == FuzzParse(t, s)
    ensures r.Estimated() && (r.Fuzzed? ==> r.n <= |s| && Typed(t, r.v))
  {
    ParseBudget(t, s);
    ParseFits(t, s);
  }

  /**
   Decodes from at most `bytesLen` bytes of fuzzing input.  With the minimum length available, the lengths are
   never under-estimated, and there is no panic.
   */
  method DecodeFuzzBytes(input: Input, bytesLen: nat, t: SszType) returns (read: nat, r: Option<Fuzz<Value>>)
    requires FuzzSized(t) && bytesLen < TWO_63 && input.pos + bytesLen <= |input.data|
    modifies input
    ensures r == if bytesLen < FuzzMinLen(t) then None
                 else Some(FuzzParse(t, old(input.data[input.pos..input.pos + bytesLen])))
    ensures r.Some? ==> r.value.Estimated()
    ensures r.Some? && r.value.Fuzzed? ==> read == r.value.n <= bytesLen && Typed(t, r.value.v)
  {
    if bytesLen < FuzzMinLen(t) { return 0, None; }
    ghost var s := input.data[input.pos..input.pos + bytesLen];
    var dr := Open(input, bytesLen);
    var v := Decode(t, dr);
    Outcome(t, s, v);
    return dr.i, Some(v);
  }
}

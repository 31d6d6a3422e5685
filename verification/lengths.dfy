/**
 The minimum and maximum lengths of serialized values (the MinLen, MaxLen and FixedLen getters of the
 types package, and the length fields that NewSSZContainer accumulates).
 */
module Lengths {
  import opened Bits
  import opened Bytes
  import opened Bitfields
  import opened Grammar
  import opened Serialization
  import opened Parsing
  import opened Fuzzing
  import opened Outcomes

  function MinLen(t: SszType): nat
    decreases t
  {
    match t
    case Bitlist(_) => 1
    case Vector(e, n) => (if IsFixed(e) then MinLen(e) else BYTES_PER_LENGTH_OFFSET + MinLen(e)) * n
    case Container(ts) => MinLens(ts)
    case _ => FixedLen(t)
  }

  function MinLens(ts: seq<SszType>): nat
    decreases ts
  {
    if ts == [] then 0 else
    (if IsFixed(ts[0]) then FixedLen(ts[0]) else BYTES_PER_LENGTH_OFFSET + MinLen(ts[0])) + MinLens(ts[1..])
  }

  /** As the code has it: a list of variable-size elements is not given room for its offsets. */
  function MaxLen(t: SszType): nat
    decreases t
  {
    match t
    case Bytes(limit) => limit
    case Bitlist(limit) => limit / 8 + 1
    case BasicList(k, limit) => limit * k.Size()
    case Vector(e, n) => (if IsFixed(e) then MaxLen(e) else BYTES_PER_LENGTH_OFFSET + MaxLen(e)) * n
    case List(e, limit) => (if IsFixed(e) then FixedLen(e) else MaxLen(e)) * limit
    case Container(ts) => MaxLens(ts)
    case _ => FixedLen(t)
  }

  function MaxLens(ts: seq<SszType>): nat
    decreases ts
  {
    if ts == [] then 0 else
    (if IsFixed(ts[0]) then FixedLen(ts[0]) else BYTES_PER_LENGTH_OFFSET + MaxLen(ts[0])) + MaxLens(ts[1..])
  }

  // ----- the loop of the container constructor

  datatype ContainerLengths = ContainerLengths(
    fixedLen: nat, minLen: nat, maxLen: nat, fuzzMinLen: nat, fuzzMaxLen: nat, offsetCount: nat)

  /** the lengths of the fields `ts` together */
  function LengthsOf(ts: seq<SszType>): ContainerLengths {
    ContainerLengths(HeadsLen(ts), MinLens(ts), MaxLens(ts), FuzzMinLens(ts), FuzzMaxLens(ts), OffsetCount(ts))
  }

  function OffsetCount(ts: seq<SszType>): nat {
    if ts == [] then 0 else (if IsFixed(ts[0]) then 0 else 1) + OffsetCount(ts[1..])
  }

  lemma {:induction false} NoOffsets(ts: seq<SszType>)
    ensures OffsetCount(ts) == 0 <==> AllFixed(ts)
  {
    if ts != [] { NoOffsets(ts[1..]); }
  }

  /** As many offsets are written. */
  lemma {:induction false} OffsetsCounted(ts: seq<SszType>, vs: seq<Value>, offset: nat)
    requires |ts| == |vs|
    ensures |Offsets(Slots(ts, vs, offset))| == OffsetCount(ts)
    decreases |ts|
  {
    if ts != [] {
      var next := if IsFixed(ts[0]) then offset else offset + |Serialize(ts[0], vs[0])|;
      OffsetsCounted(ts[1..], vs[1..], next);
      assert Slots(ts, vs, offset)[1..] == Slots(ts[1..], vs[1..], next);
    }
  }

  /** `so` and the lengths of the fields `ts` make up `total`. */
  ghost predicate AddsUp(so: ContainerLengths, ts: seq<SszType>, total: ContainerLengths) {
    var more := LengthsOf(ts);
    && so.fixedLen + more.fixedLen == total.fixedLen
    && so.minLen + more.minLen == total.minLen
    && so.maxLen + more.maxLen == total.maxLen
    && so.fuzzMinLen + more.fuzzMinLen == total.fuzzMinLen
    && so.fuzzMaxLen + more.fuzzMaxLen == total.fuzzMaxLen
    && so.offsetCount + more.offsetCount == total.offsetCount
  }

  /** Adds the lengths of one field; there is an error if a fixed-size field has no single length. */
  method AddField(so: ContainerLengths, t: SszType) returns (r: Option<ContainerLengths>)
    ensures r.Some?
    ensures forall ts, total :: ts != [] && ts[0] == t && AddsUp(so, ts, total) ==> AddsUp(r.value, ts[1..], total)
  {
    var fuzzMinLen, fuzzMaxLen := so.fuzzMinLen + FuzzMinLen(t), so.fuzzMaxLen + FuzzMaxLen(t);
    if IsFixed(t) {
      FixedLengths(t);
      var fixed, min, max := FixedLen(t), MinLen(t), MaxLen(t);
      if fixed != min || fixed != max { return None; }
      return Some(ContainerLengths(so.fixedLen + fixed, so.minLen + fixed, so.maxLen + fixed, fuzzMinLen, fuzzMaxLen,
                                   so.offsetCount));
    } else {
      return Some(ContainerLengths(so.fixedLen + BYTES_PER_LENGTH_OFFSET,
                                   so.minLen + BYTES_PER_LENGTH_OFFSET + MinLen(t),
                                   so.maxLen + BYTES_PER_LENGTH_OFFSET + MaxLen(t),
                                   fuzzMinLen, fuzzMaxLen, so.offsetCount + 1));
    }
  }

  method NewContainerLengths(ts: seq<SszType>) returns (r: Option<ContainerLengths>)
    ensures r == Some(LengthsOf(ts))
    ensures r.value.offsetCount == 0 <==> IsFixed(Container(ts))
  {
    var so := ContainerLengths(0, 0, 0, 0, 0, 0);
    NoOffsets(ts);
    assert ts[0..] == ts;
    for i := 0 to |ts|
      invariant AddsUp(so, ts[i..], LengthsOf(ts))
    {
      assert ts[i..][0] == ts[i] && ts[i..][1..] == ts[i + 1..];
      var next := AddField(so, ts[i]);
      if next.None? { return None; }
      so := next.value;
    }
    return Some(so);
  }

  // ----- fixed-size types have one length, so the constructors never fail on them

  lemma {:induction false} FixedLengths(t: SszType)
    requires IsFixed(t)
    ensures MinLen(t) == FixedLen(t) == MaxLen(t)
    decreases t
  {
    match t
    case Vector(e, _) => FixedLengths(e);
    case Container(ts) => FixedLengthsAll(ts);
    case _ =>
  }

  lemma {:induction false} FixedLengthsAll(ts: seq<SszType>)
    requires AllFixed(ts)
    ensures MinLens(ts) == HeadsLen(ts) == MaxLens(ts)
    decreases ts
  {
    if ts != [] { FixedLengthsAll(ts[1..]); }
  }

  // ----- the length of the parts

  /** the length of a composite value */
  lemma CompositeLen(t: SszType, v: Value)
    requires t.Composite() && Typed(t, v)
    ensures var ts := Parts(t, |v.vs|); |Serialize(t, v)| == HeadsLen(ts) + |Tails(ts, v.vs)|
  {
    HeadsLength(Parts(t, |v.vs|), v.vs, HeadsLen(Parts(t, |v.vs|)));
  }

  lemma {:induction false} RepeatMinLens(e: SszType, n: nat)
    ensures MinLens(Repeat(e, n)) == (if IsFixed(e) then FixedLen(e) else BYTES_PER_LENGTH_OFFSET + MinLen(e)) * n
    decreases n
  {
    if n > 0 {
      RepeatTail(e, n);
      RepeatMinLens(e, n - 1);
      MulStep(if IsFixed(e) then FixedLen(e) else BYTES_PER_LENGTH_OFFSET + MinLen(e), n);
    }
  }

  lemma {:induction false} MinLenBound(t: SszType, v: Value)
    requires Typed(t, v) && Legal(t, v)
    ensures MinLen(t) <= |Serialize(t, v)|
    decreases Height(t), 0, 0
  {
    SerializeLen(t, v);
    if t.Composite() {
      CompositeLen(t, v);
      if t.Vector? {
        RepeatMinLens(t.elem, t.length);
        if IsFixed(t.elem) { FixedLengths(t.elem); }
      }
      MinLensBound(Parts(t, |v.vs|), v.vs);
    }
  }

  lemma {:induction false} MinLensBound(ts: seq<SszType>, vs: seq<Value>)
    requires TypedAll(ts, vs) && LegalAll(ts, vs)
    ensures MinLens(ts) <= HeadsLen(ts) + |Tails(ts, vs)|
    decreases MaxHeight(ts), 1, |ts|
  {
    if ts != [] {
      MinLenBound(ts[0], vs[0]);
      MinLensBound(ts[1..], vs[1..]);
    }
  }

  // ----- upper bounds

  /** The maximum length, with room for the offsets of every list. */
  function Bound(t: SszType): nat
    decreases t
  {
    match t
    case Vector(e, n) => (if IsFixed(e) then FixedLen(e) else BYTES_PER_LENGTH_OFFSET + Bound(e)) * n
    case List(e, limit) => (if IsFixed(e) then FixedLen(e) else BYTES_PER_LENGTH_OFFSET + Bound(e)) * limit
    case Container(ts) => Bounds(ts)
    case _ => MaxLen(t)
  }

  function Bounds(ts: seq<SszType>): nat
    decreases ts
  {
    if ts == [] then 0 else
    (if IsFixed(ts[0]) then FixedLen(ts[0]) else BYTES_PER_LENGTH_OFFSET + Bound(ts[0])) + Bounds(ts[1..])
  }

  lemma {:induction false} RepeatBounds(e: SszType, n: nat)
    ensures Bounds(Repeat(e, n)) == (if IsFixed(e) then FixedLen(e) else BYTES_PER_LENGTH_OFFSET + Bound(e)) * n
    decreases n
  {
    if n > 0 {
      RepeatTail(e, n);
      RepeatBounds(e, n - 1);
      MulStep(if IsFixed(e) then FixedLen(e) else BYTES_PER_LENGTH_OFFSET + Bound(e), n);
    }
  }

  lemma MulMonotone(h: nat, a: nat, b: nat)
    requires a <= b
    ensures h * a <= h * b
  {
    assert h * b == h * a + h * (b - a);
  }

  lemma {:induction false} SizeWithinBound(t: SszType, v: Value)
    requires Typed(t, v) && Legal(t, v)
    ensures |Serialize(t, v)| <= Bound(t)
    decreases Height(t), 0, 0
  {
    if t.Composite() {
      CompositeLen(t, v);
      SizesWithinBounds(Parts(t, |v.vs|), v.vs);
      if !t.Container? { RepeatBounds(t.elem, |v.vs|); }
      if t.List? {
        var size := if IsFixed(t.elem) then FixedLen(t.elem) else BYTES_PER_LENGTH_OFFSET + Bound(t.elem);
        MulMonotone(size, |v.vs|, t.limit);
      }
    } else {
      LeafWithinBound(t, v);
    }
  }

  lemma LeafWithinBound(t: SszType, v: Value)
    requires !t.Composite() && Typed(t, v) && LegalHere(t, v)
    ensures |Serialize(t, v)| <= MaxLen(t)
  {
    match t
    case Bitlist(limit) => assert BitlistCheckByteLen(|v.data|, limit);
    case BasicList(k, limit) =>
      MulMonotone(k.Size(), |v.ns|, limit);
    case _ =>
  }

  lemma {:induction false} SizesWithinBounds(ts: seq<SszType>, vs: seq<Value>)
    requires TypedAll(ts, vs) && LegalAll(ts, vs)
    ensures HeadsLen(ts) + |Tails(ts, vs)| <= Bounds(ts)
    decreases MaxHeight(ts), 1, |ts|
  {
    if ts != [] {
      SizeWithinBound(ts[0], vs[0]);
      SizesWithinBounds(ts[1..], vs[1..]);
    }
  }

  /** No list of variable-size elements, other than where there can be no elements. */
  predicate NoVarLists(t: SszType)
    decreases t
  {
    match t
    case Vector(e, n) => n == 0 || NoVarLists(e)
    case List(e, limit) => limit == 0 || IsFixed(e)
    case Container(ts) => NoVarListsAll(ts)
    case _ => true
  }

  predicate NoVarListsAll(ts: seq<SszType>)
    decreases ts
  {
    ts == [] || (NoVarLists(ts[0]) && NoVarListsAll(ts[1..]))
  }

  lemma {:induction false} FixedHasNoLists(t: SszType)
    requires IsFixed(t)
    ensures NoVarLists(t) && Bound(t) == MaxLen(t)
    decreases t
  {
    match t
    case Vector(e, _) =>
      FixedHasNoLists(e);
      FixedLengths(e);
    case Container(ts) => FixedHaveNoLists(ts);
    case _ =>
  }

  lemma {:induction false} FixedHaveNoLists(ts: seq<SszType>)
    requires AllFixed(ts)
    ensures NoVarListsAll(ts) && Bounds(ts) == MaxLens(ts)
    decreases ts
  {
    if ts != [] {
      FixedHasNoLists(ts[0]);
      FixedHaveNoLists(ts[1..]);
    }
  }

  lemma MulExactly(a: nat, b: nat, n: nat)
    requires a <= b
    ensures a * n <= b * n
    ensures a * n == b * n <==> n == 0 || a == b
  {
    var d := b - a;
    assert b * n == a * n + d * n;
    if n > 0 && d > 0 { assert d * n >= d; }
  }

  /** Room for the offsets of a list makes all the difference. */
  lemma {:induction false} BoundExactly(t: SszType)
    ensures MaxLen(t) <= Bound(t)
    ensures Bound(t) == MaxLen(t) <==> NoVarLists(t)
    decreases t
  {
    match t
    case Vector(e, n) =>
      if IsFixed(e) {
        FixedHasNoLists(t);
      } else {
        BoundExactly(e);
        MulExactly(BYTES_PER_LENGTH_OFFSET + MaxLen(e), BYTES_PER_LENGTH_OFFSET + Bound(e), n);
      }
    case List(e, limit) =>
      if !IsFixed(e) {
        BoundExactly(e);
        MulExactly(MaxLen(e), BYTES_PER_LENGTH_OFFSET + Bound(e), limit);
      }
    case Container(ts) => BoundsExactly(ts);
    case _ =>
  }

  lemma {:induction false} BoundsExactly(ts: seq<SszType>)
    ensures MaxLens(ts) <= Bounds(ts)
    ensures Bounds(ts) == MaxLens(ts) <==> NoVarListsAll(ts)
    decreases ts
  {
    if ts != [] {
      if IsFixed(ts[0]) { FixedHasNoLists(ts[0]); } else { BoundExactly(ts[0]); }
      BoundsExactly(ts[1..]);
    }
  }

  /** A full list of variable-size elements of maximum size exceeds `MaxLen` by its offsets. */
  lemma FullListExceedsMaxLen(t: SszType, v: Value)
    requires t.List? && !IsFixed(t.elem) && Typed(t, v) && |v.vs| == t.limit
    requires forall i :: 0 <= i < |v.vs| ==> |Serialize(t.elem, v.vs[i])| == MaxLen(t.elem)
    ensures |Serialize(t, v)| == MaxLen(t) + BYTES_PER_LENGTH_OFFSET * t.limit
  {
    CompositeLen(t, v);
    RepeatLens(t.elem, t.limit);
    TailsOfEqual(t.elem, v.vs);
  }

  lemma {:induction false} TailsOfEqual(e: SszType, vs: seq<Value>)
    requires !IsFixed(e) && forall i :: 0 <= i < |vs| ==> |Serialize(e, vs[i])| == MaxLen(e)
    ensures |Tails(Repeat(e, |vs|), vs)| == MaxLen(e) * |vs|
  {
    if vs != [] {
      RepeatTail(e, |vs|);
      TailsOfEqual(e, vs[1..]);
      MulStep(MaxLen(e), |vs|);
    }
  }

  // ----- values of the least and of the greatest size

  function Copies<T>(x: T, n: nat): (r: seq<T>)
    ensures |r| == n && forall i :: 0 <= i < n ==> r[i] == x
    decreases n
  {
    if n == 0 then [] else [x] + Copies(x, n - 1)
  }

  /** A legal value with every list at its limit, or with every list empty. */
  function Extreme(full: bool, t: SszType): (v: Value)
    ensures t.Composite() ==> v.Elems?
    decreases t
  {
    match t
    case Scalar(_) => Num(0)
    case BytesN(n) => Raw(Copies(0, n))
    case Bitvector(n) => Raw(Copies(0, (n + 7) / 8))
    case Bytes(limit) => Raw(Copies(0, Count(full, limit)))
    case Bitlist(limit) => Raw(BitlistBytes(Copies(false, Count(full, limit))))
    case BasicVector(_, n) => Nums(Copies(0, n))
    case BasicList(_, limit) => Nums(Copies(0, Count(full, limit)))
    case Vector(e, n) => Elems(Copies(Extreme(full, e), n))
    case List(e, limit) => Elems(Copies(Extreme(full, e), Count(full, limit)))
    case Container(ts) => Elems(Extremes(full, ts))
  }

  function Extremes(full: bool, ts: seq<SszType>): (vs: seq<Value>)
    ensures |vs| == |ts|
    decreases ts
  {
    if ts == [] then [] else [Extreme(full, ts[0])] + Extremes(full, ts[1..])
  }

  function Count(full: bool, limit: nat): nat {
    if full then limit else 0
  }

  function Size(full: bool, t: SszType): nat {
    if full then Bound(t) else MinLen(t)
  }

  function Sizes(full: bool, ts: seq<SszType>): nat {
    if full then Bounds(ts) else MinLens(ts)
  }

  /** No list has elements of no length (these cannot be decoded), and limits are those of uint64. */
  predicate Inhabited(t: SszType)
    decreases t
  {
    match t
    case Bitlist(limit) => limit < TWO_64
    case Vector(e, _) => Inhabited(e)
    case List(e, _) => Inhabited(e) && (IsFixed(e) ==> FixedLen(e) > 0)
    case Container(ts) => AllInhabited(ts)
    case _ => true
  }

  predicate AllInhabited(ts: seq<SszType>)
    decreases ts
  {
    ts == [] || (Inhabited(ts[0]) && AllInhabited(ts[1..]))
  }

  ghost predicate Attains(full: bool, t: SszType, v: Value) {
    Typed(t, v) && Legal(t, v) && |Serialize(t, v)| == Size(full, t)
  }

  ghost predicate AttainsAll(full: bool, ts: seq<SszType>, vs: seq<Value>) {
    TypedAll(ts, vs) && LegalAll(ts, vs) && HeadsLen(ts) + |Tails(ts, vs)| == Sizes(full, ts)
  }

  lemma ExtremeLeaf(full: bool, t: SszType)
    requires !t.Composite() && Inhabited(t)
    ensures Attains(full, t, Extreme(full, t))
  {
    match t
    case Scalar(k) => assert Pow256(1) == 256;
    case Bitvector(n) =>
      var b: seq<byte> := Copies(0, (n + 7) / 8);
      forall k | 0 <= k < 8 * |b| ensures !GetBit(b, k) { ShrOfZero(k % 8); }
      BitvectorCheckMeaning(b, n);
    case Bitlist(limit) => BitlistRoundTrip(Copies(false, Count(full, limit)), limit);
    case _ =>
  }

  lemma {:induction false} ExtremeAttains(full: bool, t: SszType)
    requires Inhabited(t)
    ensures Attains(full, t, Extreme(full, t))
    decreases t
  {
    match t
    case Vector(e, n) =>
      ExtremeAttains(full, e);
      ExtremeCopies(full, e, n);
      ExtremeComposite(full, t);
      RepeatSizes(full, e, n);
    case List(e, limit) =>
      ExtremeAttains(full, e);
      ExtremeCopies(full, e, Count(full, limit));
      ExtremeComposite(full, t);
      RepeatSizes(full, e, Count(full, limit));
    case Container(ts) =>
      ExtremesAttain(full, ts);
      ExtremeComposite(full, t);
    case _ => ExtremeLeaf(full, t);
  }

  lemma RepeatSizes(full: bool, e: SszType, n: nat)
    ensures Sizes(full, Repeat(e, n))
            == (if IsFixed(e) then FixedLen(e) else BYTES_PER_LENGTH_OFFSET + Size(full, e)) * n
    ensures IsFixed(e) ==> MinLen(e) == FixedLen(e)
  {
    RepeatBounds(e, n);
    RepeatMinLens(e, n);
    if IsFixed(e) { FixedLengths(e); }
  }

  /** The size of a composite value whose parts are extreme. */
  lemma ExtremeComposite(full: bool, t: SszType)
    requires t.Composite() && Inhabited(t)
    requires var v := Extreme(full, t); AttainsAll(full, Parts(t, |v.vs|), v.vs)
    ensures var v := Extreme(full, t);
            Typed(t, v) && Legal(t, v) && |Serialize(t, v)| == Sizes(full, Parts(t, |v.vs|))
  {
    CompositeLen(t, Extreme(full, t));
  }

  lemma ExtremePart(full: bool, ts: seq<SszType>, vs: seq<Value>)
    requires ts != [] && vs != [] && Attains(full, ts[0], vs[0]) && AttainsAll(full, ts[1..], vs[1..])
    ensures AttainsAll(full, ts, vs)
  {
    SerializeLen(ts[0], vs[0]);
  }

  lemma {:induction false} ExtremeCopies(full: bool, e: SszType, n: nat)
    requires Attains(full, e, Extreme(full, e))
    ensures AttainsAll(full, Repeat(e, n), Copies(Extreme(full, e), n))
    decreases n
  {
    if n > 0 {
      ExtremeCopies(full, e, n - 1);
      RepeatTail(e, n);
      assert Copies(Extreme(full, e), n)[1..] == Copies(Extreme(full, e), n - 1);
      ExtremePart(full, Repeat(e, n), Copies(Extreme(full, e), n));
    }
  }

  lemma {:induction false} ExtremesAttain(full: bool, ts: seq<SszType>)
    requires AllInhabited(ts)
    ensures AttainsAll(full, ts, Extremes(full, ts))
    decreases ts
  {
    if ts != [] {
      ExtremeAttains(full, ts[0]);
      ExtremesAttain(full, ts[1..]);
      assert Extremes(full, ts)[1..] == Extremes(full, ts[1..]);
      ExtremePart(full, ts, Extremes(full, ts));
    }
  }

  /** The minimum length is the length of some legal value, and of no shorter one. */
  lemma MinLenIsLeast(t: SszType)
    requires Inhabited(t)
    ensures exists v :: Typed(t, v) && Legal(t, v) && |Serialize(t, v)| == MinLen(t)
    ensures forall v :: Typed(t, v) && Legal(t, v) ==> |Serialize(t, v)| >= MinLen(t)
  {
    ExtremeAttains(false, t);
    assert Typed(t, Extreme(false, t));
    forall v | Typed(t, v) && Legal(t, v) ensures |Serialize(t, v)| >= MinLen(t) { MinLenBound(t, v); }
  }

  ghost predicate WithinMaxLen(t: SszType) {
    forall v :: Typed(t, v) && Legal(t, v) ==> |Serialize(t, v)| <= MaxLen(t)
  }

  /** `MaxLen` bounds the size of all legal values exactly if no list has variable-size elements. */
  lemma MaxLenExactly(t: SszType)
    requires Inhabited(t)
    ensures WithinMaxLen(t) <==> NoVarLists(t)
  {
    BoundExactly(t);
    if NoVarLists(t) {
      forall v | Typed(t, v) && Legal(t, v) ensures |Serialize(t, v)| <= MaxLen(t) { SizeWithinBound(t, v); }
    } else {
      var v := Extreme(true, t);
      ExtremeAttains(true, t);
      assert Typed(t, v) && Legal(t, v) && |Serialize(t, v)| > MaxLen(t);
    }
  }
}

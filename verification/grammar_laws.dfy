/** What the recursive definitions of types and values say about each part, and about the bytes of each leaf. */
module GrammarLaws {
  import opened Bits
  import opened Bytes
  import opened Bitfields
  import opened Grammar
  import opened Serialization

  // ----- parts, one by one

  lemma {:induction false} AllFixedMeans(ts: seq<SszType>)
    ensures AllFixed(ts) <==> forall i :: 0 <= i < |ts| ==> IsFixed(ts[i])
  {
    if ts != [] {
      AllFixedMeans(ts[1..]);
      assert forall i :: 1 <= i < |ts| ==> ts[i] == ts[1..][i - 1];
    }
  }

  lemma {:induction false} TypedAllMeans(ts: seq<SszType>, vs: seq<Value>)
    ensures TypedAll(ts, vs) <==> |ts| == |vs| && forall i :: 0 <= i < |ts| ==> Typed(ts[i], vs[i])
    decreases |ts|
  {
    if |ts| == |vs| && ts != [] {
      TypedAllMeans(ts[1..], vs[1..]);
      assert forall i :: 1 <= i < |ts| ==> ts[i] == ts[1..][i - 1] && vs[i] == vs[1..][i - 1];
    }
  }

  lemma {:induction false} LegalAllMeans(ts: seq<SszType>, vs: seq<Value>)
    requires |ts| == |vs|
    ensures LegalAll(ts, vs) <==> forall i :: 0 <= i < |ts| ==> Legal(ts[i], vs[i])
    decreases |ts|
  {
    if ts != [] {
      LegalAllMeans(ts[1..], vs[1..]);
      assert forall i :: 1 <= i < |ts| ==> ts[i] == ts[1..][i - 1] && vs[i] == vs[1..][i - 1];
    }
  }

  /** the type of part `i` */
  ghost predicate IsPart(t: SszType, i: nat, e: SszType) {
    match t
    case Vector(elem, _) => e == elem
    case List(elem, _) => e == elem
    case Container(ts) => i < |ts| && e == ts[i]
    case _ => false
  }

  /** the number of parts that a value may have */
  ghost predicate PartsFit(t: SszType, n: nat) {
    match t
    case Vector(_, length) => n == length
    case List(_, _) => true
    case Container(ts) => n == |ts|
    case _ => false
  }

  /** A value of a vector, list or container has its number of parts, in order, each with its own type. */
  lemma TypedMeans(t: SszType, v: Value)
    requires t.Composite()
    ensures Typed(t, v) <==>
            && v.Elems? && PartsFit(t, |v.vs|)
            && forall i, e :: 0 <= i < |v.vs| && IsPart(t, i, e) ==> Typed(e, v.vs[i])
  {
    if v.Elems? && PartsFit(t, |v.vs|) {
      var ts := Parts(t, |v.vs|);
      TypedAllMeans(ts, v.vs);
      forall i | 0 <= i < |v.vs| ensures IsPart(t, i, ts[i]) { }
    } else if v.Elems? {
      TypedAllMeans(Parts(t, |v.vs|), v.vs);
    }
  }

  /** It is legal if all parts are, and a list is within its limit and has elements of some length. */
  lemma LegalMeans(t: SszType, v: Value)
    requires t.Composite() && Typed(t, v)
    ensures Legal(t, v) <==>
            && (t.List? ==> |v.vs| <= t.limit && (IsFixed(t.elem) ==> FixedLen(t.elem) > 0))
            && forall i, e :: 0 <= i < |v.vs| && IsPart(t, i, e) ==> Legal(e, v.vs[i])
  {
    var ts := Parts(t, |v.vs|);
    TypedAllMeans(ts, v.vs);
    LegalAllMeans(ts, v.vs);
    forall i | 0 <= i < |v.vs| ensures IsPart(t, i, ts[i]) { }
  }

  /** Of fixed size are just the types that contain no list, byte string or bitlist. */
  lemma FixedMeans(t: SszType)
    ensures IsFixed(t) <==>
            && !(t.Bytes? || t.Bitlist? || t.BasicList? || t.List?)
            && (t.Vector? ==> IsFixed(t.elem))
            && (t.Container? ==> forall i :: 0 <= i < |t.fields| ==> IsFixed(t.fields[i]))
  {
    if t.Container? { AllFixedMeans(t.fields); }
  }

  // ----- leaves, byte by byte

  /** The values of the Go types. */
  lemma KindRanges(n: nat)
    ensures BoolKind.InRange(n) <==> n < 2
    ensures Uint8Kind.InRange(n) <==> n < 0x100
    ensures Uint16Kind.InRange(n) <==> n < 0x1_0000
    ensures Uint32Kind.InRange(n) <==> n < 0x1_0000_0000
    ensures Uint64Kind.InRange(n) <==> n < 0x1_0000_0000_0000_0000
  {
    assert Pow256(1) == 0x100 && Pow256(2) == 0x1_0000;
    Pow256Of4();
    Pow256Of8();
  }

  /** `b` holds the number `n` in the `size` bytes from `start` on, least significant byte first. */
  ghost predicate HoldsNumber(size: nat, n: nat, b: seq<byte>, start: nat) {
    start + size <= |b| && forall j :: 0 <= j < size ==> b[start + j] == Shr(n, 8 * j) % 256
  }

  /** `b` holds the numbers `ns` one after the other, `size` bytes each. */
  ghost predicate HoldsNumbers(size: nat, ns: seq<nat>, b: seq<byte>) {
    |b| == |ns| * size && forall i :: 0 <= i < |ns| ==> HoldsNumber(size, ns[i], b, size * i)
  }

  /** the bytes of a value without parts */
  ghost predicate HoldsLeaf(t: SszType, v: Value, b: seq<byte>) {
    match t
    case Scalar(k) => v.Num? && HoldsNumbers(k.Size(), [v.n], b)
    case BytesN(n) => v.Raw? && b == v.data && |b| == n
    case Bitvector(n) => v.Raw? && b == v.data && 8 * |b| - 8 < n <= 8 * |b|
    case Bytes(_) => v.Raw? && b == v.data
    case Bitlist(_) => v.Raw? && b == v.data
    case BasicVector(k, n) => v.Nums? && |v.ns| == n && HoldsNumbers(k.Size(), v.ns, b)
    case BasicList(k, _) => v.Nums? && HoldsNumbers(k.Size(), v.ns, b)
    case _ => false
  }

  lemma PackHoldsAt(size: nat, ns: seq<nat>, i: nat)
    requires i < |ns|
    ensures HoldsNumber(size, ns[i], Pack(size, ns), size * i)
  {
    InSeries(size, |ns|, i);
    forall j | 0 <= j < size ensures Pack(size, ns)[size * i + j] == Shr(ns[i], 8 * j) % 256 {
      PackByteAt(size, ns, i, j);
    }
  }

  lemma InSeries(size: nat, n: nat, i: nat)
    requires i < n
    ensures size * i + size <= n * size
  {
    MulOrder(size, i + 1, n);
    assert size * (i + 1) == size * i + size;
  }

  lemma PackHolds(size: nat, ns: seq<nat>)
    ensures HoldsNumbers(size, ns, Pack(size, ns))
  {
    forall i | 0 <= i < |ns| ensures HoldsNumber(size, ns[i], Pack(size, ns), size * i) { PackHoldsAt(size, ns, i); }
  }

  lemma SingleHolds(size: nat, n: nat)
    ensures HoldsNumbers(size, [n], LE(n, size))
  {
    PackHolds(size, [n]);
    assert Pack(size, []) == [] && Pack(size, [n]) == LE(n, size) + [];
  }

  /** The serialized form of a value without parts holds it, byte by byte. */
  lemma LeafHolds(t: SszType, v: Value)
    requires !t.Composite() && Typed(t, v)
    ensures HoldsLeaf(t, v, Serialize(t, v))
  {
    match t
    case Scalar(k) => SingleHolds(k.Size(), v.n);
    case BasicVector(k, _) => PackHolds(k.Size(), v.ns);
    case BasicList(k, _) => PackHolds(k.Size(), v.ns);
    case _ =>
  }
}

/**
 The SSZ types and values (directory types).  Types are taken as already built; a value is what
 the memory behind the Go pointer holds.  Vectors, lists and containers are all treated as
 a sequence of parts, each with its own type.
 */
module Grammar {
  import opened Bits
  import opened Bytes
  import opened Bitfields

  const BYTES_PER_LENGTH_OFFSET: nat := 4

  datatype Basic = BoolKind | Uint8Kind | Uint16Kind | Uint32Kind | Uint64Kind
  {
    function Size(): (n: nat)
      ensures n in {1, 2, 4, 8}
    {
      match this
      case BoolKind => 1
      case Uint8Kind => 1
      case Uint16Kind => 2
      case Uint32Kind => 4
      case Uint64Kind => 8
    }

    /** the values that the Go type can hold */
    predicate InRange(n: nat) {
      if BoolKind? then n <= 1 else n < Pow256(Size())
    }
  }

  datatype SszType =
    | Scalar(kind: Basic)
    | BytesN(length: nat)
    | Bitvector(bitLen: nat)
    | Bytes(limit: nat)
    | Bitlist(bitLimit: nat)
    | BasicVector(kind: Basic, length: nat)
    | BasicList(kind: Basic, limit: nat)
    | Vector(elem: SszType, length: nat)
    | List(elem: SszType, limit: nat)
    | Container(fields: seq<SszType>)
  {
    predicate Composite() {
      Vector? || List? || Container?
    }
  }

  datatype Value =
    | Num(n: nat)              // bool, uint8 to uint64
    | Raw(data: seq<byte>)     // byte strings and bitfields; a bitlist with its delimiter bit
    | Nums(ns: seq<nat>)       // vectors and lists of basic elements
    | Elems(vs: seq<Value>)    // vectors, lists and containers

  // ----- the nesting depth, for recursion over parts

  function Height(t: SszType): nat
    decreases t
  {
    match t
    case Vector(e, _) => 1 + Height(e)
    case List(e, _) => 1 + Height(e)
    case Container(ts) => 1 + MaxHeight(ts)
    case _ => 0
  }

  function MaxHeight(ts: seq<SszType>): nat
    decreases ts
  {
    if ts == [] then 0 else
    var h, rest := Height(ts[0]), MaxHeight(ts[1..]);
    if h >= rest then h else rest
  }

  function Repeat(e: SszType, n: nat): (ts: seq<SszType>)
    ensures |ts| == n && forall i :: 0 <= i < n ==> ts[i] == e
    ensures MaxHeight(ts) <= Height(e)
    decreases n
  {
    if n == 0 then [] else
    var ts := [e] + Repeat(e, n - 1);
    assert ts[1..] == Repeat(e, n - 1);
    ts
  }

  lemma RepeatTail(e: SszType, n: nat)
    requires n > 0
    ensures Repeat(e, n)[1..] == Repeat(e, n - 1)
  {
  }

  /** the types of the parts of a value with `n` parts */
  function Parts(t: SszType, n: nat): (ts: seq<SszType>)
    requires t.Composite()
    ensures MaxHeight(ts) < Height(t)
  {
    match t
    case Vector(e, _) => Repeat(e, n)
    case List(e, _) => Repeat(e, n)
    case Container(ts) => ts
  }

  // ----- lengths

  predicate IsFixed(t: SszType)
    decreases t
  {
    match t
    case Bytes(_) => false
    case Bitlist(_) => false
    case BasicList(_, _) => false
    case List(_, _) => false
    case Vector(e, _) => IsFixed(e)
    case Container(ts) => AllFixed(ts)
    case _ => true
  }

  predicate AllFixed(ts: seq<SszType>)
    decreases ts
  {
    ts == [] || (IsFixed(ts[0]) && AllFixed(ts[1..]))
  }

  /** the length of the fixed-size part: what is not reached through an offset */
  function FixedLen(t: SszType): nat
    decreases t
  {
    match t
    case Scalar(k) => k.Size()
    case BytesN(n) => n
    case Bitvector(n) => (n + 7) / 8
    case BasicVector(k, n) => n * k.Size()
    case Vector(e, n) => (if IsFixed(e) then FixedLen(e) else BYTES_PER_LENGTH_OFFSET) * n
    case Container(ts) => HeadsLen(ts)
    case _ => 0
  }

  function HeadsLen(ts: seq<SszType>): nat
    decreases ts
  {
    if ts == [] then 0 else
    (if IsFixed(ts[0]) then FixedLen(ts[0]) else BYTES_PER_LENGTH_OFFSET) + HeadsLen(ts[1..])
  }

  /** the length of a part in the fixed-size section: inline, or an offset */
  function HeadLen(t: SszType): nat {
    if IsFixed(t) then FixedLen(t) else BYTES_PER_LENGTH_OFFSET
  }

  /** No length of the type wraps around in uint64, and fixed-size parts fit in memory. */
  predicate Sized(t: SszType)
    decreases t
  {
    && FixedLen(t) < TWO_63
    && match t
       case BasicList(k, limit) => limit * k.Size() < TWO_64
       case Vector(e, n) => Sized(e)
       case List(e, limit) => Sized(e) && limit < TWO_64
       case Container(ts) => AllSized(ts)
       case Bytes(limit) => limit < TWO_64
       case Bitlist(limit) => limit < TWO_64
       case _ => true
  }

  predicate AllSized(ts: seq<SszType>)
    decreases ts
  {
    ts == [] || (Sized(ts[0]) && AllSized(ts[1..]))
  }

  lemma {:induction false} SizedAt(ts: seq<SszType>, i: nat)
    requires AllSized(ts) && i < |ts|
    ensures Sized(ts[i])
  {
    if i > 0 { SizedAt(ts[1..], i - 1); }
  }

  lemma {:induction false} RepeatLens(e: SszType, n: nat)
    ensures HeadsLen(Repeat(e, n)) == HeadLen(e) * n
    decreases n
  {
    if n > 0 {
      RepeatLens(e, n - 1);
      MulStep(HeadLen(e), n);
    }
  }

  lemma MulStep(h: nat, n: nat)
    requires n > 0
    ensures h * n == h + h * (n - 1)
  {
  }

  lemma {:induction false} RepeatFixed(e: SszType, n: nat)
    ensures AllFixed(Repeat(e, n)) <==> n == 0 || IsFixed(e)
    decreases n
  {
    if n > 0 { RepeatFixed(e, n - 1); }
  }

  /** A vector or container has the fixed-size section of its parts. */
  lemma PartsLens(t: SszType, n: nat)
    requires t.Composite() && (t.Vector? ==> n == t.length)
    ensures !t.List? ==> HeadsLen(Parts(t, n)) == FixedLen(t)
    ensures IsFixed(t) ==> AllFixed(Parts(t, n))
  {
    if t.Vector? { RepeatLens(t.elem, n); RepeatFixed(t.elem, n); }
  }

  // ----- values

  predicate InRangeAll(k: Basic, ns: seq<nat>) {
    forall i :: 0 <= i < |ns| ==> k.InRange(ns[i])
  }

  predicate TypedLeaf(t: SszType, v: Value) {
    match t
    case Scalar(k) => v.Num? && k.InRange(v.n)
    case BytesN(n) => v.Raw? && |v.data| == n
    case Bitvector(n) => v.Raw? && |v.data| == (n + 7) / 8
    case Bytes(_) => v.Raw?
    case Bitlist(_) => v.Raw?
    case BasicVector(k, n) => v.Nums? && |v.ns| == n && InRangeAll(k, v.ns)
    case BasicList(k, _) => v.Nums? && InRangeAll(k, v.ns)
    case _ => false
  }

  /** `v` is a value that the Go type can hold.  Limits of lists are not part of Go types. */
  predicate Typed(t: SszType, v: Value)
    decreases Height(t), 0, 0
  {
    if t.Composite() then
      v.Elems? && (t.Vector? ==> |v.vs| == t.length) && TypedAll(Parts(t, |v.vs|), v.vs)
    else
      TypedLeaf(t, v)
  }

  predicate TypedAll(ts: seq<SszType>, vs: seq<Value>)
    decreases MaxHeight(ts), 1, |ts|
  {
    |ts| == |vs| && (ts == [] || (Typed(ts[0], vs[0]) && TypedAll(ts[1..], vs[1..])))
  }

  /** What SSZ asks of a value beyond its Go type: limits, and well-formed bitfields. */
  predicate LegalHere(t: SszType, v: Value) {
    match t
    case Bitvector(n) => v.Raw? && BitvectorCheck(v.data, n)
    case Bytes(limit) => v.Raw? && |v.data| <= limit
    case Bitlist(limit) => v.Raw? && BitlistCheck(v.data, limit)
    case BasicList(k, limit) => v.Nums? && |v.ns| <= limit
    case List(e, limit) => v.Elems? && |v.vs| <= limit && (IsFixed(e) ==> FixedLen(e) > 0)
    case _ => true
  }

  predicate Legal(t: SszType, v: Value)
    decreases Height(t), 0, 0
  {
    LegalHere(t, v) && (t.Composite() && v.Elems? ==> LegalAll(Parts(t, |v.vs|), v.vs))
  }

  predicate LegalAll(ts: seq<SszType>, vs: seq<Value>)
    decreases MaxHeight(ts), 1, |ts|
  {
    ts == [] || vs == [] || (Legal(ts[0], vs[0]) && LegalAll(ts[1..], vs[1..]))
  }
}

/**
 What hash tree roots are made of, stated without the functions that cut values into leaves: every byte of every
 leaf, the room for leaves, the length that is mixed in, and the tree above.
 */
module RootLeaves {
  import opened Bits
  import opened Bytes
  import opened Bitfields
  import opened Grammar
  import opened GrammarLaws
  import opened Serialization
  import opened Lengths
  import opened Chunking
  import opened MerkleTree
  import opened HashTreeRoots
  import opened RootLaws
  import opened Outcomes
  import Merkleize

  // ----- leaves

  /** The bytes `b`, 32 to a chunk, and zeroes behind them. */
  ghost predicate HoldsBytes(cs: seq<seq<byte>>, b: seq<byte>) {
    && |cs| == (|b| + 31) / 32
    && (forall i :: 0 <= i < |cs| ==> |cs[i]| == 32)
    && forall i, j :: 0 <= i < |cs| && 0 <= j < 32 ==> cs[i][j] == if 32 * i + j < |b| then b[32 * i + j] else 0
  }

  /** The bits `bits`, 256 to a chunk, and zeroes behind them. */
  ghost predicate HoldsBits(cs: seq<seq<byte>>, bits: seq<bool>) {
    && |cs| == (|bits| + 255) / 256
    && (forall i :: 0 <= i < |cs| ==> |cs[i]| == 32)
    && forall i, j, m :: 0 <= i < |cs| && 0 <= j < 32 && 0 <= m < 8 ==>
         (Bit(cs[i][j], m) <==> 256 * i + 8 * j + m < |bits| && bits[256 * i + 8 * j + m])
  }

  lemma ChunksHold(b: seq<byte>)
    ensures HoldsBytes(Chunks(b), b)
  {
    forall i, j | 0 <= i < |Chunks(b)| && 0 <= j < 32
      ensures |Chunks(b)[i]| == 32
      ensures Chunks(b)[i][j] == if 32 * i + j < |b| then b[32 * i + j] else 0
    {
      ChunkByteAt(b, i, j);
    }
    ChunksAreChunks(b);
  }

  /** The leaves of a value without parts hold its serialized form, except for the delimiter of a bitlist. */
  lemma LeavesHoldBytes(rule: BitlistRule, t: SszType, v: Value)
    requires !t.Composite() && Typed(t, v) && !t.Bitlist?
    ensures HoldsBytes(LeafChunks(rule, t, v), Serialize(t, v))
  {
    ChunksHold(Serialize(t, v));
    assert LeafChunks(rule, t, v) == Chunks(Serialize(t, v));
  }

  /** The leaves of a bitlist, by the specification, hold its bits. */
  lemma LeavesHoldBits(data: seq<byte>)
    ensures HoldsBits(BitlistChunks(AsSpecified, data), BitsOf(data))
  {
    var bits := BitsOf(data);
    var b := PackBits(bits);
    ChunksHold(b);
    BitChunks(|bits|);
    forall i, j, m | 0 <= i < |Chunks(b)| && 0 <= j < 32 && 0 <= m < 8
      ensures Bit(Chunks(b)[i][j], m) <==> 256 * i + 8 * j + m < |bits| && bits[256 * i + 8 * j + m]
    {
      BitInLeaf(bits, Chunks(b)[i][j], 32 * i + j, m);
    }
  }

  lemma BitInLeaf(bits: seq<bool>, x: byte, k: nat, m: nat)
    requires m < 8 && x == if k < |PackBits(bits)| then PackBits(bits)[k] else 0
    ensures Bit(x, m) <==> 8 * k + m < |bits| && bits[8 * k + m]
  {
    if k < |PackBits(bits)| {
      assert GetBit(PackBits(bits), 8 * k + m) == Bit(x, m);
    } else {
      ShrOfZero(m);
    }
  }

  /** As they are written, they hold its bits too, or all its bytes with the delimiter. */
  lemma LeavesWritten(data: seq<byte>)
    ensures if BitlistLen(data) % 8 == 0 || ByteLen(data) % 32 != 0
            then HoldsBits(BitlistChunks(AsWritten, data), BitsOf(data))
            else HoldsBytes(BitlistChunks(AsWritten, data), data)
  {
    if BitlistLen(data) % 8 == 0 || ByteLen(data) % 32 != 0 {
      WrittenAsSpecified(data);
      LeavesHoldBits(data);
    } else {
      MarkedChunks(data);
      ChunksHold(data);
    }
  }

  // ----- the room for leaves

  lemma FullLeaf(rule: BitlistRule, t: SszType)
    requires !t.Composite() && Inhabited(t)
    ensures |LeafChunks(rule, t, Extreme(true, t))| == ChunkLimit(t)
  {
    match t
    case Bitvector(n) => BitChunks(n);
    case Bitlist(limit) =>
      DelimitedLast(Copies(false, limit));
      BitChunks(limit);
    case _ =>
  }

  /** The room is that of a full value: some legal value has just as many leaves, and none has more. */
  lemma RoomIsNeeded<C(!new)>(h: Hasher<C>, rule: BitlistRule, t: SszType)
    requires Inhabited(t) && Countable(t)
    ensures exists v :: Typed(t, v) && Legal(t, v) && |Leaves(h, rule, t, v)| == ChunkLimit(t)
    ensures forall v :: Typed(t, v) && Legal(t, v) ==> |Leaves(h, rule, t, v)| <= ChunkLimit(t)
  {
    var full := Extreme(true, t);
    ExtremeAttains(true, t);
    if t.Composite() {
      RootsLen(h, rule, Parts(t, |full.vs|), full.vs);
    } else {
      FullLeaf(rule, t);
    }
    assert Typed(t, full) && Legal(t, full) && |Leaves(h, rule, t, full)| == ChunkLimit(t);
    forall v | Typed(t, v) && Legal(t, v) ensures |Leaves(h, rule, t, v)| <= ChunkLimit(t) {
      LegalFits(t, v);
      LeafCounts(h, rule, t, v, rule, v);
    }
  }

  // ----- what is mixed in

  /**
   For what has a limit the number of its elements is mixed in: bytes, bits, numbers or parts.  For other types nothing
   is.
   */
  lemma MixedLengthMeans(t: SszType, v: Value)
    requires Typed(t, v)
    ensures MixedLength(t, v).Some? <==> t.Bytes? || t.Bitlist? || t.BasicList? || t.List?
    ensures t.Bytes? ==> MixedLength(t, v) == Some(|Serialize(t, v)|)
    ensures t.Bitlist? ==> MixedLength(t, v) == Some(|BitsOf(v.data)|)
    ensures t.BasicList? ==> MixedLength(t, v).value * t.kind.Size() == |Serialize(t, v)|
    ensures t.List? ==> MixedLength(t, v) == Some(|v.vs|)
  {
  }

  // ----- the tree

  lemma {:induction false} RootAt<C(!new)>(h: Hasher<C>, rule: BitlistRule, ts: seq<SszType>, vs: seq<Value>, i: nat)
    requires i < |ts| == |vs|
    ensures |Roots(h, rule, ts, vs)| == |ts| && Roots(h, rule, ts, vs)[i] == Root(h, rule, ts[i], vs[i])
    decreases i
  {
    RootsLen(h, rule, ts, vs);
    if i > 0 { RootAt(h, rule, ts[1..], vs[1..], i - 1); }
  }

  /** Leaf `i` of a vector, list or container is the root of part `i`. */
  lemma LeavesAreRoots<C(!new)>(h: Hasher<C>, rule: BitlistRule, t: SszType, v: Value, i: nat, e: SszType)
    requires t.Composite() && Typed(t, v) && i < |v.vs| && IsPart(t, i, e)
    ensures |Leaves(h, rule, t, v)| == |v.vs| && Leaves(h, rule, t, v)[i] == Root(h, rule, e, v.vs[i])
  {
    RootAt(h, rule, Parts(t, |v.vs|), v.vs, i);
  }

  /** the root of the balanced tree over `leaves`, padded with zero chunks to `2^d` */
  function Above<C(!new)>(h: Hasher<C>, leaves: seq<C>, d: nat): C {
    var padded := seq(Pow2(d), i requires 0 <= i => if i < |leaves| then leaves[i] else h.chunk(Zeros(32)));
    h.Tree(leaves).Balanced(padded, d)
  }

  /** A root is that of the balanced tree of least sufficient depth over the leaves, with the length mixed in. */
  lemma RootIsAbove<C(!new)>(h: Hasher<C>, rule: BitlistRule, t: SszType, v: Value, d: nat)
    requires Merkleize.IsLeastDepth(ChunkLimit(t), d)
    ensures var top, n := Above(h, Leaves(h, rule, t, v), d), MixedLength(t, v);
            Root(h, rule, t, v) == if n.Some? then h.mixIn(top, n.value) else top
  {
    var leaves := Leaves(h, rule, t, v);
    var tree := h.Tree(leaves);
    Merkleize.CeilLog2IsLeast(ChunkLimit(t));
    assert d == CeilLog2(ChunkLimit(t));
    tree.RootIsBalanced(ChunkLimit(t));
    assert tree.PaddedLeaves(d)
        == seq(Pow2(d), i requires 0 <= i => if i < |leaves| then leaves[i] else h.chunk(Zeros(32)));
  }

  /** The root of at most 32 bytes is these bytes, padded, whatever the hash function. */
  lemma RootOfOneChunk(hFn: seq<byte> -> Digest, rule: BitlistRule, b: seq<byte>)
    requires |b| <= 32
    ensures Root(OfHashFn(hFn), rule, BytesN(|b|), Raw(b)) == b + Zeros(32 - |b|)
  {
    var h := OfHashFn(hFn);
    ChunksHold(b);
    var leaves := Leaves(h, rule, BytesN(|b|), Raw(b));
    assert CeilLog2(ChunkLimit(BytesN(|b|))) == 0;
    if b == [] { assert h.Zero() == b + Zeros(32); } else { assert leaves[0] == b + Zeros(32 - |b|); }
  }

  lemma TwoChunks(b: seq<byte>)
    requires 32 < |b| <= 64
    ensures Chunks(b) == [b[..32], b[32..] + Zeros(64 - |b|)]
  {
    assert Chunks(b[32..]) == [Padded(b[32..])];
  }

  lemma EmbedDigests(hFn: seq<byte> -> Digest, cs: seq<seq<byte>>)
    requires AllChunks(cs)
    ensures |OfHashFn(hFn).Embed(cs)| == |cs|
    ensures forall i :: 0 <= i < |cs| ==> OfHashFn(hFn).Embed(cs)[i] == cs[i]
  {
  }

  /** The root of 33 to 64 bytes is the hash of these bytes, padded. */
  lemma RootOfTwoChunks(hFn: seq<byte> -> Digest, rule: BitlistRule, b: seq<byte>)
    requires 32 < |b| <= 64
    ensures Root(OfHashFn(hFn), rule, BytesN(|b|), Raw(b)) == hFn(b + Zeros(64 - |b|))
  {
    var h := OfHashFn(hFn);
    var leaves := Leaves(h, rule, BytesN(|b|), Raw(b));
    TwoChunks(b);
    EmbedDigests(hFn, Chunks(b));
    assert b[..32] + (b[32..] + Zeros(64 - |b|)) == b + Zeros(64 - |b|);
    assert CeilLog2(2) == 1;
    var tree := h.Tree(leaves);
    assert tree.Node(1, 0) == h.combi(tree.Node(0, 0), tree.Node(0, 1));
  }
}

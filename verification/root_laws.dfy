/**
 What hash tree roots tell: they are the roots of the specification except for bitlists whose delimiter stays in a
 full last leaf, and, for a hash function without collisions, a root has only one value.
 */
module RootLaws {
  import opened Bits
  import opened Bytes
  import opened Bitfields
  import opened Grammar
  import opened Chunking
  import opened MerkleTree
  import opened HashTreeRoots
  import opened Outcomes

  // ----- the roots as written and as specified

  /** No bitlist has its delimiter in a full last leaf. */
  predicate Clear(t: SszType, v: Value)
    decreases Height(t), 0, 0
  {
    if t.Composite() then v.Elems? ==> ClearAll(Parts(t, |v.vs|), v.vs)
    else t.Bitlist? && v.Raw? ==> BitlistLen(v.data) % 8 == 0 || ByteLen(v.data) % 32 != 0
  }

  predicate ClearAll(ts: seq<SszType>, vs: seq<Value>)
    decreases MaxHeight(ts), 1, |ts|
  {
    ts == [] || vs == [] || (Clear(ts[0], vs[0]) && ClearAll(ts[1..], vs[1..]))
  }

  /** Whatever the hash function, the root is that of the specification if every bitlist is clear. */
  lemma {:induction false} RootAsSpecified<C(!new)>(h: Hasher<C>, t: SszType, v: Value)
    requires Typed(t, v) && Clear(t, v)
    ensures Root(h, AsWritten, t, v) == Root(h, AsSpecified, t, v)
    decreases Height(t), 0, 0
  {
    if t.Composite() {
      RootsAsSpecified(h, Parts(t, |v.vs|), v.vs);
    } else if t.Bitlist? {
      BitlistChunksExactly(v.data);
    }
  }

  lemma {:induction false} RootsAsSpecified<C(!new)>(h: Hasher<C>, ts: seq<SszType>, vs: seq<Value>)
    requires TypedAll(ts, vs) && ClearAll(ts, vs)
    ensures Roots(h, AsWritten, ts, vs) == Roots(h, AsSpecified, ts, vs)
    decreases MaxHeight(ts), 1, |ts|
  {
    if ts != [] {
      RootAsSpecified(h, ts[0], vs[0]);
      RootsAsSpecified(h, ts[1..], vs[1..]);
    }
  }

  // ----- where two roots could collide

  /** The length mixed in is no collision. */
  ghost predicate MixApart<C(!new)>(h: Hasher<C>, a: C, n: Option<nat>, b: C, m: Option<nat>) {
    n.Some? && m.Some? && h.mixIn(a, n.value) == h.mixIn(b, m.value) ==> a == b && n == m
  }

  ghost predicate ChunksApart<C(!new)>(h: Hasher<C>, a: seq<seq<byte>>, b: seq<seq<byte>>) {
    forall i :: 0 <= i < |a| && i < |b| && h.chunk(a[i]) == h.chunk(b[i]) ==> a[i] == b[i]
  }

  /**
   The roots of `v` by the rule `r` and of `w` by the rule `q` are computed, position by position, without a collision.
   This speaks of finitely many pairs of hashes.
   */
  ghost predicate Apart<C(!new)>(h: Hasher<C>, t: SszType, r: BitlistRule, v: Value, q: BitlistRule, w: Value)
    decreases Height(t), 0, 0
  {
    var a, b, limit := Leaves(h, r, t, v), Leaves(h, q, t, w), ChunkLimit(t);
    && MixApart(h, h.Merkle(a, limit), MixedLength(t, v), h.Merkle(b, limit), MixedLength(t, w))
    && h.Tree(a).Apart(h.Tree(b), CeilLog2(limit), 0)
    && if t.Composite() then
         v.Elems? && w.Elems? && |v.vs| == |w.vs| ==> ApartAll(h, Parts(t, |v.vs|), r, v.vs, q, w.vs)
       else
         ChunksApart(h, LeafChunks(r, t, v), LeafChunks(q, t, w))
  }

  ghost predicate ApartAll<C(!new)>(h: Hasher<C>, ts: seq<SszType>, r: BitlistRule, vs: seq<Value>,
                                    q: BitlistRule, ws: seq<Value>)
    decreases MaxHeight(ts), 1, |ts|
  {
    ts == [] || vs == [] || ws == [] || (
      Apart(h, ts[0], r, vs[0], q, ws[0]) && ApartAll(h, ts[1..], r, vs[1..], q, ws[1..]))
  }

  lemma MerkleIsBinding<C(!new)>(h: Hasher<C>, a: seq<C>, b: seq<C>, limit: nat)
    requires h.Tree(a).Apart(h.Tree(b), CeilLog2(limit), 0)
    requires |a| == |b| <= limit && h.Merkle(a, limit) == h.Merkle(b, limit)
    ensures a == b
  {
    forall i | 0 <= i < |a| ensures a[i] == b[i] { h.Tree(a).RootIsBinding(h.Tree(b), limit, i); }
  }

  lemma EmbedIsBinding<C(!new)>(h: Hasher<C>, a: seq<seq<byte>>, b: seq<seq<byte>>)
    requires ChunksApart(h, a, b) && h.Embed(a) == h.Embed(b)
    ensures a == b
  {
    assert |a| == |b|;
    forall i | 0 <= i < |a| ensures a[i] == b[i] {
      assert h.Embed(a)[i] == h.chunk(a[i]) && h.Embed(b)[i] == h.chunk(b[i]);
    }
  }

  /** What a root is made of can be told from it, given that there are as many leaves. */
  lemma RootParts<C(!new)>(h: Hasher<C>, a: seq<C>, b: seq<C>, limit: nat, n: Option<nat>, m: Option<nat>)
    requires MixApart(h, h.Merkle(a, limit), n, h.Merkle(b, limit), m)
    requires h.Tree(a).Apart(h.Tree(b), CeilLog2(limit), 0)
    requires (n.Some? <==> m.Some?) && (n == m ==> |a| == |b| <= limit)
    requires MixLength(h, h.Merkle(a, limit), n) == MixLength(h, h.Merkle(b, limit), m)
    ensures n == m && a == b
  {
    if n.Some? { assert n.value == m.value; }
    MerkleIsBinding(h, a, b, limit);
  }

  // ----- hash functions without any collisions

  ghost predicate CollisionFree<C(!new)>(h: Hasher<C>) {
    && (forall a, b, c, d :: h.combi(a, b) == h.combi(c, d) ==> a == c && b == d)
    && (forall a, b, n, m :: h.mixIn(a, n) == h.mixIn(b, m) ==> a == b && n == m)
    && (forall a, b :: |a| == |b| == 32 && h.chunk(a) == h.chunk(b) ==> a == b)
  }

  /** A hash function without collisions, on terms. */
  function FreeHasher(): Hasher<Term> {
    Hasher((b: seq<byte>) => Chunk(b), (a, b) => Pair(a, b), (a, n: nat) => Mixed(a, n))
  }

  lemma FreeHasherIsCollisionFree()
    ensures CollisionFree(FreeHasher())
  {
  }

  lemma TreeIsCollisionFree<C(!new)>(h: Hasher<C>, leaves: seq<C>)
    requires CollisionFree(h)
    ensures h.Tree(leaves).CollisionFree()
  {
  }

  ghost predicate AllChunks(cs: seq<seq<byte>>) {
    forall i :: 0 <= i < |cs| ==> |cs[i]| == 32
  }

  lemma ChunksAreChunks(b: seq<byte>)
    ensures AllChunks(Chunks(b))
  {
    forall i | 0 <= i < |Chunks(b)| ensures |Chunks(b)[i]| == 32 { ChunkAt(b, i); }
  }

  lemma LeafChunksAreChunks(rule: BitlistRule, t: SszType, v: Value)
    ensures AllChunks(LeafChunks(rule, t, v))
  {
    match v
    case Raw(data) =>
      ChunksAreChunks(data);
      ChunksAreChunks(PackBits(BitsOf(data)));
    case Nums(ns) => if t.BasicVector? || t.BasicList? { ChunksAreChunks(Pack(t.kind.Size(), ns)); }
    case _ =>
  }

  lemma CollisionFreeChunks<C(!new)>(h: Hasher<C>, t: SszType, r: BitlistRule, v: Value, q: BitlistRule, w: Value)
    requires CollisionFree(h)
    ensures ChunksApart(h, LeafChunks(r, t, v), LeafChunks(q, t, w))
  {
    LeafChunksAreChunks(r, t, v);
    LeafChunksAreChunks(q, t, w);
  }

  lemma {:induction false} CollisionFreeApart<C(!new)>(h: Hasher<C>, t: SszType, r: BitlistRule, v: Value,
                                                       q: BitlistRule, w: Value)
    requires CollisionFree(h)
    ensures Apart(h, t, r, v, q, w)
    decreases Height(t), 0, 0
  {
    var a, b := h.Tree(Leaves(h, r, t, v)), h.Tree(Leaves(h, q, t, w));
    TreeIsCollisionFree(h, Leaves(h, r, t, v));
    a.CollisionFreeApart(b, CeilLog2(ChunkLimit(t)), 0);
    if t.Composite() {
      if v.Elems? && w.Elems? && |v.vs| == |w.vs| { CollisionFreeApartAll(h, Parts(t, |v.vs|), r, v.vs, q, w.vs); }
    } else {
      CollisionFreeChunks(h, t, r, v, q, w);
    }
  }

  lemma {:induction false} CollisionFreeApartAll<C(!new)>(h: Hasher<C>, ts: seq<SszType>, r: BitlistRule,
                                                          vs: seq<Value>, q: BitlistRule, ws: seq<Value>)
    requires CollisionFree(h)
    ensures ApartAll(h, ts, r, vs, q, ws)
    decreases MaxHeight(ts), 1, |ts|
  {
    if ts != [] && vs != [] && ws != [] {
      CollisionFreeApart(h, ts[0], r, vs[0], q, ws[0]);
      CollisionFreeApartAll(h, ts[1..], r, vs[1..], q, ws[1..]);
    }
  }

  // ----- the exact condition

  /** Unless there is a collision, the root differs from that of the specification if some bitlist is not clear. */
  lemma {:induction false} RootAsSpecifiedExactly<C(!new)>(h: Hasher<C>, t: SszType, v: Value)
    requires Typed(t, v) && Fits(t, v) && Apart(h, t, AsWritten, v, AsSpecified, v)
    ensures Root(h, AsWritten, t, v) == Root(h, AsSpecified, t, v) <==> Clear(t, v)
    decreases Height(t), 0, 0
  {
    if Clear(t, v) {
      RootAsSpecified(h, t, v);
    } else if Root(h, AsWritten, t, v) == Root(h, AsSpecified, t, v) {
      SameLeaves(h, t, v);
      if t.Composite() {
        RootsAsSpecifiedExactly(h, Parts(t, |v.vs|), v.vs);
      } else {
        BitlistAsSpecified(h, t, v);
      }
    }
  }

  lemma SameLeaves<C(!new)>(h: Hasher<C>, t: SszType, v: Value)
    requires Typed(t, v) && FitsHere(t, v) && Apart(h, t, AsWritten, v, AsSpecified, v)
    requires Root(h, AsWritten, t, v) == Root(h, AsSpecified, t, v)
    ensures Leaves(h, AsWritten, t, v) == Leaves(h, AsSpecified, t, v)
  {
    LeafCounts(h, AsWritten, t, v, AsSpecified, v);
    RootParts(h, Leaves(h, AsWritten, t, v), Leaves(h, AsSpecified, t, v), ChunkLimit(t),
              MixedLength(t, v), MixedLength(t, v));
  }

  /** As many leaves, if the same length is mixed in. */
  lemma LeafCounts<C(!new)>(h: Hasher<C>, r: BitlistRule, t: SszType, v: Value, q: BitlistRule, w: Value)
    requires Typed(t, v) && Typed(t, w) && FitsHere(t, v)
    ensures MixedLength(t, v).Some? <==> MixedLength(t, w).Some?
    ensures MixedLength(t, v) == MixedLength(t, w) ==>
              |Leaves(h, r, t, v)| == |Leaves(h, q, t, w)| <= ChunkLimit(t)
  {
    if t.Composite() {
      RootsLen(h, r, Parts(t, |v.vs|), v.vs);
      RootsLen(h, q, Parts(t, |w.vs|), w.vs);
    } else {
      ChunkCounts(r, t, v, q, w);
    }
  }

  lemma ChunkCounts(r: BitlistRule, t: SszType, v: Value, q: BitlistRule, w: Value)
    requires !t.Composite() && Typed(t, v) && Typed(t, w) && FitsHere(t, v)
    ensures MixedLength(t, v).Some? <==> MixedLength(t, w).Some?
    ensures MixedLength(t, v) == MixedLength(t, w) ==>
              |LeafChunks(r, t, v)| == |LeafChunks(q, t, w)| <= ChunkLimit(t)
  {
  }

  lemma BitlistAsSpecified<C(!new)>(h: Hasher<C>, t: SszType, v: Value)
    requires !t.Composite() && Typed(t, v) && Apart(h, t, AsWritten, v, AsSpecified, v)
    requires Leaves(h, AsWritten, t, v) == Leaves(h, AsSpecified, t, v)
    ensures Clear(t, v)
  {
    EmbedIsBinding(h, LeafChunks(AsWritten, t, v), LeafChunks(AsSpecified, t, v));
    if t.Bitlist? { BitlistChunksExactly(v.data); }
  }

  lemma {:induction false} RootsAsSpecifiedExactly<C(!new)>(h: Hasher<C>, ts: seq<SszType>, vs: seq<Value>)
    requires TypedAll(ts, vs) && FitsAll(ts, vs) && ApartAll(h, ts, AsWritten, vs, AsSpecified, vs)
    ensures Roots(h, AsWritten, ts, vs) == Roots(h, AsSpecified, ts, vs) <==> ClearAll(ts, vs)
    decreases MaxHeight(ts), 1, |ts|
  {
    if ts != [] {
      RootAsSpecifiedExactly(h, ts[0], vs[0]);
      RootsAsSpecifiedExactly(h, ts[1..], vs[1..]);
      ConsInjective(Root(h, AsWritten, ts[0], vs[0]), Roots(h, AsWritten, ts[1..], vs[1..]),
                    Root(h, AsSpecified, ts[0], vs[0]), Roots(h, AsSpecified, ts[1..], vs[1..]));
    }
  }

  lemma ConsInjective<T>(a: T, s: seq<T>, b: T, r: seq<T>)
    ensures [a] + s == [b] + r <==> a == b && s == r
  {
    if [a] + s == [b] + r {
      assert a == ([a] + s)[0] && b == ([b] + r)[0];
      assert s == ([a] + s)[1..] && r == ([b] + r)[1..];
    }
  }

  lemma UnclearDiffers<C(!new)>(h: Hasher<C>, t: SszType, v: Value)
    requires CollisionFree(h) && Typed(t, v) && Fits(t, v) && !Clear(t, v)
    ensures Root(h, AsWritten, t, v) != Root(h, AsSpecified, t, v)
  {
    CollisionFreeApart(h, t, AsWritten, v, AsSpecified, v);
    RootAsSpecifiedExactly(h, t, v);
  }

  lemma ZeroBits()
    ensures BitlistLen(Zeros(31) + [0x80]) == 255
  {
    assert BitLen(0x80) == 8 by {
      assert BitLen(8) == 4;
    }
  }

  /** 255 bits, none of them set: the root has the delimiter in its only leaf. */
  lemma DelimiterInRoot()
    ensures var v := Raw(Zeros(31) + [0x80]);
            && Typed(Bitlist(255), v) && Legal(Bitlist(255), v)
            && Root(FreeHasher(), AsWritten, Bitlist(255), v) != Root(FreeHasher(), AsSpecified, Bitlist(255), v)
  {
    var data := Zeros(31) + [0x80];
    ZeroBits();
    BitlistCheckMeaning(data, 255);
    FreeHasherIsCollisionFree();
    UnclearDiffers(FreeHasher(), Bitlist(255), Raw(data));
  }

  // ----- a root has only one value

  lemma SamePacked(k: Basic, a: seq<nat>, b: seq<nat>)
    requires InRangeAll(k, a) && InRangeAll(k, b) && |a| == |b| && Pack(k.Size(), a) == Pack(k.Size(), b)
    ensures a == b
  {
    assert Pow256(1) == 256;
    UnpackOfPack(k.Size(), a);
    UnpackOfPack(k.Size(), b);
  }

  lemma SameBitlists(rule: BitlistRule, a: seq<byte>, b: seq<byte>, limit: nat)
    requires limit < TWO_64 && BitlistCheck(a, limit) && BitlistCheck(b, limit)
    requires BitlistLen(a) == BitlistLen(b) && BitlistChunks(rule, a) == BitlistChunks(rule, b)
    ensures a == b
  {
    if rule.AsWritten? { SpecifiedOrMarked(a, b); }
    if a != b { SameSpecified(a, b, limit); }
  }

  lemma SpecifiedOrMarked(a: seq<byte>, b: seq<byte>)
    requires BitlistLen(a) == BitlistLen(b) && BitlistChunks(AsWritten, a) == BitlistChunks(AsWritten, b)
    ensures BitlistChunks(AsSpecified, a) == BitlistChunks(AsSpecified, b) || a == b
  {
    if BitlistLen(a) % 8 != 0 && ByteLen(a) % 32 == 0 {
      SameMarked(a, b);
    } else {
      WrittenAsSpecified(a);
      WrittenAsSpecified(b);
    }
  }

  lemma WrittenAsSpecified(a: seq<byte>)
    requires BitlistLen(a) % 8 == 0 || ByteLen(a) % 32 != 0
    ensures BitlistChunks(AsWritten, a) == BitlistChunks(AsSpecified, a)
  {
    BitlistChunksExactly(a);
  }

  lemma SameSpecified(a: seq<byte>, b: seq<byte>, limit: nat)
    requires limit < TWO_64 && BitlistCheck(a, limit) && BitlistCheck(b, limit)
    requires BitlistLen(a) == BitlistLen(b) && BitlistChunks(AsSpecified, a) == BitlistChunks(AsSpecified, b)
    ensures a == b
  {
    SameChunks(PackBits(BitsOf(a)), PackBits(BitsOf(b)));
    SamePackedBits(BitsOf(a), BitsOf(b));
    BitlistCanonical(a, limit);
    BitlistCanonical(b, limit);
  }

  lemma SamePackedBits(a: seq<bool>, b: seq<bool>)
    requires |a| == |b| && PackBits(a) == PackBits(b)
    ensures a == b
  {
    forall k | 0 <= k < |a| ensures a[k] == b[k] {
      assert GetBit(PackBits(a), k) == GetBit(PackBits(b), k);
    }
  }

  /** With the delimiter in a full last leaf, the leaves are just the bytes. */
  lemma MarkedChunks(a: seq<byte>)
    requires BitlistLen(a) % 8 != 0 && ByteLen(a) % 32 == 0
    ensures BitlistChunks(AsWritten, a) == Chunks(a)
  {
    var written, cs := BitlistChunks(AsWritten, a), Chunks(a);
    MarkedLength(a);
    forall i | 0 <= i < |written| ensures written[i] == cs[i] {
      WrittenAt(a, i);
      MarkedLeaf(a, i);
    }
  }

  lemma MarkedLength(a: seq<byte>)
    requires BitlistLen(a) % 8 != 0
    ensures |BitlistChunks(AsWritten, a)| == |Chunks(a)| == LeafCount(a)
  {
    assert |a| == ByteLen(a);
  }

  lemma WrittenAt(a: seq<byte>, i: nat)
    requires i < LeafCount(a)
    ensures BitlistChunks(AsWritten, a)[i] == BitlistLeaf(a, i)
  {
  }

  lemma MarkedLeaf(a: seq<byte>, i: nat)
    requires BitlistLen(a) % 8 != 0 && ByteLen(a) % 32 == 0 && i < LeafCount(a)
    ensures |Chunks(a)| == LeafCount(a) && BitlistLeaf(a, i) == Chunks(a)[i]
  {
    var n := ByteLen(a);
    assert n == |a| && a[..n] == a;
    assert 32 * (i + 1) <= n;
    ChunkAt(a, i);
  }

  lemma SameMarked(a: seq<byte>, b: seq<byte>)
    requires BitlistLen(a) == BitlistLen(b) && BitlistLen(a) % 8 != 0 && ByteLen(a) % 32 == 0
    requires BitlistChunks(AsWritten, a) == BitlistChunks(AsWritten, b)
    ensures a == b
  {
    MarkedChunks(a);
    MarkedChunks(b);
    SameChunks(a, b);
  }

  lemma LeafIsBinding(rule: BitlistRule, t: SszType, v: Value, w: Value)
    requires !t.Composite() && Countable(t)
    requires Typed(t, v) && Legal(t, v) && Typed(t, w) && Legal(t, w)
    requires MixedLength(t, v) == MixedLength(t, w) && LeafChunks(rule, t, v) == LeafChunks(rule, t, w)
    ensures v == w
  {
    match t
    case Scalar(k) => ScalarIsBinding(k, v.n, w.n);
    case Bitlist(limit) => SameBitlists(rule, v.data, w.data, limit);
    case BasicVector(k, n) => SeriesIsBinding(k, v.ns, w.ns);
    case BasicList(k, limit) => SeriesIsBinding(k, v.ns, w.ns);
    case BytesN(_) => SameChunks(v.data, w.data);
    case Bitvector(_) => SameChunks(v.data, w.data);
    case Bytes(_) => SameChunks(v.data, w.data);
  }

  lemma ScalarIsBinding(k: Basic, n: nat, m: nat)
    requires k.InRange(n) && k.InRange(m) && [Padded(LE(n, k.Size()))] == [Padded(LE(m, k.Size()))]
    ensures n == m
  {
    assert Pow256(1) == 256;
    assert Padded(LE(n, k.Size())) == Padded(LE(m, k.Size()));
    assert LE(n, k.Size()) == Padded(LE(n, k.Size()))[..k.Size()];
    assert LE(m, k.Size()) == Padded(LE(m, k.Size()))[..k.Size()];
    FromLEOfLE(n, k.Size());
    FromLEOfLE(m, k.Size());
  }

  lemma SeriesIsBinding(k: Basic, a: seq<nat>, b: seq<nat>)
    requires InRangeAll(k, a) && InRangeAll(k, b) && |a| == |b|
    requires Chunks(Pack(k.Size(), a)) == Chunks(Pack(k.Size(), b))
    ensures a == b
  {
    SameChunks(Pack(k.Size(), a), Pack(k.Size(), b));
    SamePacked(k, a, b);
  }

  lemma LeafRootIsBinding<C(!new)>(h: Hasher<C>, rule: BitlistRule, t: SszType, v: Value, w: Value)
    requires !t.Composite() && Countable(t) && Apart(h, t, rule, v, rule, w)
    requires Typed(t, v) && Legal(t, v) && Typed(t, w) && Legal(t, w)
    requires MixedLength(t, v) == MixedLength(t, w) && Leaves(h, rule, t, v) == Leaves(h, rule, t, w)
    ensures v == w
  {
    EmbedIsBinding(h, LeafChunks(rule, t, v), LeafChunks(rule, t, w));
    LeafIsBinding(rule, t, v, w);
  }

  /** Two different legal values never have the same root, unless computing the two roots has hit upon a collision. */
  lemma {:induction false} RootIsBinding<C(!new)>(h: Hasher<C>, rule: BitlistRule, t: SszType, v: Value, w: Value)
    requires Countable(t) && Apart(h, t, rule, v, rule, w)
    requires Typed(t, v) && Legal(t, v) && Typed(t, w) && Legal(t, w)
    requires Root(h, rule, t, v) == Root(h, rule, t, w)
    ensures v == w
    decreases Height(t), 0, 0
  {
    SameRootParts(h, rule, t, v, w);
    if t.Composite() {
      CountableParts(t, |v.vs|);
      RootsAreBinding(h, rule, Parts(t, |v.vs|), v.vs, w.vs);
    } else {
      LeafRootIsBinding(h, rule, t, v, w);
    }
  }

  lemma SameRootParts<C(!new)>(h: Hasher<C>, rule: BitlistRule, t: SszType, v: Value, w: Value)
    requires Countable(t) && Apart(h, t, rule, v, rule, w)
    requires Typed(t, v) && Legal(t, v) && Typed(t, w)
    requires Root(h, rule, t, v) == Root(h, rule, t, w)
    ensures MixedLength(t, v) == MixedLength(t, w) && Leaves(h, rule, t, v) == Leaves(h, rule, t, w)
    ensures t.Composite() ==> |v.vs| == |w.vs|
  {
    LegalFits(t, v);
    LeafCounts(h, rule, t, v, rule, w);
    RootParts(h, Leaves(h, rule, t, v), Leaves(h, rule, t, w), ChunkLimit(t), MixedLength(t, v), MixedLength(t, w));
    if t.Composite() {
      RootsLen(h, rule, Parts(t, |v.vs|), v.vs);
      RootsLen(h, rule, Parts(t, |w.vs|), w.vs);
    }
  }

  lemma {:induction false} RootsAreBinding<C(!new)>(h: Hasher<C>, rule: BitlistRule, ts: seq<SszType>,
                                                    vs: seq<Value>, ws: seq<Value>)
    requires AllCountable(ts) && ApartAll(h, ts, rule, vs, rule, ws)
    requires TypedAll(ts, vs) && LegalAll(ts, vs) && TypedAll(ts, ws) && LegalAll(ts, ws)
    requires Roots(h, rule, ts, vs) == Roots(h, rule, ts, ws)
    ensures vs == ws
    decreases MaxHeight(ts), 1, |ts|
  {
    if ts != [] {
      ConsInjective(Root(h, rule, ts[0], vs[0]), Roots(h, rule, ts[1..], vs[1..]),
                    Root(h, rule, ts[0], ws[0]), Roots(h, rule, ts[1..], ws[1..]));
      RootIsBinding(h, rule, ts[0], vs[0], ws[0]);
      RootsAreBinding(h, rule, ts[1..], vs[1..], ws[1..]);
      assert vs == [vs[0]] + vs[1..] && ws == [ws[0]] + ws[1..];
    }
  }
}

/**
 Hash tree roots (the HashTreeRoot methods of the types package, and htr/hash_tree_root.go).  The hash
 function is a parameter.  The methods are proved to refine a recursive definition of roots, for the leaves as
 they are written; `RootLaws` compares these with the leaves of the specification.
 */
module HashTreeRoots {
  import opened Bits
  import opened Bytes
  import opened Bitfields
  import opened Grammar
  import opened Chunking
  import opened MerkleTree
  import opened Outcomes
  import Merkleize

  /**
   A hash function on chunks of type `C`: `chunk` takes 32 bytes for a chunk, `combi` hashes a pair, and
   `mixIn` hashes a root with a length.
   */
  datatype Hasher<!C(!new)> = Hasher(chunk: seq<byte> -> C, combi: (C, C) -> C, mixIn: (C, nat) -> C)
  {
    function Zero(): C {
      chunk(Zeros(32))
    }

    function Tree(leaves: seq<C>): PaddedTree<C> {
      PaddedTree(combi, Zero(), (i: nat) => if i < |leaves| then leaves[i] else Zero(), |leaves|)
    }

    /** "merkleize" in simple-serialize.md */
    function Merkle(leaves: seq<C>, limit: nat): C {
      Tree(leaves).Root(limit)
    }

    function Embed(cs: seq<seq<byte>>): (r: seq<C>)
      ensures |r| == |cs|
    {
      seq(|cs|, i requires 0 <= i < |cs| => chunk(cs[i]))
    }

    ghost predicate ZeroTable(zeroHashes: seq<C>) {
      Merkleize.IsZeroTable(Tree([]), zeroHashes)
    }

    lemma {:induction false} SameZero(tree: PaddedTree<C>, j: nat)
      requires tree.combi == combi && tree.zero == Zero()
      ensures tree.Zero(j) == Tree([]).Zero(j)
    {
      if j > 0 { SameZero(tree, j - 1); }
    }

    lemma ZeroTableFor(tree: PaddedTree<C>, zeroHashes: seq<C>)
      requires ZeroTable(zeroHashes) && tree.combi == combi && tree.zero == Zero()
      ensures Merkleize.IsZeroTable(tree, zeroHashes)
    {
      forall j | 0 <= j <= 64 ensures zeroHashes[j] == tree.Zero(j) { SameZero(tree, j); }
    }

    /** Any other way to give the leaves results in the same root. */
    lemma SameRoot(tree: PaddedTree<C>, leaves: seq<C>, limit: nat)
      requires tree.combi == combi && tree.zero == Zero() && tree.count == |leaves|
      requires forall i :: 0 <= i < |leaves| ==> tree.leaf(i) == leaves[i]
      ensures tree.Root(limit) == Merkle(leaves, limit)
    {
      Tree(leaves).SameLeaves(tree, CeilLog2(limit), 0);
    }
  }

  // ----- hash functions on bytes

  type Digest = d: seq<byte> | |d| == 32 witness Zeros(32)

  /** The chunk operations made from a hash function. */
  function OfHashFn(hFn: seq<byte> -> Digest): Hasher<Digest> {
    Hasher(
      b => if |b| == 32 then b else Zeros(32),
      (a: Digest, b: Digest) => hFn(a + b),
      (a: Digest, n: nat) => hFn(a + (LE(n, 8) + Zeros(24))))
  }

  lemma {:induction false} LEOfZero(k: nat)
    ensures LE(0, k) == Zeros(k)
  {
    if k > 0 {
      LEOfZero(k - 1);
      assert [0] + Zeros(k - 1) == Zeros(k);
    }
  }

  lemma {:induction false} LEExtended(n: nat, k: nat, more: nat)
    requires n < Pow256(k)
    ensures LE(n, k + more) == LE(n, k) + Zeros(more)
    decreases k
  {
    if k == 0 {
      LEOfZero(more);
    } else {
      LEExtended(n / 256, k - 1, more);
      assert LE(n, k + more) == [n % 256] + (LE(n / 256, k - 1) + Zeros(more));
    }
  }

  /** What is mixed in is the length as a number of 256 bits. */
  lemma MixInLength(hFn: seq<byte> -> Digest, root: Digest, n: nat)
    requires n < TWO_64
    ensures OfHashFn(hFn).mixIn(root, n) == hFn(root + LE(n, 32))
  {
    Pow256Of8();
    LEExtended(n, 8, 24);
  }

  ghost predicate ZeroesTo(hFn: seq<byte> -> Digest, zeroHashes: seq<Digest>, n: nat) {
    n < |zeroHashes| && forall j :: 0 <= j <= n ==> zeroHashes[j] == OfHashFn(hFn).Tree([]).Zero(j)
  }

  lemma NextZero(hFn: seq<byte> -> Digest, zeroHashes: seq<Digest>, n: nat, half: seq<byte>)
    requires ZeroesTo(hFn, zeroHashes, n) && n + 1 < |zeroHashes| && half == zeroHashes[n]
    ensures ZeroesTo(hFn, zeroHashes[n + 1 := hFn(half + half)], n + 1)
  {
  }

  /** Prepares the roots of trees with only zero leaves, for every depth. */
  method InitZeroHashes(hFn: seq<byte> -> Digest) returns (zeroHashes: array<Digest>)
    ensures OfHashFn(hFn).ZeroTable(zeroHashes[..])
  {
    zeroHashes := new Digest[65](_ => Zeros(32));
    for i := 0 to 64
      invariant zeroHashes.Length == 65 && ZeroesTo(hFn, zeroHashes[..], i)
    {
      var half: seq<byte> := zeroHashes[i];
      NextZero(hFn, zeroHashes[..], i, half);
      ghost var was := zeroHashes[..];
      zeroHashes[i + 1] := hFn(half + half);
      assert zeroHashes[..] == was[i + 1 := hFn(half + half)];
    }
  }

  // ----- roots, by recursion over the value

  /** the room for chunks ("chunk_count" in simple-serialize.md) */
  function ChunkLimit(t: SszType): nat {
    match t
    case Scalar(_) => 1
    case BytesN(n) => (n + 31) / 32
    case Bitvector(n) => (n + 255) / 256
    case Bytes(limit) => (limit + 31) / 32
    case Bitlist(limit) => (limit + 255) / 256
    case BasicVector(k, n) => (n * k.Size() + 31) / 32
    case BasicList(k, limit) => (limit * k.Size() + 31) / 32
    case Vector(_, n) => n
    case List(_, limit) => limit
    case Container(ts) => |ts|
  }

  /** the chunks of a value that has no parts */
  function LeafChunks(rule: BitlistRule, t: SszType, v: Value): seq<seq<byte>> {
    match v
    case Num(n) => if t.Scalar? then [Padded(LE(n, t.kind.Size()))] else []
    case Raw(data) => if t.Bitlist? then BitlistChunks(rule, data) else Chunks(data)
    case Nums(ns) => if t.BasicVector? || t.BasicList? then Chunks(Pack(t.kind.Size(), ns)) else []
    case Elems(_) => []
  }

  /** the length that is mixed in: of lists, byte strings and bitlists, but not of vectors and containers */
  function MixedLength(t: SszType, v: Value): Option<nat> {
    match v
    case Raw(data) => if t.Bytes? then Some(|data|) else if t.Bitlist? then Some(BitlistLen(data)) else None
    case Nums(ns) => if t.BasicList? then Some(|ns|) else None
    case Elems(vs) => if t.List? then Some(|vs|) else None
    case Num(_) => None
  }

  function MixLength<C(!new)>(h: Hasher<C>, root: C, length: Option<nat>): C {
    if length.None? then root else h.mixIn(root, length.value)
  }

  /** the leaves of the tree of a value: its chunks, or the roots of its parts */
  function Leaves<C(!new)>(h: Hasher<C>, rule: BitlistRule, t: SszType, v: Value): seq<C>
    decreases Height(t), 0, 0
  {
    if t.Composite() && v.Elems? then Roots(h, rule, Parts(t, |v.vs|), v.vs) else h.Embed(LeafChunks(rule, t, v))
  }

  function Root<C(!new)>(h: Hasher<C>, rule: BitlistRule, t: SszType, v: Value): C
    decreases Height(t), 0, 1
  {
    MixLength(h, h.Merkle(Leaves(h, rule, t, v), ChunkLimit(t)), MixedLength(t, v))
  }

  function Roots<C(!new)>(h: Hasher<C>, rule: BitlistRule, ts: seq<SszType>, vs: seq<Value>): (r: seq<C>)
    decreases MaxHeight(ts), 1, |ts|
  {
    if ts == [] || vs == [] then []
    else [Root(h, rule, ts[0], vs[0])] + Roots(h, rule, ts[1..], vs[1..])
  }

  lemma {:induction false} RootsLen<C(!new)>(h: Hasher<C>, rule: BitlistRule, ts: seq<SszType>, vs: seq<Value>)
    requires |ts| == |vs|
    ensures |Roots(h, rule, ts, vs)| == |ts|
    decreases |ts|
  {
    if ts != [] { RootsLen(h, rule, ts[1..], vs[1..]); }
  }

  // ----- what fits in the tree

  /** The number of leaves is within the limit; merkleizing more of them panics. */
  predicate FitsHere(t: SszType, v: Value) {
    match t
    case Bytes(limit) => v.Raw? && (|v.data| + 31) / 32 <= ChunkLimit(t)
    case Bitlist(limit) => v.Raw? && LeafCount(v.data) <= ChunkLimit(t)
    case BasicList(k, limit) => v.Nums? && (|v.ns| * k.Size() + 31) / 32 <= ChunkLimit(t)
    case List(_, limit) => v.Elems? && |v.vs| <= limit
    case _ => true
  }

  predicate Fits(t: SszType, v: Value)
    decreases Height(t), 0, 0
  {
    FitsHere(t, v) && (t.Composite() && v.Elems? ==> FitsAll(Parts(t, |v.vs|), v.vs))
  }

  predicate FitsAll(ts: seq<SszType>, vs: seq<Value>)
    decreases MaxHeight(ts), 1, |ts|
  {
    ts == [] || vs == [] || (Fits(ts[0], vs[0]) && FitsAll(ts[1..], vs[1..]))
  }

  /** Numbers of leaves do not wrap around in uint64. */
  predicate Countable(t: SszType)
    decreases t
  {
    match t
    case Scalar(_) => true
    case BytesN(n) => n + 31 < TWO_64
    case Bitvector(n) => n + 7 < TWO_64
    case Bytes(limit) => limit + 31 < TWO_64
    case Bitlist(limit) => limit + 7 < TWO_64
    case BasicVector(k, n) => n * k.Size() + 31 < TWO_64
    case BasicList(k, limit) => limit * k.Size() + 31 < TWO_64
    case Vector(e, n) => Countable(e) && n < TWO_64
    case List(e, limit) => Countable(e) && limit < TWO_64
    case Container(ts) => AllCountable(ts) && |ts| < TWO_64
  }

  predicate AllCountable(ts: seq<SszType>)
    decreases ts
  {
    ts == [] || (Countable(ts[0]) && AllCountable(ts[1..]))
  }

  lemma {:induction false} CountableParts(t: SszType, n: nat)
    requires t.Composite() && Countable(t)
    ensures AllCountable(Parts(t, n))
    decreases n
  {
    if !t.Container? && n > 0 {
      RepeatTail(t.elem, n);
      CountableParts(t, n - 1);
    }
  }

  // ----- the methods

  /** Merkleizes the chunks of `data`. */
  method MerkleizeBytes<C(!new)>(h: Hasher<C>, zeroHashes: seq<C>, data: seq<byte>, leafLimit: nat)
    returns (r: Outcome<C>)
    requires h.ZeroTable(zeroHashes) && leafLimit < TWO_64
    ensures r == if (|data| + 31) / 32 > leafLimit then Panic else Done(h.Merkle(h.Embed(Chunks(data)), leafLimit))
  {
    var leafCount := (|data| + 31) / 32;
    var tree := PaddedTree(h.combi, h.Zero(), (i: nat) => h.chunk(Leaf(data, i)), leafCount);
    h.ZeroTableFor(tree, zeroHashes);
    forall i | 0 <= i < leafCount ensures tree.leaf(i) == h.Embed(Chunks(data))[i] { ChunkAt(data, i); }
    h.SameRoot(tree, h.Embed(Chunks(data)), leafLimit);
    ghost var combis;
    r, combis := Merkleize.Merkleize(tree, zeroHashes, leafLimit);
  }

  method MerkleizeBitlist<C(!new)>(h: Hasher<C>, zeroHashes: seq<C>, data: seq<byte>, leafLimit: nat)
    returns (r: Outcome<C>)
    requires h.ZeroTable(zeroHashes) && leafLimit < TWO_64
    ensures r == if LeafCount(data) > leafLimit then Panic
                 else Done(h.Merkle(h.Embed(BitlistChunks(AsWritten, data)), leafLimit))
  {
    var tree := PaddedTree(h.combi, h.Zero(), (i: nat) => h.chunk(BitlistLeaf(data, i)), LeafCount(data));
    h.ZeroTableFor(tree, zeroHashes);
    h.SameRoot(tree, h.Embed(BitlistChunks(AsWritten, data)), leafLimit);
    ghost var combis;
    r, combis := Merkleize.Merkleize(tree, zeroHashes, leafLimit);
  }

  /** Merkleizes the roots of parts. */
  method MerkleizeRoots<C(!new)>(h: Hasher<C>, zeroHashes: seq<C>, roots: seq<C>, limit: nat) returns (r: Outcome<C>)
    requires h.ZeroTable(zeroHashes) && limit < TWO_64
    ensures r == if |roots| > limit then Panic else Done(h.Merkle(roots, limit))
  {
    h.ZeroTableFor(h.Tree(roots), zeroHashes);
    ghost var combis;
    r, combis := Merkleize.Merkleize(h.Tree(roots), zeroHashes, limit);
  }

  function MixIn<C(!new)>(h: Hasher<C>, root: Outcome<C>, length: nat): Outcome<C> {
    if root.Panic? then Panic else Done(h.mixIn(root.value, length))
  }

  /** Bits rounded up to bytes, and these to chunks. */
  lemma BitChunks(n: nat)
    ensures ((n + 7) / 8 + 31) / 32 == (n + 255) / 256
  {
  }

  method RawRoot<C(!new)>(h: Hasher<C>, zeroHashes: seq<C>, t: SszType, data: seq<byte>) returns (r: Outcome<C>)
    requires TypedLeaf(t, Raw(data)) && Countable(t) && h.ZeroTable(zeroHashes)
    ensures r == if FitsHere(t, Raw(data)) then Done(Root(h, AsWritten, t, Raw(data))) else Panic
  {
    match t
    case BytesN(n) => r := MerkleizeBytes(h, zeroHashes, data, (n + 31) / 32);
    case Bitvector(n) =>
      BitChunks(n);
      r := MerkleizeBytes(h, zeroHashes, data, ((n + 7) / 8 + 31) / 32);
    case Bytes(limit) =>
      r := MerkleizeBytes(h, zeroHashes, data, (limit + 31) / 32);
      r := MixIn(h, r, |data|);
    case Bitlist(limit) => r := BitlistRoot(h, zeroHashes, limit, data);
  }

  method BitlistRoot<C(!new)>(h: Hasher<C>, zeroHashes: seq<C>, limit: nat, data: seq<byte>) returns (r: Outcome<C>)
    requires Countable(Bitlist(limit)) && h.ZeroTable(zeroHashes)
    ensures r == if FitsHere(Bitlist(limit), Raw(data)) then Done(Root(h, AsWritten, Bitlist(limit), Raw(data)))
                 else Panic
  {
    BitChunks(limit);
    r := MerkleizeBitlist(h, zeroHashes, data, ((limit + 7) / 8 + 31) / 32);
    r := MixIn(h, r, BitlistLen(data));
  }

  method SeriesRoot<C(!new)>(h: Hasher<C>, zeroHashes: seq<C>, t: SszType, ns: seq<nat>) returns (r: Outcome<C>)
    requires TypedLeaf(t, Nums(ns)) && Countable(t) && h.ZeroTable(zeroHashes)
    ensures r == if FitsHere(t, Nums(ns)) then Done(Root(h, AsWritten, t, Nums(ns))) else Panic
  {
    match t
    case BasicVector(k, n) => r := MerkleizeSeries(h, zeroHashes, k, ns, n * k.Size());
    case BasicList(k, limit) => r := BasicListRoot(h, zeroHashes, k, limit, ns);
  }

  method BasicListRoot<C(!new)>(h: Hasher<C>, zeroHashes: seq<C>, k: Basic, limit: nat, ns: seq<nat>)
    returns (r: Outcome<C>)
    requires Countable(BasicList(k, limit)) && h.ZeroTable(zeroHashes)
    ensures r == if FitsHere(BasicList(k, limit), Nums(ns)) then Done(Root(h, AsWritten, BasicList(k, limit), Nums(ns)))
                 else Panic
  {
    r := MerkleizeSeries(h, zeroHashes, k, ns, limit * k.Size());
    r := MixIn(h, r, |ns|);
    RootOfBasicList(h, k, limit, ns, (limit * k.Size() + 31) / 32);
  }

  lemma RootOfBasicList<C(!new)>(h: Hasher<C>, k: Basic, limit: nat, ns: seq<nat>, leafLimit: nat)
    requires leafLimit == ChunkLimit(BasicList(k, limit))
    ensures Root(h, AsWritten, BasicList(k, limit), Nums(ns))
            == h.mixIn(h.Merkle(h.Embed(Chunks(Pack(k.Size(), ns))), leafLimit), |ns|)
  {
  }

  /** Merkleizes a series of numbers as it lies in memory. */
  method MerkleizeSeries<C(!new)>(h: Hasher<C>, zeroHashes: seq<C>, k: Basic, ns: seq<nat>, byteLimit: nat)
    returns (r: Outcome<C>)
    requires h.ZeroTable(zeroHashes) && byteLimit + 31 < TWO_64
    ensures r == if (|ns| * k.Size() + 31) / 32 > (byteLimit + 31) / 32 then Panic
                 else Done(h.Merkle(h.Embed(Chunks(Pack(k.Size(), ns))), (byteLimit + 31) / 32))
  {
    r := MerkleizeBytes(h, zeroHashes, Pack(k.Size(), ns), (byteLimit + 31) / 32);
  }

  method LeafRoot<C(!new)>(h: Hasher<C>, zeroHashes: seq<C>, t: SszType, v: Value) returns (r: Outcome<C>)
    requires !t.Composite() && Typed(t, v) && Countable(t) && h.ZeroTable(zeroHashes)
    ensures r == if FitsHere(t, v) then Done(Root(h, AsWritten, t, v)) else Panic
  {
    match v
    case Num(n) =>
      var chunk := Padded(LE(n, t.kind.Size()));
      SingleChunk(h, chunk);
      r := Done(h.chunk(chunk));
    case Raw(data) => r := RawRoot(h, zeroHashes, t, data);
    case Nums(ns) => r := SeriesRoot(h, zeroHashes, t, ns);
  }

  lemma SingleChunk<C(!new)>(h: Hasher<C>, c: seq<byte>)
    ensures h.Merkle(h.Embed([c]), 1) == h.chunk(c)
  {
    assert h.Embed([c])[0] == h.chunk(c);
    assert CeilLog2(1) == 0;
  }

  method HashTreeRoot<C(!new)>(h: Hasher<C>, zeroHashes: seq<C>, t: SszType, v: Value) returns (r: Outcome<C>)
    requires Typed(t, v) && Countable(t) && h.ZeroTable(zeroHashes)
    ensures r == if Fits(t, v) then Done(Root(h, AsWritten, t, v)) else Panic
    decreases Height(t), 0, 0
  {
    if !t.Composite() {
      r := LeafRoot(h, zeroHashes, t, v);
      return;
    }
    CountableParts(t, |v.vs|);
    RootsLen(h, AsWritten, Parts(t, |v.vs|), v.vs);
    var roots := PartRoots(h, zeroHashes, Parts(t, |v.vs|), v.vs);
    if roots.Panic? { return Panic; }
    r := MerkleizeRoots(h, zeroHashes, roots.value, ChunkLimit(t));
    if t.List? { r := MixIn(h, r, |v.vs|); }
  }

  method PartRoots<C(!new)>(h: Hasher<C>, zeroHashes: seq<C>, ts: seq<SszType>, vs: seq<Value>)
    returns (r: Outcome<seq<C>>)
    requires TypedAll(ts, vs) && AllCountable(ts) && h.ZeroTable(zeroHashes)
    ensures r == if FitsAll(ts, vs) then Done(Roots(h, AsWritten, ts, vs)) else Panic
    decreases MaxHeight(ts), 1, |ts|
  {
    if |ts| == 0 { return Done([]); }
    var first := HashTreeRoot(h, zeroHashes, ts[0], vs[0]);
    if first.Panic? { return Panic; }
    var rest := PartRoots(h, zeroHashes, ts[1..], vs[1..]);
    if rest.Panic? { return Panic; }
    return Done([first.value] + rest.value);
  }

  // ----- legal values fit

  lemma {:induction false} LegalFits(t: SszType, v: Value)
    requires Typed(t, v) && Legal(t, v) && Countable(t)
    ensures Fits(t, v)
    decreases Height(t), 0, 0
  {
    if t.Composite() {
      CountableParts(t, |v.vs|);
      LegalFitsAll(Parts(t, |v.vs|), v.vs);
    } else {
      match t
      case Bitlist(limit) => BitlistCheckMeaning(v.data, limit);
      case BasicList(k, limit) => assert |v.ns| * k.Size() <= limit * k.Size();
      case _ =>
    }
  }

  lemma {:induction false} LegalFitsAll(ts: seq<SszType>, vs: seq<Value>)
    requires TypedAll(ts, vs) && LegalAll(ts, vs) && AllCountable(ts)
    ensures FitsAll(ts, vs)
    decreases MaxHeight(ts), 1, |ts|
  {
    if ts != [] {
      LegalFits(ts[0], vs[0]);
      LegalFitsAll(ts[1..], vs[1..]);
    }
  }
}

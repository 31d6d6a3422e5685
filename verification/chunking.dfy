/**
 The 32-byte leaves that are merkleized: byte strings in chunks (the leaf closures of types/basic_series.go,
 types/ssz_bytes.go, types/ssz_bytes_n.go and types/ssz_bitvector.go), and bitlists without their delimiter
 bit (types/ssz_bitlist.go).
 */
module Chunking {
  import opened Bits
  import opened Bytes
  import opened Bitfields

  function Padded(b: seq<byte>): (c: seq<byte>)
    requires |b| <= 32
    ensures |c| == 32
  {
    b + Zeros(32 - |b|)
  }

  /** `b` cut into chunks, the last one padded with zeroes ("pack" in simple-serialize.md). */
  function Chunks(b: seq<byte>): (cs: seq<seq<byte>>)
    ensures |cs| == (|b| + 31) / 32
  {
    if b == [] then [] else if |b| <= 32 then [Padded(b)] else [b[..32]] + Chunks(b[32..])
  }

  /** leaf number `i` of the bytes `data`, by random access */
  function Leaf(data: seq<byte>, i: nat): (c: seq<byte>)
    ensures |c| == 32
  {
    var s, e := 32 * i, 32 * (i + 1);
    if s >= |data| then Zeros(32)  // not asked for
    else if e > |data| then Padded(data[s..])
    else data[s..e]
  }

  /** The leaves are the chunks. */
  lemma {:induction false} ChunkAt(b: seq<byte>, i: nat)
    requires i < |Chunks(b)|
    ensures Chunks(b)[i] == Leaf(b, i)
    decreases i
  {
    if |b| <= 32 {
      assert b[0..] == b && b[0..32 - (32 - |b|)] + Zeros(0) == b;
    } else if i == 0 {
      assert b[0..32] == b[..32];
    } else {
      ChunkAt(b[32..], i - 1);
      LeafBehind(b, i);
    }
  }

  lemma LeafBehind(b: seq<byte>, i: nat)
    requires |b| > 32 && i > 0
    ensures Leaf(b[32..], i - 1) == Leaf(b, i)
  {
    var s, e := 32 * (i - 1), 32 * i;
    if e <= |b| - 32 {
      assert b[32..][s..e] == b[s + 32..e + 32];
    } else if s < |b| - 32 {
      assert b[32..][s..] == b[s + 32..];
    }
  }

  /** A leaf holds its 32 bytes of the data, and zeroes beyond them. */
  lemma LeafByteAt(data: seq<byte>, i: nat, j: nat)
    requires j < 32
    ensures Leaf(data, i)[j] == if 32 * i + j < |data| then data[32 * i + j] else 0
  {
  }

  lemma ChunkByteAt(data: seq<byte>, i: nat, j: nat)
    requires i < |Chunks(data)| && j < 32
    ensures |Chunks(data)[i]| == 32
    ensures Chunks(data)[i][j] == if 32 * i + j < |data| then data[32 * i + j] else 0
  {
    ChunkAt(data, i);
    LeafByteAt(data, i, j);
  }

  /** Byte strings of the same length and with the same chunks are the same. */
  lemma SameChunks(a: seq<byte>, b: seq<byte>)
    requires |a| == |b| && Chunks(a) == Chunks(b)
    ensures a == b
  {
    forall j | 0 <= j < |a| ensures a[j] == b[j] {
      ChunkAt(a, j / 32);
      ChunkAt(b, j / 32);
      ByteInLeaf(a, j);
      ByteInLeaf(b, j);
    }
  }

  lemma ByteInLeaf(a: seq<byte>, j: nat)
    requires j < |a|
    ensures Leaf(a, j / 32)[j % 32] == a[j]
  {
  }

  // ----- bitlists

  /** the number of bytes of a bitlist without its delimiter bit */
  function ByteLen(data: seq<byte>): (n: nat)
    ensures n <= |data| <= n + 1
  {
    (BitlistLen(data) + 7) / 8
  }

  function LeafCount(data: seq<byte>): nat {
    (ByteLen(data) + 31) / 32
  }

  /** `v` without its top bit */
  function ClearTop(v: byte): (w: byte)
    ensures v != 0 ==> w != v
  {
    ByteShr(v);
    WithBitShr(v, TopBit(v), false, 8);
    if v != 0 then
      TopBitBound(v);
      TopBitShr(v);
      ByteShr(WithBit(v, TopBit(v), false));
      WithBit(v, TopBit(v), false)
    else 0
  }

  /** `x`, the leaf with the last byte of `byteLen` bytes, without the top bit of that byte */
  function ClearLast(x: seq<byte>, byteLen: nat): (c: seq<byte>)
    requires |x| == 32 && byteLen > 0
    ensures |c| == 32
  {
    var d := (byteLen - 1) % 32;
    x[d := ClearTop(x[d])]
  }

  /**
   Leaf number `i` of a bitlist, as it is written: the delimiter is cut off with its byte if it is alone there, and
   is cleared if the leaf has to be padded.
   */
  function BitlistLeaf(data: seq<byte>, i: nat): (c: seq<byte>)
    ensures |c| == 32
  {
    var byteLen := ByteLen(data);
    var x := Leaf(data[..byteLen], i);
    if 32 * (i + 1) > byteLen && BitlistLen(data) % 8 != 0 && byteLen != 0 then ClearLast(x, byteLen) else x
  }

  /** the bits of a bitlist; a missing string has none */
  function BitsOf(data: seq<byte>): (bits: seq<bool>)
    ensures |bits| == BitlistLen(data)
  {
    if data == [] then [] else BitlistBits(data)
  }

  /** A bitlist with its delimiter cleared wherever it is. */
  function Unmarked(data: seq<byte>): (b: seq<byte>)
    ensures |b| == ByteLen(data)
  {
    var byteLen := ByteLen(data);
    if BitlistLen(data) % 8 == 0 then data[..byteLen]
    else data[..byteLen][byteLen - 1 := ClearTop(data[byteLen - 1])]
  }

  lemma ClearTopBits(v: byte, k: nat)
    requires k < 8
    ensures Bit(ClearTop(v), k) <==> k < TopBit(v) && Bit(v, k)
  {
    if v == 0 {
      ShrOfZero(k);
    } else {
      WithBitShr(v, TopBit(v), false, k);
      TopBitShr(v);
      if k > TopBit(v) { ShrBelowZero(v, TopBit(v) + 1, k); }
    }
  }

  /** Clearing the delimiter leaves just the bits, packed. */
  lemma PackedBitlist(data: seq<byte>)
    ensures PackBits(BitsOf(data)) == Unmarked(data)
  {
    var a, b := PackBits(BitsOf(data)), Unmarked(data);
    var n := ByteLen(data);
    forall k | 0 <= k < 8 * n ensures GetBit(a, k) == GetBit(b, k) {
      if BitlistLen(data) % 8 != 0 && k / 8 == n - 1 { ClearTopBits(data[n - 1], k % 8); }
    }
    BytesWithSameBits(a, b);
  }

  /** The delimiter gets into no leaf, or into the last one. */
  lemma BitlistLeafIs(data: seq<byte>, i: nat)
    requires i < LeafCount(data)
    ensures BitlistLeaf(data, i) == Leaf(Unmarked(data), i) <==>
            BitlistLen(data) % 8 == 0 || ByteLen(data) % 32 != 0 || i + 1 < LeafCount(data)
  {
    if BitlistLen(data) % 8 != 0 {
      var cut := data[..ByteLen(data)];
      assert cut[|cut| - 1] == data[|cut| - 1] != 0;
      LeafNumbers(|cut|, i);
      assert Unmarked(data) == cut[|cut| - 1 := ClearTop(cut[|cut| - 1])];
      BitlistLeafOf(data, i, cut);
      MarkedLeafIs(cut, i, ClearTop(cut[|cut| - 1]));
    }
  }

  lemma LeafNumbers(n: nat, i: nat)
    requires n > 0 && i < (n + 31) / 32
    ensures i <= (n - 1) / 32 && (i < (n - 1) / 32 <==> i + 1 < (n + 31) / 32)
  {
  }

  lemma BitlistLeafOf(data: seq<byte>, i: nat, cut: seq<byte>)
    requires BitlistLen(data) % 8 != 0 && i < LeafCount(data) && cut == data[..ByteLen(data)] && cut != []
    ensures BitlistLeaf(data, i) == MarkedLeaf(cut, i, ClearTop(cut[|cut| - 1]))
  {
    if 32 * (i + 1) > |cut| { ClearLastIs(cut, i); }
  }

  lemma ClearLastIs(b: seq<byte>, i: nat)
    requires b != [] && i < (|b| + 31) / 32 && 32 * (i + 1) > |b|
    ensures ClearLast(Leaf(b, i), |b|) == Leaf(b, i)[(|b| - 1) % 32 := ClearTop(b[|b| - 1])]
  {
    assert i == (|b| - 1) / 32;
    ByteInLeaf(b, |b| - 1);
  }

  /** The last byte is `x` if the leaf has to be padded. */
  function MarkedLeaf(b: seq<byte>, i: nat, x: byte): seq<byte>
    requires b != []
  {
    if 32 * (i + 1) > |b| then Leaf(b, i)[(|b| - 1) % 32 := x] else Leaf(b, i)
  }

  lemma MarkedLeafIs(b: seq<byte>, i: nat, x: byte)
    requires b != [] && i <= (|b| - 1) / 32 && x != b[|b| - 1]
    ensures MarkedLeaf(b, i, x) == Leaf(b[|b| - 1 := x], i) <==> |b| % 32 != 0 || i < (|b| - 1) / 32
  {
    LeafOfUpdate(b, |b| - 1, x, i);
    if i == (|b| - 1) / 32 { LastLeaf(b, i, x); }
  }

  lemma LastLeaf(b: seq<byte>, i: nat, x: byte)
    requires b != [] && i == (|b| - 1) / 32 && x != b[|b| - 1]
    ensures var d := (|b| - 1) % 32; Leaf(b, i)[d] == b[|b| - 1] && Leaf(b, i)[d := x] != Leaf(b, i)
    ensures 32 * (i + 1) > |b| <==> |b| % 32 != 0
  {
    ByteInLeaf(b, |b| - 1);
    var d := (|b| - 1) % 32;
    assert Leaf(b, i)[d := x][d] == x;
  }

  lemma LeafOfUpdate(b: seq<byte>, j: nat, x: byte, i: nat)
    requires j < |b|
    ensures Leaf(b[j := x], i) == if j / 32 == i then Leaf(b, i)[j % 32 := x] else Leaf(b, i)
  {
    var l := Leaf(b[j := x], i);
    var r := if j / 32 == i then Leaf(b, i)[j % 32 := x] else Leaf(b, i);
    forall k | 0 <= k < 32 ensures l[k] == r[k] { }
  }

  datatype BitlistRule = AsSpecified | AsWritten

  function BitlistChunks(rule: BitlistRule, data: seq<byte>): (cs: seq<seq<byte>>)
    ensures |cs| == LeafCount(data)
  {
    match rule
    case AsSpecified => Chunks(PackBits(BitsOf(data)))
    case AsWritten => seq(LeafCount(data), i requires 0 <= i => BitlistLeaf(data, i))
  }

  /** The leaves as written are those of the specification except when the delimiter is in a full last leaf. */
  lemma BitlistChunksExactly(data: seq<byte>)
    ensures BitlistChunks(AsWritten, data) == BitlistChunks(AsSpecified, data) <==>
            BitlistLen(data) % 8 == 0 || ByteLen(data) % 32 != 0
  {
    PackedBitlist(data);
    forall i | 0 <= i < LeafCount(data)
      ensures BitlistChunks(AsSpecified, data)[i] == BitlistChunks(AsWritten, data)[i] <==>
              BitlistLen(data) % 8 == 0 || ByteLen(data) % 32 != 0 || i + 1 < LeafCount(data)
    {
      ChunkAt(Unmarked(data), i);
      BitlistLeafIs(data, i);
    }
    var last := LeafCount(data) - 1;
    if last >= 0 && BitlistChunks(AsSpecified, data)[last] != BitlistChunks(AsWritten, data)[last] {
      assert BitlistChunks(AsWritten, data) != BitlistChunks(AsSpecified, data);
    }
  }

  lemma MultiplesDrop(q: nat, r: nat)
    ensures (256 * q + r) % 8 == r % 8
    ensures (256 * q + r + 7) / 8 == 32 * q + (r + 7) / 8
  {
  }

  lemma MultipleDrops(q: nat, m: nat)
    ensures (32 * q + m) % 32 == m % 32
  {
  }

  /** Concerned are the bitlists of 249 to 255 bits modulo 256. */
  lemma DelimiterKept(n: nat)
    ensures n % 8 == 0 || (n + 7) / 8 % 32 != 0 <==> n % 256 == 0 || n % 256 < 249
  {
    var q, r := n / 256, n % 256;
    assert n == 256 * q + r;
    MultiplesDrop(q, r);
    MultipleDrops(q, (r + 7) / 8);
    assert (r + 7) / 8 % 32 == 0 <==> r == 0 || r >= 249;
  }
}

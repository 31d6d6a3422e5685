/** Bytes, little-endian numbers, and the wrapping subtraction of uint64. */
module Bytes {
  import opened Bits

  type byte = b: int | 0 <= b < 256

  /** `a - b` on uint64 operands */
  function Sub64(a: nat, b: nat): nat {
    (a - b) % TWO_64
  }

  function Zeros(n: nat): (z: seq<byte>)
    ensures |z| == n
  {
    seq(n, _ => 0)
  }

  /** the number of values of `k` bytes */
  function Pow256(k: nat): (p: nat)
    ensures p >= 1
  {
    if k == 0 then 1 else 256 * Pow256(k - 1)
  }

  /** the `k` low bytes of `n`, least significant first */
  function LE(n: nat, k: nat): (s: seq<byte>)
    ensures |s| == k
    decreases k
  {
    if k == 0 then [] else [n % 256] + LE(n / 256, k - 1)
  }

  function FromLE(s: seq<byte>): nat {
    if s == [] then 0 else s[0] + 256 * FromLE(s[1..])
  }

  lemma {:induction false} ShrTwice(n: nat, j: nat, k: nat)
    ensures Shr(n, k + j) == Shr(Shr(n, j), k)
    decreases k
  {
    if k > 0 { ShrTwice(n, j, k - 1); }
  }

  lemma ShrByte(n: nat)
    ensures Shr(n, 8) == n / 256
  {
    assert Shr(n, 2) == Shr(n, 1) / 2 == n / 4;
    assert Shr(n, 4) == Shr(n, 3) / 2 == n / 16;
    assert Shr(n, 6) == Shr(n, 5) / 2 == n / 64;
  }

  /** Byte `i` holds the bits of `n` from `8 * i` on. */
  lemma {:induction false} LEByteAt(n: nat, k: nat, i: nat)
    requires i < k
    ensures LE(n, k)[i] == Shr(n, 8 * i) % 256
    decreases k
  {
    if i > 0 {
      LEByteAt(n / 256, k - 1, i - 1);
      ShrByte(n);
      ShrTwice(n, 8, 8 * (i - 1));
    }
  }

  lemma {:induction false} FromLEOfLE(n: nat, k: nat)
    requires n < Pow256(k)
    ensures FromLE(LE(n, k)) == n
    decreases k
  {
    if k > 0 { FromLEOfLE(n / 256, k - 1); }
  }

  lemma {:induction false} LEOfFromLE(s: seq<byte>)
    ensures FromLE(s) < Pow256(|s|)
    ensures LE(FromLE(s), |s|) == s
  {
    if s != [] {
      LEOfFromLE(s[1..]);
      assert FromLE(s) % 256 == s[0] && FromLE(s) / 256 == FromLE(s[1..]);
    }
  }

  lemma Pow256Of4()
    ensures Pow256(4) == 0x1_0000_0000
  {
    assert Pow256(2) == 0x1_0000;
  }

  lemma Pow256Of8()
    ensures Pow256(8) == TWO_64
  {
    Pow256Of4();
    assert Pow256(6) == 0x1_0000_0000_0000;
  }

  /** a series of `size`-byte numbers as it lies in memory on a little-endian machine */
  function Pack(size: nat, ns: seq<nat>): (s: seq<byte>)
    ensures |s| == |ns| * size
  {
    if ns == [] then [] else LE(ns[0], size) + Pack(size, ns[1..])
  }

  /** the `n` numbers in a memory image of `n * size` bytes */
  function Unpack(size: nat, n: nat, s: seq<byte>): (ns: seq<nat>)
    requires |s| == n * size
    ensures |ns| == n
    decreases n
  {
    if n == 0 then [] else
    assert (n - 1) * size == n * size - size;
    [FromLE(s[..size])] + Unpack(size, n - 1, s[size..])
  }

  lemma {:induction false} UnpackOfPack(size: nat, ns: seq<nat>)
    requires forall i :: 0 <= i < |ns| ==> ns[i] < Pow256(size)
    ensures Unpack(size, |ns|, Pack(size, ns)) == ns
  {
    if ns != [] {
      var s := Pack(size, ns);
      assert s[..size] == LE(ns[0], size) && s[size..] == Pack(size, ns[1..]);
      FromLEOfLE(ns[0], size);
      UnpackOfPack(size, ns[1..]);
    }
  }

  lemma {:induction false} PackOfUnpack(size: nat, n: nat, s: seq<byte>)
    requires |s| == n * size
    ensures Pack(size, Unpack(size, n, s)) == s
    ensures forall i :: 0 <= i < n ==> Unpack(size, n, s)[i] < Pow256(size)
    decreases n
  {
    if n > 0 {
      assert (n - 1) * size == n * size - size;
      PackOfUnpack(size, n - 1, s[size..]);
      LEOfFromLE(s[..size]);
      assert s == s[..size] + s[size..];
    }
  }

  lemma MulOrder(a: nat, b: nat, c: nat)
    requires b <= c
    ensures a * b <= a * c
  {
  }

  lemma ElementInSeries(size: nat, n: nat, i: nat, j: nat)
    requires i < n && j < size
    ensures size * i + j < n * size
  {
    MulOrder(size, i + 1, n);
    assert size * (i + 1) == size * i + size;
    assert size * n == n * size;
  }

  lemma InBehind(a: seq<byte>, b: seq<byte>, k: nat)
    requires k < |b|
    ensures (a + b)[|a| + k] == b[k]
  {
  }

  lemma MulPrevious(size: nat, i: nat)
    requires i > 0
    ensures size * i == size + size * (i - 1)
  {
  }

  lemma PackTail(size: nat, ns: seq<nat>, i: nat, j: nat, k: nat, x: byte)
    requires 0 < i < |ns| && k == size * (i - 1) + j < |Pack(size, ns[1..])| && Pack(size, ns[1..])[k] == x
    ensures size * i + j < |Pack(size, ns)| && Pack(size, ns)[size * i + j] == x
  {
    InBehind(LE(ns[0], size), Pack(size, ns[1..]), k);
    MulPrevious(size, i);
    assert size * i + j == size + k;
  }

  /** Element `i` lies `size * i` bytes from the start, least significant byte first. */
  lemma {:induction false} PackByteAt(size: nat, ns: seq<nat>, i: nat, j: nat)
    requires i < |ns| && j < size
    ensures size * i + j < |Pack(size, ns)|
    ensures Pack(size, ns)[size * i + j] == Shr(ns[i], 8 * j) % 256
    decreases i
  {
    if i == 0 {
      ElementInSeries(size, |ns|, i, j);
      LEByteAt(ns[0], size, j);
    } else {
      PackByteAt(size, ns[1..], i - 1, j);
      PackTail(size, ns, i, j, size * (i - 1) + j, Shr(ns[i], 8 * j) % 256);
    }
  }

  /** Element `i` is read from there. */
  lemma UnpackByteAt(size: nat, n: nat, s: seq<byte>, i: nat, j: nat)
    requires |s| == n * size && i < n && j < size
    ensures size * i + j < |s| && Shr(Unpack(size, n, s)[i], 8 * j) % 256 == s[size * i + j]
  {
    PackOfUnpack(size, n, s);
    PackByteAt(size, Unpack(size, n, s), i, j);
  }

  lemma {:induction false} UnpackBytes(n: nat, s: seq<byte>)
    requires |s| == n * 1
    ensures forall i :: 0 <= i < n ==> Unpack(1, n, s)[i] == s[i]
    decreases n
  {
    if n > 0 {
      UnpackBytes(n - 1, s[1..]);
      assert FromLE(s[..1]) == s[0];
    }
  }
}

/**
 Bit access in byte strings, and the validity checks of bitlists and bitvectors
 (bitfields/bitfield.go, bitfields/bitlist.go, bitfields/bitvector.go).
 */
module Bitfields {
  import opened Bits
  import opened Bytes

  /** the index of the top bit of `v`, and 0 for 0 */
  function TopBit(v: nat): nat {
    if v == 0 then 0 else BitLen(v) - 1
  }

  /** The top bit is set, and none above it. */
  lemma {:induction false} TopBitShr(v: nat)
    requires v > 0
    ensures Shr(v, TopBit(v)) == 1
  {
    if v > 1 {
      TopBitShr(v / 2);
      ShrFront(v, TopBit(v / 2));
    }
  }

  method BitIndex(b: byte) returns (out: nat)
    ensures out == TopBit(b) < 8
  {
    var v := b;
    out := 0;
    if v / 16 != 0 {
      TopBitStep(v, 4, v / 16);
      out, v := out + 4, v / 16;
    }
    assert v < 16 && out <= 4;
    if v / 4 % 4 != 0 {
      TopBitStep(v, 2, v / 4);
      out, v := out + 2, v / 4;
    }
    assert v < 4 && out <= 6;
    if v / 2 % 2 != 0 {
      TopBitStep(v, 1, v / 2);
      out, v := out + 1, v / 2;
    }
    assert TopBit(v) == 0;
  }

  lemma TopBitStep(v: nat, k: nat, w: nat)
    requires k in {1, 2, 4} && w > 0 && w == v / (if k == 1 then 2 else if k == 2 then 4 else 16)
    ensures TopBit(v) == k + TopBit(w)
  {
    SmallShifts(v);
    TopBitAbove(v, k);
  }

  lemma TopBitAbove(v: nat, k: nat)
    requires Shr(v, k) > 0
    ensures TopBit(v) == k + TopBit(Shr(v, k))
  {
    if v == 0 { ShrOfZero(k); }
    BitLenShr(v, k);
  }

  lemma SmallShifts(v: nat)
    ensures Shr(v, 1) == v / 2 && Shr(v, 2) == v / 4 && Shr(v, 4) == v / 16
  {
    assert Shr(v, 1) == v / 2;
    assert Shr(v, 2) == Shr(v, 1) / 2;
    assert Shr(v, 3) == Shr(v, 2) / 2;
  }

  lemma TopBitBound(v: byte)
    ensures TopBit(v) < 8
  {
    if v > 0 {
      TopBitShr(v);
      ByteShr(v);
      if TopBit(v) >= 8 { ShrBelowZero(v, 8, TopBit(v)); }
    }
  }

  /** bit `i` of a byte string */
  predicate GetBit(b: seq<byte>, i: nat)
    requires i / 8 < |b|
  {
    Bit(b[i / 8], i % 8)
  }

  /** `v` with bit `k` made `on`: an or with, or an and-not of, `1 << k` */
  function WithBit(v: nat, k: nat, on: bool): int {
    if Bit(v, k) == on then v else if on then v + Pow2(k) else v - Pow2(k)
  }

  lemma {:induction false} WithBitShr(v: nat, k: nat, on: bool, m: nat)
    ensures WithBit(v, k, on) >= 0
    ensures m > k ==> Shr(WithBit(v, k, on), m) == Shr(v, m)
    ensures Bit(WithBit(v, k, on), m) == if m == k then on else Bit(v, m)
    decreases k
  {
    if k == 0 {
      if m > 0 { ShrFront(v, m - 1); ShrFront(WithBit(v, k, on), m - 1); }
    } else {
      ShrFront(v, k - 1);
      WithBitShr(v / 2, k - 1, on, if m == 0 then 0 else m - 1);
      assert WithBit(v, k, on) / 2 == WithBit(v / 2, k - 1, on);
      if m > 0 { ShrFront(v, m - 1); ShrFront(WithBit(v, k, on), m - 1); }
    }
  }

  lemma ByteShr(v: nat)
    ensures v < 256 <==> Shr(v, 8) == 0
  {
    Pow2Constants();
    ShrZero(v, 8);
  }

  method SetBit(b: array<byte>, i: nat, v: bool)
    requires i / 8 < b.Length
    modifies b
    ensures forall k: nat :: k / 8 < b.Length ==> GetBit(b[..], k) == if k == i then v else old(GetBit(b[..], k))
    ensures forall k :: 0 <= k < b.Length && k != i / 8 ==> b[k] == old(b[k])
  {
    var was := b[i / 8];
    WithBitShr(was, i % 8, v, 8);
    ByteShr(was);
    ByteShr(WithBit(was, i % 8, v));
    b[i / 8] := WithBit(was, i % 8, v);
    forall k: nat | k / 8 < b.Length
      ensures GetBit(b[..], k) == if k == i then v else old(GetBit(b[..], k))
    {
      WithBitShr(was, i % 8, v, k % 8);
    }
  }

  // ----- bitlists

  /** the length in bits: the position of the top bit of the last byte */
  function BitlistLen(b: seq<byte>): (n: nat)
    ensures n <= 8 * |b| && (b != [] ==> 8 * (|b| - 1) <= n < 8 * |b|)
  {
    if b == [] then 0 else TopBitBound(b[|b| - 1]); 8 * (|b| - 1) + TopBit(b[|b| - 1])
  }

  predicate BitlistCheck(b: seq<byte>, limit: nat) {
    && BitlistCheckByteLen(|b|, limit)
    && BitlistCheckLastByte(b[|b| - 1], Sub64(limit, 8 * (|b| - 1)))
  }

  predicate BitlistCheckByteLen(byteLen: nat, bitLimit: nat) {
    byteLen != 0 && byteLen <= bitLimit / 8 + 1
  }

  predicate BitlistCheckLastByte(last: byte, limit: nat) {
    last != 0 && TopBit(last) <= limit
  }

  /** The two checks together accept the delimited strings of at most `limit` bits. */
  lemma BitlistCheckMeaning(b: seq<byte>, limit: nat)
    requires limit < TWO_64
    ensures BitlistCheck(b, limit) <==> b != [] && b[|b| - 1] != 0 && BitlistLen(b) <= limit
    ensures BitlistCheckByteLen(|b|, limit) ==> Sub64(limit, 8 * (|b| - 1)) == limit - 8 * (|b| - 1)
  {
  }

  method IsZeroBitlist(b: seq<byte>) returns (r: bool)
    ensures r <==> forall k :: 0 <= k < BitlistLen(b) ==> !GetBit(b, k)
  {
    if |b| == 0 { return true; }
    var end := |b| - 1;
    for i := 0 to end
      invariant forall j :: 0 <= j < i ==> b[j] == 0
    {
      if b[i] != 0 {
        NonZeroByte(b[i]);
        ghost var k :| 0 <= k < 8 && Bit(b[i], k);
        assert GetBit(b, 8 * i + k);
        return false;
      }
    }
    forall k | 0 <= k < 8 * end ensures !GetBit(b, k) { ShrOfZero(k % 8); }
    var last := b[end];
    if last == 0 { return true; }
    TopBitShr(last);
    WithBitShr(last, TopBit(last), false, 8);
    last := WithBit(last, TopBit(last), false);
    LastByteZero(b, last);
    return last == 0;
  }

  lemma {:induction false} ShrBelowZero(v: nat, j: nat, k: nat)
    requires Shr(v, j) == 0 && j <= k
    ensures Shr(v, k) == 0
  {
    if j < k { ShrBelowZero(v, j, k - 1); }
  }

  lemma {:induction false} NonZero(v: nat, n: nat)
    requires v != 0 && Shr(v, n) == 0
    ensures exists k :: 0 <= k < n && Bit(v, k)
    decreases n
  {
    if v % 2 == 1 {
      if n == 0 { assert false; }
      assert Bit(v, 0);
    } else {
      if n == 0 { assert false; }
      ShrFront(v, n - 1);
      NonZero(v / 2, n - 1);
      var k :| 0 <= k < n - 1 && Bit(v / 2, k);
      ShrFront(v, k);
      assert Bit(v, k + 1);
    }
  }

  lemma NonZeroByte(v: byte)
    requires v != 0
    ensures exists k :: 0 <= k < 8 && Bit(v, k)
  {
    ByteShr(v);
    NonZero(v, 8);
  }

  /** The last byte without its top bit is zero exactly when no bit below the top bit is set. */
  lemma LastByteZero(b: seq<byte>, rest: int)
    requires b != [] && b[|b| - 1] != 0
    requires rest == WithBit(b[|b| - 1], TopBit(b[|b| - 1]), false)
    ensures rest == 0 <==> forall k :: 8 * (|b| - 1) <= k < BitlistLen(b) ==> !GetBit(b, k)
  {
    var last, top := b[|b| - 1], TopBit(b[|b| - 1]);
    TopBitBound(last);
    TopBitShr(last);
    forall m: nat ensures rest >= 0 && (Bit(rest, m) == if m == top then false else Bit(last, m)) {
      WithBitShr(last, top, false, m);
    }
    if rest != 0 {
      WithBitShr(last, top, false, 8);
      ByteShr(last);
      NonZero(rest, 8);
      var k :| 0 <= k < 8 && Bit(rest, k);
      if k > top { ShrBelowZero(last, top + 1, k); }
      assert GetBit(b, 8 * (|b| - 1) + k);
    } else {
      forall k | 8 * (|b| - 1) <= k < BitlistLen(b) ensures !GetBit(b, k) {
        ShrOfZero(k % 8);
        assert !Bit(rest, k % 8);
      }
    }
  }

  // ----- bit sequences

  /** the number whose bit `k` is `bits[k]` */
  function FromBits(bits: seq<bool>): nat {
    if bits == [] then 0 else (if bits[0] then 1 else 0) + 2 * FromBits(bits[1..])
  }

  lemma {:induction false} FromBitsBit(bits: seq<bool>, k: nat)
    ensures Bit(FromBits(bits), k) <==> k < |bits| && bits[k]
    ensures k == |bits| ==> Shr(FromBits(bits), k) == 0
    decreases |bits|
  {
    if bits == [] {
      ShrOfZero(k);
    } else if k > 0 {
      ShrFront(FromBits(bits), k - 1);
      FromBitsBit(bits[1..], k - 1);
    }
  }

  /** A number is determined by its bits. */
  lemma {:induction false} SameBits(v: nat, w: nat, n: nat)
    requires Shr(v, n) == 0 && Shr(w, n) == 0
    requires forall k :: 0 <= k < n ==> Bit(v, k) == Bit(w, k)
    ensures v == w
    decreases n
  {
    if n > 0 {
      forall k | 0 <= k < n - 1 ensures Bit(v / 2, k) == Bit(w / 2, k) {
        ShrFront(v, k);
        ShrFront(w, k);
        assert Bit(v, k + 1) == Bit(w, k + 1);
      }
      ShrFront(v, n - 1);
      ShrFront(w, n - 1);
      assert Bit(v, 0) == Bit(w, 0);
      SameBits(v / 2, w / 2, n - 1);
    }
  }

  function ByteOf(bits: seq<bool>): (b: byte)
    requires |bits| <= 8
    ensures forall k :: 0 <= k < 8 ==> (Bit(b, k) <==> k < |bits| && bits[k])
  {
    forall k: nat ensures Bit(FromBits(bits), k) <==> k < |bits| && bits[k] { FromBitsBit(bits, k); }
    FromBitsBit(bits, |bits|);
    ShrBelowZero(FromBits(bits), |bits|, 8);
    ByteShr(FromBits(bits));
    FromBits(bits)
  }

  /** the bits packed eight to a byte, the last byte filled up with zeroes */
  function PackBits(bits: seq<bool>): (b: seq<byte>)
    ensures |b| == (|bits| + 7) / 8
    ensures forall k :: 0 <= k < 8 * |b| ==> (GetBit(b, k) <==> k < |bits| && bits[k])
    decreases |bits|
  {
    if bits == [] then []
    else if |bits| <= 8 then [ByteOf(bits)]
    else
      var rest := PackBits(bits[8..]);
      var b := [ByteOf(bits[..8])] + rest;
      assert forall k :: 8 <= k < 8 * |b| ==> GetBit(b, k) == GetBit(rest, k - 8);
      b
  }

  /** The serialized form of a bitlist: its bits, and one more bit that marks the end. */
  function BitlistBytes(bits: seq<bool>): seq<byte> {
    PackBits(bits + [true])
  }

  function BitlistBits(b: seq<byte>): seq<bool>
    requires b != []
  {
    seq(BitlistLen(b), i requires 0 <= i < BitlistLen(b) => GetBit(b, i))
  }

  lemma BytesWithSameBits(a: seq<byte>, b: seq<byte>)
    requires |a| == |b| && forall k :: 0 <= k < 8 * |a| ==> GetBit(a, k) == GetBit(b, k)
    ensures a == b
  {
    forall i | 0 <= i < |a| ensures a[i] == b[i] {
      forall k | 0 <= k < 8 ensures Bit(a[i], k) == Bit(b[i], k) {
        assert GetBit(a, 8 * i + k) == GetBit(b, 8 * i + k);
      }
      ByteShr(a[i]);
      ByteShr(b[i]);
      SameBits(a[i], b[i], 8);
    }
  }

  /** A byte whose top set bit is `k`. */
  lemma TopBitFromBits(v: byte, k: nat)
    requires k < 8 && Bit(v, k) && forall m :: k < m < 8 ==> !Bit(v, m)
    ensures TopBit(v) == k && v != 0
  {
    if v == 0 { ShrOfZero(k); }
    TopBitBound(v);
    TopBitShr(v);
    if TopBit(v) < k { ShrBelowZero(v, TopBit(v) + 1, k); }
    assert Bit(v, TopBit(v));
  }

  /** Every bit sequence within the limit is accepted in serialized form, and comes back. */
  lemma BitlistRoundTrip(bits: seq<bool>, limit: nat)
    requires limit < TWO_64
    ensures BitlistBytes(bits) != [] && BitlistBits(BitlistBytes(bits)) == bits
    ensures BitlistCheck(BitlistBytes(bits), limit) <==> |bits| <= limit
  {
    var b := BitlistBytes(bits);
    DelimitedLast(bits);
    BitlistCheckMeaning(b, limit);
    forall i | 0 <= i < |bits| ensures GetBit(b, i) == bits[i] { assert (bits + [true])[i] == bits[i]; }
  }

  /** The top bit of the last byte is the delimiter. */
  lemma DelimitedLast(bits: seq<bool>)
    ensures var b := BitlistBytes(bits); b != [] && b[|b| - 1] != 0 && BitlistLen(b) == |bits|
  {
    var b := BitlistBytes(bits);
    var last := |b| - 1;
    forall m | 0 <= m < 8 ensures Bit(b[last], m) <==> 8 * last + m < |bits| + 1 && (bits + [true])[8 * last + m] {
      assert GetBit(b, 8 * last + m) == Bit(b[last], m);
    }
    TopBitFromBits(b[last], |bits| - 8 * last);
  }

  /** Every accepted byte string is the serialized form of one bit sequence within the limit. */
  lemma BitlistCanonical(b: seq<byte>, limit: nat)
    requires limit < TWO_64 && BitlistCheck(b, limit)
    ensures |BitlistBits(b)| <= limit && BitlistBytes(BitlistBits(b)) == b
  {
    BitlistCheckMeaning(b, limit);
    var bits := BitlistBits(b);
    var last := |b| - 1;
    TopBitBound(b[last]);
    TopBitShr(b[last]);
    forall k | 0 <= k < 8 * |b| ensures GetBit(BitlistBytes(bits), k) == GetBit(b, k) {
      if k > |bits| { ShrBelowZero(b[last], TopBit(b[last]) + 1, k % 8); }
    }
    BytesWithSameBits(BitlistBytes(bits), b);
  }

  // ----- bitvectors

  predicate BitvectorCheck(b: seq<byte>, n: nat) {
    && BitvectorCheckByteLen(|b|, n)
    && (|b| == 0 || BitvectorCheckLastByte(b[|b| - 1], n))
  }

  predicate BitvectorCheckByteLen(byteLen: nat, bitLength: nat) {
    byteLen == (bitLength + 7) / 8
  }

  predicate BitvectorCheckLastByte(last: byte, n: nat) {
    n != 0 && (n % 8 == 0 || Shr(last, n % 8) == 0)
  }

  /** Accepted are the strings of just enough bytes whose bits from `n` on are all zero. */
  lemma BitvectorCheckMeaning(b: seq<byte>, n: nat)
    ensures BitvectorCheck(b, n) <==>
            |b| == (n + 7) / 8 && forall k :: n <= k < 8 * |b| ==> !GetBit(b, k)
  {
    if |b| == (n + 7) / 8 && n % 8 != 0 {
      HighBitsZero(b[|b| - 1], n % 8);
      if BitvectorCheck(b, n) {
      } else {
        var m :| n % 8 <= m < 8 && Bit(b[|b| - 1], m);
        assert GetBit(b, 8 * (|b| - 1) + m);
      }
    }
  }

  lemma HighBitsZero(v: byte, j: nat)
    requires j <= 8
    ensures Shr(v, j) == 0 <==> forall m :: j <= m < 8 ==> !Bit(v, m)
  {
    ByteShr(v);
    if Shr(v, j) == 0 {
      forall m | j <= m < 8 ensures !Bit(v, m) { ShrBelowZero(v, j, m); }
    } else {
      HighBit(v, j, 8);
    }
  }

  lemma {:induction false} HighBit(v: nat, j: nat, n: nat)
    requires j <= n && Shr(v, j) != 0 && Shr(v, n) == 0
    ensures exists m :: j <= m < n && Bit(v, m)
    decreases n - j
  {
    if Bit(v, j) {
    } else {
      HighBit(v, j + 1, n);
    }
  }
}

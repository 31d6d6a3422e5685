/**
 The reader of the decoder (dec/decoder.go).  All scopes of a decoding share one input.  A reader
 that has read `i` of `max` bytes has its scope in the input from `i` bytes back.
 */
module DecodingReading {
  import opened Bits
  import opened Bytes
  import opened Grammar
  import opened Outcomes

  lemma SliceOfScope(data: seq<byte>, base: nat, max: nat, i: nat, count: nat)
    requires i + count <= max && base + max <= |data|
    ensures data[base + i..base + i + count] == data[base..base + max][i..][..count]
  {
  }

  class Input {
    const data: seq<byte>
    var pos: nat

    constructor (data: seq<byte>)
      ensures this.data == data && pos == 0
    {
      this.data, pos := data, 0;
    }
  }

  class DecodingReader {
    const input: Input
    var i: nat
    const max: nat
    var fuzzMode: bool

    /** where the scope of this reader begins in the input */
    ghost function Base(): int
      reads this, input
    {
      input.pos - i
    }

    /** The scope lies in the input. */
    ghost predicate Valid()
      reads this, input
    {
      i <= max < TWO_63 && 0 <= Base() && Base() + max <= |input.data|
    }

    /** the bytes of the scope */
    ghost function Scoped(): (s: seq<byte>)
      requires Valid()
      reads this, input
      ensures |s| == max
    {
      input.data[Base()..Base() + max]
    }

    /** The reader is as it was, but for how far it has read. */
    ghost predicate Kept(base: int, scope: seq<byte>)
      reads this, input
    {
      Valid() && Base() == base && Scoped() == scope
    }

    /** the bytes of the scope that have not been read */
    ghost function Ahead(): (s: seq<byte>)
      requires Valid()
      reads this, input
      ensures |s| == max - i
    {
      Scoped()[i..]
    }

    constructor (input: Input)
      ensures this.input == input && i == 0 && max == TWO_64 - 1 && !fuzzMode
    {
      this.input, i, max, fuzzMode := input, 0, TWO_64 - 1, false;
    }

    constructor Scoping(input: Input, count: nat)
      ensures this.input == input && i == 0 && max == count && !fuzzMode
    {
      this.input, i, max, fuzzMode := input, 0, count, false;
    }

    /** A reader of the next `count` bytes. */
    method Scope(count: nat) returns (r: Option<DecodingReader>)
      requires i <= max
      ensures r.None? <==> max - i < count
      ensures r.Some? ==> fresh(r.value) && r.value.input == input && r.value.i == 0 && r.value.max == count
      ensures r.Some? ==> !r.value.fuzzMode
      ensures r.Some? && Valid() ==> r.value.Valid() && r.value.Ahead() == Ahead()[..count]
    {
      if max - i < count { return None; }
      var scoped := new DecodingReader.Scoping(input, count);
      return Some(scoped);
    }

    method EnableFuzzMode()
      modifies this
      ensures fuzzMode && i == old(i)
    {
      fuzzMode := true;
    }

    /** Catches up with a scope that has been read from here; the sum is that of uint64. */
    method UpdateIndexFromScoped(other: DecodingReader)
      requires other != this
      modifies this
      ensures i == (old(i) + other.i) % TWO_64 && fuzzMode == old(fuzzMode)
      ensures old(i) + other.i < TWO_64 ==> i == old(i) + other.i
    {
      i := (i + other.i) % TWO_64;
    }

    /** Advances the index; the sum is that of uint64. */
    method CheckedIndexUpdate(x: nat) returns (ok: bool)
      requires i <= max < TWO_64 && x < TWO_64
      modifies this
      ensures ok <==> (old(i) + x) % TWO_64 <= max
      ensures i == if ok then (old(i) + x) % TWO_64 else old(i)
      ensures max < TWO_63 && x < TWO_63 ==> (ok <==> old(i) + x <= max) && i == old(i) + if ok then x else 0
      ensures fuzzMode == old(fuzzMode)
    {
      var v := (i + x) % TWO_64;
      if v > max { return false; }
      i := v;
      return true;
    }

    method Read(count: nat) returns (r: Option<seq<byte>>)
      requires Valid() && count < TWO_63
      modifies this, input
      ensures Kept(old(Base()), old(Scoped())) && fuzzMode == old(fuzzMode)
      ensures r == if count <= |old(Ahead())| then Some(old(Ahead())[..count]) else None
      ensures i == old(i) + if r.Some? then count else 0
    {
      ghost var ahead := Ahead();
      if count == 0 {
        assert ahead[..0] == [];
        return Some([]);
      }
      var ok := CheckedIndexUpdate(count);
      if !ok { return None; }
      r := Some(input.data[input.pos..input.pos + count]);
      input.pos := input.pos + count;
      SliceOfScope(input.data, Base(), max, i - count, count);
    }

    /** As `Read`, but the bytes are dropped; a count that is negative as an int64 drops none. */
    method Skip(count: nat) returns (ok: bool)
      requires Valid() && count < TWO_64
      modifies this, input
      ensures count < TWO_63 ==> Kept(old(Base()), old(Scoped()))
      ensures fuzzMode == old(fuzzMode)
      ensures count < TWO_63 ==> (ok <==> count <= |old(Ahead())|)
      ensures count < TWO_63 ==> i == old(i) + if ok then count else 0
      ensures count >= TWO_63 ==> input.pos == old(input.pos) && (ok <==> (old(i) + count) % TWO_64 <= max)
    {
      ok := CheckedIndexUpdate(count);
      if !ok { return; }
      if count < TWO_63 { input.pos := input.pos + count; }
    }

    method ReadByte() returns (r: Option<byte>)
      requires Valid()
      modifies this, input
      ensures Kept(old(Base()), old(Scoped())) && fuzzMode == old(fuzzMode)
      ensures r == if |old(Ahead())| == 0 then None else Some(old(Ahead())[0])
      ensures i == old(i) + if r.Some? then 1 else 0
    {
      var b := Read(1);
      if b.None? { return None; }
      return Some(b.value[0]);
    }

    method ReadOffset() returns (r: Option<nat>)
      requires Valid()
      modifies this, input
      ensures Kept(old(Base()), old(Scoped())) && fuzzMode == old(fuzzMode)
      ensures r == if |old(Ahead())| < BYTES_PER_LENGTH_OFFSET then None
                   else Some(FromLE(old(Ahead())[..BYTES_PER_LENGTH_OFFSET]))
      ensures i == old(i) + if r.Some? then BYTES_PER_LENGTH_OFFSET else 0
    {
      var b := Read(BYTES_PER_LENGTH_OFFSET);
      if b.None? { return None; }
      return Some(FromLE(b.value));
    }

    /** how much can still be read */
    function BytesSpan(): (n: nat)
      requires i <= max
      reads this
    {
      max - i
    }
  }
}

/** The writer of the encoder (enc/encoder.go): it counts what it writes, and checks offsets. */
module EncodingWriting {
  import opened Bytes
  import opened Grammar
  import opened Serialization
  import opened Outcomes

  class EncodingWriter {
    var sink: seq<byte>  // what has been written to the underlying writer
    var n: nat           // the count of bytes written

    ghost predicate Valid()
      reads this
    {
      n == |sink|
    }

    constructor ()
      ensures Valid() && sink == []
    {
      sink, n := [], 0;
    }

    method Write(p: seq<byte>)
      requires Valid()
      modifies this
      ensures Valid() && sink == old(sink) + p
    {
      sink := sink + p;
      n := n + |p|;
    }

    /** Writes the offset of an element that follows one of `elemLen` bytes at `prevOffset`. */
    method WriteOffset(prevOffset: nat, elemLen: nat) returns (r: Outcome<nat>)
      requires Valid()
      modifies this
      ensures Valid()
      ensures r == if prevOffset + elemLen < OFFSET_LIMIT then Done(prevOffset + elemLen) else Panic
      ensures r.Done? ==> sink == old(sink) + LE(r.value, BYTES_PER_LENGTH_OFFSET)
      ensures r.Panic? ==> sink == old(sink)
    {
      if prevOffset >= OFFSET_LIMIT { return Panic; }
      if elemLen >= OFFSET_LIMIT { return Panic; }
      var offset := prevOffset + elemLen;
      if offset >= OFFSET_LIMIT { return Panic; }
      Write(LE(offset, BYTES_PER_LENGTH_OFFSET));
      return Done(offset);
    }
  }
}

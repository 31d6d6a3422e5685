/**
 What decoding delivers, as a function of the bytes in scope: the value and the number of bytes
 read, or a rejection.  It takes the same decisions as the decoder (types package), which
 is proved to compute it in `Decoder`.
 */
module Parsing {
  import opened Bits
  import opened Bytes
  import opened Bitfields
  import opened Grammar
  import opened Serialization
  import opened Outcomes

  datatype Parsed = Reject | Accept(v: Value, n: nat)
  datatype ParsedParts = RejectParts | AcceptParts(vs: seq<Value>, n: nat)

  datatype ParsedHeads = RejectHeads | AcceptHeads(slots: seq<Slot>, n: nat)

  function ParseLeaf(t: SszType, s: seq<byte>): (r: Parsed)
    requires !t.Composite()
    ensures r.Accept? ==> r.n <= |s|
  {
    match t
    case Scalar(k) =>
      if |s| < k.Size() then Reject else
      var n := FromLE(s[..k.Size()]);
      if k.InRange(n) then Accept(Num(n), k.Size()) else Reject
    case BytesN(n) =>
      if |s| < n then Reject else Accept(Raw(s[..n]), n)
    case Bitvector(bits) =>
      var n := (bits + 7) / 8;
      if |s| < n || !BitvectorCheck(s[..n], bits) then Reject else Accept(Raw(s[..n]), n)
    case Bytes(limit) =>
      if |s| > limit then Reject else Accept(Raw(s), |s|)
    case Bitlist(limit) =>
      if BitlistCheck(s, limit) then Accept(Raw(s), |s|) else Reject
    case BasicVector(k, count) =>
      ParseSeries(k, count, s)
    case BasicList(k, limit) =>
      if |s| % k.Size() != 0 || |s| > limit * k.Size() then Reject
      else ParseSeries(k, |s| / k.Size(), s)
  }

  /** A series of basic elements; only booleans can be out of range. */
  function ParseSeries(k: Basic, count: nat, s: seq<byte>): (r: Parsed)
    ensures r.Accept? ==> r.n <= |s|
  {
    var n := count * k.Size();
    if |s| < n then Reject else
    var ns := Unpack(k.Size(), count, s[..n]);
    if InRangeAll(k, ns) then Accept(Nums(ns), n) else Reject
  }

  /** the number of parts that the type or, for a list, the bytes call for */
  function PartCount(t: SszType, s: seq<byte>): Option<nat>
    requires t.Composite()
  {
    match t
    case Vector(_, n) => Some(n)
    case Container(ts) => Some(|ts|)
    case List(e, limit) =>
      var count := if IsFixed(e) then FixedElemCount(e, s) else VarElemCount(e, s);
      if count.Some? && count.value <= limit then count else None
  }

  function FixedElemCount(e: SszType, s: seq<byte>): Option<nat> {
    if FixedLen(e) == 0 then None else Some(|s| / FixedLen(e))
  }

  /** The first offset tells how many offsets there are. */
  function VarElemCount(e: SszType, s: seq<byte>): Option<nat> {
    if s == [] then Some(0)
    else if |s| < BYTES_PER_LENGTH_OFFSET then None
    else
      var first := FromLE(s[..BYTES_PER_LENGTH_OFFSET]);
      var count := first / BYTES_PER_LENGTH_OFFSET;
      if first > |s| || first % BYTES_PER_LENGTH_OFFSET != 0 || count == 0 then None
      else if FixedLen(e) * count % TWO_64 > |s| then None
      else Some(count)
  }

  /** Series of variable-size elements have to end at the end of the scope. */
  predicate MustFill(t: SszType) {
    (t.Vector? || t.List?) && !IsFixed(t.elem)
  }

  function Parse(t: SszType, s: seq<byte>): (r: Parsed)
    ensures r.Accept? ==> r.n <= |s|
    decreases Height(t), 0, 0
  {
    if !t.Composite() then ParseLeaf(t, s)
    else
      match PartCount(t, s)
      case None => Reject
      case Some(count) =>
        match ParseParts(Parts(t, count), s)
        case RejectParts => Reject
        case AcceptParts(vs, n) => if MustFill(t) && n != |s| then Reject else Accept(Elems(vs), n)
  }

  function ParseParts(ts: seq<SszType>, s: seq<byte>): (r: ParsedParts)
    ensures r.AcceptParts? ==> r.n <= |s| && |r.vs| == |ts|
    decreases MaxHeight(ts), 2, 0
  {
    match ParseHeads(ts, s)
    case RejectHeads => RejectParts
    case AcceptHeads(slots, n) => ParseTails(ts, slots, s, n)
  }

  /** The fixed-size section at the start of `s`. */
  function ParseHeads(ts: seq<SszType>, s: seq<byte>): (r: ParsedHeads)
    ensures r.AcceptHeads? ==> r.n <= |s| && |r.slots| == |ts|
    decreases MaxHeight(ts), 1, |ts|
  {
    if ts == [] then AcceptHeads([], 0)
    else
      match ParseHead(ts[0], s)
      case RejectHeads => RejectHeads
      case AcceptHeads(slots, n) => Behind(slots, n, ParseHeads(ts[1..], s[n..]))
  }

  /** A fixed-size part, or an offset. */
  function ParseHead(t: SszType, s: seq<byte>): (r: ParsedHeads)
    ensures r.AcceptHeads? ==> r.n <= |s| && |r.slots| == 1
    decreases Height(t), 1, 0
  {
    if IsFixed(t) then
      match Parse(t, s)
      case Reject => RejectHeads
      case Accept(v, n) => AcceptHeads([Inline(v)], n)
    else if |s| < BYTES_PER_LENGTH_OFFSET then RejectHeads
    else AcceptHeads([Offset(FromLE(s[..BYTES_PER_LENGTH_OFFSET]))], BYTES_PER_LENGTH_OFFSET)
  }

  /** What is read when `slots` were read from the `n` bytes before `r`. */
  function Behind(slots: seq<Slot>, n: nat, r: ParsedHeads): ParsedHeads {
    if r.RejectHeads? then r else AcceptHeads(slots + r.slots, n + r.n)
  }

  function Offsets(slots: seq<Slot>): seq<nat> {
    if slots == [] then []
    else if slots[0].Offset? then [slots[0].o] + Offsets(slots[1..])
    else Offsets(slots[1..])
  }

  /** The end of a variable-size part: the next offset, or the end of the scope. */
  function NextOffset(slots: seq<Slot>, end: nat): nat {
    if Offsets(slots) == [] then end else Offsets(slots)[0]
  }

  /** The variable-size parts, of which the first has to be at `c`, where reading has come to. */
  function ParseTails(ts: seq<SszType>, slots: seq<Slot>, s: seq<byte>, c: nat): (r: ParsedParts)
    requires |slots| == |ts| && c <= |s|
    ensures r.AcceptParts? ==> c <= r.n <= |s| && |r.vs| == |ts|
    decreases MaxHeight(ts), 1, |ts|
  {
    if ts == [] then AcceptParts([], c)
    else if slots[0].Inline? then
      After([slots[0].v], ParseTails(ts[1..], slots[1..], s, c))
    else
      var end := NextOffset(slots[1..], |s|);
      if slots[0].o != c || end < c || end > |s| then RejectParts
      else
        match Parse(ts[0], s[c..end])
        case Reject => RejectParts
        case Accept(v, n) => After([v], ParseTails(ts[1..], slots[1..], s, c + n))
  }

  /** What is parsed when `vs` were parsed before `r`. */
  function After(vs: seq<Value>, r: ParsedParts): ParsedParts {
    if r.RejectParts? then r else AcceptParts(vs + r.vs, r.n)
  }

  /** `ParseTails` at a variable-size part, which is `p`, in `s[c..end]` */
  lemma TailAt(ts: seq<SszType>, slots: seq<Slot>, s: seq<byte>, c: nat, end: nat, p: Parsed)
    requires |slots| == |ts| > 0 && c <= end <= |s| && p == Parse(ts[0], s[c..end])
    requires slots[0] == Offset(c) && NextOffset(slots[1..], |s|) == end
    ensures ParseTails(ts, slots, s, c) ==
            if p.Reject? then RejectParts else After([p.v], ParseTails(ts[1..], slots[1..], s, c + p.n))
  {
  }
}

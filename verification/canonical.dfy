/**
 Canonical decoding: whatever is accepted is well-formed and legal, and the bytes read are exactly its
 serialized form.
 */
module Canonical {
  import opened Bits
  import opened Bytes
  import opened Bitfields
  import opened Grammar
  import opened Serialization
  import opened Parsing

  /** `b` is the serialized form of the legal value `v`, and all of its offsets can be written. */
  ghost predicate Encodes(t: SszType, v: Value, b: seq<byte>) {
    Typed(t, v) && Legal(t, v) && Encodable(t, v) && Serialize(t, v) == b
  }

  lemma LeafSound(t: SszType, s: seq<byte>)
    requires !t.Composite() && ParseLeaf(t, s).Accept?
    ensures Encodes(t, ParseLeaf(t, s).v, s[..ParseLeaf(t, s).n])
  {
    match t
    case Scalar(k) => LEOfFromLE(s[..k.Size()]);
    case BasicVector(k, count) => SeriesSound(k, count, s);
    case BasicList(k, limit) =>
      SeriesSound(k, |s| / k.Size(), s);
      CountWithinLimit(|s|, k.Size(), limit);
    case _ =>
  }

  lemma SeriesSound(k: Basic, count: nat, s: seq<byte>)
    requires ParseSeries(k, count, s).Accept?
    ensures var r := ParseSeries(k, count, s);
            && r.n == count * k.Size()
            && r.v.Nums? && |r.v.ns| == count && InRangeAll(k, r.v.ns) && Pack(k.Size(), r.v.ns) == s[..r.n]
  {
    PackOfUnpack(k.Size(), count, s[..count * k.Size()]);
  }

  lemma CountWithinLimit(len: nat, size: nat, limit: nat)
    requires size > 0 && len % size == 0 && len <= limit * size
    ensures len / size <= limit && len / size * size == len
  {
    var n := len / size;
    assert n * size == len;
    assert n > limit ==> n * size >= (limit + 1) * size;
  }

  /** what the fixed-size section may hold for a part */
  ghost predicate GoodSlot(t: SszType, slot: Slot) {
    if IsFixed(t) then
      slot.Inline? && Typed(t, slot.v) && Legal(t, slot.v) && Encodable(t, slot.v)
    else
      slot.Offset? && slot.o < OFFSET_LIMIT
  }

  ghost predicate GoodSlots(ts: seq<SszType>, slots: seq<Slot>) {
    |slots| == |ts| && (ts == [] || (GoodSlot(ts[0], slots[0]) && GoodSlots(ts[1..], slots[1..])))
  }

  /** `r` is what is read from the fixed-size section `b`. */
  ghost predicate Read(ts: seq<SszType>, b: seq<byte>, r: ParsedHeads) {
    r.AcceptHeads? && r.n == HeadsLen(ts) && GoodSlots(ts, r.slots) && Heads(ts, r.slots) == b
  }

  lemma SlotInFront(ts: seq<SszType>, slot: Slot, b: seq<byte>, c: seq<byte>, rest: ParsedHeads)
    requires ts != [] && GoodSlot(ts[0], slot) && Head(ts[0], slot) == b && |b| == HeadLen(ts[0])
    requires Read(ts[1..], c, rest)
    ensures Read(ts, b + c, Behind([slot], |b|, rest))
  {
    var slots := [slot] + rest.slots;
    assert slots[0] == slot && slots[1..] == rest.slots;
  }

  lemma {:induction false} HeadSound(t: SszType, s: seq<byte>)
    requires ParseHead(t, s).AcceptHeads?
    ensures var r := ParseHead(t, s);
            && r.n == HeadLen(t) && r.slots == [r.slots[0]]
            && GoodSlot(t, r.slots[0]) && Head(t, r.slots[0]) == s[..r.n]
    decreases Height(t), 1, 0
  {
    if IsFixed(t) {
      ParseSound(t, s);
      SerializeLen(t, Parse(t, s).v);
    } else {
      OffsetSound(s[..BYTES_PER_LENGTH_OFFSET]);
    }
  }

  /** The fixed-size section that starts with the part `h`. */
  lemma HeadsSplit(ts: seq<SszType>, s: seq<byte>, h: ParsedHeads, rest: ParsedHeads)
    requires ts != [] && h == ParseHead(ts[0], s) && h.AcceptHeads? && rest == ParseHeads(ts[1..], s[h.n..])
    ensures ParseHeads(ts, s) == Behind(h.slots, h.n, rest)
    ensures rest.AcceptHeads? ==> s[..h.n] + s[h.n..][..rest.n] == s[..h.n + rest.n]
  {
  }

  lemma {:induction false} HeadsSound(ts: seq<SszType>, s: seq<byte>)
    requires ParseHeads(ts, s).AcceptHeads?
    ensures Read(ts, s[..ParseHeads(ts, s).n], ParseHeads(ts, s))
    decreases MaxHeight(ts), 1, |ts|
  {
    if ts != [] {
      var h := ParseHead(ts[0], s);
      HeadSound(ts[0], s);
      HeadsSound(ts[1..], s[h.n..]);
      HeadsSoundStep(ts, s, h, ParseHeads(ts[1..], s[h.n..]));
    }
  }

  lemma HeadsSoundStep(ts: seq<SszType>, s: seq<byte>, h: ParsedHeads, rest: ParsedHeads)
    requires ts != [] && h == ParseHead(ts[0], s) && h.AcceptHeads? && rest == ParseHeads(ts[1..], s[h.n..])
    requires h.n == HeadLen(ts[0]) && h.slots == [h.slots[0]]
    requires GoodSlot(ts[0], h.slots[0]) && Head(ts[0], h.slots[0]) == s[..h.n]
    requires rest.AcceptHeads? && Read(ts[1..], s[h.n..][..rest.n], rest)
    ensures Read(ts, s[..ParseHeads(ts, s).n], ParseHeads(ts, s))
  {
    HeadsSplit(ts, s, h, rest);
    SlotInFront(ts, h.slots[0], s[..h.n], s[h.n..][..rest.n], rest);
  }

  lemma OffsetSound(s: seq<byte>)
    requires |s| == BYTES_PER_LENGTH_OFFSET
    ensures FromLE(s) < OFFSET_LIMIT && LE(FromLE(s), BYTES_PER_LENGTH_OFFSET) == s
  {
    LEOfFromLE(s);
    Pow256Of4();
  }

  /** The parts `r` are where the slots say, and are the bytes `b` from `c` on. */
  ghost predicate Laid(ts: seq<SszType>, slots: seq<Slot>, r: ParsedParts, b: seq<byte>, c: nat) {
    && r.AcceptParts?
    && TypedAll(ts, r.vs) && LegalAll(ts, r.vs) && EncodableAll(ts, r.vs, c)
    && slots == Slots(ts, r.vs, c)
    && b == Tails(ts, r.vs)
  }

  lemma InlineInFront(ts: seq<SszType>, slots: seq<Slot>, b: seq<byte>, c: nat, rest: ParsedParts)
    requires ts != [] && slots != [] && GoodSlot(ts[0], slots[0]) && IsFixed(ts[0])
    requires Laid(ts[1..], slots[1..], rest, b, c)
    ensures Laid(ts, slots, After([slots[0].v], rest), b, c)
  {
    var vs := [slots[0].v] + rest.vs;
    assert vs[0] == slots[0].v && vs[1..] == rest.vs;
    assert slots == [slots[0]] + slots[1..];
  }

  lemma OffsetInFront(ts: seq<SszType>, slots: seq<Slot>, first: Parsed, b: seq<byte>, b': seq<byte>, whole: seq<byte>,
                      c: nat, rest: ParsedParts)
    requires ts != [] && slots != [] && slots[0] == Offset(c) && c < OFFSET_LIMIT && !IsFixed(ts[0])
    requires first.Accept? && first.n == |b| && Encodes(ts[0], first.v, b)
    requires Laid(ts[1..], slots[1..], rest, b', c + first.n) && whole == b + b'
    ensures Laid(ts, slots, After([first.v], rest), whole, c)
  {
    var vs := [first.v] + rest.vs;
    assert vs[0] == first.v && vs[1..] == rest.vs;
    assert slots == [slots[0]] + slots[1..];
  }

  lemma {:induction false} TailsSound(ts: seq<SszType>, slots: seq<Slot>, s: seq<byte>, c: nat)
    requires c <= |s| && GoodSlots(ts, slots)
    requires ParseTails(ts, slots, s, c).AcceptParts?
    ensures Laid(ts, slots, ParseTails(ts, slots, s, c), s[c..ParseTails(ts, slots, s, c).n], c)
    decreases MaxHeight(ts), 1, |ts|
  {
    if ts != [] {
      if IsFixed(ts[0]) {
        var rest := ParseTails(ts[1..], slots[1..], s, c);
        TailsSound(ts[1..], slots[1..], s, c);
        InlineInFront(ts, slots, s[c..rest.n], c, rest);
      } else {
        var end := NextOffset(slots[1..], |s|);
        OffsetScope(ts, slots, s, c, end);
        var first := Parse(ts[0], s[c..end]);
        OffsetSplit(ts, slots, s, c, end, first);
        ParseSound(ts[0], s[c..end]);
        TailsSound(ts[1..], slots[1..], s, c + first.n);
        var rest := ParseTails(ts[1..], slots[1..], s, c + first.n);
        Adjacent(s, c, end, first.n, rest.n);
        OffsetInFront(ts, slots, first, s[c..end][..first.n], s[c + first.n..rest.n], s[c..rest.n], c, rest);
      }
    }
  }

  /** An accepted variable-size part is where reading has come to, and its scope lies in `s`. */
  lemma OffsetScope(ts: seq<SszType>, slots: seq<Slot>, s: seq<byte>, c: nat, end: nat)
    requires ts != [] && c <= |s| && GoodSlots(ts, slots) && !IsFixed(ts[0])
    requires ParseTails(ts, slots, s, c).AcceptParts? && end == NextOffset(slots[1..], |s|)
    ensures slots[0] == Offset(c) && c <= end <= |s|
  {
  }

  lemma OffsetSplit(ts: seq<SszType>, slots: seq<Slot>, s: seq<byte>, c: nat, end: nat, first: Parsed)
    requires ts != [] && c <= end <= |s| && GoodSlots(ts, slots) && slots[0] == Offset(c)
    requires ParseTails(ts, slots, s, c).AcceptParts? && end == NextOffset(slots[1..], |s|)
    requires first == Parse(ts[0], s[c..end])
    ensures first.Accept?
    ensures ParseTails(ts, slots, s, c) == After([first.v], ParseTails(ts[1..], slots[1..], s, c + first.n))
  {
  }

  lemma Adjacent(s: seq<byte>, c: nat, end: nat, n: nat, m: nat)
    requires c + n <= end <= |s| && c + n <= m <= |s|
    ensures s[c..end][..n] + s[c + n..m] == s[c..m] && |s[c..end][..n]| == n
  {
  }

  lemma {:induction false} PartsSound(ts: seq<SszType>, s: seq<byte>)
    requires ParseParts(ts, s).AcceptParts?
    ensures var r := ParseParts(ts, s);
            && TypedAll(ts, r.vs) && LegalAll(ts, r.vs) && EncodableAll(ts, r.vs, HeadsLen(ts))
            && s[..r.n] == Heads(ts, Slots(ts, r.vs, HeadsLen(ts))) + Tails(ts, r.vs)
    decreases MaxHeight(ts), 2, 0
  {
    var h, r := ParseHeads(ts, s), ParseParts(ts, s);
    HeadsSound(ts, s);
    TailsSound(ts, h.slots, s, h.n);
    assert s[..r.n] == s[..h.n] + s[h.n..r.n];
  }

  /** The main result, for every type and every byte string. */
  lemma {:induction false} ParseSound(t: SszType, s: seq<byte>)
    requires Parse(t, s).Accept?
    ensures Encodes(t, Parse(t, s).v, s[..Parse(t, s).n])
    decreases Height(t), 0, 0
  {
    if t.Composite() {
      PartsSound(Parts(t, PartCount(t, s).value), s);
    } else {
      LeafSound(t, s);
    }
  }
}

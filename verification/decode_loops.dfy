/** The state of a decoding loop, in terms of what parsing from there on would deliver. */
module DecodeLoops {
  import opened Bytes
  import opened Grammar
  import opened Serialization
  import opened Parsing
  import opened PartLemmas
  import opened Outcomes

  /** `slots` have been read from the first `c` bytes of `s`. */
  ghost predicate HeadsRead(ts: seq<SszType>, s: seq<byte>, slots: seq<Slot>, c: nat) {
    && |slots| <= |ts| && c <= |s|
    && ParseHeads(ts, s) == Behind(slots, c, ParseHeads(ts[|slots|..], s[c..]))
  }

  lemma HeadsReadBegin(ts: seq<SszType>, s: seq<byte>)
    ensures HeadsRead(ts, s, [], 0)
  {
    assert ts[0..] == ts && s[0..] == s;
    if ParseHeads(ts, s).AcceptHeads? { assert [] + ParseHeads(ts, s).slots == ParseHeads(ts, s).slots; }
  }

  lemma HeadsReadOn(ts: seq<SszType>, s: seq<byte>, slots: seq<Slot>, c: nat, r: ParsedHeads)
    requires HeadsRead(ts, s, slots, c) && |slots| < |ts| && r == ParseHead(ts[|slots|], s[c..])
    ensures r.RejectHeads? ==> ParseHeads(ts, s).RejectHeads?
    ensures r.AcceptHeads? ==> HeadsRead(ts, s, slots + r.slots, c + r.n)
  {
    HeadsStep(ts, s, |slots|, c, r);
    if r.AcceptHeads? {
      assert |slots + r.slots| == |slots| + 1;
      BehindBehind(slots, c, r.slots, r.n, ParseHeads(ts[|slots| + 1..], s[c + r.n..]));
    }
  }

  lemma HeadsStep(ts: seq<SszType>, s: seq<byte>, k: nat, c: nat, r: ParsedHeads)
    requires k < |ts| && c <= |s| && r == ParseHead(ts[k], s[c..])
    ensures ParseHeads(ts[k..], s[c..]) ==
            if r.RejectHeads? then RejectHeads else Behind(r.slots, r.n, ParseHeads(ts[k + 1..], s[c + r.n..]))
  {
    DropOne(ts, k);
    if r.AcceptHeads? { assert s[c..][r.n..] == s[c + r.n..]; }
  }

  lemma BehindBehind(slots: seq<Slot>, c: nat, more: seq<Slot>, n: nat, rest: ParsedHeads)
    ensures Behind(slots, c, Behind(more, n, rest)) == Behind(slots + more, c + n, rest)
  {
    if rest.AcceptHeads? { assert slots + (more + rest.slots) == (slots + more) + rest.slots; }
  }

  lemma HeadsReadEnd(ts: seq<SszType>, s: seq<byte>, slots: seq<Slot>, c: nat)
    requires HeadsRead(ts, s, slots, c) && |slots| == |ts|
    ensures ParseHeads(ts, s) == AcceptHeads(slots, c)
  {
    assert slots + [] == slots;
  }

  /** `vs` have been parsed, up to byte `c` of `s`. */
  ghost predicate TailsRead(ts: seq<SszType>, slots: seq<Slot>, s: seq<byte>, c0: nat, vs: seq<Value>, c: nat) {
    && |vs| <= |ts| == |slots| && c0 <= |s| && c <= |s|
    && ParseTails(ts, slots, s, c0) == After(vs, ParseTails(ts[|vs|..], slots[|vs|..], s, c))
  }

  lemma TailsReadBegin(ts: seq<SszType>, slots: seq<Slot>, s: seq<byte>, c0: nat)
    requires |slots| == |ts| && c0 <= |s|
    ensures TailsRead(ts, slots, s, c0, [], c0)
  {
    assert ts[0..] == ts && slots[0..] == slots;
    var r := ParseTails(ts, slots, s, c0);
    if r.AcceptParts? { assert [] + r.vs == r.vs; }
  }

  lemma AfterAfter(vs: seq<Value>, v: Value, r: ParsedParts)
    ensures After(vs, After([v], r)) == After(vs + [v], r)
  {
    if r.AcceptParts? { assert vs + ([v] + r.vs) == (vs + [v]) + r.vs; }
  }

  lemma TailsReadInline(ts: seq<SszType>, slots: seq<Slot>, s: seq<byte>, c0: nat, vs: seq<Value>, c: nat)
    requires TailsRead(ts, slots, s, c0, vs, c) && |vs| < |ts| && slots[|vs|].Inline?
    ensures TailsRead(ts, slots, s, c0, vs + [slots[|vs|].v], c)
  {
    var k := |vs|;
    DropOne(ts, k);
    DropOne(slots, k);
    AfterAfter(vs, slots[k].v, ParseTails(ts[k + 1..], slots[k + 1..], s, c));
  }

  /** A variable-size part that ends at `end` is rejected unless its offset and `end` fit. */
  lemma TailsReadMisfit(ts: seq<SszType>, slots: seq<Slot>, s: seq<byte>, c0: nat, vs: seq<Value>, c: nat, end: nat)
    requires TailsRead(ts, slots, s, c0, vs, c) && |vs| < |ts| && slots[|vs|].Offset?
    requires NextOffset(slots[|vs| + 1..], |s|) == end
    requires slots[|vs|].o != c || end < c || end > |s|
    ensures ParseTails(ts, slots, s, c0).RejectParts?
  {
    DropOne(slots, |vs|);
  }

  /** What comes of part `k`, which is `p` and lies in `s[c..end]`. */
  lemma TailStep(ts: seq<SszType>, slots: seq<Slot>, s: seq<byte>, k: nat, c: nat, end: nat, p: Parsed)
    requires k < |ts| == |slots| && c <= end <= |s| && p == Parse(ts[k], s[c..end])
    requires slots[k] == Offset(c) && NextOffset(slots[k + 1..], |s|) == end
    ensures ParseTails(ts[k..], slots[k..], s, c) ==
            if p.Reject? then RejectParts else After([p.v], ParseTails(ts[k + 1..], slots[k + 1..], s, c + p.n))
  {
    DropOne(ts, k);
    DropOne(slots, k);
    TailAt(ts[k..], slots[k..], s, c, end, p);
  }

  lemma TailsReadOffset(ts: seq<SszType>, slots: seq<Slot>, s: seq<byte>, c0: nat, vs: seq<Value>, c: nat, end: nat)
    requires TailsRead(ts, slots, s, c0, vs, c) && |vs| < |ts|
    requires slots[|vs|] == Offset(c) && NextOffset(slots[|vs| + 1..], |s|) == end && c <= end <= |s|
    ensures match Parse(ts[|vs|], s[c..end])
            case Reject => ParseTails(ts, slots, s, c0).RejectParts?
            case Accept(v, n) => TailsRead(ts, slots, s, c0, vs + [v], c + n)
  {
    var k, p := |vs|, Parse(ts[|vs|], s[c..end]);
    TailStep(ts, slots, s, k, c, end, p);
    if p.Accept? { AfterAfter(vs, p.v, ParseTails(ts[k + 1..], slots[k + 1..], s, c + p.n)); }
  }

  /** All that can come of the next part `p`, in a scope of the length `scope` unless its offset or `end` misfit. */
  lemma TailsReadOn(ts: seq<SszType>, slots: seq<Slot>, s: seq<byte>, c0: nat, vs: seq<Value>, c: nat, end: nat,
                    scope: Option<nat>, p: Parsed)
    requires TailsRead(ts, slots, s, c0, vs, c) && |vs| < |ts|
    requires slots[|vs|].Offset? && NextOffset(slots[|vs| + 1..], |s|) == end
    requires scope == if slots[|vs|].o != c || end < c || end > |s| then None else Some(end - c)
    requires p == if scope.None? then Reject else Parse(ts[|vs|], s[c..][..scope.value])
    ensures p.Reject? ==> ParseTails(ts, slots, s, c0).RejectParts?
    ensures p.Accept? ==> TailsRead(ts, slots, s, c0, vs + [p.v], c + p.n)
  {
    if scope.None? {
      TailsReadMisfit(ts, slots, s, c0, vs, c, end);
    } else {
      assert s[c..][..scope.value] == s[c..end];
      TailsReadOffset(ts, slots, s, c0, vs, c, end);
    }
  }

  lemma TailsReadEnd(ts: seq<SszType>, slots: seq<Slot>, s: seq<byte>, c0: nat, vs: seq<Value>, c: nat)
    requires TailsRead(ts, slots, s, c0, vs, c) && |vs| == |ts|
    ensures ParseTails(ts, slots, s, c0) == AcceptParts(vs, c)
  {
    assert vs + [] == vs;
  }

  function Inlines(vs: seq<Value>): (slots: seq<Slot>)
    ensures |slots| == |vs|
  {
    if vs == [] then [] else [Inline(vs[0])] + Inlines(vs[1..])
  }

  lemma {:induction false} InlinesPlus(vs: seq<Value>, v: Value)
    ensures Inlines(vs + [v]) == Inlines(vs) + [Inline(v)]
  {
    if vs == [] {
      assert vs + [v] == [v] && Inlines([v][1..]) == [];
    } else {
      assert (vs + [v])[1..] == vs[1..] + [v];
      InlinesPlus(vs[1..], v);
    }
  }

  lemma {:induction false} InlineTails(ts: seq<SszType>, vs: seq<Value>, s: seq<byte>, c: nat)
    requires |ts| == |vs| && c <= |s|
    ensures ParseTails(ts, Inlines(vs), s, c) == AcceptParts(vs, c)
    decreases |ts|
  {
    if ts != [] {
      assert Inlines(vs)[1..] == Inlines(vs[1..]);
      InlineTails(ts[1..], vs[1..], s, c);
      assert vs == [vs[0]] + vs[1..];
    }
  }

  /** The next part of the fixed-size section is `h`; the section began at `i0`. */
  lemma SlotOn(ts: seq<SszType>, whole: seq<byte>, i0: nat, slots: seq<Slot>, c: nat, h: ParsedHeads)
    requires i0 + c <= |whole| && HeadsRead(ts, whole[i0..], slots, c)
    requires |slots| < |ts| && h == ParseHead(ts[|slots|], whole[i0 + c..])
    ensures h.RejectHeads? ==> ParseHeads(ts, whole[i0..]).RejectHeads?
    ensures h.AcceptHeads? ==> HeadsRead(ts, whole[i0..], slots + h.slots, c + h.n)
  {
    var s := whole[i0..];
    assert whole[i0 + c..] == s[c..];
    HeadsReadOn(ts, s, slots, c, h);
  }

  function HeadOf(p: Parsed): ParsedHeads {
    if p.Reject? then RejectHeads else AcceptHeads([Inline(p.v)], p.n)
  }

  lemma HeadOfFixed(t: SszType, s: seq<byte>)
    requires IsFixed(t)
    ensures ParseHead(t, s) == HeadOf(Parse(t, s))
  {
  }

  /** The next of a series of fixed-size elements is `p`. */
  lemma FixedOn(ts: seq<SszType>, whole: seq<byte>, i0: nat, vs: seq<Value>, c: nat, p: Parsed)
    requires i0 + c <= |whole| && HeadsRead(ts, whole[i0..], Inlines(vs), c)
    requires |vs| < |ts| && IsFixed(ts[|vs|]) && p == Parse(ts[|vs|], whole[i0 + c..])
    ensures p.Reject? ==> ParseHeads(ts, whole[i0..]).RejectHeads?
    ensures p.Accept? ==> HeadsRead(ts, whole[i0..], Inlines(vs + [p.v]), c + p.n)
  {
    var h := HeadOf(p);
    assert h == ParseHead(ts[|vs|], whole[i0 + c..]) by { HeadOfFixed(ts[|vs|], whole[i0 + c..]); }
    SlotOn(ts, whole, i0, Inlines(vs), c, h);
    if p.Accept? { InlinesPlus(vs, p.v); }
  }

  /** The values `vs` have been read from the bytes from `i0` to `i`. */
  ghost predicate SeriesRead(ts: seq<SszType>, whole: seq<byte>, i0: nat, vs: seq<Value>, i: nat) {
    i0 <= i <= |whole| && HeadsRead(ts, whole[i0..], Inlines(vs), i - i0)
  }

  lemma ElemOn(ts: seq<SszType>, whole: seq<byte>, i0: nat, vs: seq<Value>, i: nat, p: Parsed)
    requires SeriesRead(ts, whole, i0, vs, i)
    requires |vs| < |ts| && IsFixed(ts[|vs|]) && p == Parse(ts[|vs|], whole[i..])
    ensures p.Reject? ==> ParseParts(ts, whole[i0..]).RejectParts?
    ensures p.Accept? ==> SeriesRead(ts, whole, i0, vs + [p.v], i + p.n)
  {
    var c := i - i0;
    assert whole[i0 + c..] == whole[i..];
    FixedOn(ts, whole, i0, vs, c, p);
    if p.Reject? { PartsRejected(ts, whole[i0..]); }
  }

  lemma PartsRejected(ts: seq<SszType>, s: seq<byte>)
    requires ParseHeads(ts, s).RejectHeads?
    ensures ParseParts(ts, s).RejectParts?
  {
  }

  lemma FixedEnd(ts: seq<SszType>, s: seq<byte>, vs: seq<Value>, c: nat)
    requires HeadsRead(ts, s, Inlines(vs), c) && |vs| == |ts|
    ensures ParseParts(ts, s) == AcceptParts(vs, c)
  {
    HeadsReadEnd(ts, s, Inlines(vs), c);
    InlineTails(ts, vs, s, c);
  }

  /** the slots of a series of variable-size elements */
  function OffsetSlots(os: seq<nat>): (slots: seq<Slot>)
    ensures |slots| == |os| && forall i :: 0 <= i < |os| ==> slots[i] == Offset(os[i])
  {
    seq(|os|, i requires 0 <= i < |os| => Offset(os[i]))
  }

  lemma {:induction false} OffsetsOfSlots(os: seq<nat>)
    ensures Offsets(OffsetSlots(os)) == os
  {
    if os != [] {
      assert OffsetSlots(os)[1..] == OffsetSlots(os[1..]);
      OffsetsOfSlots(os[1..]);
    }
  }

  lemma NextOffsetInSeries(os: seq<nat>, k: nat, end: nat)
    requires k < |os|
    ensures NextOffset(OffsetSlots(os)[k + 1..], end) == if k + 1 < |os| then os[k + 1] else end
  {
    assert OffsetSlots(os)[k + 1..] == OffsetSlots(os[k + 1..]);
    OffsetsOfSlots(os[k + 1..]);
  }

  lemma OffsetSlotsPlus(os: seq<nat>, o: nat)
    ensures OffsetSlots(os + [o]) == OffsetSlots(os) + [Offset(o)]
  {
  }

  /** An offset is next, at the front of `ahead`. */
  lemma OffsetOn(ts: seq<SszType>, s: seq<byte>, os: seq<nat>, c: nat, ahead: seq<byte>)
    requires HeadsRead(ts, s, OffsetSlots(os), c) && |os| < |ts| && !IsFixed(ts[|os|]) && ahead == s[c..]
    ensures if |ahead| < BYTES_PER_LENGTH_OFFSET then ParseHeads(ts, s).RejectHeads?
            else
              HeadsRead(ts, s, OffsetSlots(os + [FromLE(ahead[..BYTES_PER_LENGTH_OFFSET])]),
                        c + BYTES_PER_LENGTH_OFFSET)
  {
    HeadsReadOn(ts, s, OffsetSlots(os), c, ParseHead(ts[|os|], ahead));
    if |ahead| >= BYTES_PER_LENGTH_OFFSET { OffsetSlotsPlus(os, FromLE(ahead[..BYTES_PER_LENGTH_OFFSET])); }
  }

  /** the offsets among the slots from `k` on */
  lemma OffsetsFrom(slots: seq<Slot>, k: nat)
    requires k < |slots|
    ensures Offsets(slots[k..]) == (if slots[k].Offset? then [slots[k].o] else []) + Offsets(slots[k + 1..])
  {
    DropOne(slots, k);
  }

  /** Values in place of fixed-size parts, and offsets in place of the others. */
  ghost predicate Matching(ts: seq<SszType>, slots: seq<Slot>) {
    |slots| == |ts| && forall k :: 0 <= k < |slots| ==> (slots[k].Inline? <==> IsFixed(ts[k]))
  }

  lemma {:induction false} HeadsMatch(ts: seq<SszType>, s: seq<byte>)
    requires ParseHeads(ts, s).AcceptHeads?
    ensures Matching(ts, ParseHeads(ts, s).slots)
  {
    if ts != [] {
      var h := ParseHead(ts[0], s);
      var rest := ParseHeads(ts[1..], s[h.n..]);
      HeadsMatch(ts[1..], s[h.n..]);
      MatchInFront(ts, h.slots, rest.slots);
    }
  }

  lemma MatchInFront(ts: seq<SszType>, first: seq<Slot>, rest: seq<Slot>)
    requires ts != [] && |first| == 1 && (first[0].Inline? <==> IsFixed(ts[0])) && Matching(ts[1..], rest)
    ensures Matching(ts, first + rest)
  {
    forall k | 0 <= k < |ts| ensures (first + rest)[k].Inline? <==> IsFixed(ts[k]) {
      if k > 0 { assert ts[1..][k - 1] == ts[k] && (first + rest)[k] == rest[k - 1]; }
    }
  }
}

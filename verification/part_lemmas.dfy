/** One step of a loop over the parts of a value: facts about `ts[i..]` and `vs[i..]`. */
module PartLemmas {
  import opened Bytes
  import opened Grammar
  import opened Serialization

  lemma DropOne<T>(s: seq<T>, i: nat)
    requires i < |s|
    ensures s[i..][0] == s[i] && s[i..][1..] == s[i + 1..]
  {
  }

  lemma {:induction false} HeightAt(ts: seq<SszType>, i: nat)
    requires i < |ts|
    ensures Height(ts[i]) <= MaxHeight(ts)
  {
    if i > 0 { HeightAt(ts[1..], i - 1); }
  }

  lemma {:induction false} TypedAt(ts: seq<SszType>, vs: seq<Value>, i: nat)
    requires TypedAll(ts, vs) && i < |ts|
    ensures Typed(ts[i], vs[i])
    decreases i
  {
    if i > 0 { TypedAt(ts[1..], vs[1..], i - 1); }
  }

  /** The offset that follows when part `t` has come. */
  function Next(t: SszType, v: Value, offset: nat): nat {
    if IsFixed(t) then offset else offset + |Serialize(t, v)|
  }

  function SlotOf(t: SszType, v: Value, offset: nat): Slot {
    if IsFixed(t) then Inline(v) else Offset(offset)
  }

  /** The bytes of the fixed-size section from part `i` on. */
  function HeadsFrom(ts: seq<SszType>, vs: seq<Value>, i: nat, offset: nat): seq<byte>
    requires i <= |ts| == |vs|
  {
    Heads(ts[i..], Slots(ts[i..], vs[i..], offset))
  }

  lemma HeadsFromStep(ts: seq<SszType>, vs: seq<Value>, i: nat, offset: nat)
    requires i < |ts| == |vs|
    ensures HeadsFrom(ts, vs, i, offset)
            == Head(ts[i], SlotOf(ts[i], vs[i], offset)) + HeadsFrom(ts, vs, i + 1, Next(ts[i], vs[i], offset))
  {
    DropOne(ts, i);
    DropOne(vs, i);
    var slots := Slots(ts[i + 1..], vs[i + 1..], Next(ts[i], vs[i], offset));
    assert Slots(ts[i..], vs[i..], offset) == [SlotOf(ts[i], vs[i], offset)] + slots;
    assert ([SlotOf(ts[i], vs[i], offset)] + slots)[1..] == slots;
  }

  lemma HeadsFromStart(ts: seq<SszType>, vs: seq<Value>, offset: nat)
    requires |ts| == |vs|
    ensures HeadsFrom(ts, vs, 0, offset) == Heads(ts, Slots(ts, vs, offset))
    ensures HeadsFrom(ts, vs, |ts|, offset) == []
  {
    assert ts[0..] == ts && vs[0..] == vs;
  }

  function TailsFrom(ts: seq<SszType>, vs: seq<Value>, i: nat): seq<byte>
    requires i <= |ts| == |vs|
  {
    Tails(ts[i..], vs[i..])
  }

  lemma TailsFromStep(ts: seq<SszType>, vs: seq<Value>, i: nat)
    requires i < |ts| == |vs|
    ensures TailsFrom(ts, vs, i)
            == (if IsFixed(ts[i]) then [] else Serialize(ts[i], vs[i])) + TailsFrom(ts, vs, i + 1)
  {
    DropOne(ts, i);
    DropOne(vs, i);
  }

  lemma TailsFromStart(ts: seq<SszType>, vs: seq<Value>)
    requires |ts| == |vs|
    ensures TailsFrom(ts, vs, 0) == Tails(ts, vs)
    ensures TailsFrom(ts, vs, |ts|) == []
  {
    assert ts[0..] == ts && vs[0..] == vs;
  }

  /** What can fail while the fixed-size section is written: its inline parts and the offsets. */
  ghost predicate HeadsEncodable(ts: seq<SszType>, vs: seq<Value>, offset: nat) {
    ts == [] || vs == [] || (
      && (if IsFixed(ts[0]) then Encodable(ts[0], vs[0]) else offset < OFFSET_LIMIT)
      && HeadsEncodable(ts[1..], vs[1..], Next(ts[0], vs[0], offset)))
  }

  ghost predicate TailsEncodable(ts: seq<SszType>, vs: seq<Value>) {
    ts == [] || vs == [] || (
      && (!IsFixed(ts[0]) ==> Encodable(ts[0], vs[0]))
      && TailsEncodable(ts[1..], vs[1..]))
  }

  lemma {:induction false} EncodableParts(ts: seq<SszType>, vs: seq<Value>, offset: nat)
    ensures EncodableAll(ts, vs, offset) <==> HeadsEncodable(ts, vs, offset) && TailsEncodable(ts, vs)
    decreases |ts|
  {
    if ts != [] && vs != [] { EncodableParts(ts[1..], vs[1..], Next(ts[0], vs[0], offset)); }
  }

  lemma HeadsEncodableStep(ts: seq<SszType>, vs: seq<Value>, i: nat, offset: nat)
    requires i < |ts| == |vs|
    ensures HeadsEncodable(ts[i..], vs[i..], offset) <==>
            && (if IsFixed(ts[i]) then Encodable(ts[i], vs[i]) else offset < OFFSET_LIMIT)
            && HeadsEncodable(ts[i + 1..], vs[i + 1..], Next(ts[i], vs[i], offset))
  {
    DropOne(ts, i);
    DropOne(vs, i);
  }

  lemma TailsEncodableStep(ts: seq<SszType>, vs: seq<Value>, i: nat)
    requires i < |ts| == |vs|
    ensures TailsEncodable(ts[i..], vs[i..]) <==>
            && (!IsFixed(ts[i]) ==> Encodable(ts[i], vs[i]))
            && TailsEncodable(ts[i + 1..], vs[i + 1..])
  {
    DropOne(ts, i);
    DropOne(vs, i);
  }

  // ----- the state of an encoding loop

  /** With the heads from `i` on, `sink` will be `goal`; `ok` says whether they can be written. */
  ghost predicate HeadsToGo(goal: seq<byte>, ok: bool, sink: seq<byte>,
                            ts: seq<SszType>, vs: seq<Value>, i: nat, offset: nat) {
    && i <= |ts| == |vs|
    && goal == sink + HeadsFrom(ts, vs, i, offset)
    && (ok <==> HeadsEncodable(ts[i..], vs[i..], offset))
  }

  lemma HeadsBegin(sink: seq<byte>, ts: seq<SszType>, vs: seq<Value>, offset: nat)
    requires |ts| == |vs|
    ensures HeadsToGo(sink + Heads(ts, Slots(ts, vs, offset)), HeadsEncodable(ts, vs, offset), sink, ts, vs, 0, offset)
  {
    HeadsFromStart(ts, vs, offset);
    assert ts[0..] == ts && vs[0..] == vs;
  }

  lemma HeadsOn(goal: seq<byte>, ok: bool, sink: seq<byte>, ts: seq<SszType>, vs: seq<Value>, i: nat, offset: nat)
    requires HeadsToGo(goal, ok, sink, ts, vs, i, offset) && i < |ts|
    ensures var writable := if IsFixed(ts[i]) then Encodable(ts[i], vs[i]) else offset < OFFSET_LIMIT;
            var head := Head(ts[i], SlotOf(ts[i], vs[i], offset));
            && (!writable ==> !ok)
            && (writable ==> HeadsToGo(goal, ok, sink + head, ts, vs, i + 1, Next(ts[i], vs[i], offset)))
  {
    HeadsFromStep(ts, vs, i, offset);
    HeadsEncodableStep(ts, vs, i, offset);
  }

  lemma HeadsEnd(goal: seq<byte>, ok: bool, sink: seq<byte>, ts: seq<SszType>, vs: seq<Value>, offset: nat)
    requires HeadsToGo(goal, ok, sink, ts, vs, |ts|, offset)
    ensures ok && goal == sink
  {
    HeadsFromStart(ts, vs, offset);
  }

  ghost predicate TailsToGo(goal: seq<byte>, ok: bool, sink: seq<byte>, ts: seq<SszType>, vs: seq<Value>, i: nat) {
    && i <= |ts| == |vs|
    && goal == sink + TailsFrom(ts, vs, i)
    && (ok <==> TailsEncodable(ts[i..], vs[i..]))
  }

  lemma TailsBegin(sink: seq<byte>, ts: seq<SszType>, vs: seq<Value>)
    requires |ts| == |vs|
    ensures TailsToGo(sink + Tails(ts, vs), TailsEncodable(ts, vs), sink, ts, vs, 0)
  {
    TailsFromStart(ts, vs);
    assert ts[0..] == ts && vs[0..] == vs;
  }

  lemma TailsOn(goal: seq<byte>, ok: bool, sink: seq<byte>, ts: seq<SszType>, vs: seq<Value>, i: nat)
    requires TailsToGo(goal, ok, sink, ts, vs, i) && i < |ts|
    ensures IsFixed(ts[i]) ==> TailsToGo(goal, ok, sink, ts, vs, i + 1)
    ensures !IsFixed(ts[i]) && !Encodable(ts[i], vs[i]) ==> !ok
    ensures !IsFixed(ts[i]) && Encodable(ts[i], vs[i]) ==>
              TailsToGo(goal, ok, sink + Serialize(ts[i], vs[i]), ts, vs, i + 1)
  {
    TailsFromStep(ts, vs, i);
    TailsEncodableStep(ts, vs, i);
  }

  lemma TailsEnd(goal: seq<byte>, ok: bool, sink: seq<byte>, ts: seq<SszType>, vs: seq<Value>)
    requires TailsToGo(goal, ok, sink, ts, vs, |ts|)
    ensures ok && goal == sink
  {
    TailsFromStart(ts, vs);
  }
}

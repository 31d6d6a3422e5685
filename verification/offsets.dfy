/**
 Random access by offsets: the fixed-size section of a serialized value holds, for every part, the
 part itself or the position at which it lies.
 */
module OffsetPrediction {
  import opened Bytes
  import opened Grammar
  import opened Serialization
  import opened PartLemmas

  /** the number of bytes that come before variable-size part `i` */
  function Start(ts: seq<SszType>, vs: seq<Value>, i: nat): nat
    requires i <= |ts| == |vs|
  {
    HeadsLen(ts) + |Tails(ts[..i], vs[..i])|
  }

  /** Part `i` of a serialized value, looked up from the start of the fixed-size section. */
  ghost predicate Located(ts: seq<SszType>, vs: seq<Value>, s: seq<byte>, i: nat)
    requires i < |ts| == |vs|
  {
    var h := HeadsLen(ts[..i]);
    if IsFixed(ts[i]) then
      h <= |s| && Serialize(ts[i], vs[i]) <= s[h..]
    else
      && h + BYTES_PER_LENGTH_OFFSET <= |s|
      && FromLE(s[h..h + BYTES_PER_LENGTH_OFFSET]) == Start(ts, vs, i)
      && PointsTo(s, Start(ts, vs, i), Serialize(ts[i], vs[i]))
  }

  ghost predicate PointsTo(s: seq<byte>, offset: nat, part: seq<byte>) {
    offset <= |s| && part <= s[offset..]
  }

  /** where part `i` starts, when the first variable-size part starts at `offset` */
  function OffsetAt(ts: seq<SszType>, vs: seq<Value>, offset: nat, i: nat): nat
    requires i <= |ts| == |vs|
  {
    if i == 0 then offset else Next(ts[i - 1], vs[i - 1], OffsetAt(ts, vs, offset, i - 1))
  }

  /** `a` from position `n` on is `b`. */
  ghost predicate Rest(a: seq<byte>, n: int, b: seq<byte>) {
    0 <= n <= |a| && a[n..] == b
  }

  lemma RestOn(a: seq<byte>, n: int, front: seq<byte>, b: seq<byte>)
    requires Rest(a, n, front + b)
    ensures front <= a[n..] && Rest(a, n + |front|, b)
  {
    assert a[n + |front|..] == a[n..][|front|..];
  }

  lemma RestBehind(a: seq<byte>, c: seq<byte>, n: int, b: seq<byte>)
    requires Rest(c, n, b)
    ensures Rest(a + c, |a| + n, b)
  {
  }

  lemma {:induction false} HeadsLenOn(ts: seq<SszType>, i: nat)
    requires i < |ts|
    ensures HeadsLen(ts[..i + 1]) == HeadsLen(ts[..i]) + HeadLen(ts[i])
    decreases i
  {
    if i > 0 {
      HeadsLenOn(ts[1..], i - 1);
      assert ts[..i][1..] == ts[1..][..i - 1] && ts[..i + 1][1..] == ts[1..][..i];
    }
  }

  lemma HeadLength(t: SszType, v: Value, offset: nat)
    requires Typed(t, v)
    ensures |Head(t, SlotOf(t, v, offset))| == HeadLen(t)
  {
    SerializeLen(t, v);
  }

  /** The heads from `i` on lie behind those before. */
  lemma {:induction false} HeadsDrop(ts: seq<SszType>, vs: seq<Value>, offset: nat, i: nat)
    requires TypedAll(ts, vs) && i <= |ts|
    ensures Rest(HeadsFrom(ts, vs, 0, offset), HeadsLen(ts[..i]), HeadsFrom(ts, vs, i, OffsetAt(ts, vs, offset, i)))
    decreases i
  {
    if i > 0 {
      HeadsDrop(ts, vs, offset, i - 1);
      HeadsDropOne(ts, vs, HeadsFrom(ts, vs, 0, offset), i - 1, OffsetAt(ts, vs, offset, i - 1));
    }
  }

  lemma HeadsDropOne(ts: seq<SszType>, vs: seq<Value>, b: seq<byte>, i: nat, o: nat)
    requires TypedAll(ts, vs) && i < |ts| && Rest(b, HeadsLen(ts[..i]), HeadsFrom(ts, vs, i, o))
    ensures Rest(b, HeadsLen(ts[..i + 1]), HeadsFrom(ts, vs, i + 1, Next(ts[i], vs[i], o)))
    ensures Head(ts[i], SlotOf(ts[i], vs[i], o)) <= b[HeadsLen(ts[..i])..]
  {
    var head := Head(ts[i], SlotOf(ts[i], vs[i], o));
    TypedAt(ts, vs, i);
    HeadLength(ts[i], vs[i], o);
    HeadsFromStep(ts, vs, i, o);
    HeadsLenOn(ts, i);
    RestOn(b, HeadsLen(ts[..i]), head, HeadsFrom(ts, vs, i + 1, Next(ts[i], vs[i], o)));
  }

  /** The variable-size parts from `i` on lie behind those before. */
  lemma {:induction false} TailsDrop(ts: seq<SszType>, vs: seq<Value>, offset: nat, i: nat)
    requires |ts| == |vs| && i <= |ts|
    ensures Rest(TailsFrom(ts, vs, 0), OffsetAt(ts, vs, offset, i) - offset, TailsFrom(ts, vs, i))
    decreases i
  {
    if i > 0 {
      TailsDrop(ts, vs, offset, i - 1);
      TailsDropOne(ts, vs, TailsFrom(ts, vs, 0), i - 1, OffsetAt(ts, vs, offset, i - 1) - offset);
    }
  }

  lemma TailsDropOne(ts: seq<SszType>, vs: seq<Value>, b: seq<byte>, i: nat, n: int)
    requires |ts| == |vs| && i < |ts| && Rest(b, n, TailsFrom(ts, vs, i))
    ensures var part := if IsFixed(ts[i]) then [] else Serialize(ts[i], vs[i]);
            part <= b[n..] && Rest(b, n + |part|, TailsFrom(ts, vs, i + 1))
  {
    TailsFromStep(ts, vs, i);
    RestOn(b, n, if IsFixed(ts[i]) then [] else Serialize(ts[i], vs[i]), TailsFrom(ts, vs, i + 1));
  }

  lemma {:induction false} HeadsEncodableFrom(ts: seq<SszType>, vs: seq<Value>, offset: nat, i: nat)
    requires |ts| == |vs| && HeadsEncodable(ts, vs, offset) && i <= |ts|
    ensures HeadsEncodable(ts[i..], vs[i..], OffsetAt(ts, vs, offset, i))
    decreases i
  {
    if i == 0 {
      assert ts[0..] == ts && vs[0..] == vs;
    } else {
      HeadsEncodableFrom(ts, vs, offset, i - 1);
      HeadsEncodableStep(ts, vs, i - 1, OffsetAt(ts, vs, offset, i - 1));
    }
  }

  lemma {:induction false} TailsLenOn(ts: seq<SszType>, vs: seq<Value>, i: nat)
    requires i < |ts| == |vs|
    ensures |Tails(ts[..i + 1], vs[..i + 1])|
            == |Tails(ts[..i], vs[..i])| + if IsFixed(ts[i]) then 0 else |Serialize(ts[i], vs[i])|
    decreases i
  {
    if i > 0 {
      TailsLenOn(ts[1..], vs[1..], i - 1);
      assert ts[..i][1..] == ts[1..][..i - 1] && ts[..i + 1][1..] == ts[1..][..i];
      assert vs[..i][1..] == vs[1..][..i - 1] && vs[..i + 1][1..] == vs[1..][..i];
    }
  }

  /** The predicted offset is the number of bytes before the part. */
  lemma {:induction false} OffsetIsStart(ts: seq<SszType>, vs: seq<Value>, offset: nat, i: nat)
    requires |ts| == |vs| && i <= |ts|
    ensures OffsetAt(ts, vs, offset, i) == offset + |Tails(ts[..i], vs[..i])|
    decreases i
  {
    if i > 0 {
      OffsetIsStart(ts, vs, offset, i - 1);
      TailsLenOn(ts, vs, i - 1);
    }
  }

  /** No offset is too large to be written. */
  lemma OffsetFits(ts: seq<SszType>, vs: seq<Value>, i: nat)
    requires |ts| == |vs| && HeadsEncodable(ts, vs, HeadsLen(ts)) && i < |ts| && !IsFixed(ts[i])
    ensures Start(ts, vs, i) < OFFSET_LIMIT
  {
    var o := OffsetAt(ts, vs, HeadsLen(ts), i);
    HeadsEncodableFrom(ts, vs, HeadsLen(ts), i);
    HeadsEncodableStep(ts, vs, i, o);
    OffsetIsStart(ts, vs, HeadsLen(ts), i);
  }

  lemma HeadInFront(heads: seq<byte>, tails: seq<byte>, head: seq<byte>, h: nat)
    requires h <= |heads| && head <= heads[h..]
    ensures h + |head| <= |heads + tails| && (heads + tails)[h..h + |head|] == head
    ensures head <= (heads + tails)[h..]
  {
    assert (heads + tails)[h..] == heads[h..] + tails;
    assert (heads + tails)[h..h + |head|] == heads[h..][..|head|];
  }

  /** Part `i` in the bytes `heads + tails` of all parts, when `o` is where it starts. */
  lemma LocatedAt(ts: seq<SszType>, vs: seq<Value>, heads: seq<byte>, tails: seq<byte>, i: nat, o: nat)
    requires TypedAll(ts, vs) && i < |ts|
    requires HeadsLen(ts[..i]) <= |heads| && Head(ts[i], SlotOf(ts[i], vs[i], o)) <= heads[HeadsLen(ts[..i])..]
    requires !IsFixed(ts[i]) ==>
               o == Start(ts, vs, i) < OFFSET_LIMIT && PointsTo(heads + tails, o, Serialize(ts[i], vs[i]))
    ensures Located(ts, vs, heads + tails, i)
  {
    HeadInFront(heads, tails, Head(ts[i], SlotOf(ts[i], vs[i], o)), HeadsLen(ts[..i]));
    if !IsFixed(ts[i]) {
      Pow256Of4();
      FromLEOfLE(o, BYTES_PER_LENGTH_OFFSET);
    }
  }

  lemma PartLocated(ts: seq<SszType>, vs: seq<Value>, n: nat, i: nat)
    requires TypedAll(ts, vs) && i < |ts| && n == HeadsLen(ts) && HeadsEncodable(ts, vs, n)
    ensures Located(ts, vs, HeadsFrom(ts, vs, 0, n) + TailsFrom(ts, vs, 0), i)
  {
    var heads, tails, o := HeadsFrom(ts, vs, 0, n), TailsFrom(ts, vs, 0), OffsetAt(ts, vs, n, i);
    HeadsDrop(ts, vs, n, i);
    HeadsDropOne(ts, vs, heads, i, o);
    if !IsFixed(ts[i]) {
      OffsetFits(ts, vs, i);
      OffsetIsStart(ts, vs, n, i);
      HeadsFromStart(ts, vs, n);
      HeadsLength(ts, vs, n);
      TailLocated(ts, vs, heads, n, i, o);
    }
    LocatedAt(ts, vs, heads, tails, i, o);
  }

  lemma TailLocated(ts: seq<SszType>, vs: seq<Value>, heads: seq<byte>, n: nat, i: nat, o: nat)
    requires |ts| == |vs| && i < |ts| && n == |heads| && o == OffsetAt(ts, vs, n, i) && !IsFixed(ts[i])
    ensures PointsTo(heads + TailsFrom(ts, vs, 0), o, Serialize(ts[i], vs[i]))
  {
    var tails := TailsFrom(ts, vs, 0);
    TailsDrop(ts, vs, n, i);
    TailsDropOne(ts, vs, tails, i, o - n);
    RestBehind(heads, tails, o - n, tails[o - n..]);
  }

  /** Every offset that is written is the number of bytes before its part, which lies there. */
  lemma OffsetsArePredicted(t: SszType, v: Value, i: nat)
    requires t.Composite() && Typed(t, v) && Encodable(t, v) && i < |v.vs|
    ensures var ts := Parts(t, |v.vs|);
            |ts| == |v.vs| && Located(ts, v.vs, Serialize(t, v), i)
  {
    var ts, n := Parts(t, |v.vs|), HeadsLen(Parts(t, |v.vs|));
    EncodableParts(ts, v.vs, n);
    HeadsFromStart(ts, v.vs, n);
    TailsFromStart(ts, v.vs);
    PartLocated(ts, v.vs, n, i);
  }

  /** The parts lie one after the other: nothing is between them, before the first, or behind the last. */
  lemma NoSlack(t: SszType, v: Value, i: nat)
    requires t.Composite() && Typed(t, v) && i < |v.vs|
    ensures var ts := Parts(t, |v.vs|);
            && |ts| == |v.vs|
            && HeadsLen(ts[..0]) == 0 && Start(ts, v.vs, 0) == HeadsLen(ts)
            && HeadsLen(ts[..i + 1]) == HeadsLen(ts[..i]) + (if IsFixed(ts[i]) then |Serialize(ts[i], v.vs[i])| else 4)
            && Start(ts, v.vs, i + 1)
               == Start(ts, v.vs, i) + (if IsFixed(ts[i]) then 0 else |Serialize(ts[i], v.vs[i])|)
            && Start(ts, v.vs, |ts|) == |Serialize(t, v)|
  {
    var ts := Parts(t, |v.vs|);
    TypedAllLen(ts, v.vs);
    HeadsLenOn(ts, i);
    TypedAt(ts, v.vs, i);
    SerializeLen(ts[i], v.vs[i]);
    TailsLenOn(ts, v.vs, i);
    assert ts[..|ts|] == ts && v.vs[..|ts|] == v.vs;
    HeadsLength(ts, v.vs, HeadsLen(ts));
  }

  // ----- when encoding panics

  /** Part `i` can be encoded, and so can its offset if it has one, when the first offset is `offset`. */
  ghost predicate PartEncodable(ts: seq<SszType>, vs: seq<Value>, offset: nat, i: nat)
    requires i < |ts| == |vs|
  {
    Encodable(ts[i], vs[i]) && (!IsFixed(ts[i]) ==> offset + |Tails(ts[..i], vs[..i])| < OFFSET_LIMIT)
  }

  lemma PartEncodableBehind(ts: seq<SszType>, vs: seq<Value>, offset: nat, i: nat)
    requires 0 < i < |ts| == |vs|
    ensures PartEncodable(ts, vs, offset, i) <==>
            PartEncodable(ts[1..], vs[1..], Next(ts[0], vs[0], offset), i - 1)
  {
    assert ts[..i][1..] == ts[1..][..i - 1] && vs[..i][1..] == vs[1..][..i - 1];
  }

  lemma {:induction false} EncodableAllMeans(ts: seq<SszType>, vs: seq<Value>, offset: nat)
    requires |ts| == |vs|
    ensures EncodableAll(ts, vs, offset) <==> forall i :: 0 <= i < |ts| ==> PartEncodable(ts, vs, offset, i)
    decreases |ts|
  {
    if ts != [] {
      var next := Next(ts[0], vs[0], offset);
      EncodableAllMeans(ts[1..], vs[1..], next);
      FirstEncodable(ts, vs, offset);
      forall i | 0 < i < |ts|
        ensures PartEncodable(ts, vs, offset, i) <==> PartEncodable(ts[1..], vs[1..], next, i - 1)
      {
        PartEncodableBehind(ts, vs, offset, i);
      }
      AllBehind(ts, vs, offset, next);
    }
  }

  lemma FirstEncodable(ts: seq<SszType>, vs: seq<Value>, offset: nat)
    requires |ts| == |vs| > 0
    ensures EncodableAll(ts, vs, offset) <==>
            PartEncodable(ts, vs, offset, 0) && EncodableAll(ts[1..], vs[1..], Next(ts[0], vs[0], offset))
  {
  }

  lemma AllBehind(ts: seq<SszType>, vs: seq<Value>, offset: nat, next: nat)
    requires |ts| == |vs| > 0
    requires forall i :: 0 < i < |ts| ==>
               (PartEncodable(ts, vs, offset, i) <==> PartEncodable(ts[1..], vs[1..], next, i - 1))
    ensures (forall i :: 0 < i < |ts| ==> PartEncodable(ts, vs, offset, i)) <==>
            (forall i :: 0 <= i < |ts| - 1 ==> PartEncodable(ts[1..], vs[1..], next, i))
  {
    if forall i :: 0 < i < |ts| ==> PartEncodable(ts, vs, offset, i) {
      forall i | 0 <= i < |ts| - 1 ensures PartEncodable(ts[1..], vs[1..], next, i) {
        assert PartEncodable(ts, vs, offset, i + 1);
      }
    }
  }

  /** A value can be encoded exactly if all its parts can, and each of variable size starts below 2^32. */
  lemma EncodableExactly(t: SszType, v: Value)
    requires t.Composite() && Typed(t, v)
    ensures var ts := Parts(t, |v.vs|);
            && |ts| == |v.vs|
            && (Encodable(t, v) <==>
                  forall i :: 0 <= i < |ts| ==>
                    Encodable(ts[i], v.vs[i]) && (!IsFixed(ts[i]) ==> Start(ts, v.vs, i) < OFFSET_LIMIT))
  {
    var ts := Parts(t, |v.vs|);
    TypedAllLen(ts, v.vs);
    EncodableAllMeans(ts, v.vs, HeadsLen(ts));
    assert forall i :: 0 <= i < |ts| ==>
      (PartEncodable(ts, v.vs, HeadsLen(ts), i) <==>
        Encodable(ts[i], v.vs[i]) && (!IsFixed(ts[i]) ==> Start(ts, v.vs, i) < OFFSET_LIMIT));
  }

  lemma TypedAllLen(ts: seq<SszType>, vs: seq<Value>)
    requires TypedAll(ts, vs)
    ensures |ts| == |vs|
  {
  }
}

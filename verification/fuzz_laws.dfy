/**
 What decoding in fuzz mode makes of its input, stated without the functions that draw lengths: how long
 every list is, which bytes every part gets, and what becomes of them.
 */
module FuzzLaws {
  import opened Bits
  import opened Bytes
  import opened Bitfields
  import opened Grammar
  import opened GrammarLaws
  import opened Serialization
  import opened PartLemmas
  import opened Outcomes
  import opened Fuzzing
  import opened Lengths

  // ----- how many bytes a value takes

  /** the bytes of a value in fuzz mode: a number of 8 bytes for every length, and the leaves */
  function FuzzTaken(t: SszType, v: Value): nat
    decreases Height(t), 0, 0
  {
    if t.Composite() && v.Elems? then (if t.List? then 8 else 0) + FuzzTakenAll(Parts(t, |v.vs|), v.vs)
    else (if IsFixed(t) then 0 else 8) + |SerializeLeaf(t, v)|
  }

  function FuzzTakenAll(ts: seq<SszType>, vs: seq<Value>): nat
    decreases MaxHeight(ts), 1, |ts|
  {
    if ts == [] || vs == [] then 0 else FuzzTaken(ts[0], vs[0]) + FuzzTakenAll(ts[1..], vs[1..])
  }

  ghost predicate Takes(t: SszType, r: Fuzz<Value>) {
    r.Fuzzed? ==> r.n == FuzzTaken(t, r.v)
  }

  ghost predicate TakesAll(ts: seq<SszType>, r: Fuzz<seq<Value>>) {
    r.Fuzzed? ==> |r.v| == |ts| && r.n == FuzzTakenAll(ts, r.v)
  }

  lemma LeafTakes(t: SszType, s: seq<byte>)
    requires !t.Composite()
    ensures Takes(t, FuzzLeaf(t, s))
  {
  }

  /** Just these bytes are read. */
  lemma {:induction false} ParseTakes(t: SszType, s: seq<byte>)
    ensures Takes(t, FuzzParse(t, s))
    decreases Height(t), 0, 0
  {
    match t
    case Vector(e, n) => PartsTake(!IsFixed(e), Repeat(e, n), s);
    case List(e, limit) => if |s| >= 8 { ListTakes(e, limit, FromLE(s[..8]), s[8..]); }
    case Container(ts) => PartsTake(true, ts, s);
    case _ => LeafTakes(t, s);
  }

  lemma {:induction false} ListTakes(e: SszType, limit: nat, x: nat, s: seq<byte>)
    ensures Takes(List(e, limit), Later(8, FuzzDrawnList(e, limit, x, s)))
    decreases Height(e), 3, 0
  {
    var count := DrawCount(x, ListFill(e, limit, |s|), FuzzMinLen(e));
    if count.Some? { PartsTake(!IsFixed(e), Repeat(e, count.value), s); }
  }

  lemma {:induction false} PartsTake(scoped: bool, ts: seq<SszType>, s: seq<byte>)
    ensures TakesAll(ts, FuzzParts(scoped, ts, s))
    decreases MaxHeight(ts), 1, |ts|
  {
    if ts != [] && FuzzParts(scoped, ts, s).Fuzzed? {
      var first, rest := PartsAre(scoped, ts, s);
      ParseTakes(ts[0], s[..|s| - Kept(scoped, ts[1..])]);
      PartsTake(scoped, ts[1..], s[first.n..]);
      TakesInFront(ts, first, rest);
    }
  }

  lemma TakesInFront(ts: seq<SszType>, first: Fuzz<Value>, rest: Fuzz<seq<Value>>)
    requires ts != [] && first.Fuzzed? && Takes(ts[0], first) && TakesAll(ts[1..], rest)
    ensures TakesAll(ts, FuzzAfter([first.v], first.n, rest))
  {
    if rest.Fuzzed? {
      var vs := [first.v] + rest.v;
      assert vs[0] == first.v && vs[1..] == rest.v;
    }
  }

  /** a value with everything at its limit */
  function Filled(t: SszType): (v: Value)
    ensures t.Composite() ==> v.Elems?
    decreases t
  {
    match t
    case Scalar(_) => Num(0)
    case BytesN(n) => Raw(Zeros(n))
    case Bitvector(n) => Raw(Zeros((n + 7) / 8))
    case Bytes(limit) => Raw(Zeros(limit))
    case Bitlist(limit) => Raw(PackBits(Copies(true, limit)))
    case BasicVector(_, n) => Nums(Copies(0, n))
    case BasicList(_, limit) => Nums(Copies(0, limit))
    case Vector(e, n) => Elems(Copies(Filled(e), n))
    case List(e, limit) => Elems(Copies(Filled(e), limit))
    case Container(ts) => Elems(FilledAll(ts))
  }

  function FilledAll(ts: seq<SszType>): (vs: seq<Value>)
    ensures |vs| == |ts|
    decreases ts
  {
    if ts == [] then [] else [Filled(ts[0])] + FilledAll(ts[1..])
  }

  /** The maximum length is that of a value with everything at its limit; a bitlist is counted without its delimiter. */
  lemma {:induction false} FilledTakes(t: SszType)
    ensures FuzzTaken(t, Filled(t)) == FuzzMaxLen(t)
    decreases t
  {
    match t
    case Vector(e, n) =>
      FilledTakes(e);
      FilledCopies(e, n);
    case List(e, limit) =>
      FilledTakes(e);
      FilledCopies(e, limit);
    case Container(ts) => FilledTakeAll(ts);
    case _ =>
  }

  lemma {:induction false} FilledCopies(e: SszType, n: nat)
    requires FuzzTaken(e, Filled(e)) == FuzzMaxLen(e)
    ensures FuzzTakenAll(Repeat(e, n), Copies(Filled(e), n)) == n * FuzzMaxLen(e)
    decreases n
  {
    if n > 0 {
      FilledCopies(e, n - 1);
      RepeatTail(e, n);
      assert Copies(Filled(e), n)[1..] == Copies(Filled(e), n - 1);
      assert n * FuzzMaxLen(e) == FuzzMaxLen(e) + (n - 1) * FuzzMaxLen(e);
    }
  }

  lemma {:induction false} FilledTakeAll(ts: seq<SszType>)
    ensures FuzzTakenAll(ts, FilledAll(ts)) == FuzzMaxLens(ts)
    decreases ts
  {
    if ts != [] {
      FilledTakes(ts[0]);
      FilledTakeAll(ts[1..]);
      assert FilledAll(ts)[1..] == FilledAll(ts[1..]);
    }
  }

  // ----- where a part comes from

  /** the bytes that the parts before part `k` take */
  function Before(ts: seq<SszType>, vs: seq<Value>, k: nat): nat
    requires k <= |vs| <= |ts|
  {
    FuzzTakenAll(ts[..k], vs[..k])
  }

  lemma BeforeTail(ts: seq<SszType>, vs: seq<Value>, k: nat)
    requires 0 < k <= |vs| <= |ts|
    ensures Before(ts, vs, k) == FuzzTaken(ts[0], vs[0]) + Before(ts[1..], vs[1..], k - 1)
  {
    assert ts[..k][1..] == ts[1..][..k - 1] && vs[..k][1..] == vs[1..][..k - 1];
  }

  /** Part `k` is decoded from what the parts before have left, less what the parts behind need at least. */
  ghost predicate FromPlace(scoped: bool, ts: seq<SszType>, vs: seq<Value>, s: seq<byte>, k: nat)
    requires k < |vs| <= |ts|
  {
    var start, kept := Before(ts, vs, k), Kept(scoped, ts[k + 1..]);
    && start + kept <= |s|
    && FuzzParse(ts[k], s[start..|s| - kept]) == Fuzzed(vs[k], FuzzTaken(ts[k], vs[k]))
  }

  lemma {:induction false} PartFromPlace(scoped: bool, ts: seq<SszType>, s: seq<byte>, k: nat)
    requires k < |ts| && FuzzParts(scoped, ts, s).Fuzzed?
    ensures |FuzzParts(scoped, ts, s).v| == |ts| && FromPlace(scoped, ts, FuzzParts(scoped, ts, s).v, s, k)
    decreases k
  {
    PartsTake(scoped, ts, s);
    var first, rest := PartsAre(scoped, ts, s);
    ParseTakes(ts[0], s[..|s| - Kept(scoped, ts[1..])]);
    if k > 0 {
      PartFromPlace(scoped, ts[1..], s[first.n..], k - 1);
      PlaceBehind(scoped, ts, s, first, rest.v, k);
    } else {
      assert s[0..|s| - Kept(scoped, ts[1..])] == s[..|s| - Kept(scoped, ts[1..])];
    }
  }

  lemma PlaceBehind(scoped: bool, ts: seq<SszType>, s: seq<byte>, first: Fuzz<Value>, rest: seq<Value>, k: nat)
    requires 0 < k <= |rest| <= |ts| - 1
    requires first.Fuzzed? && first.n == FuzzTaken(ts[0], first.v) <= |s|
    requires FromPlace(scoped, ts[1..], rest, s[first.n..], k - 1)
    ensures FromPlace(scoped, ts, [first.v] + rest, s, k)
  {
    var vs := [first.v] + rest;
    assert vs[1..] == rest && vs[k] == rest[k - 1];
    DropAgain(ts, k);
    BeforeTail(ts, vs, k);
    var start, kept := Before(ts[1..], rest, k - 1), Kept(scoped, ts[k + 1..]);
    SliceBehind(s, first.n, start, |s| - first.n - kept);
  }

  lemma DropAgain<T>(s: seq<T>, k: nat)
    requires 0 < k < |s|
    ensures s[1..][k - 1] == s[k] && s[1..][k..] == s[k + 1..]
  {
  }

  lemma SliceBehind<T>(s: seq<T>, n: nat, i: nat, j: nat)
    requires n <= |s| && i <= j <= |s| - n
    ensures s[n..][i..j] == s[n + i..n + j]
  {
  }

  // ----- where decoding fails

  /** The first `|vs|` parts are decoded to `vs`; with the next one decoding fails. */
  ghost predicate FailsBehind(scoped: bool, ts: seq<SszType>, s: seq<byte>, vs: seq<Value>, r: Fuzz<seq<Value>>) {
    && |vs| < |ts|
    && (forall k :: 0 <= k < |vs| ==> FromPlace(scoped, ts, vs, s, k))
    && var start, kept := Before(ts, vs, |vs|), Kept(scoped, ts[|vs| + 1..]);
       if start + kept > |s| then r == Fails(UnderEstimated)
       else SameFailure(FuzzParse(ts[|vs|], s[start..|s| - kept]), r)
  }

  ghost predicate SameFailure(a: Fuzz<Value>, b: Fuzz<seq<Value>>) {
    (a.Panics? && b.Panics?) || (a.Fails? && b.Fails? && a.e == b.e)
  }

  lemma FailsFirst(scoped: bool, ts: seq<SszType>, s: seq<byte>)
    requires ts != [] && !FuzzParts(scoped, ts, s).Fuzzed?
    requires Kept(scoped, ts[1..]) > |s| || !FuzzParse(ts[0], s[..|s| - Kept(scoped, ts[1..])]).Fuzzed?
    ensures FailsBehind(scoped, ts, s, [], FuzzParts(scoped, ts, s))
  {
    if Kept(scoped, ts[1..]) <= |s| {
      assert s[0..|s| - Kept(scoped, ts[1..])] == s[..|s| - Kept(scoped, ts[1..])];
    }
  }

  lemma FailsLater(scoped: bool, ts: seq<SszType>, s: seq<byte>, first: Fuzz<Value>, vs: seq<Value>,
                   r: Fuzz<seq<Value>>)
    requires ts != [] && first.Fuzzed? && Kept(scoped, ts[1..]) <= |s|
    requires first == FuzzParse(ts[0], s[..|s| - Kept(scoped, ts[1..])]) && first.n == FuzzTaken(ts[0], first.v) <= |s|
    requires first.n + Kept(scoped, ts[1..]) <= |s|
    requires FailsBehind(scoped, ts[1..], s[first.n..], vs, r)
    ensures FailsBehind(scoped, ts, s, [first.v] + vs, r)
  {
    var all := [first.v] + vs;
    forall k | 0 <= k < |all| ensures FromPlace(scoped, ts, all, s, k) {
      if k == 0 {
        FirstPlace(scoped, ts, s, first, all);
      } else {
        assert FromPlace(scoped, ts[1..], vs, s[first.n..], k - 1);
        PlaceBehind(scoped, ts, s, first, vs, k);
      }
    }
    BeforeTail(ts, all, |all|);
    assert all[1..] == vs;
    DropAgain(ts, |all|);
    var start, kept := Before(ts[1..], vs, |vs|), Kept(scoped, ts[|all| + 1..]);
    if start + kept <= |s| - first.n { SliceBehind(s, first.n, start, |s| - first.n - kept); }
  }

  lemma FirstPlace(scoped: bool, ts: seq<SszType>, s: seq<byte>, first: Fuzz<Value>, all: seq<Value>)
    requires ts != [] && 0 < |all| <= |ts| && Kept(scoped, ts[1..]) <= |s|
    requires first == FuzzParse(ts[0], s[..|s| - Kept(scoped, ts[1..])])
    requires first.Fuzzed? && all[0] == first.v && first.n == FuzzTaken(ts[0], first.v)
    ensures FromPlace(scoped, ts, all, s, 0)
  {
    assert s[0..|s| - Kept(scoped, ts[1..])] == s[..|s| - Kept(scoped, ts[1..])];
  }

  /** Parts are not decoded exactly because one of them is not, and that is how decoding fails. */
  lemma {:induction false} PartsFail(scoped: bool, ts: seq<SszType>, s: seq<byte>)
    requires !FuzzParts(scoped, ts, s).Fuzzed?
    ensures exists vs :: FailsBehind(scoped, ts, s, vs, FuzzParts(scoped, ts, s))
    decreases |ts|
  {
    var kept := Kept(scoped, ts[1..]);
    if kept > |s| || !FuzzParse(ts[0], s[..|s| - kept]).Fuzzed? {
      FailsFirst(scoped, ts, s);
    } else {
      var first := FuzzParse(ts[0], s[..|s| - kept]);
      ParseTakes(ts[0], s[..|s| - kept]);
      ParseFits(ts[0], s[..|s| - kept]);
      var rest := FuzzParts(scoped, ts[1..], s[first.n..]);
      PartsAt(scoped, ts, s, first, rest);
      PartsFail(scoped, ts[1..], s[first.n..]);
      var vs :| FailsBehind(scoped, ts[1..], s[first.n..], vs, rest);
      FailsLater(scoped, ts, s, first, vs, rest);
    }
  }

  /** A list, taken apart. */
  lemma ListIs(e: SszType, limit: nat, s: seq<byte>) returns (count: nat, r: Fuzz<seq<Value>>)
    requires FuzzParse(List(e, limit), s).Fuzzed?
    ensures |s| >= 8 && DrawCount(FromLE(s[..8]), ListFill(e, limit, |s| - 8), FuzzMinLen(e)) == Some(count)
    ensures r == FuzzParts(!IsFixed(e), Repeat(e, count), s[8..]) && r.Fuzzed? && |r.v| == count
    ensures FuzzParse(List(e, limit), s) == Fuzzed(Elems(r.v), 8 + r.n)
  {
    ListUnfolds(e, limit, s);
    count, r := DrawnListIs(e, limit, FromLE(s[..8]), s[8..]);
  }

  lemma ListUnfolds(e: SszType, limit: nat, s: seq<byte>)
    requires FuzzParse(List(e, limit), s).Fuzzed?
    ensures |s| >= 8 && FuzzDrawnList(e, limit, FromLE(s[..8]), s[8..]).Fuzzed?
    ensures FuzzParse(List(e, limit), s) == Later(8, FuzzDrawnList(e, limit, FromLE(s[..8]), s[8..]))
  {
  }

  lemma DrawnListIs(e: SszType, limit: nat, x: nat, s: seq<byte>) returns (count: nat, r: Fuzz<seq<Value>>)
    requires FuzzDrawnList(e, limit, x, s).Fuzzed?
    ensures DrawCount(x, ListFill(e, limit, |s|), FuzzMinLen(e)) == Some(count)
    ensures r == FuzzParts(!IsFixed(e), Repeat(e, count), s) && r.Fuzzed? && |r.v| == count
    ensures FuzzDrawnList(e, limit, x, s) == Fuzzed(Elems(r.v), r.n)
  {
    count := DrawCount(x, ListFill(e, limit, |s|), FuzzMinLen(e)).value;
    r := FuzzParts(!IsFixed(e), Repeat(e, count), s);
    PartsTake(!IsFixed(e), Repeat(e, count), s);
  }

  /** Every part of a vector, list or container, and where it is decoded from. */
  lemma FuzzedParts(t: SszType, s: seq<byte>, vs: seq<Value>, n: nat, k: nat)
    requires t.Composite() && FuzzParse(t, s) == Fuzzed(Elems(vs), n) && k < |vs|
    ensures |Parts(t, |vs|)| == |vs| && (t.List? ==> |s| >= 8)
    ensures FromPlace(t.Container? || !IsFixed(t.elem), Parts(t, |vs|), vs, if t.List? then s[8..] else s, k)
  {
    match t
    case Vector(e, m) =>
      PartsTake(!IsFixed(e), Repeat(e, m), s);
      PartFromPlace(!IsFixed(e), Repeat(e, m), s, k);
    case List(e, limit) =>
      var count, r := ListIs(e, limit, s);
      PartFromPlace(!IsFixed(e), Repeat(e, count), s[8..], k);
    case Container(ts) =>
      PartsTake(true, ts, s);
      PartFromPlace(true, ts, s, k);
  }

  // ----- how many elements a list has

  /** `n` is the number of whole elements of `size` bytes in `draw` bytes. */
  ghost predicate WholeElements(n: nat, size: nat, draw: nat) {
    n * size <= draw < (n + 1) * size
  }

  lemma QuotientCounts(draw: nat, size: nat)
    requires size > 0
    ensures WholeElements(draw / size, size, draw)
  {
  }

  /**
   A list of parts: of the bytes that are left, or that the list could use if these are fewer, a number is drawn;
   the list has as many elements as these bytes hold, of minimum length each.
   */
  lemma FuzzedCount(e: SszType, limit: nat, s: seq<byte>, vs: seq<Value>, n: nat)
    requires FuzzParse(List(e, limit), s) == Fuzzed(Elems(vs), n)
    ensures |s| >= 8
    ensures var fill := Min(|s| - 8, limit * FuzzMaxLen(e));
            if fill == 0 then vs == [] else WholeElements(|vs|, FuzzMinLen(e), FromLE(s[..8]) % fill)
  {
    var count, r := ListIs(e, limit, s);
    CountDrawn(FromLE(s[..8]), ListFill(e, limit, |s| - 8), FuzzMinLen(e), count);
  }

  lemma CountDrawn(x: nat, fill: nat, min: nat, count: nat)
    requires DrawCount(x, fill, min) == Some(count)
    ensures if fill == 0 then count == 0 else WholeElements(count, min, x % fill)
  {
    if fill > 0 { QuotientCounts(x % fill, min); }
  }

  /** A vector, list or container is decoded as its parts are; of a list, the number of parts is drawn first. */
  lemma CompositeOutcome(t: SszType, s: seq<byte>) returns (ts: seq<SszType>)
    requires t.Composite() && (t.List? ==> |s| >= 8)
    ensures ts == Parts(t, |ts|) && (t.Vector? ==> |ts| == t.length)
    ensures t.List? ==>
              var fill := Min(|s| - 8, t.limit * FuzzMaxLen(t.elem));
              if fill == 0 then ts == [] else WholeElements(|ts|, FuzzMinLen(t.elem), FromLE(s[..8]) % fill)
    ensures var r := FuzzParts(t.Container? || !IsFixed(t.elem), ts, if t.List? then s[8..] else s);
            if r.Fuzzed? then FuzzParse(t, s) == Fuzzed(Elems(r.v), if t.List? then 8 + r.n else r.n)
            else SameFailure(FuzzParse(t, s), r)
  {
    match t
    case Vector(e, n) => ts := Repeat(e, n);
    case Container(fields) => ts := fields;
    case List(e, limit) =>
      var x := FromLE(s[..8]);
      ListDrawn(e, limit, x, |s| - 8);
      var count := DrawCount(x, ListFill(e, limit, |s| - 8), FuzzMinLen(e)).value;
      CountDrawn(x, ListFill(e, limit, |s| - 8), FuzzMinLen(e), count);
      ts := Repeat(e, count);
      DrawnListOutcome(e, limit, x, s[8..], count);
  }

  lemma DrawnListOutcome(e: SszType, limit: nat, x: nat, s: seq<byte>, count: nat)
    requires DrawCount(x, ListFill(e, limit, |s|), FuzzMinLen(e)) == Some(count)
    ensures FuzzDrawnList(e, limit, x, s) == Whole(FuzzParts(!IsFixed(e), Repeat(e, count), s))
  {
  }

  // ----- leaves

  /** a number of bytes drawn from those below `most` */
  function Drawn(x: nat, most: nat): nat {
    if most == 0 then 0 else x % most
  }

  /** The numbers `ns` as they lie in `s` from `start` on; bytes that are no booleans become true. */
  ghost predicate FromSeries(k: Basic, ns: seq<nat>, s: seq<byte>, start: nat) {
    && start + |ns| * k.Size() <= |s|
    && if k.BoolKind? then forall i :: 0 <= i < |ns| ==> ns[i] == if s[start + i] == 0 then 0 else 1
       else HoldsNumbers(k.Size(), ns, s[start..start + |ns| * k.Size()])
  }

  /** The bits of `r` are those of `b` up to bit number `limit`; without any, just the lowest bit is set. */
  ghost predicate Masked(b: byte, limit: nat, r: byte) {
    if exists m :: 0 <= m < 8 && m <= limit && Bit(b, m) then
      forall m :: 0 <= m < 8 ==> (Bit(r, m) <==> m <= limit && Bit(b, m))
    else
      r == 1
  }

  /** What a value without parts is, byte by byte. */
  ghost predicate FromBytes(t: SszType, s: seq<byte>, v: Value) {
    match t
    case Scalar(k) =>
      && v.Num? && k.Size() <= |s|
      && if k.BoolKind? then v.n == s[0] % 2 else HoldsNumber(k.Size(), v.n, s, 0)
    case BytesN(n) => v.Raw? && n <= |s| && v.data == s[..n]
    case Bitvector(n) => v.Raw? && |v.data| <= |s| && v.data == s[..|v.data|] && 8 * |v.data| - 8 < n <= 8 * |v.data|
    case BasicVector(k, n) => v.Nums? && |v.ns| == n && FromSeries(k, v.ns, s, 0)
    case _ => |s| >= 8 && FromDraw(t, FromLE(s[..8]), s[8..], v)
  }

  /** A value of variable length, of a size given by the number `x` that was drawn. */
  ghost predicate FromDraw(t: SszType, x: nat, s: seq<byte>, v: Value) {
    match t
    case Bytes(limit) => v.Raw? && |v.data| == Drawn(x, Min(|s|, limit)) <= |s| && v.data == s[..|v.data|]
    case Bitlist(limit) =>
      && v.Raw? && 0 < |v.data| <= |s|
      && |v.data| == 1 + Drawn(x, Min(|s| - 1, (limit + 7) / 8))
      && v.data[..|v.data| - 1] == s[..|v.data| - 1]
      && Masked(s[|v.data| - 1], limit, v.data[|v.data| - 1])
    case BasicList(k, limit) =>
      var most := if limit * k.Size() > |s| then limit * k.Size() else |s|;
      && v.Nums? && FromSeries(k, v.ns, s, 0)
      && if most == 0 then v.ns == [] else WholeElements(|v.ns|, k.Size(), x % most)
    case _ => false
  }

  lemma Multiples(d: int, m: nat)
    ensures d >= 1 ==> d * m >= m
    ensures d <= -1 ==> d * m + m <= 0
  {
    if d >= 1 { MulOrder(m, 1, d); } else if d <= -1 { MulOrder(m, 1, -d); }
  }

  lemma ModUnique(v: nat, m: nat, q: nat, r: nat)
    requires v == q * m + r && r < m
    ensures v % m == r
  {
    var d: int := v / m - q;
    assert v == (v / m) * m + v % m;
    assert (v / m) * m == q * m + d * m;
    Multiples(d, m);
  }

  lemma ModOfDouble(v: nat, p: nat)
    requires p > 0
    ensures v % (2 * p) == v % 2 + 2 * (v / 2 % p)
  {
    var q, r := v / 2 / p, v / 2 % p;
    assert v / 2 == q * p + r;
    assert v == 2 * (v / 2) + v % 2;
    assert q * (2 * p) == 2 * (q * p);
    ModUnique(v, 2 * p, q, v % 2 + 2 * r);
  }

  /** A remainder of a power of two has just the low bits. */
  lemma {:induction false} LowBit(v: nat, k: nat, m: nat)
    ensures Bit(v % Pow2(k), m) <==> m < k && Bit(v, m)
    decreases k
  {
    if k == 0 {
      ShrOfZero(m);
    } else {
      ModOfDouble(v, Pow2(k - 1));
      if m > 0 { LowBit(v / 2, k - 1, m - 1); }
      BitOfDouble(v, v % Pow2(k), m, v / 2 % Pow2(k - 1));
    }
  }

  lemma BitOfDouble(v: nat, low: nat, m: nat, half: nat)
    requires low == v % 2 + 2 * half
    ensures m == 0 ==> (Bit(low, m) <==> Bit(v, m))
    ensures m > 0 ==> (Bit(low, m) <==> Bit(half, m - 1)) && (Bit(v, m) <==> Bit(v / 2, m - 1))
  {
    if m > 0 {
      ShrFront(low, m - 1);
      ShrFront(v, m - 1);
    }
  }

  lemma MaskKeeps(b: byte, limit: nat)
    ensures Masked(b, limit, MaskLast(b, limit))
  {
    var low := if limit + 1 >= 8 then b else LowBits(b, limit + 1);
    forall m | 0 <= m < 8 ensures Bit(low, m) <==> m <= limit && Bit(b, m) {
      if limit + 1 < 8 { LowBit(b, limit + 1, m); }
    }
    if low == 0 {
      forall m | 0 <= m < 8 ensures !Bit(low, m) { ShrOfZero(m); }
    } else {
      NonZeroByte(low);
    }
  }

  lemma SeriesFrom(k: Basic, n: nat, s: seq<byte>)
    requires FuzzSeries(k, n, s).Fuzzed?
    ensures var v := FuzzSeries(k, n, s).v; v.Nums? && |v.ns| == n && FromSeries(k, v.ns, s, 0)
  {
    var data := s[..n * k.Size()];
    if k.BoolKind? {
      UnpackBytes(n, Tamed(data));
    } else {
      PackOfUnpack(k.Size(), n, data);
      PackHolds(k.Size(), Unpack(k.Size(), n, data));
      assert s[0..0 + n * k.Size()] == data;
    }
  }

  lemma ScalarFrom(k: Basic, s: seq<byte>)
    requires k.Size() <= |s|
    ensures if k.BoolKind? then FromLE(s[..k.Size()]) == s[0] else HoldsNumber(k.Size(), FromLE(s[..k.Size()]), s, 0)
  {
    var b := s[..k.Size()];
    LEOfFromLE(b);
    SingleHolds(k.Size(), FromLE(b));
    assert HoldsNumber(k.Size(), [FromLE(b)][0], b, k.Size() * 0);
    forall j | 0 <= j < k.Size() ensures s[0 + j] == Shr(FromLE(b), 8 * j) % 256 {
      assert b[k.Size() * 0 + j] == s[j];
    }
  }

  lemma BitlistFrom(limit: nat, x: nat, s: seq<byte>)
    requires FuzzBitlist(BitlistDraw(x, |s|, limit), limit, s).Fuzzed? && |s| < TWO_64
    ensures FromDraw(Bitlist(limit), x, s, FuzzBitlist(BitlistDraw(x, |s|, limit), limit, s).v)
  {
    BitlistDrawn(x, |s|, limit);
    MaskedLast(BitlistDraw(x, |s|, limit), limit, s);
  }

  lemma BitlistDrawn(x: nat, span: nat, limit: nat)
    requires 0 < span < TWO_64
    ensures BitlistDraw(x, span, limit) == 1 + Drawn(x, Min(span - 1, (limit + 7) / 8))
  {
    NoWrap(span);
  }

  lemma NoWrap(span: nat)
    requires 0 < span < TWO_64
    ensures Sub64(span, 1) == span - 1
  {
  }

  lemma MaskedLast(n: nat, limit: nat, s: seq<byte>)
    requires n > 0 && FuzzBitlist(n, limit, s).Fuzzed?
    ensures var v := FuzzBitlist(n, limit, s).v;
            && v.Raw? && |v.data| == n <= |s| && v.data[..n - 1] == s[..n - 1]
            && Masked(s[n - 1], limit, v.data[n - 1])
  {
    MaskKeeps(s[n - 1], limit);
  }

  lemma BasicListFrom(k: Basic, limit: nat, x: nat, s: seq<byte>)
    requires FuzzBasicList(k, limit, x, s).Fuzzed?
    ensures FromDraw(BasicList(k, limit), x, s, FuzzBasicList(k, limit, x, s).v)
  {
    var most := if limit * k.Size() > |s| then limit * k.Size() else |s|;
    if most > 0 {
      QuotientCounts(x % most, k.Size());
      SeriesFrom(k, x % most / k.Size(), s);
    } else {
      EmptySeries(k, s);
    }
  }

  lemma EmptySeries(k: Basic, s: seq<byte>)
    ensures FromSeries(k, [], s, 0)
  {
    assert s[0..0] == [];
  }

  lemma DrawnFrom(t: SszType, x: nat, s: seq<byte>)
    requires !t.Composite() && !IsFixed(t) && FuzzDrawn(t, x, s).Fuzzed? && |s| < TWO_64
    ensures FromDraw(t, x, s, FuzzDrawn(t, x, s).v)
  {
    match t
    case Bytes(_) =>
    case Bitlist(limit) => BitlistFrom(limit, x, s);
    case BasicList(k, limit) => BasicListFrom(k, limit, x, s);
  }

  /** Every value without parts is what its bytes call for. */
  lemma FuzzedLeaf(t: SszType, s: seq<byte>)
    requires !t.Composite() && FuzzParse(t, s).Fuzzed? && |s| < TWO_64
    ensures FromBytes(t, s, FuzzParse(t, s).v)
  {
    match t
    case Scalar(k) => ScalarFrom(k, s);
    case BasicVector(k, n) => SeriesFrom(k, n, s);
    case Bytes(_) => DrawnFrom(t, FromLE(s[..8]), s[8..]);
    case Bitlist(_) => DrawnFrom(t, FromLE(s[..8]), s[8..]);
    case BasicList(_, _) => DrawnFrom(t, FromLE(s[..8]), s[8..]);
    case _ =>
  }

  /** For types without parts that are not lists of basic elements: exactly what is decoded, and how the others fail. */
  lemma LeafOutcome(t: SszType, s: seq<byte>)
    requires !t.Composite() && !t.BasicList? && |s| < TWO_64
    ensures |s| < FuzzMinLen(t) <==> FuzzParse(t, s) == Fails(BeyondScope)
    ensures t.Scalar? || t.BytesN? || t.BasicVector? || t.Bytes? ==> (|s| >= FuzzMinLen(t) <==> FuzzParse(t, s).Fuzzed?)
    ensures t.Bitvector? && |s| >= FuzzMinLen(t) ==>
              if forall k :: t.bitLen <= k < 8 * FuzzMinLen(t) ==> !GetBit(s, k) then FuzzParse(t, s).Fuzzed?
              else FuzzParse(t, s) == Fails(Malformed)
  {
    match t
    case Bitvector(n) => if |s| >= FuzzMinLen(t) { BitvectorOutcome(n, s); }
    case Bitlist(limit) => if |s| >= 8 { BitlistOutcome(limit, FromLE(s[..8]), s[8..]); }
    case Bytes(limit) => if |s| >= 8 { BytesOutcome(limit, FromLE(s[..8]), s[8..]); }
    case _ =>
  }

  lemma BytesOutcome(limit: nat, x: nat, s: seq<byte>)
    ensures FuzzDrawn(Bytes(limit), x, s).Fuzzed?
  {
  }

  lemma BitvectorOutcome(n: nat, s: seq<byte>)
    requires |s| >= (n + 7) / 8
    ensures if forall k :: n <= k < 8 * ((n + 7) / 8) ==> !GetBit(s, k) then FuzzParse(Bitvector(n), s).Fuzzed?
            else FuzzParse(Bitvector(n), s) == Fails(Malformed)
  {
    var size := (n + 7) / 8;
    BitvectorCheckMeaning(s[..size], n);
    PrefixBits(s, size);
    BitvectorChecked(n, s, size);
  }

  lemma PrefixBits(s: seq<byte>, n: nat)
    requires n <= |s|
    ensures forall k :: 0 <= k < 8 * n ==> GetBit(s[..n], k) == GetBit(s, k)
  {
  }

  lemma BitvectorChecked(n: nat, s: seq<byte>, size: nat)
    requires size == (n + 7) / 8 <= |s|
    ensures FuzzParse(Bitvector(n), s)
            == if BitvectorCheck(s[..size], n) then Fuzzed(Raw(s[..size]), size) else Fails(Malformed)
  {
  }

  lemma BitlistOutcome(limit: nat, x: nat, s: seq<byte>)
    requires |s| < TWO_64
    ensures s == [] <==> FuzzDrawn(Bitlist(limit), x, s) == Fails(BeyondScope)
  {
    if s != [] {
      BitlistDrawn(x, |s|, limit);
      DrawnWithin(x, Min(|s| - 1, (limit + 7) / 8));
    }
  }

  lemma DrawnWithin(x: nat, most: nat)
    ensures Drawn(x, most) <= most
  {
  }

  /** There is just one way to mask a byte. */
  lemma MaskedOnce(b: byte, limit: nat, r: byte, q: byte)
    requires Masked(b, limit, r) && Masked(b, limit, q)
    ensures r == q
  {
    if exists m :: 0 <= m < 8 && m <= limit && Bit(b, m) {
      ByteShr(r);
      ByteShr(q);
      SameBits(r, q, 8);
    }
  }

  /**
   A bitlist of `n` bytes, of which the last one is masked to `last`: it is decoded exactly if it is within its
   limit, and malformed otherwise.
   */
  lemma BitlistExactly(limit: nat, s: seq<byte>, n: nat, last: byte)
    requires 9 <= |s| < TWO_64 && limit < TWO_64
    requires n == 1 + Drawn(FromLE(s[..8]), Min(|s| - 9, (limit + 7) / 8)) && Masked(s[8..][n - 1], limit, last)
    ensures FuzzParse(Bitlist(limit), s).Fuzzed? <==> 8 * (n - 1) + TopBit(last) <= limit
    ensures !FuzzParse(Bitlist(limit), s).Fuzzed? ==> FuzzParse(Bitlist(limit), s) == Fails(Malformed)
  {
    var rest := s[8..];
    BitlistDrawn(FromLE(s[..8]), |rest|, limit);
    MaskKeeps(rest[n - 1], limit);
    MaskedOnce(rest[n - 1], limit, last, MaskLast(rest[n - 1], limit));
    MaskedExactly(n, limit, rest, last);
  }

  lemma MaskedExactly(n: nat, limit: nat, s: seq<byte>, last: byte)
    requires 0 < n <= |s| && limit < TWO_64 && last == MaskLast(s[n - 1], limit)
    ensures FuzzBitlist(n, limit, s).Fuzzed? <==> 8 * (n - 1) + TopBit(last) <= limit
    ensures !FuzzBitlist(n, limit, s).Fuzzed? ==> FuzzBitlist(n, limit, s) == Fails(Malformed)
  {
    BitlistCheckMeaning(s[..n][n - 1 := last], limit);
  }

  // ----- what is decoded is legal, unless a list is too long

  /** No list has more elements than its limit, or elements of no length. */
  predicate ListsWithin(t: SszType, v: Value)
    decreases Height(t), 0, 0
  {
    t.Composite() && v.Elems? ==>
      && (t.List? ==> |v.vs| <= t.limit && (IsFixed(t.elem) ==> FixedLen(t.elem) > 0))
      && ListsWithinAll(Parts(t, |v.vs|), v.vs)
  }

  predicate ListsWithinAll(ts: seq<SszType>, vs: seq<Value>)
    decreases MaxHeight(ts), 1, |ts|
  {
    ts == [] || vs == [] || (ListsWithin(ts[0], vs[0]) && ListsWithinAll(ts[1..], vs[1..]))
  }

  /** No bitlist has a limit of 0. */
  predicate SomeBits(t: SszType)
    decreases t
  {
    match t
    case Bitlist(limit) => limit > 0
    case Vector(e, _) => SomeBits(e)
    case List(e, _) => SomeBits(e)
    case Container(ts) => SomeBitsAll(ts)
    case _ => true
  }

  predicate SomeBitsAll(ts: seq<SszType>)
    decreases ts
  {
    ts == [] || (SomeBits(ts[0]) && SomeBitsAll(ts[1..]))
  }

  /** Lists within their limits make a value legal, and keep it within the maximum length. */
  ghost predicate Orderly(t: SszType, r: Fuzz<Value>) {
    r.Fuzzed? ==>
      && (Legal(t, r.v) <==> ListsWithin(t, r.v))
      && (SomeBits(t) && ListsWithin(t, r.v) ==> r.n <= FuzzMaxLen(t))
  }

  ghost predicate OrderlyAll(ts: seq<SszType>, r: Fuzz<seq<Value>>) {
    r.Fuzzed? ==>
      && |r.v| == |ts|
      && (LegalAll(ts, r.v) <==> ListsWithinAll(ts, r.v))
      && (SomeBitsAll(ts) && ListsWithinAll(ts, r.v) ==> r.n <= FuzzMaxLens(ts))
  }

  lemma FixedMaxLen(t: SszType)
    requires !t.Composite() && IsFixed(t)
    ensures FuzzMaxLen(t) == FixedLen(t)
  {
  }

  lemma FuzzedBasicList(k: Basic, limit: nat, x: nat, s: seq<byte>)
    requires FuzzBasicList(k, limit, x, s).Fuzzed?
    ensures var r := FuzzBasicList(k, limit, x, s);
            r.v.Nums? && |r.v.ns| <= limit && r.n <= limit * k.Size()
  {
    BasicListFrom(k, limit, x, s);
    if limit * k.Size() > 0 || s != [] {
      FuzzSeriesFits(k, BasicDraw(k, limit, x, |s|), s);
      BasicListDrawn(k, limit, x, s);
    }
    WithinLimit(k, |FuzzBasicList(k, limit, x, s).v.ns|, limit);
  }

  lemma WithinLimit(k: Basic, n: nat, limit: nat)
    ensures n * k.Size() <= limit * k.Size() ==> n <= limit
  {
    if n > limit { MulOrder(k.Size(), limit + 1, n); }
  }

  lemma LeafIsOrderly(t: SszType, s: seq<byte>)
    requires !t.Composite()
    ensures Orderly(t, FuzzLeaf(t, s))
  {
    match t
    case BasicList(k, limit) => if FuzzLeaf(t, s).Fuzzed? { FuzzedBasicList(k, limit, FromLE(s[..8]), s[8..]); }
    case Bytes(_) =>
    case Bitlist(_) =>
    case _ => FixedMaxLen(t);
  }

  /**
   Limits of byte strings, bitlists and lists of basic elements are kept in fuzz mode; only a list of other elements
   can be too long.
   */
  lemma {:induction false} ParseIsOrderly(t: SszType, s: seq<byte>)
    ensures Orderly(t, FuzzParse(t, s))
    decreases Height(t), 0, 0
  {
    match t
    case Vector(e, n) =>
      PartsAreOrderly(!IsFixed(e), Repeat(e, n), s);
      RepeatMaxLens(e, n);
      RepeatSomeBits(e, n);
    case List(e, limit) =>
      if FuzzParse(t, s).Fuzzed? {
        var count, r := ListIs(e, limit, s);
        PartsAreOrderly(!IsFixed(e), Repeat(e, count), s[8..]);
        ListIsOrderly(e, limit, count, r);
      }
    case Container(ts) => PartsAreOrderly(true, ts, s);
    case _ => LeafIsOrderly(t, s);
  }

  lemma ListIsOrderly(e: SszType, limit: nat, count: nat, r: Fuzz<seq<Value>>)
    requires r.Fuzzed? && |r.v| == count && OrderlyAll(Repeat(e, count), r)
    ensures Orderly(List(e, limit), Fuzzed(Elems(r.v), 8 + r.n))
  {
    RepeatMaxLens(e, count);
    RepeatSomeBits(e, count);
    if count <= limit { ListMaxLen(FuzzMaxLen(e), count, limit); }
  }

  lemma ListMaxLen(max: nat, count: nat, limit: nat)
    requires count <= limit
    ensures max * count <= limit * max
  {
    TimesOrder(count, limit, max);
  }

  lemma {:induction false} RepeatSomeBits(e: SszType, n: nat)
    ensures SomeBitsAll(Repeat(e, n)) <==> n == 0 || SomeBits(e)
    decreases n
  {
    if n > 0 {
      RepeatTail(e, n);
      RepeatSomeBits(e, n - 1);
    }
  }

  lemma {:induction false} RepeatMaxLens(e: SszType, n: nat)
    ensures FuzzMaxLens(Repeat(e, n)) == FuzzMaxLen(e) * n
    decreases n
  {
    if n > 0 {
      RepeatTail(e, n);
      RepeatMaxLens(e, n - 1);
      MulStep(FuzzMaxLen(e), n);
    }
  }

  lemma {:induction false} PartsAreOrderly(scoped: bool, ts: seq<SszType>, s: seq<byte>)
    ensures OrderlyAll(ts, FuzzParts(scoped, ts, s))
    decreases MaxHeight(ts), 1, |ts|
  {
    if ts != [] && FuzzParts(scoped, ts, s).Fuzzed? {
      var first, rest := PartsAre(scoped, ts, s);
      ParseIsOrderly(ts[0], s[..|s| - Kept(scoped, ts[1..])]);
      PartsAreOrderly(scoped, ts[1..], s[first.n..]);
      OrderlyInFront(ts, first, rest);
    }
  }

  lemma OrderlyInFront(ts: seq<SszType>, first: Fuzz<Value>, rest: Fuzz<seq<Value>>)
    requires ts != [] && first.Fuzzed? && rest.Fuzzed? && Orderly(ts[0], first) && OrderlyAll(ts[1..], rest)
    ensures OrderlyAll(ts, Fuzzed([first.v] + rest.v, first.n + rest.n))
  {
    var vs := [first.v] + rest.v;
    assert vs[0] == first.v && vs[1..] == rest.v;
  }

  /** A bitlist with a limit of 0 takes 9 bytes, more than its maximum length of 8. */
  lemma NoBitsExceedMaxLen(s: seq<byte>)
    requires FuzzParse(Bitlist(0), s).Fuzzed?
    ensures FuzzParse(Bitlist(0), s).n == FuzzMinLen(Bitlist(0)) == FuzzMaxLen(Bitlist(0)) + 1
  {
  }

  /** However long its input, a list has at most as many elements as its limit. */
  ghost predicate KeepsLimit(e: SszType, limit: nat) {
    forall s, vs, n :: FuzzParse(List(e, limit), s) == Fuzzed(Elems(vs), n) ==> |vs| <= limit
  }

  lemma TimesOrder(a: nat, b: nat, c: nat)
    requires a <= b
    ensures a * c <= b * c
  {
  }

  lemma OneMoreDoesNotFit(n: nat, min: nat, draw: nat, limit: nat)
    requires n * min <= draw < (limit + 1) * min
    ensures n <= limit
  {
    if n > limit { TimesOrder(limit + 1, n, min); }
  }

  lemma CountWithin(e: SszType, limit: nat, s: seq<byte>, vs: seq<Value>, n: nat, room: nat)
    requires room == (limit + 1) * FuzzMinLen(e) && (limit * FuzzMaxLen(e) <= room || TWO_64 <= room)
    requires FuzzParse(List(e, limit), s) == Fuzzed(Elems(vs), n)
    ensures |vs| <= limit
  {
    FuzzedCount(e, limit, s, vs, n);
    if vs != [] {
      var fill := Min(|s| - 8, limit * FuzzMaxLen(e));
      DrawBound(s[..8]);
      ModBound(FromLE(s[..8]), fill);
      OneMoreDoesNotFit(|vs|, FuzzMinLen(e), FromLE(s[..8]) % fill, limit);
    }
  }

  lemma QuotientOf(n: nat, m: nat, p: nat)
    requires m > 0 && p == n * m
    ensures p / m == n
  {
    var d: int := p / m - n;
    assert p == (p / m) * m + p % m;
    assert (p / m) * m == n * m + d * m;
    Multiples(d, m);
  }

  lemma MoreDrawn(min: nat, count: nat, x: nat, fill: nat)
    requires x == count * min < fill && min > 0
    ensures DrawCount(x, fill, min) == Some(count)
  {
    ModSmall(x, fill);
    QuotientOf(count, min, x);
  }

  lemma ZeroElems(e: SszType, n: nat, x: nat, s: seq<byte>)
    requires x == n * FuzzMinLen(e) && ZeroesFirst(s, x)
    ensures FuzzParts(!IsFixed(e), Repeat(e, n), s).Fuzzed?
  {
    RepeatFuzzLens(e, n);
    RepeatFixed(e, n);
    ZeroParts(!IsFixed(e), Repeat(e, n), s);
  }

  lemma ZeroDrawnList(e: SszType, limit: nat, x: nat, count: nat, s: seq<byte>)
    requires DrawCount(x, ListFill(e, limit, |s|), FuzzMinLen(e)) == Some(count)
    requires FuzzParts(!IsFixed(e), Repeat(e, count), s).Fuzzed?
    ensures FuzzDrawnList(e, limit, x, s).Fuzzed?
  {
  }

  lemma ListUnfolded(e: SszType, limit: nat, x: nat, rest: seq<byte>)
    requires x < TWO_64 && FuzzDrawnList(e, limit, x, rest).Fuzzed?
    ensures FuzzParse(List(e, limit), LE(x, 8) + rest).Fuzzed?
  {
    DrawOf(LE(x, 8) + rest, x, rest);
  }

  lemma OneMoreDecoded(e: SszType, limit: nat, x: nat, span: nat)
    requires x == (limit + 1) * FuzzMinLen(e) < TWO_64 && span == limit * FuzzMaxLen(e) > x
    ensures var r := FuzzParse(List(e, limit), LE(x, 8) + Zeros(span));
            r.Fuzzed? && r.v.Elems? && |r.v.vs| == limit + 1
  {
    var rest := Zeros(span);
    if FuzzMinLen(e) == 0 { NeedsNothing(e); }
    MoreDrawn(FuzzMinLen(e), limit + 1, x, span);
    ZeroElems(e, limit + 1, x, rest);
    ZeroDrawnList(e, limit, x, limit + 1, rest);
    ListUnfolded(e, limit, x, rest);
    DrawOf(LE(x, 8) + rest, x, rest);
    var count, r := ListIs(e, limit, LE(x, 8) + rest);
  }

  lemma LimitKept(e: SszType, limit: nat, room: nat)
    requires room == (limit + 1) * FuzzMinLen(e) && (limit * FuzzMaxLen(e) <= room || TWO_64 <= room)
    ensures KeepsLimit(e, limit)
  {
    forall s, vs, n | FuzzParse(List(e, limit), s) == Fuzzed(Elems(vs), n) ensures |vs| <= limit {
      CountWithin(e, limit, s, vs, n, room);
    }
  }

  lemma LimitExceeded(e: SszType, limit: nat, x: nat, span: nat)
    requires x == (limit + 1) * FuzzMinLen(e) < TWO_64 && span == limit * FuzzMaxLen(e) > x
    ensures !KeepsLimit(e, limit)
  {
    OneMoreDecoded(e, limit, x, span);
    var r := FuzzParse(List(e, limit), LE(x, 8) + Zeros(span));
    assert r == Fuzzed(Elems(r.v.vs), r.n);
  }

  /**
   The limit of a list is kept on every input exactly if that many elements of maximum length leave no room for one
   more of minimum length, or so many cannot be drawn at all.
   */
  lemma LimitKeptExactly(e: SszType, limit: nat)
    ensures KeepsLimit(e, limit) <==>
            limit * FuzzMaxLen(e) <= (limit + 1) * FuzzMinLen(e) || (limit + 1) * FuzzMinLen(e) >= TWO_64
  {
    var room, most := (limit + 1) * FuzzMinLen(e), limit * FuzzMaxLen(e);
    if most <= room || TWO_64 <= room { LimitKept(e, limit, room); } else { LimitExceeded(e, limit, room, most); }
  }
}

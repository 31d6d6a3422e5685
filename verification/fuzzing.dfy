/**
 Decoding in fuzz mode: arbitrary bytes become a value.  There are no offsets; lengths are drawn from the
 input and fitted to what is left, and every part is given all that the parts behind it do not need.  This is a
 function of the bytes in scope; `FuzzDecoder` is proved to compute it.
 */
module Fuzzing {
  import opened Bits
  import opened Bytes
  import opened Bitfields
  import opened Grammar
  import opened Parsing
  import opened PartLemmas
  import opened Outcomes

  /** what a type needs at least in fuzz mode */
  function FuzzMinLen(t: SszType): nat
    decreases t
  {
    match t
    case Bytes(_) => 8
    case Bitlist(_) => 9
    case BasicList(_, _) => 8
    case List(_, _) => 8
    case Vector(e, n) => FuzzMinLen(e) * n
    case Container(ts) => FuzzMinLens(ts)
    case _ => FixedLen(t)
  }

  function FuzzMinLens(ts: seq<SszType>): nat
    decreases ts
  {
    if ts == [] then 0 else FuzzMinLen(ts[0]) + FuzzMinLens(ts[1..])
  }

  function FuzzMaxLen(t: SszType): nat
    decreases t
  {
    match t
    case Bytes(limit) => 8 + limit
    case Bitlist(limit) => 8 + (limit + 7) / 8
    case BasicList(k, limit) => 8 + limit * k.Size()
    case List(e, limit) => 8 + limit * FuzzMaxLen(e)
    case Vector(e, n) => FuzzMaxLen(e) * n
    case Container(ts) => FuzzMaxLens(ts)
    case _ => FixedLen(t)
  }

  function FuzzMaxLens(ts: seq<SszType>): nat
    decreases ts
  {
    if ts == [] then 0 else FuzzMaxLen(ts[0]) + FuzzMaxLens(ts[1..])
  }

  datatype FuzzError =
    | UnderEstimated  // the scope is too short for the parts behind
    | BeyondScope     // a read goes beyond the scope
    | OverLimit       // too many bytes
    | Malformed       // not a valid bitfield

  datatype Fuzz<+T> = Panics | Fails(e: FuzzError) | Fuzzed(v: T, n: nat)
  {
    /** The estimate of the required length was at fault. */
    predicate Estimated() {
      !Panics? && this != Fails(UnderEstimated)
    }
  }

  function Min(a: nat, b: nat): nat {
    if a < b then a else b
  }

  /** Bytes that are no booleans become true. */
  function Tamed(data: seq<byte>): (r: seq<byte>)
    ensures |r| == |data|
  {
    seq(|data|, i requires 0 <= i < |data| => if data[i] > 1 then 1 else data[i])
  }

  function FuzzRaw(n: nat, s: seq<byte>): Fuzz<Value> {
    if |s| < n then Fails(BeyondScope) else Fuzzed(Raw(s[..n]), n)
  }

  function FuzzSeries(k: Basic, n: nat, s: seq<byte>): Fuzz<Value> {
    if |s| < n * k.Size() then Fails(BeyondScope)
    else
      var data := if k.BoolKind? then Tamed(s[..n * k.Size()]) else s[..n * k.Size()];
      Fuzzed(Nums(Unpack(k.Size(), n, data)), n * k.Size())
  }

  /** `r` is read behind `n` other bytes. */
  function Later<T>(n: nat, r: Fuzz<T>): Fuzz<T> {
    if r.Fuzzed? then Fuzzed(r.v, n + r.n) else r
  }

  /** the number of bytes of a bitlist, of which `span` remain */
  function BitlistDraw(x: nat, span: nat, limit: nat): nat {
    var fill := Min(Sub64(span, 1), (limit + 7) / 8);
    if fill == 0 then 1 else x % fill + 1
  }

  lemma ModBound(a: nat, m: nat)
    requires m > 0
    ensures a % m <= a
  {
    if a < m { assert a % m == a; }
  }

  /** the `k` low bits of a byte */
  function LowBits(b: byte, k: nat): byte {
    ModBound(b, Pow2(k));
    b % Pow2(k)
  }

  /** The last byte of a bitlist has to have its top bit within the limit, and may not be zero. */
  function MaskLast(b: byte, limit: nat): (r: byte)
    ensures r != 0
  {
    var masked := if limit + 1 >= 8 then b else LowBits(b, limit + 1);
    if masked == 0 then 1 else masked
  }

  function FuzzBitlist(byteLen: nat, limit: nat, s: seq<byte>): Fuzz<Value>
    requires byteLen > 0
  {
    if |s| < byteLen then Fails(BeyondScope)
    else
      var data := s[..byteLen][byteLen - 1 := MaskLast(s[byteLen - 1], limit)];
      if BitlistCheck(data, limit) then Fuzzed(Raw(data), byteLen) else Fails(Malformed)
  }

  /** The number of bytes is drawn below the greater of span and limit. */
  function FuzzBasicList(k: Basic, limit: nat, x: nat, s: seq<byte>): Fuzz<Value> {
    var byteLimit := limit * k.Size();
    var span := if byteLimit > |s| then byteLimit else |s|;
    if span == 0 then Fuzzed(Nums([]), 0)
    else
      var n := x % span / k.Size();
      if n * k.Size() > byteLimit then Fails(OverLimit) else FuzzSeries(k, n, s)
  }

  function FuzzLeaf(t: SszType, s: seq<byte>): Fuzz<Value>
    requires !t.Composite()
  {
    match t
    case Scalar(k) =>
      if |s| < k.Size() then Fails(BeyondScope) else
      var x := FromLE(s[..k.Size()]);
      Fuzzed(Num(if k.BoolKind? then x % 2 else x), k.Size())
    case BytesN(n) => FuzzRaw(n, s)
    case Bitvector(bits) =>
      var r := FuzzRaw((bits + 7) / 8, s);
      if r.Fuzzed? && !BitvectorCheck(r.v.data, bits) then Fails(Malformed) else r
    case BasicVector(k, n) => FuzzSeries(k, n, s)
    case _ =>
      if |s| < 8 then Fails(BeyondScope) else FuzzDrawn(t, FromLE(s[..8]), s[8..])
  }

  /** A leaf of variable size, for the number `x` drawn before. */
  function FuzzDrawn(t: SszType, x: nat, s: seq<byte>): Fuzz<Value>
    requires !t.Composite()
  {
    match t
    case Bytes(limit) =>
      var span := Min(|s|, limit);
      Later(8, FuzzRaw(if span == 0 then 0 else x % span, s))
    case Bitlist(limit) => Later(8, FuzzBitlist(BitlistDraw(x, |s|, limit), limit, s))
    case BasicList(k, limit) => Later(8, FuzzBasicList(k, limit, x, s))
    case _ => Panics  // not a leaf of variable size
  }

  /** the number of elements of at least `min` bytes each, for a drawn number, if `fill` bytes are to be used */
  function DrawCount(x: nat, fill: nat, min: nat): Option<nat> {
    if fill == 0 then Some(0) else if min == 0 then None else Some(x % fill / min)
  }

  /** as many bytes as a list may use of those that are left */
  function ListFill(e: SszType, limit: nat, span: nat): nat {
    Min(span, limit * FuzzMaxLen(e))
  }

  function FuzzParse(t: SszType, s: seq<byte>): Fuzz<Value>
    decreases Height(t), 0, 0
  {
    match t
    case Vector(e, n) => Whole(FuzzParts(!IsFixed(e), Repeat(e, n), s))
    case List(e, limit) => FuzzList(e, limit, s)
    case Container(ts) => Whole(FuzzParts(true, ts, s))
    case _ => FuzzLeaf(t, s)
  }

  function FuzzList(e: SszType, limit: nat, s: seq<byte>): Fuzz<Value>
    decreases Height(e), 4, 0
  {
    if |s| < 8 then Fails(BeyondScope) else Later(8, FuzzDrawnList(e, limit, FromLE(s[..8]), s[8..]))
  }

  /** A list, for the number `x` drawn before. */
  function FuzzDrawnList(e: SszType, limit: nat, x: nat, s: seq<byte>): Fuzz<Value>
    decreases Height(e), 3, 0
  {
    FuzzElems(e, DrawCount(x, ListFill(e, limit, |s|), FuzzMinLen(e)), s)
  }

  /** A list with a given number of elements; without, an element length of zero was divided by. */
  function FuzzElems(e: SszType, count: Option<nat>, s: seq<byte>): Fuzz<Value>
    decreases Height(e), 2, 0
  {
    if count.None? then Panics else Whole(FuzzParts(!IsFixed(e), Repeat(e, count.value), s))
  }

  function Whole(r: Fuzz<seq<Value>>): Fuzz<Value> {
    match r
    case Panics => Panics
    case Fails(e) => Fails(e)
    case Fuzzed(vs, n) => Fuzzed(Elems(vs), n)
  }

  /** What is read when `vs` were read from the `n` bytes before `r`. */
  function FuzzAfter(vs: seq<Value>, n: nat, r: Fuzz<seq<Value>>): Fuzz<seq<Value>> {
    if r.Fuzzed? then Fuzzed(vs + r.v, n + r.n) else r
  }

  /** what is kept for the parts `ts`, if every part gets its own scope */
  function Kept(scoped: bool, ts: seq<SszType>): nat {
    if scoped then FuzzMinLens(ts) else 0
  }

  /**
   Parts one after the other, each in a scope that leaves just what the parts behind it need; or
   each in all that is left, which is what fixed-size elements get.
   */
  function FuzzParts(scoped: bool, ts: seq<SszType>, s: seq<byte>): Fuzz<seq<Value>>
    decreases MaxHeight(ts), 1, |ts|
  {
    if ts == [] then Fuzzed([], 0)
    else
      var leftOver := Kept(scoped, ts[1..]);
      if |s| < leftOver then Fails(UnderEstimated)
      else
        match FuzzParse(ts[0], s[..|s| - leftOver])
        case Panics => Panics
        case Fails(e) => Fails(e)
        case Fuzzed(v, n) => if n > |s| then Panics else FuzzAfter([v], n, FuzzParts(scoped, ts[1..], s[n..]))
  }

  /** `FuzzParts`, when the first part is `first` and the others are `rest` */
  lemma PartsAt(scoped: bool, ts: seq<SszType>, s: seq<byte>, first: Fuzz<Value>, rest: Fuzz<seq<Value>>)
    requires ts != [] && Kept(scoped, ts[1..]) <= |s| && first == FuzzParse(ts[0], s[..|s| - Kept(scoped, ts[1..])])
    requires first.Fuzzed? && first.n <= |s| && rest == FuzzParts(scoped, ts[1..], s[first.n..])
    ensures FuzzParts(scoped, ts, s) == FuzzAfter([first.v], first.n, rest)
  {
  }

  /** Parts that are decoded, taken apart. */
  lemma PartsAre(scoped: bool, ts: seq<SszType>, s: seq<byte>) returns (first: Fuzz<Value>, rest: Fuzz<seq<Value>>)
    requires ts != [] && FuzzParts(scoped, ts, s).Fuzzed?
    ensures Kept(scoped, ts[1..]) <= |s| && first == FuzzParse(ts[0], s[..|s| - Kept(scoped, ts[1..])])
    ensures first.Fuzzed? && first.n <= |s| && rest == FuzzParts(scoped, ts[1..], s[first.n..]) && rest.Fuzzed?
    ensures FuzzParts(scoped, ts, s) == Fuzzed([first.v] + rest.v, first.n + rest.n)
  {
    first := FuzzParse(ts[0], s[..|s| - Kept(scoped, ts[1..])]);
    rest := FuzzParts(scoped, ts[1..], s[first.n..]);
  }

  // ----- types that need nothing get nothing

  lemma {:induction false} NeedsNothing(t: SszType)
    requires FuzzMinLen(t) == 0
    ensures FuzzMaxLen(t) == 0
    decreases t
  {
    match t
    case Vector(e, n) => if n > 0 { NoFactor(FuzzMinLen(e), n); NeedsNothing(e); }
    case Container(ts) => NeedNothing(ts);
    case _ =>
  }

  lemma NoFactor(a: nat, n: nat)
    requires a * n == 0 && n > 0
    ensures a == 0
  {
  }

  lemma {:induction false} NeedNothing(ts: seq<SszType>)
    requires FuzzMinLens(ts) == 0
    ensures FuzzMaxLens(ts) == 0
    decreases ts
  {
    if ts != [] {
      NeedsNothing(ts[0]);
      NeedNothing(ts[1..]);
    }
  }

  /** No list ever divides by zero. */
  lemma ListDrawn(e: SszType, limit: nat, x: nat, span: nat)
    ensures var count := DrawCount(x, ListFill(e, limit, span), FuzzMinLen(e));
            count.Some? && FuzzMinLen(e) * count.value <= span
  {
    var fill := ListFill(e, limit, span);
    if FuzzMinLen(e) == 0 {
      NeedsNothing(e);
      assert limit * FuzzMaxLen(e) == 0;
    } else if fill > 0 {
      DivBound(x % fill, FuzzMinLen(e));
    }
  }

  lemma DivBound(a: nat, b: nat)
    requires b > 0
    ensures b * (a / b) <= a
  {
  }

  // ----- what is read lies in the scope, and fits the type

  lemma {:induction false} FixedFuzzLen(t: SszType)
    requires IsFixed(t)
    ensures FuzzMinLen(t) == FixedLen(t)
    decreases t
  {
    match t
    case Vector(e, _) => FixedFuzzLen(e);
    case Container(ts) => FixedFuzzLens(ts);
    case _ =>
  }

  lemma {:induction false} FixedFuzzLens(ts: seq<SszType>)
    requires AllFixed(ts)
    ensures FuzzMinLens(ts) == HeadsLen(ts)
    decreases ts
  {
    if ts != [] {
      FixedFuzzLen(ts[0]);
      FixedFuzzLens(ts[1..]);
    }
  }

  lemma {:induction false} RepeatFuzzLens(e: SszType, n: nat)
    ensures FuzzMinLens(Repeat(e, n)) == FuzzMinLen(e) * n
    decreases n
  {
    if n > 0 {
      RepeatTail(e, n);
      RepeatFuzzLens(e, n - 1);
      MulStep(FuzzMinLen(e), n);
    }
  }

  /** A value of `t` from at most `max` bytes and no less than the minimum; a fixed-size value takes just its length. */
  ghost predicate Fitting(t: SszType, r: Fuzz<Value>, max: nat) {
    r.Fuzzed? ==> Typed(t, r.v) && FuzzMinLen(t) <= r.n <= max && (IsFixed(t) ==> r.n == FixedLen(t))
  }

  ghost predicate FittingAll(ts: seq<SszType>, r: Fuzz<seq<Value>>, max: nat) {
    r.Fuzzed? ==> TypedAll(ts, r.v) && FuzzMinLens(ts) <= r.n <= max && (AllFixed(ts) ==> r.n == HeadsLen(ts))
  }

  lemma SeriesFits(k: Basic, n: nat, data: seq<byte>)
    requires |data| == n * k.Size() && (k.BoolKind? ==> forall i :: 0 <= i < |data| ==> data[i] <= 1)
    ensures InRangeAll(k, Unpack(k.Size(), n, data))
  {
    PackOfUnpack(k.Size(), n, data);
    if k.BoolKind? { UnpackBytes(n, data); }
  }

  lemma FuzzSeriesFits(k: Basic, n: nat, s: seq<byte>)
    ensures var r := FuzzSeries(k, n, s);
            r.Fuzzed? ==> r.n == n * k.Size() <= |s| && r.v.Nums? && |r.v.ns| == n && InRangeAll(k, r.v.ns)
  {
    if |s| >= n * k.Size() {
      SeriesFits(k, n, if k.BoolKind? then Tamed(s[..n * k.Size()]) else s[..n * k.Size()]);
    }
  }

  lemma LeafFits(t: SszType, s: seq<byte>)
    requires !t.Composite()
    ensures Fitting(t, FuzzLeaf(t, s), |s|)
  {
    match t
    case Scalar(k) => if |s| >= k.Size() { LEOfFromLE(s[..k.Size()]); }
    case BasicVector(k, n) => FuzzSeriesFits(k, n, s);
    case BasicList(k, limit) =>
      if |s| >= 8 { FuzzBasicListFits(k, limit, FromLE(s[..8]), s[8..]); }
    case _ =>
  }

  lemma FuzzBasicListFits(k: Basic, limit: nat, x: nat, s: seq<byte>)
    ensures var r := FuzzBasicList(k, limit, x, s);
            r.Fuzzed? ==> r.n <= |s| && r.v.Nums? && InRangeAll(k, r.v.ns)
  {
    var byteLimit := limit * k.Size();
    var span := if byteLimit > |s| then byteLimit else |s|;
    if span > 0 { FuzzSeriesFits(k, x % span / k.Size(), s); }
  }

  lemma {:induction false} ParseFits(t: SszType, s: seq<byte>)
    ensures Fitting(t, FuzzParse(t, s), |s|)
    decreases Height(t), 0, 0
  {
    match t
    case Vector(e, n) =>
      RepeatLens(e, n);
      RepeatFixed(e, n);
      RepeatFuzzLens(e, n);
      PartsFit(!IsFixed(e), Repeat(e, n), s);
    case List(e, limit) =>
      if |s| >= 8 { ListFits(e, limit, FromLE(s[..8]), s[8..]); }
    case Container(ts) => PartsFit(true, ts, s);
    case _ => LeafFits(t, s);
  }

  lemma {:induction false} ListFits(e: SszType, limit: nat, x: nat, s: seq<byte>)
    ensures Fitting(List(e, limit), Later(8, FuzzDrawnList(e, limit, x, s)), |s| + 8)
    decreases Height(e), 3, 0
  {
    var count := DrawCount(x, ListFill(e, limit, |s|), FuzzMinLen(e));
    if count.Some? { PartsFit(!IsFixed(e), Repeat(e, count.value), s); }
  }

  lemma PartInFront(ts: seq<SszType>, first: Fuzz<Value>, rest: Fuzz<seq<Value>>, max: nat)
    requires ts != [] && first.Fuzzed? && first.n <= max
    requires Fitting(ts[0], first, max) && FittingAll(ts[1..], rest, max - first.n)
    ensures FittingAll(ts, FuzzAfter([first.v], first.n, rest), max)
  {
    if rest.Fuzzed? {
      var vs := [first.v] + rest.v;
      assert vs[0] == first.v && vs[1..] == rest.v;
    }
  }

  lemma {:induction false} PartsFit(scoped: bool, ts: seq<SszType>, s: seq<byte>)
    ensures FittingAll(ts, FuzzParts(scoped, ts, s), |s|)
    decreases MaxHeight(ts), 1, |ts|
  {
    if ts != [] && |s| >= Kept(scoped, ts[1..]) {
      var scope := s[..|s| - Kept(scoped, ts[1..])];
      var first := FuzzParse(ts[0], scope);
      ParseFits(ts[0], scope);
      if first.Fuzzed? {
        PartsFit(scoped, ts[1..], s[first.n..]);
        PartInFront(ts, first, FuzzParts(scoped, ts[1..], s[first.n..]), |s|);
      }
    }
  }

  // ----- the budget

  /** Decoding can come to a list of basic elements: there is one, in no vector or list that always stays empty. */
  predicate BasicListReached(t: SszType)
    decreases t
  {
    match t
    case BasicList(_, _) => true
    case Vector(e, n) => n > 0 && BasicListReached(e)
    case List(e, limit) => BasicListReached(e) && SomeDrawn(e, limit)
    case Container(ts) => BasicListsReached(ts)
    case _ => false
  }

  predicate BasicListsReached(ts: seq<SszType>)
    decreases ts
  {
    ts != [] && (BasicListReached(ts[0]) || BasicListsReached(ts[1..]))
  }

  /** Some input makes a list non-empty. */
  predicate SomeDrawn(e: SszType, limit: nat) {
    FuzzMinLen(e) < TWO_64 && FuzzMinLen(e) < limit * FuzzMaxLen(e)
  }

  /** A read goes beyond the scope, or a list of basic elements beyond its limit. */
  predicate ReadFails<T(==)>(r: Fuzz<T>) {
    r.Fails? && (r.e.BeyondScope? || r.e.OverLimit?)
  }

  /** The required length was not under-estimated, and if no basic list is reached no read fails. */
  ghost predicate WithinBudget<T>(r: Fuzz<T>, reached: bool) {
    r.Estimated() && (ReadFails(r) ==> reached)
  }

  lemma LeafBudget(t: SszType, s: seq<byte>)
    requires !t.Composite() && |s| >= FuzzMinLen(t)
    ensures WithinBudget(FuzzLeaf(t, s), BasicListReached(t))
  {
  }

  /** Whatever the type, with its minimum length available the estimates are right in all scopes. */
  lemma {:induction false} ParseBudget(t: SszType, s: seq<byte>)
    requires FuzzMinLen(t) <= |s|
    ensures WithinBudget(FuzzParse(t, s), BasicListReached(t))
    decreases Height(t), 0, 0
  {
    match t
    case Vector(e, n) =>
      RepeatFuzzLens(e, n);
      ElemsBudget(e, n, s);
    case List(e, limit) => ListBudget(e, limit, s);
    case Container(ts) => PartsBudget(true, ts, s);
    case _ => LeafBudget(t, s);
  }

  lemma DrawBound(b: seq<byte>)
    requires |b| == 8
    ensures FromLE(b) < TWO_64
  {
    LEOfFromLE(b);
    Pow256Of8();
  }

  lemma {:induction false} ListBudget(e: SszType, limit: nat, s: seq<byte>)
    requires |s| >= 8
    ensures WithinBudget(FuzzList(e, limit, s), BasicListReached(e) && SomeDrawn(e, limit))
    decreases Height(e), 4, 0
  {
    DrawBound(s[..8]);
    DrawnListBudget(e, limit, FromLE(s[..8]), s[8..]);
  }

  lemma {:induction false} DrawnListBudget(e: SszType, limit: nat, x: nat, s: seq<byte>)
    requires x < TWO_64
    ensures WithinBudget(FuzzDrawnList(e, limit, x, s), BasicListReached(e) && SomeDrawn(e, limit))
    decreases Height(e), 3, 0
  {
    ListDrawn(e, limit, x, |s|);
    if !SomeDrawn(e, limit) { NoneDrawn(e, limit, x, |s|); }
    ElemsBudget(e, DrawCount(x, ListFill(e, limit, |s|), FuzzMinLen(e)).value, s);
  }

  /** A list whose elements never fit stays empty. */
  lemma NoneDrawn(e: SszType, limit: nat, x: nat, span: nat)
    requires x < TWO_64 && !SomeDrawn(e, limit)
    ensures DrawCount(x, ListFill(e, limit, span), FuzzMinLen(e)) == Some(0)
  {
    var fill := ListFill(e, limit, span);
    ListDrawn(e, limit, x, span);
    if fill > 0 && FuzzMinLen(e) > 0 {
      ModBound(x, fill);
      NoQuotient(x % fill, FuzzMinLen(e));
    }
  }

  lemma NoQuotient(a: nat, b: nat)
    requires a < b
    ensures a / b == 0
  {
  }

  lemma {:induction false} ElemsBudget(e: SszType, n: nat, s: seq<byte>)
    requires FuzzMinLen(e) * n <= |s|
    ensures WithinBudget(FuzzParts(!IsFixed(e), Repeat(e, n), s), n > 0 && BasicListReached(e))
    decreases Height(e), 2, 0
  {
    RepeatFuzzLens(e, n);
    RepeatFixed(e, n);
    RepeatReached(e, n);
    PartsBudget(!IsFixed(e), Repeat(e, n), s);
  }

  lemma {:induction false} RepeatReached(e: SszType, n: nat)
    ensures BasicListsReached(Repeat(e, n)) <==> n > 0 && BasicListReached(e)
    decreases n
  {
    if n > 0 {
      RepeatTail(e, n);
      RepeatReached(e, n - 1);
    }
  }

  /** Every part is handed at least what it needs, and leaves what the others need. */
  lemma {:induction false} PartsBudget(scoped: bool, ts: seq<SszType>, s: seq<byte>)
    requires (scoped || AllFixed(ts)) && FuzzMinLens(ts) <= |s|
    ensures WithinBudget(FuzzParts(scoped, ts, s), BasicListsReached(ts))
    decreases MaxHeight(ts), 1, |ts|
  {
    if ts != [] {
      var scope := s[..|s| - Kept(scoped, ts[1..])];
      var first := FuzzParse(ts[0], scope);
      assert |scope| >= FuzzMinLen(ts[0]);
      ParseFits(ts[0], scope);
      ParseBudget(ts[0], scope);
      if first.Fuzzed? {
        EnoughLeft(scoped, ts, first, |s|);
        PartsBudget(scoped, ts[1..], s[first.n..]);
      }
      BudgetInFront(scoped, ts, s, first);
    }
  }

  lemma EnoughLeft(scoped: bool, ts: seq<SszType>, first: Fuzz<Value>, span: nat)
    requires ts != [] && (scoped || AllFixed(ts)) && FuzzMinLens(ts) <= span && first.Fuzzed?
    requires Fitting(ts[0], first, span - Kept(scoped, ts[1..]))
    ensures first.n <= span && FuzzMinLens(ts[1..]) <= span - first.n
  {
    if !scoped { FixedFuzzLen(ts[0]); }
  }

  lemma BudgetInFront(scoped: bool, ts: seq<SszType>, s: seq<byte>, first: Fuzz<Value>)
    requires ts != [] && Kept(scoped, ts[1..]) <= |s| && first == FuzzParse(ts[0], s[..|s| - Kept(scoped, ts[1..])])
    requires WithinBudget(first, BasicListReached(ts[0]))
    requires first.Fuzzed? ==> first.n <= |s|
    requires first.Fuzzed? ==> WithinBudget(FuzzParts(scoped, ts[1..], s[first.n..]), BasicListsReached(ts[1..]))
    ensures WithinBudget(FuzzParts(scoped, ts, s), BasicListsReached(ts))
  {
  }

  /** the scope that part `k` is handed, if it comes to that */
  function ScopeAt(ts: seq<SszType>, s: seq<byte>, k: nat): Option<seq<byte>>
    requires k < |ts|
    decreases k
  {
    var leftOver := FuzzMinLens(ts[1..]);
    if |s| < leftOver then None
    else if k == 0 then Some(s[..|s| - leftOver])
    else
      var first := FuzzParse(ts[0], s[..|s| - leftOver]);
      if first.Fuzzed? && first.n <= |s| then ScopeAt(ts[1..], s[first.n..], k - 1) else None
  }

  /** Every part is handed a scope of at least its own minimum length. */
  lemma {:induction false} AmpleScope(ts: seq<SszType>, s: seq<byte>, k: nat)
    requires k < |ts| && FuzzMinLens(ts) <= |s| && ScopeAt(ts, s, k).Some?
    ensures FuzzMinLen(ts[k]) <= |ScopeAt(ts, s, k).value|
    decreases k
  {
    if k > 0 {
      var scope := s[..|s| - FuzzMinLens(ts[1..])];
      ParseFits(ts[0], scope);
      AmpleScope(ts[1..], s[FuzzParse(ts[0], scope).n..], k - 1);
    }
  }

  // ----- lists of basic elements, and inputs on which they fail

  /** the number of elements that are drawn for a list of basic elements, when `avail` bytes are left */
  function BasicDraw(k: Basic, limit: nat, x: nat, avail: nat): nat {
    var most := if limit * k.Size() > avail then limit * k.Size() else avail;
    if most == 0 then 0 else x % most / k.Size()
  }

  lemma BasicListDrawn(k: Basic, limit: nat, x: nat, s: seq<byte>)
    ensures var n, r := BasicDraw(k, limit, x, |s|), FuzzBasicList(k, limit, x, s);
            && (r == Fails(OverLimit) <==> n * k.Size() > limit * k.Size())
            && (r == Fails(BeyondScope) <==> |s| < n * k.Size() <= limit * k.Size())
            && (r.Fuzzed? <==> n * k.Size() <= limit * k.Size() && n * k.Size() <= |s|)
  {
  }

  /** What becomes of a list of basic elements: the elements drawn may be too many in two ways. */
  lemma BasicListExactly(k: Basic, limit: nat, s: seq<byte>)
    requires |s| >= 8
    ensures var n, r := BasicDraw(k, limit, FromLE(s[..8]), |s| - 8), FuzzParse(BasicList(k, limit), s);
            && (r == Fails(OverLimit) <==> n * k.Size() > limit * k.Size())
            && (r == Fails(BeyondScope) <==> |s| - 8 < n * k.Size() <= limit * k.Size())
            && (r.Fuzzed? <==> n * k.Size() <= limit * k.Size() && n * k.Size() <= |s| - 8)
  {
    BasicListDrawn(k, limit, FromLE(s[..8]), s[8..]);
  }

  lemma {:induction false} FromLEOfZeros(s: seq<byte>)
    requires forall i :: 0 <= i < |s| ==> s[i] == 0
    ensures FromLE(s) == 0
  {
    if s != [] { FromLEOfZeros(s[1..]); }
  }

  /** `s` begins with `n` zeroes. */
  ghost predicate ZeroesFirst(s: seq<byte>, n: nat) {
    n <= |s| && forall i :: 0 <= i < n ==> s[i] == 0
  }

  lemma ZeroDraw(s: seq<byte>)
    requires ZeroesFirst(s, 8)
    ensures FromLE(s[..8]) == 0
  {
    FromLEOfZeros(s[..8]);
  }

  lemma ZeroLeaf(t: SszType, s: seq<byte>)
    requires !t.Composite() && ZeroesFirst(s, FuzzMinLen(t))
    ensures FuzzLeaf(t, s).Fuzzed? && FuzzLeaf(t, s).n == FuzzMinLen(t)
  {
    match t
    case Bitvector(bits) =>
      var b := s[..(bits + 7) / 8];
      forall k | 0 <= k < 8 * |b| ensures !GetBit(b, k) { ShrOfZero(k % 8); }
      BitvectorCheckMeaning(b, bits);
    case Bytes(_) => ZeroDraw(s);
    case Bitlist(limit) =>
      ZeroDraw(s);
      ZeroBitlist(limit, s[8..]);
    case BasicList(k, limit) =>
      ZeroDraw(s);
      assert FuzzSeries(k, 0, s[8..]).Fuzzed?;
    case _ =>
  }

  lemma ZeroBitlist(limit: nat, s: seq<byte>)
    requires s != [] && s[0] == 0
    ensures BitlistDraw(0, |s|, limit) == 1
    ensures FuzzBitlist(1, limit, s).Fuzzed? && FuzzBitlist(1, limit, s).n == 1
  {
    ModBound(0, Pow2(limit + 1));
    assert s[..1][0 := 1] == [1];
  }

  /** Zeroes always are decoded, to the value that takes the least of them. */
  lemma {:induction false} ZeroParse(t: SszType, s: seq<byte>)
    requires ZeroesFirst(s, FuzzMinLen(t))
    ensures FuzzParse(t, s).Fuzzed? && FuzzParse(t, s).n == FuzzMinLen(t)
    decreases Height(t), 0, 0
  {
    match t
    case Vector(e, n) =>
      RepeatFuzzLens(e, n);
      RepeatFixed(e, n);
      ZeroParts(!IsFixed(e), Repeat(e, n), s);
    case List(e, limit) =>
      ZeroDraw(s);
      ZeroList(e, limit, s[8..]);
    case Container(ts) => ZeroParts(true, ts, s);
    case _ => ZeroLeaf(t, s);
  }

  lemma ZeroList(e: SszType, limit: nat, s: seq<byte>)
    ensures FuzzDrawnList(e, limit, 0, s) == Fuzzed(Elems([]), 0)
  {
    ListDrawn(e, limit, 0, |s|);
    ZeroDrawn(ListFill(e, limit, |s|), FuzzMinLen(e));
    assert Repeat(e, 0) == [] && FuzzParts(!IsFixed(e), [], s) == Fuzzed([], 0);
    assert FuzzElems(e, Some(0), s) == Fuzzed(Elems([]), 0);
  }

  lemma ZeroDrawn(fill: nat, min: nat)
    requires DrawCount(0, fill, min).Some?
    ensures DrawCount(0, fill, min) == Some(0)
  {
    if fill > 0 {
      ModSmall(0, fill);
      NoQuotient(0, min);
    }
  }

  lemma {:induction false} ZeroParts(scoped: bool, ts: seq<SszType>, s: seq<byte>)
    requires (scoped || AllFixed(ts)) && ZeroesFirst(s, FuzzMinLens(ts))
    ensures FuzzParts(scoped, ts, s).Fuzzed? && FuzzParts(scoped, ts, s).n == FuzzMinLens(ts)
    decreases MaxHeight(ts), 1, |ts|
  {
    if ts != [] {
      var scope := s[..|s| - Kept(scoped, ts[1..])];
      assert ZeroesFirst(scope, FuzzMinLen(ts[0]));
      ZeroParse(ts[0], scope);
      ZeroParts(scoped, ts[1..], s[FuzzMinLen(ts[0])..]);
    }
  }

  /** Draws two elements, for which one byte is too short; or more elements than the limit. */
  function TooMany(k: Basic, limit: nat): seq<byte> {
    if limit >= 3 then LE(2 * k.Size(), 8) + Zeros(1)
    else LE((limit + 1) * k.Size(), 8) + Zeros((limit + 1) * k.Size() + 1)
  }

  /** An input that makes a read fail. */
  function FailingInput(t: SszType): (s: seq<byte>)
    requires BasicListReached(t)
    decreases Height(t), 0, 0
  {
    match t
    case BasicList(k, limit) => TooMany(k, limit)
    case Vector(e, n) =>
      RepeatReached(e, n);
      FailingInputs(Repeat(e, n))
    case List(e, _) => LE(FuzzMinLen(e), 8) + FailingInput(e)
    case Container(ts) => FailingInputs(ts)
  }

  function FailingInputs(ts: seq<SszType>): (s: seq<byte>)
    requires BasicListsReached(ts)
    decreases MaxHeight(ts), 1, |ts|
  {
    if BasicListReached(ts[0]) then FailingInput(ts[0]) + Zeros(FuzzMinLens(ts[1..]))
    else Zeros(FuzzMinLen(ts[0])) + FailingInputs(ts[1..])
  }

  lemma DrawOf(s: seq<byte>, x: nat, rest: seq<byte>)
    requires x < TWO_64 && s == LE(x, 8) + rest
    ensures |s| == 8 + |rest| && FromLE(s[..8]) == x && s[8..] == rest
  {
    Pow256Of8();
    FromLEOfLE(x, 8);
    assert s[..8] == LE(x, 8);
  }

  lemma ModSmall(a: nat, b: nat)
    requires a < b
    ensures a % b == a
  {
  }

  lemma DrawTooMany(k: Basic, limit: nat)
    ensures limit >= 3 ==> BasicDraw(k, limit, 2 * k.Size(), 1) == 2
    ensures limit < 3 ==> BasicDraw(k, limit, (limit + 1) * k.Size(), (limit + 1) * k.Size() + 1) == limit + 1
  {
    if limit >= 3 {
      Multiple(k, limit);
      ModSmall(2 * k.Size(), limit * k.Size());
      Multiple(k, 2);
    } else {
      Multiple(k, limit);
      Multiple(k, limit + 1);
      ModSmall((limit + 1) * k.Size(), (limit + 1) * k.Size() + 1);
    }
  }

  lemma Multiple(k: Basic, n: nat)
    ensures n * k.Size() / k.Size() == n && n <= n * k.Size() <= 8 * n
    ensures n >= 3 ==> n * k.Size() > 2 * k.Size()
    ensures (n + 1) * k.Size() > n * k.Size()
  {
    match k
    case BoolKind =>
    case Uint8Kind =>
    case Uint16Kind =>
    case Uint32Kind =>
    case Uint64Kind =>
  }

  lemma FailsWith(k: Basic, limit: nat, x: nat, rest: seq<byte>, n: nat)
    requires x < TWO_64 && n == BasicDraw(k, limit, x, |rest|)
    requires n * k.Size() > limit * k.Size() || n * k.Size() > |rest|
    ensures ReadFails(FuzzParse(BasicList(k, limit), LE(x, 8) + rest))
  {
    DrawOf(LE(x, 8) + rest, x, rest);
    BasicListExactly(k, limit, LE(x, 8) + rest);
  }

  lemma FailingBasicList(k: Basic, limit: nat)
    ensures |TooMany(k, limit)| > 8 && ReadFails(FuzzParse(BasicList(k, limit), TooMany(k, limit)))
  {
    DrawTooMany(k, limit);
    if limit >= 3 { TooShort(k, limit); } else { OverTheLimit(k, limit); }
  }

  lemma TooShort(k: Basic, limit: nat)
    requires BasicDraw(k, limit, 2 * k.Size(), 1) == 2
    ensures ReadFails(FuzzParse(BasicList(k, limit), LE(2 * k.Size(), 8) + Zeros(1)))
  {
    FailsWith(k, limit, 2 * k.Size(), Zeros(1), 2);
  }

  lemma OverTheLimit(k: Basic, limit: nat)
    requires limit < 3 && BasicDraw(k, limit, (limit + 1) * k.Size(), (limit + 1) * k.Size() + 1) == limit + 1
    ensures ReadFails(FuzzParse(BasicList(k, limit),
                                LE((limit + 1) * k.Size(), 8) + Zeros((limit + 1) * k.Size() + 1)))
  {
    Multiple(k, limit);
    Multiple(k, limit + 1);
    FailsWith(k, limit, (limit + 1) * k.Size(), Zeros((limit + 1) * k.Size() + 1), limit + 1);
  }

  lemma {:induction false} ReachedIsVariable(t: SszType)
    requires BasicListReached(t)
    ensures !IsFixed(t)
    decreases t
  {
    match t
    case Vector(e, _) => ReachedIsVariable(e);
    case Container(ts) => ReachedAreVariable(ts);
    case _ =>
  }

  lemma {:induction false} ReachedAreVariable(ts: seq<SszType>)
    requires BasicListsReached(ts)
    ensures !AllFixed(ts)
    decreases ts
  {
    if BasicListReached(ts[0]) { ReachedIsVariable(ts[0]); } else { ReachedAreVariable(ts[1..]); }
  }

  lemma {:induction false} FailingInputFails(t: SszType)
    requires BasicListReached(t)
    ensures |FailingInput(t)| > FuzzMinLen(t) && ReadFails(FuzzParse(t, FailingInput(t)))
    decreases Height(t), 0, 0
  {
    match t
    case BasicList(k, limit) => FailingBasicList(k, limit);
    case Vector(e, n) =>
      ReachedIsVariable(e);
      RepeatReached(e, n);
      RepeatFuzzLens(e, n);
      FailingPartsFail(Repeat(e, n));
    case List(e, limit) =>
      FailingInputFails(e);
      FailingListFails(e, limit, FailingInput(e));
    case Container(ts) => FailingPartsFail(ts);
  }

  /** One element is drawn, and fails. */
  lemma FailingListFails(e: SszType, limit: nat, s: seq<byte>)
    requires SomeDrawn(e, limit) && BasicListReached(e) && |s| > FuzzMinLen(e) && ReadFails(FuzzParse(e, s))
    ensures ReadFails(FuzzParse(List(e, limit), LE(FuzzMinLen(e), 8) + s))
  {
    DrawOf(LE(FuzzMinLen(e), 8) + s, FuzzMinLen(e), s);
    DrawnListFails(e, limit, s);
  }

  lemma DrawnListFails(e: SszType, limit: nat, s: seq<byte>)
    requires SomeDrawn(e, limit) && BasicListReached(e) && |s| > FuzzMinLen(e) && ReadFails(FuzzParse(e, s))
    ensures ReadFails(FuzzDrawnList(e, limit, FuzzMinLen(e), s))
  {
    FillsOne(e, limit, |s|);
    OneDrawn(FuzzMinLen(e), ListFill(e, limit, |s|));
    ReachedIsVariable(e);
    OneFails(e, s);
  }

  lemma FillsOne(e: SszType, limit: nat, span: nat)
    requires SomeDrawn(e, limit) && span > FuzzMinLen(e)
    ensures 0 < FuzzMinLen(e) < ListFill(e, limit, span)
  {
    if FuzzMinLen(e) == 0 { NeedsNothing(e); }
  }

  lemma OneDrawn(min: nat, fill: nat)
    requires 0 < min < fill
    ensures DrawCount(min, fill, min) == Some(1)
  {
    ModSmall(min, fill);
    OneQuotient(min);
  }

  lemma OneQuotient(a: nat)
    requires a > 0
    ensures a / a == 1
  {
  }

  lemma OneFails(e: SszType, s: seq<byte>)
    requires ReadFails(FuzzParse(e, s))
    ensures ReadFails(FuzzParts(true, Repeat(e, 1), s))
  {
    assert Repeat(e, 1) == [e] && [e][1..] == [];
    assert s[..|s| - 0] == s;
  }

  lemma {:induction false} FailingPartsFail(ts: seq<SszType>)
    requires BasicListsReached(ts)
    ensures |FailingInputs(ts)| > FuzzMinLens(ts) && ReadFails(FuzzParts(true, ts, FailingInputs(ts)))
    decreases MaxHeight(ts), 1, |ts|
  {
    var s, left := FailingInputs(ts), FuzzMinLens(ts[1..]);
    if BasicListReached(ts[0]) {
      FailingInputFails(ts[0]);
      assert s[..|s| - left] == FailingInput(ts[0]);
    } else {
      FailingPartsFail(ts[1..]);
      ZeroParse(ts[0], s[..|s| - left]);
      assert s[FuzzMinLen(ts[0])..] == FailingInputs(ts[1..]);
      PartsAt(true, ts, s, FuzzParse(ts[0], s[..|s| - left]), FuzzParts(true, ts[1..], s[FuzzMinLen(ts[0])..]));
    }
  }

  ghost predicate NoReadFails(t: SszType) {
    forall s :: FuzzMinLen(t) <= |s| ==> !ReadFails(FuzzParse(t, s))
  }

  /** The exact condition: no input of the minimum length makes a read fail if and only if no basic list is reached. */
  lemma NoReadFailsExactly(t: SszType)
    ensures NoReadFails(t) <==> !BasicListReached(t)
  {
    if BasicListReached(t) {
      FailingInputFails(t);
      assert FuzzMinLen(t) <= |FailingInput(t)|;
    } else {
      forall s | FuzzMinLen(t) <= |s| ensures !ReadFails(FuzzParse(t, s)) { ParseBudget(t, s); }
    }
  }

  /** A list of basic elements may ask for more than there is: here 1 byte of none. */
  lemma BasicListBeyondScope()
    ensures FuzzMinLen(BasicList(Uint8Kind, 2)) == 8
    ensures FuzzParse(BasicList(Uint8Kind, 2), [1, 0, 0, 0, 0, 0, 0, 0]) == Fails(BeyondScope)
  {
    var s: seq<byte> := [1, 0, 0, 0, 0, 0, 0, 0];
    assert s[..8] == s && s[8..] == [];
    FromLEOfZeros(s[1..]);
  }
}

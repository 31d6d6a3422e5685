/**
 Runs of nested scopes (dec/decoder.go): a reader opens a scope, the scope is read, and its index is added to
 that of its parent.  Every scope reads through the limited readers of all scopes around it, so a read could
 be cut short by any of them; it never is.
 */
module ReaderRuns {
  import opened Bits
  import opened Outcomes

  /** `left` is what the limited reader of the scope still lets through. */
  datatype Reader = Reader(i: nat, max: nat, left: nat)

  /** the reader in use, and those whose scopes it lies in */
  datatype Chain = Unscoped(top: Reader) | Scoped(top: Reader, parent: Chain)

  datatype State = State(chain: Chain, pos: nat)

  datatype Op =
    | Open(count: nat)  // Scope
    | Take(count: nat)  // Read or Skip
    | Close             // UpdateIndexFromScoped

  function Start(): State {
    State(Unscoped(Reader(0, TWO_64 - 1, TWO_64 - 1)), 0)
  }

  /** Every limited reader lets `n` bytes through. */
  predicate LetsThrough(chain: Chain, n: nat)
    decreases chain
  {
    n <= chain.top.left && (chain.Scoped? ==> LetsThrough(chain.parent, n))
  }

  function Drained(chain: Chain, n: nat): Chain
    requires LetsThrough(chain, n)
    decreases chain
  {
    var top := chain.top.(left := chain.top.left - n);
    if chain.Scoped? then Scoped(top, Drained(chain.parent, n)) else Unscoped(top)
  }

  function Advanced(chain: Chain, i: nat): Chain {
    chain.(top := chain.top.(i := i))
  }

  /** What a limited reader makes of a count, as an int64: a negative limit lets nothing through. */
  function AsLimit(count: nat): nat {
    if count < TWO_63 then count else 0
  }

  /** One operation on an input of `length` bytes, or an error; sums and differences are those of uint64. */
  function Step(s: State, op: Op, length: nat): Option<State> {
    var top := s.chain.top;
    match op
    case Open(count) =>
      if (top.max - top.i) % TWO_64 < count then None
      else Some(s.(chain := Scoped(Reader(0, count, AsLimit(count)), s.chain)))
    case Take(count) =>
      var i := (top.i + count) % TWO_64;
      if i > top.max || !LetsThrough(s.chain, count) || s.pos + count > length then None
      else Some(State(Advanced(Drained(s.chain, count), i), s.pos + count))
    case Close =>
      if s.chain.Unscoped? then None
      else Some(s.(chain := Advanced(s.chain.parent, (s.chain.parent.top.i + top.i) % TWO_64)))
  }

  function Run(s: State, ops: seq<Op>, length: nat): Option<State>
    decreases |ops|
  {
    if ops == [] then Some(s)
    else
      var next := Step(s, ops[0], length);
      if next.None? then None else Run(next.value, ops[1..], length)
  }

  // ----- the invariant

  /** No index is beyond its scope, and every scope lies in what its parent had left to read. */
  ghost predicate Nested(chain: Chain)
    decreases chain
  {
    && chain.top.i <= chain.top.max < TWO_64
    && (chain.Scoped? ==> Nested(chain.parent) && chain.top.max <= chain.parent.top.max - chain.parent.top.i)
  }

  /** the sum of the indices along the chain */
  function Sum(chain: Chain): nat
    decreases chain
  {
    chain.top.i + if chain.Scoped? then Sum(chain.parent) else 0
  }

  /** The limit of the scope is negative as an int64. */
  predicate Wide(chain: Chain) {
    chain.Scoped? && chain.top.max >= TWO_63
  }

  predicate Narrow(chain: Chain)
    decreases chain
  {
    !Wide(chain) && (chain.Scoped? ==> Narrow(chain.parent))
  }

  /**
   A limited reader has let through what was read in its own scope and, so far, in the scopes within; nothing is ever
   read in a wide scope.
   */
  ghost predicate Limited(chain: Chain, within: nat)
    decreases chain
  {
    && (if Wide(chain) then chain.top.left == chain.top.i == within == 0
        else chain.top.left == chain.top.max - chain.top.i - within)
    && (chain.Scoped? ==> Limited(chain.parent, within + chain.top.i))
  }

  /** What is read goes to memory, or is skipped. */
  predicate Fits(op: Op) {
    op.Take? ==> op.count < TWO_63
  }

  ghost predicate Inv(s: State) {
    Nested(s.chain) && Sum(s.chain) == s.pos && Limited(s.chain, 0)
  }

  // ----- every run keeps it

  /** What fits in the innermost scope is let through by every limited reader around it. */
  lemma {:induction false} NeverCutShort(chain: Chain, within: nat, n: nat)
    requires Nested(chain) && Limited(chain, within) && chain.top.i + within + n <= chain.top.max
    requires Narrow(chain) || n == 0
    ensures LetsThrough(chain, n)
    decreases chain
  {
    if chain.Scoped? { NeverCutShort(chain.parent, within + chain.top.i, n); }
  }

  lemma {:induction false} OnlyNarrow(chain: Chain, within: nat, n: nat)
    requires Limited(chain, within) && LetsThrough(chain, n) && n > 0
    ensures Narrow(chain)
    decreases chain
  {
    if chain.Scoped? { OnlyNarrow(chain.parent, within + chain.top.i, n); }
  }

  lemma {:induction false} DrainedKeeps(chain: Chain, within: nat, n: nat)
    requires Nested(chain) && Limited(chain, within) && LetsThrough(chain, n)
    ensures Nested(Drained(chain, n)) && Sum(Drained(chain, n)) == Sum(chain)
    ensures Limited(Drained(chain, n), within + n)
    ensures Drained(chain, n).top.i == chain.top.i && Drained(chain, n).top.max == chain.top.max
    decreases chain
  {
    if chain.Scoped? { DrainedKeeps(chain.parent, within + chain.top.i, n); }
  }

  lemma TopWithinSum(chain: Chain)
    ensures chain.top.i <= Sum(chain)
    decreases chain
  {
  }

  /** The exact outcome of a read: only the innermost scope and the end of the input count, unless a scope is wide. */
  lemma TakeExactly(s: State, n: nat, length: nat)
    requires Inv(s) && n < TWO_63 && length < TWO_63
    ensures Step(s, Take(n), length).Some? <==>
            n <= s.chain.top.max - s.chain.top.i && s.pos + n <= length && (n == 0 || Narrow(s.chain))
  {
    TopWithinSum(s.chain);
    if n <= s.chain.top.max - s.chain.top.i && (n == 0 || Narrow(s.chain)) { NeverCutShort(s.chain, 0, n); }
    if n > 0 && LetsThrough(s.chain, n) { OnlyNarrow(s.chain, 0, n); }
  }

  /** In a narrow scope no wide one is inner, so a difference that has wrapped around is refused. */
  lemma WideIsRefused(s: State, count: nat, length: nat)
    requires Inv(s) && s.chain.Scoped? && Narrow(s.chain) && count >= TWO_63
    ensures Step(s, Open(count), length).None?
  {
  }

  lemma TakeKeepsInv(chain: Chain, n: nat)
    requires Nested(chain) && Limited(chain, 0) && n <= chain.top.max - chain.top.i && LetsThrough(chain, n)
    ensures var after := Advanced(Drained(chain, n), chain.top.i + n);
            Nested(after) && Limited(after, 0) && Sum(after) == Sum(chain) + n
  {
    DrainedKeeps(chain, 0, n);
  }

  lemma CloseKeepsInv(child: Reader, parent: Chain)
    requires Nested(Scoped(child, parent)) && Limited(Scoped(child, parent), 0)
    ensures parent.top.i + child.i < TWO_64
    ensures var after := Advanced(parent, parent.top.i + child.i);
            Nested(after) && Limited(after, 0) && Sum(after) == Sum(Scoped(child, parent))
  {
    assert Limited(parent, 0 + child.i);
  }

  lemma OpenKeepsInv(chain: Chain, count: nat)
    requires Nested(chain) && Limited(chain, 0) && count <= chain.top.max - chain.top.i
    ensures var after := Scoped(Reader(0, count, AsLimit(count)), chain);
            Nested(after) && Limited(after, 0) && Sum(after) == Sum(chain)
  {
    assert Limited(chain, 0 + 0);
  }

  lemma OpenStep(s: State, count: nat, length: nat)
    requires Inv(s) && Step(s, Open(count), length).Some?
    ensures Inv(Step(s, Open(count), length).value)
  {
    OpenKeepsInv(s.chain, count);
  }

  lemma TakeStep(s: State, count: nat, length: nat)
    requires Inv(s) && count < TWO_63 && length < TWO_63 && Step(s, Take(count), length).Some?
    ensures Inv(Step(s, Take(count), length).value)
  {
    TakeExactly(s, count, length);
    TopWithinSum(s.chain);
    TakeKeepsInv(s.chain, count);
  }

  lemma CloseStep(s: State, length: nat)
    requires Inv(s) && Step(s, Close, length).Some?
    ensures Inv(Step(s, Close, length).value)
  {
    CloseKeepsInv(s.chain.top, s.chain.parent);
  }

  lemma StepKeepsInv(s: State, op: Op, length: nat)
    requires Inv(s) && length < TWO_63 && Fits(op) && Step(s, op, length).Some?
    ensures Inv(Step(s, op, length).value)
  {
    match op
    case Open(count) => OpenStep(s, count, length);
    case Take(count) => TakeStep(s, count, length);
    case Close => CloseStep(s, length);
  }

  /** Whatever scopes are inner, read and closed, in whatever order. */
  lemma {:induction false} RunKeepsInv(s: State, ops: seq<Op>, length: nat)
    requires Inv(s) && length < TWO_63
    requires forall k :: 0 <= k < |ops| ==> Fits(ops[k])
    requires Run(s, ops, length).Some?
    ensures Inv(Run(s, ops, length).value)
    decreases |ops|
  {
    if ops != [] {
      StepKeepsInv(s, ops[0], length);
      RunKeepsInv(Step(s, ops[0], length).value, ops[1..], length);
    }
  }

  lemma StartIsNested()
    ensures Inv(Start())
  {
  }

  // ----- what an operation does

  /** A scope of `count` bytes is inner exactly if as many are left, and everything around it stays as it is. */
  lemma OpenExactly(s: State, count: nat, length: nat)
    requires Inv(s)
    ensures var after := Step(s, Open(count), length);
            && (after.Some? <==> count <= s.chain.top.max - s.chain.top.i)
            && (after.Some? ==> after.value.pos == s.pos && after.value.chain.Scoped?)
            && (after.Some? ==> after.value.chain.parent == s.chain)
            && (after.Some? ==> after.value.chain.top.i == 0 && after.value.chain.top.max == count)
            && (after.Some? ==> after.value.chain.top.left == if count < TWO_63 then count else 0)
  {
  }

  /** A read moves the index of the innermost scope and the position in the input by the same number. */
  lemma TakeMoves(s: State, n: nat, length: nat)
    requires Inv(s) && n < TWO_63 && length < TWO_63 && Step(s, Take(n), length).Some?
    ensures var after := Step(s, Take(n), length).value;
            && after.pos == s.pos + n
            && after.chain.top.i == s.chain.top.i + n && after.chain.top.max == s.chain.top.max
            && (after.chain.Scoped? <==> s.chain.Scoped?)
  {
    TakeExactly(s, n, length);
    TopWithinSum(s.chain);
  }

  /** A scope is closed exactly if there is one around it, of which just the index moves, by that of the scope. */
  lemma CloseExactly(s: State, length: nat)
    requires Inv(s)
    ensures var after := Step(s, Close, length);
            && (after.Some? <==> s.chain.Scoped?)
            && (after.Some? ==> after.value.pos == s.pos)
            && (after.Some? ==> var parent := s.chain.parent;
                                after.value.chain == parent.(top := parent.top.(i := parent.top.i + s.chain.top.i)))
  {
    if s.chain.Scoped? { CloseKeepsInv(s.chain.top, s.chain.parent); }
  }

  // ----- a scope as a whole

  /** Operations in a scope that lies `k` scopes above another one, and that leave just this one open. */
  predicate Inside(ops: seq<Op>, k: nat)
    decreases |ops|
  {
    if ops == [] then k == 0
    else
      match ops[0]
      case Open(_) => Inside(ops[1..], k + 1)
      case Take(_) => Inside(ops[1..], k)
      case Close => k > 0 && Inside(ops[1..], k - 1)
  }

  /** The scope `k` scopes further out has `max` bytes, and lies in the chain `base`. */
  ghost predicate Above(chain: Chain, k: nat, max: nat, base: Chain)
    decreases k
  {
    && chain.Scoped?
    && if k == 0 then chain.top.max == max && chain.parent == base else Above(chain.parent, k - 1, max, base)
  }

  lemma {:induction false} DrainedTwice(chain: Chain, n: nat, more: nat)
    requires LetsThrough(chain, n) && LetsThrough(Drained(chain, n), more)
    ensures LetsThrough(chain, n + more) && Drained(Drained(chain, n), more) == Drained(chain, n + more)
    decreases chain
  {
    if chain.Scoped? { DrainedTwice(chain.parent, n, more); }
  }

  lemma {:induction false} DrainedNone(chain: Chain)
    ensures LetsThrough(chain, 0) && Drained(chain, 0) == chain
    decreases chain
  {
    if chain.Scoped? { DrainedNone(chain.parent); }
  }

  lemma {:induction false} DrainedAbove(chain: Chain, k: nat, max: nat, base: Chain, n: nat)
    requires Above(chain, k, max, base) && LetsThrough(chain, n)
    ensures LetsThrough(base, n) && Above(Drained(chain, n), k, max, Drained(base, n))
    decreases k
  {
    if k > 0 { DrainedAbove(chain.parent, k - 1, max, base, n); }
  }

  /** In a scope of `max` bytes inner in `s`: what was read since is missing from the limited readers around it. */
  ghost predicate InScope(s: State, max: nat, now: State, k: nat) {
    && Inv(now) && s.pos <= now.pos
    && LetsThrough(s.chain, now.pos - s.pos)
    && Above(now.chain, k, max, Drained(s.chain, now.pos - s.pos))
  }

  lemma TakeInside(s: State, max: nat, now: State, k: nat, n: nat, length: nat)
    requires InScope(s, max, now, k) && n < TWO_63 && length < TWO_63 && Step(now, Take(n), length).Some?
    ensures InScope(s, max, Step(now, Take(n), length).value, k)
    ensures Step(now, Take(n), length).value.pos <= length
  {
    TakeStep(now, n, length);
    DrainedAbove(now.chain, k, max, Drained(s.chain, now.pos - s.pos), n);
    DrainedTwice(s.chain, now.pos - s.pos, n);
    TakeMoves(now, n, length);
    AdvancedAbove(Drained(now.chain, n), k, max, Drained(s.chain, now.pos - s.pos + n), now.chain.top.i + n);
  }

  lemma AdvancedAbove(chain: Chain, k: nat, max: nat, base: Chain, i: nat)
    requires Above(chain, k, max, base)
    ensures Above(Advanced(chain, i), k, max, base)
  {
  }

  lemma StepInside(s: State, max: nat, now: State, k: nat, op: Op, length: nat) returns (next: nat)
    requires InScope(s, max, now, k) && Fits(op) && length < TWO_63 && Step(now, op, length).Some?
    requires op.Close? ==> k > 0
    ensures next == if op.Open? then k + 1 else if op.Take? then k else k - 1
    ensures InScope(s, max, Step(now, op, length).value, next)
    ensures now.pos <= length ==> Step(now, op, length).value.pos <= length
  {
    StepKeepsInv(now, op, length);
    match op
    case Open(_) => next := k + 1;
    case Take(n) =>
      next := k;
      TakeInside(s, max, now, k, n, length);
    case Close =>
      next := k - 1;
      CloseExactly(now, length);
      var around := now.chain.parent;
      AdvancedAbove(around, k - 1, max, Drained(s.chain, now.pos - s.pos), around.top.i + now.chain.top.i);
  }

  lemma {:induction false} RunInside(s: State, max: nat, now: State, k: nat, ops: seq<Op>, length: nat)
    requires InScope(s, max, now, k) && Inside(ops, k) && length < TWO_63 && now.pos <= length
    requires (forall j :: 0 <= j < |ops| ==> Fits(ops[j])) && Run(now, ops, length).Some?
    ensures InScope(s, max, Run(now, ops, length).value, 0) && Run(now, ops, length).value.pos <= length
    decreases |ops|
  {
    if ops != [] {
      var next := StepInside(s, max, now, k, ops[0], length);
      RunInside(s, max, Step(now, ops[0], length).value, next, ops[1..], length);
    }
  }

  /**
   Whatever is done in a scope, with scopes of its own: once it is closed, all that remains is a read of as many bytes,
   at most those of the scope.
   */
  lemma ScopeIsOneRead(s: State, count: nat, ops: seq<Op>, length: nat)
    requires Inv(s) && s.pos <= length < TWO_63 && Inside(ops, 0)
    requires forall j :: 0 <= j < |ops| ==> Fits(ops[j])
    requires Step(s, Open(count), length).Some? && Run(Step(s, Open(count), length).value, ops, length).Some?
    ensures var now := Run(Step(s, Open(count), length).value, ops, length).value;
            && s.pos <= now.pos <= s.pos + count
            && Step(now, Close, length) == Step(s, Take(now.pos - s.pos), length)
  {
    var inner := Step(s, Open(count), length).value;
    OpenStep(s, count, length);
    OpenExactly(s, count, length);
    DrainedNone(s.chain);
    RunInside(s, count, inner, 0, ops, length);
    ClosedIsOneRead(s, count, Run(inner, ops, length).value, length);
  }

  lemma ClosedIsOneRead(s: State, count: nat, now: State, length: nat)
    requires Inv(s) && count <= s.chain.top.max - s.chain.top.i && InScope(s, count, now, 0) && now.pos <= length
    ensures now.pos <= s.pos + count && Step(now, Close, length) == Step(s, Take(now.pos - s.pos), length)
  {
    var n := now.pos - s.pos;
    DrainedKeeps(s.chain, 0, n);
    assert now.chain.top.i == n;
  }

  lemma RunOfOne(s: State, op: Op, length: nat)
    ensures Run(s, [op], length) == Step(s, op, length)
  {
  }

  lemma RunOfThree(s: State, a: Op, b: Op, c: Op, length: nat)
    ensures Step(s, a, length).None? ==> Run(s, [a, b, c], length).None?
    ensures Step(s, a, length).Some? ==> var first := Step(s, a, length).value;
              && (Step(first, b, length).None? ==> Run(s, [a, b, c], length).None?)
              && (Step(first, b, length).Some? ==>
                    Run(s, [a, b, c], length) == Step(Step(first, b, length).value, c, length))
  {
    var ops := [a, b, c];
    assert ops[1..] == [b, c] && ops[1..][1..] == [c];
    if Step(s, a, length).Some? {
      var first := Step(s, a, length).value;
      if Step(first, b, length).Some? { RunOfOne(Step(first, b, length).value, c, length); }
    }
  }

  /** A scope that is read in full is a read, which fails exactly if that does. */
  lemma ScopedRead(s: State, n: nat, length: nat)
    requires Inv(s) && n < TWO_63 && s.pos <= length < TWO_63
    ensures Run(s, [Open(n), Take(n), Close], length) == Run(s, [Take(n)], length)
    ensures Run(s, [Take(n)], length).Some? <==>
            n <= s.chain.top.max - s.chain.top.i && s.pos + n <= length && (n == 0 || Narrow(s.chain))
  {
    TakeExactly(s, n, length);
    OpenExactly(s, n, length);
    RunOfOne(s, Take(n), length);
    RunOfThree(s, Open(n), Take(n), Close, length);
    if Step(s, Open(n), length).Some? { ScopedReadOpened(s, n, Step(s, Open(n), length).value, length); }
  }

  lemma ScopedReadOpened(s: State, n: nat, inner: State, length: nat)
    requires Inv(s) && n < TWO_63 && s.pos <= length < TWO_63 && Step(s, Open(n), length) == Some(inner)
    ensures var now := Step(inner, Take(n), length);
            if now.None? then Step(s, Take(n), length).None?
            else Step(now.value, Close, length) == Step(s, Take(n), length)
  {
    OpenStep(s, n, length);
    OpenExactly(s, n, length);
    TakeExactly(s, n, length);
    TakeExactly(inner, n, length);
    var now := Step(inner, Take(n), length);
    if now.Some? {
      TakeMoves(inner, n, length);
      RunOfOne(inner, Take(n), length);
      ScopeIsOneRead(s, n, [Take(n)], length);
    }
  }
}

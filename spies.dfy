/** The spy functions: `arbSpyFn` and its async variant `arbSpyPromiseFn`.
    The function `x` that fast-check samples for a spy is a parameter. */
module Spies {
  import opened Results
  import opened Logs
  import Compose

  datatype Option<T> = None | Some(value: T)

  /** What a spy call hands back: the raw sampled result when the spy has no
      result map (`res as unknown as B`), the mapped one when it has. */
  datatype Returned<A, B> = Raw(raw: A) | Mapped(mapped: B)

  /** The callable of one spy sample: it holds the log `rec` of the
      arbitrary that drew it, the sampled function `x` and the optional
      result map. */
  class SpyFn<I, A, B> {
    const log: LogCell<Spied<I, A>>
    const x: I -> A
    const mapRes: Option<A -> B>

    constructor (log: LogCell<Spied<I, A>>, x: I -> A, mapRes: Option<A -> B>)
      ensures this.log == log && this.x == x && this.mapRes == mapRes
    {
      this.log := log;
      this.x := x;
      this.mapRes := mapRes;
    }

    /** `fn(...i)`: log `{args: i, result: x(i)}` at the end of the log and
        return `mapRes(x(i))`, or `x(i)` itself when there is no map. */
    method Call(i: I) returns (out: Returned<A, B>)
      modifies log
      ensures log.entries == old(log.entries) + [Spied(i, x(i))]
      ensures mapRes.Some? ==> out == Mapped(mapRes.value(x(i)))
      ensures mapRes.None? ==> out == Raw(x(i))
    {
      var res := x(i);
      log.Push(Spied(i, res));
      out := if mapRes.Some? then Mapped(mapRes.value(res)) else Raw(res);
    }
  }

  /** A sample of a spy generator: the truncation of its log, the log, and
      the spy that writes into it. */
  type SpySample<I, A, B> = Sample<Spied<I, A>, Log<Spied<I, A>>, SpyFn<I, A, B>>

  /** The spy arbitrary `arbSpyFn<I>()(arb, mapRes)`. Its `fc.constant([])`
      evaluates `[]` once, when the arbitrary is built, so every sample it
      draws, in every run, writes into this one log `rec`. */
  class SpyArb<I, A, B> {
    const rec: LogCell<Spied<I, A>>
    const mapRes: Option<A -> B>

    constructor (mapRes: Option<A -> B>)
      ensures fresh(rec) && rec.entries == [] && this.mapRes == mapRes
    {
      rec := new LogCell();
      this.mapRes := mapRes;
    }

    /** One draw, given the function `x` that `fc.func(arb)` samples: a new
        spy over the shared log, that log as the log structure, and its
        truncation as the reset. Drawing changes no log, so `rec` still
        holds whatever earlier draws' spies wrote into it. */
    method Draw(x: I -> A) returns (s: SpySample<I, A, B>)
      ensures fresh(s.value)
      ensures s.value.log == rec && s.value.x == x && s.value.mapRes == mapRes
      ensures s.log == Leaf(rec) && s.reset == Clear(rec)
      ensures Exact(s)
    {
      var fn := new SpyFn(rec, x, mapRes);
      s := Sample(Clear(rec), Leaf(rec), fn);
    }
  }

  /** `arbSpyPromiseFn<I>()({onFailure, onSuccess})`: an `arbSpyFn` whose
      result map settles the promise from the result, while the log keeps
      the result itself. The success/failure pick is part of the values the
      drawn function returns. */
  method ArbSpyPromiseFn<I, E, A>() returns (arb: SpyArb<I, Result<E, A>, Settled<E, A>>)
    ensures fresh(arb) && fresh(arb.rec)
    ensures arb.rec.entries == [] && arb.mapRes == Some(ToPromise)
  {
    arb := new SpyArb(Some(ToPromise));
  }

  /** Two runs of one spy arbitrary. The second draw's spy writes into the
      same log as the first, which still holds the first run's call when it
      is drawn; `toArbitrary` empties it, whatever it held, before the
      second run's call. */
  method TwoRuns<I, A, B>(arb: SpyArb<I, A, B>, x1: I -> A, x2: I -> A, i: I, j: I)
    returns (s1: SpySample<I, A, B>, s2: SpySample<I, A, B>, held: seq<Spied<I, A>>)
    modifies arb.rec
    ensures s1.value.log == arb.rec && s2.value.log == arb.rec
    ensures held == [Spied(i, x1(i))]
    ensures arb.rec.entries == [Spied(j, x2(j))]
  {
    s1 := arb.Draw(x1);
    var l1, f1 := Compose.ToArbitrary(s1);
    var _ := f1.Call(i);
    s2 := arb.Draw(x2);
    held := arb.rec.entries;
    var l2, f2 := Compose.ToArbitrary(s2);
    var _ := f2.Call(j);
  }

  /** Calling an async spy and classifying the settled promise
      (`.then(Result.success).catch(Result.failure)`) gives exactly the
      result the call logged. */
  method CallAndClassify<I, E, A>(spy: SpyFn<I, Result<E, A>, Settled<E, A>>, i: I) returns (r: Result<E, A>)
    requires spy.mapRes == Some(ToPromise)
    modifies spy.log
    ensures spy.log.entries == old(spy.log.entries) + [Spied(i, r)]
    ensures r == spy.x(i)
  {
    var out := spy.Call(i);
    r := Classify(out.mapped);
    ClassifyToPromise(spy.x(i));
  }

  /** One sample whose reset runs again after its spy was called: the
      reset empties the log, a second reset changes nothing, and the sample
      keeps its function `x`, so the same arguments log and return the same
      value as before. (A new run draws a new sample, with a new `x` over
      the same log, as in `TwoRuns`.) */
  method ReplayAfterReset<I, A, B>(s: SpySample<I, A, B>, i: I) returns (before: Returned<A, B>, after: Returned<A, B>)
    requires s.log == Leaf(s.value.log) && s.reset == Clear(s.value.log)
    modifies s.value.log
    ensures after == before
    ensures s.value.log.entries == [Spied(i, s.value.x(i))]
  {
    before := s.value.Call(i);
    RunReset(s.reset);
    RunReset(s.reset);
    after := s.value.Call(i);
  }

  /** The log a spy holds after being called with `calls`, in order, from an
      empty log: each call appends its own record. */
  function CallLogOf<I, A>(x: I -> A, calls: seq<I>): (log: seq<Spied<I, A>>)
    ensures |log| == |calls|
  {
    if calls == [] then []
    else CallLogOf(x, calls[..|calls| - 1]) + [Spied(calls[|calls| - 1], x(calls[|calls| - 1]))]
  }

  /** Log fidelity: the `k`-th record holds the `k`-th call's arguments and
      the raw sampled result for them. */
  lemma {:induction false} CallLogOfAt<I, A>(x: I -> A, calls: seq<I>, k: nat)
    requires k < |calls|
    ensures CallLogOf(x, calls)[k] == Spied(calls[k], x(calls[k]))
  {
    if k < |calls| - 1 {
      CallLogOfAt(x, calls[..|calls| - 1], k);
    }
  }

  /** Later calls only append: the log of `a + b` starts with the log of `a`. */
  lemma {:induction false} CallLogOfAppend<I, A>(x: I -> A, a: seq<I>, b: seq<I>)
    ensures CallLogOf(x, a + b) == CallLogOf(x, a) + CallLogOf(x, b)
  {
    if b == [] {
      assert a + b == a;
    } else {
      assert (a + b)[..|a + b| - 1] == a + b[..|b| - 1];
      CallLogOfAppend(x, a, b[..|b| - 1]);
    }
  }

  /** One more call extends the log exactly as `Call` does. */
  lemma CallLogOfSnoc<I, A>(x: I -> A, calls: seq<I>, i: I)
    ensures CallLogOf(x, calls + [i]) == CallLogOf(x, calls) + [Spied(i, x(i))]
  {
    assert (calls + [i])[..|calls|] == calls;
  }

  /** `inputs.map(x => spy(x))`: the spy called with each input in order.
      The log gains `CallLogOf(x, calls)` after what it held, and each
      output is that call's mapped, or raw, sampled result. */
  method CallAll<I, A, B>(spy: SpyFn<I, A, B>, calls: seq<I>) returns (outs: seq<Returned<A, B>>)
    modifies spy.log
    ensures spy.log.entries == old(spy.log.entries) + CallLogOf(spy.x, calls)
    ensures |outs| == |calls|
    ensures forall k :: 0 <= k < |calls| && spy.mapRes.Some? ==> outs[k] == Mapped(spy.mapRes.value(spy.x(calls[k])))
    ensures forall k :: 0 <= k < |calls| && spy.mapRes.None? ==> outs[k] == Raw(spy.x(calls[k]))
  {
    outs := [];
    var k := 0;
    while k < |calls|
      invariant 0 <= k <= |calls|
      invariant spy.log.entries == old(spy.log.entries) + CallLogOf(spy.x, calls[..k])
      invariant |outs| == k
      invariant forall n :: 0 <= n < k && spy.mapRes.Some? ==> outs[n] == Mapped(spy.mapRes.value(spy.x(calls[n])))
      invariant forall n :: 0 <= n < k && spy.mapRes.None? ==> outs[n] == Raw(spy.x(calls[n]))
    {
      var out := spy.Call(calls[k]);
      CallLogOfSnoc(spy.x, calls[..k], calls[k]);
      assert calls[..k + 1] == calls[..k] + [calls[k]];
      outs := outs + [out];
      k := k + 1;
    }
    assert calls[..k] == calls;
  }
}

/** `pipe`: left-to-right function application, over one value type. */
module Pipes {

  /** `a` passed through `fs[0]`, then `fs[1]`, and so on. */
  function Fold<T>(a: T, fs: seq<T -> T>): T
  {
    if fs == [] then a else Fold(fs[0](a), fs[1..])
  }

  /** Applying one more function at the end applies it to the result. */
  lemma {:induction false} FoldSnoc<T>(a: T, fs: seq<T -> T>, f: T -> T)
    ensures Fold(a, fs + [f]) == f(Fold(a, fs))
  {
    if fs != [] {
      assert (fs + [f])[1..] == fs[1..] + [f];
      FoldSnoc(fs[0](a), fs[1..], f);
    }
  }

  /** Each prefix of the functions pipes one step further than the one before. */
  lemma FoldPrefixes<T>(a: T, fs: seq<T -> T>)
    ensures Fold(a, fs[..0]) == a
    ensures forall k :: 0 <= k < |fs| ==> Fold(a, fs[..k + 1]) == fs[k](Fold(a, fs[..k]))
  {
    forall k | 0 <= k < |fs|
      ensures Fold(a, fs[..k + 1]) == fs[k](Fold(a, fs[..k]))
    {
      assert fs[..k + 1] == fs[..k] + [fs[k]];
      FoldSnoc(a, fs[..k], fs[k]);
    }
  }

  /** Piping through `fs + gs` is piping through `fs`, then through `gs`. */
  lemma {:induction false} FoldAppend<T>(a: T, fs: seq<T -> T>, gs: seq<T -> T>)
    ensures Fold(a, fs + gs) == Fold(Fold(a, fs), gs)
  {
    if fs == [] {
      assert fs + gs == gs;
    } else {
      assert (fs + gs)[1..] == fs[1..] + gs;
      FoldAppend(fs[0](a), fs[1..], gs);
    }
  }

  /** `pipe(a, f1, ..., fn)`: the hand-written cases for up to eight
      functions, the loop for more; every case is `fn(...f1(a))`. */
  method Pipe<T>(a: T, fs: seq<T -> T>) returns (ret: T)
    ensures ret == Fold(a, fs)
  {
    FoldPrefixes(a, fs);
    assert fs[..|fs|] == fs;
    match |fs|
    case 0 =>
      ret := a;
    case 1 =>
      ret := fs[0](a);
    case 2 =>
      ret := fs[1](fs[0](a));
    case 3 =>
      ret := fs[2](fs[1](fs[0](a)));
    case 4 =>
      ret := fs[3](fs[2](fs[1](fs[0](a))));
    case 5 =>
      ret := fs[4](fs[3](fs[2](fs[1](fs[0](a)))));
    case 6 =>
      ret := fs[5](fs[4](fs[3](fs[2](fs[1](fs[0](a))))));
    case 7 =>
      ret := fs[6](fs[5](fs[4](fs[3](fs[2](fs[1](fs[0](a)))))));
    case 8 =>
      ret := fs[7](fs[6](fs[5](fs[4](fs[3](fs[2](fs[1](fs[0](a))))))));
    case _ =>
      ret := a;
      var i := 0;
      while i < |fs|
        invariant 0 <= i <= |fs|
        invariant ret == Fold(a, fs[..i])
      {
        ret := fs[i](ret);
        i := i + 1;
      }
  }
}

/** Facts about every element of a sequence, and mapping a partial function over
    one. */
module Seqs {
  import opened Wrappers

  /** `p` holds of every element, checked from the front as Python's loops do. */
  predicate Every<T>(p: T -> bool, xs: seq<T>) {
    |xs| == 0 || (p(xs[0]) && Every(p, xs[1..]))
  }

  lemma {:induction false} EveryEach<T>(p: T -> bool, xs: seq<T>)
    ensures Every(p, xs) <==> forall i :: 0 <= i < |xs| ==> p(xs[i])
    decreases |xs|
  {
    if |xs| > 0 {
      EveryEach(p, xs[1..]);
      assert forall i :: 1 <= i < |xs| ==> xs[1..][i - 1] == xs[i];
    }
  }

  /** `f` applied to each element in turn, giving None as soon as one application
      does: a list comprehension whose body may raise. */
  function TryMap<T, U>(f: T -> Option<U>, xs: seq<T>): (r: Option<seq<U>>)
    ensures r.Some? <==> forall i :: 0 <= i < |xs| ==> f(xs[i]).Some?
    ensures r.Some? ==> |r.value| == |xs|
    decreases |xs|
  {
    if |xs| == 0 then Some([])
    else
      assert forall i :: 1 <= i < |xs| ==> xs[1..][i - 1] == xs[i];
      match f(xs[0])
      case None => None
      case Some(v) =>
        match TryMap(f, xs[1..])
        case None => None
        case Some(vs) => Some([v] + vs)
  }

  /** Each value is what `f` gives for the element at the same place. */
  lemma {:induction false} TryMapAt<T, U>(f: T -> Option<U>, xs: seq<T>, i: nat)
    requires TryMap(f, xs).Some? && i < |xs|
    ensures f(xs[i]) == Some(TryMap(f, xs).value[i])
    decreases i
  {
    if i > 0 {
      TryMapAt(f, xs[1..], i - 1);
      assert xs[1..][i - 1] == xs[i];
    }
  }

  /** Mapping a first element, then the rest. */
  lemma TryMapCons<T, U>(f: T -> Option<U>, x: T, xs: seq<T>, v: U, vs: seq<U>)
    requires f(x) == Some(v) && TryMap(f, xs) == Some(vs)
    ensures TryMap(f, [x] + xs) == Some([v] + vs)
  {
    assert ([x] + xs)[0] == x;
    assert ([x] + xs)[1..] == xs;
  }
}

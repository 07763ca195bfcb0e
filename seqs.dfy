/**
 * The scans that the loops of the core perform again and again: carrying the
 * most recent value seen, finding the first element with a property,
 * collecting the values that are present, and mapping every element.
 */
module Seqs {
  import opened Wrappers

  /** The most recent present value among `cs[..n]`. */
  function Latest<T>(cs: seq<Option<T>>, n: nat): Option<T>
    requires n <= |cs|
  {
    if n == 0 then None else if cs[n - 1].Some? then cs[n - 1] else Latest(cs, n - 1)
  }

  lemma {:induction false} LatestNearest<T>(cs: seq<Option<T>>, n: nat)
    requires n <= |cs|
    ensures Latest(cs, n).None? <==> forall j | 0 <= j < n :: cs[j].None?
    ensures Latest(cs, n).Some? ==>
      exists j | 0 <= j < n :: cs[j] == Latest(cs, n) && forall j' | j < j' < n :: cs[j'].None?
  {
    if n > 0 && cs[n - 1].None? {
      LatestNearest(cs, n - 1);
    }
  }

  /** The position of the first element of `xs[k..]` satisfying `p`. */
  function FirstWhere<T>(xs: seq<T>, p: T -> bool, k: nat): (r: Option<nat>)
    requires k <= |xs|
    ensures r.None? <==> forall i | k <= i < |xs| :: !p(xs[i])
    ensures r.Some? ==> k <= r.value < |xs| && p(xs[r.value])
    ensures r.Some? ==> forall i | k <= i < r.value :: !p(xs[i])
    decreases |xs| - k
  {
    if k == |xs| then None
    else if p(xs[k]) then Some(k)
    else FirstWhere(xs, p, k + 1)
  }

  /** The present values among `xs[..n]`, in order. */
  function Somes<T>(xs: seq<Option<T>>, n: nat): seq<T>
    requires n <= |xs|
  {
    if n == 0 then [] else Somes(xs, n - 1) + if xs[n - 1].Some? then [xs[n - 1].value] else []
  }

  /** The positions of the present values among `xs[..n]`. */
  function SomeIndices<T>(xs: seq<Option<T>>, n: nat): (js: seq<nat>)
    requires n <= |xs|
    ensures forall k | 0 <= k < |js| :: js[k] < n
    ensures forall k, l | 0 <= k < l < |js| :: js[k] < js[l]
    ensures forall j | 0 <= j < n :: j in js <==> xs[j].Some?
  {
    if n == 0 then [] else SomeIndices(xs, n - 1) + if xs[n - 1].Some? then [n - 1] else []
  }

  lemma {:induction false} SomesAt<T>(xs: seq<Option<T>>, n: nat)
    requires n <= |xs|
    ensures |Somes(xs, n)| == |SomeIndices(xs, n)|
    ensures forall k | 0 <= k < |SomeIndices(xs, n)| :: Some(Somes(xs, n)[k]) == xs[SomeIndices(xs, n)[k]]
  {
    if n > 0 {
      SomesAt(xs, n - 1);
    }
  }

  /** Indexing into a concatenation. */
  /** One more outcome appends its value, if any. */
  lemma SomesStep<T>(xs: seq<Option<T>>, n: nat, x: Option<T>)
    requires n < |xs| && xs[n] == x
    ensures Somes(xs, n + 1) == Somes(xs, n) + if x.Some? then [x.value] else []
  {
  }

  lemma ConcatAt<T>(a: seq<T>, b: seq<T>)
    ensures forall j | 0 <= j < |a| :: (a + b)[j] == a[j]
    ensures forall t | 0 <= t < |b| :: (a + b)[|a| + t] == b[t]
  {
  }

  /** At most one value per position. */
  lemma {:induction false} SomesLength<T>(xs: seq<Option<T>>, n: nat)
    requires n <= |xs|
    ensures |Somes(xs, n)| <= n
  {
    if n > 0 {
      SomesLength(xs, n - 1);
    }
  }

  /** `[f(x) for x in xs]`, built front to back as the loops append. */
  function MapSeq<A, B>(f: A -> B, xs: seq<A>): (ys: seq<B>)
    ensures |ys| == |xs|
  {
    if xs == [] then [] else MapSeq(f, xs[..|xs| - 1]) + [f(xs[|xs| - 1])]
  }

  lemma {:induction false} MapSeqAt<A, B>(f: A -> B, xs: seq<A>)
    ensures forall j | 0 <= j < |xs| :: MapSeq(f, xs)[j] == f(xs[j])
  {
    if xs != [] {
      var n := |xs| - 1;
      MapSeqAt(f, xs[..n]);
      assert forall j | 0 <= j < n :: xs[..n][j] == xs[j];
    }
  }

  lemma MapSeqSnoc<A, B>(f: A -> B, xs: seq<A>, j: nat)
    requires j < |xs|
    ensures MapSeq(f, xs[..j + 1]) == MapSeq(f, xs[..j]) + [f(xs[j])]
  {
    assert xs[..j + 1][..j] == xs[..j];
  }

  /** The set of present values among `xs[..n]`. */
  function Present<T>(xs: seq<Option<T>>, n: nat): set<T>
    requires n <= |xs|
  {
    if n == 0 then {} else Present(xs, n - 1) + if xs[n - 1].Some? then {xs[n - 1].value} else {}
  }

  lemma {:induction false} PresentSpec<T>(xs: seq<Option<T>>, n: nat, x: T)
    requires n <= |xs|
    ensures x in Present(xs, n) <==> exists j | 0 <= j < n :: xs[j] == Some(x)
  {
    if n > 0 {
      PresentSpec(xs, n - 1, x);
      if xs[n - 1] == Some(x) {
        assert x in Present(xs, n);
      }
    }
  }
}

/**
 * A Python `dict` whose iteration order matters: the sequence of its
 * `(key, value)` pairs in insertion order, keys distinct. `Get` is `d.get(k)`,
 * and `FirstWins` is the loop `if key not in res: res[key] = value` over a
 * sequence of candidate pairs.
 */
module OrderedDict {
  import opened Wrappers
  import opened Seqs

  /** `k in d`. */
  predicate HasKey<V>(d: seq<(string, V)>, k: string)
  {
    exists i | 0 <= i < |d| :: d[i].0 == k
  }

  /** `list(d.keys())`. */
  function Keys<V>(d: seq<(string, V)>): seq<string>
  {
    seq(|d|, i requires 0 <= i < |d| => d[i].0)
  }

  predicate DistinctKeys<V>(d: seq<(string, V)>)
  {
    forall i, j | 0 <= i < j < |d| :: d[i].0 != d[j].0
  }

  /** The position of the first pair with key `k`. */
  function FirstIndex<V>(d: seq<(string, V)>, k: string): (i: nat)
    requires HasKey(d, k)
    ensures i < |d| && d[i].0 == k
    ensures forall j | 0 <= j < i :: d[j].0 != k
  {
    if d[0].0 == k then 0
    else
      assert HasKey(d[1..], k) by {
        var i :| 0 <= i < |d| && d[i].0 == k;
        assert d[1..][i - 1].0 == k;
      }
      1 + FirstIndex(d[1..], k)
  }

  /** `d.get(k)`. */
  function Get<V>(d: seq<(string, V)>, k: string): (r: Option<V>)
    ensures r.Some? <==> HasKey(d, k)
  {
    if HasKey(d, k) then Some(d[FirstIndex(d, k)].1) else None
  }

  /** In a dict every stored pair is what `get` finds under its key. */
  lemma GetAt<V>(d: seq<(string, V)>, i: nat)
    requires DistinctKeys(d) && i < |d|
    ensures Get(d, d[i].0) == Some(d[i].1)
  {
    var j := FirstIndex(d, d[i].0);
    assert j == i;
  }

  /**
   * The dict built by inserting each pair of `ps` in turn unless its key is
   * already present (first occurrence wins).
   */
  function FirstWins<V>(ps: seq<(string, V)>): (d: seq<(string, V)>)
    ensures DistinctKeys(d)
  {
    if ps == [] then []
    else
      var d := FirstWins(ps[..|ps| - 1]);
      var p := ps[|ps| - 1];
      if HasKey(d, p.0) then d else d + [p]
  }

  lemma FirstIndexOfPrefix<V>(ps: seq<(string, V)>, n: nat, k: string)
    requires n <= |ps| && HasKey(ps[..n], k)
    ensures HasKey(ps, k) && FirstIndex(ps, k) == FirstIndex(ps[..n], k)
  {
    var i := FirstIndex(ps[..n], k);
    assert ps[i].0 == k;
    assert forall j | 0 <= j < n :: ps[..n][j] == ps[j];
  }

  /** A key new to the prefix first occurs at the last position. */
  lemma FirstIndexOfLast<V>(ps: seq<(string, V)>)
    requires ps != [] && !HasKey(ps[..|ps| - 1], ps[|ps| - 1].0)
    ensures HasKey(ps, ps[|ps| - 1].0) && FirstIndex(ps, ps[|ps| - 1].0) == |ps| - 1
  {
    var n := |ps| - 1;
    assert ps[n].0 == ps[n].0;
    assert forall j | 0 <= j < n :: ps[..n][j] == ps[j];
  }

  lemma HasKeyAppend<V>(d: seq<(string, V)>, p: (string, V), k: string)
    ensures HasKey(d + [p], k) <==> HasKey(d, k) || k == p.0
  {
    var d' := d + [p];
    if HasKey(d, k) {
      var i :| 0 <= i < |d| && d[i].0 == k;
      assert d'[i].0 == k;
    }
    if HasKey(d', k) && k != p.0 {
      var i :| 0 <= i < |d'| && d'[i].0 == k;
      assert d[i].0 == k;
    }
    assert d'[|d|] == p;
  }

  /** First-wins insertion keeps exactly the keys that occur. */
  lemma {:induction false} FirstWinsKeys<V>(ps: seq<(string, V)>, k: string)
    ensures HasKey(FirstWins(ps), k) <==> HasKey(ps, k)
  {
    if ps != [] {
      var n := |ps| - 1;
      var q, p := ps[..n], ps[n];
      assert ps == q + [p];
      FirstWinsKeys(q, k);
      FirstWinsKeys(q, p.0);
      HasKeyAppend(q, p, k);
      HasKeyAppend(FirstWins(q), p, k);
    }
  }

  /** Each kept pair is the earliest pair of `ps` with its key. */
  lemma {:induction false} FirstWinsEarliest<V>(ps: seq<(string, V)>, t: nat)
    requires t < |FirstWins(ps)|
    ensures HasKey(ps, FirstWins(ps)[t].0)
    ensures FirstWins(ps)[t] == ps[FirstIndex(ps, FirstWins(ps)[t].0)]
  {
    var n := |ps| - 1;
    var q, p := ps[..n], ps[n];
    assert ps == q + [p];
    var d := FirstWins(q);
    if t < |d| {
      FirstWinsEarliest(q, t);
      assert FirstWins(ps)[t] == d[t];
      FirstIndexOfPrefix(ps, n, d[t].0);
    } else {
      FirstWinsKeys(q, p.0);
      assert FirstWins(ps)[t] == p;
      FirstIndexOfLast(ps);
    }
  }

  /** Kept pairs are in the order in which their keys first occur. */
  lemma {:induction false} FirstWinsOrder<V>(ps: seq<(string, V)>, t: nat, u: nat)
    requires t < u < |FirstWins(ps)|
    ensures HasKey(ps, FirstWins(ps)[t].0) && HasKey(ps, FirstWins(ps)[u].0)
    ensures FirstIndex(ps, FirstWins(ps)[t].0) < FirstIndex(ps, FirstWins(ps)[u].0)
  {
    FirstWinsEarliest(ps, t);
    FirstWinsEarliest(ps, u);
    var n := |ps| - 1;
    var q, p := ps[..n], ps[n];
    assert ps == q + [p];
    var d := FirstWins(q);
    assert FirstWins(ps)[t] == d[t];
    FirstWinsEarliest(q, t);
    FirstIndexOfPrefix(ps, n, d[t].0);
    if u < |d| {
      FirstWinsOrder(q, t, u);
      assert FirstWins(ps)[u] == d[u];
      FirstWinsEarliest(q, u);
      FirstIndexOfPrefix(ps, n, d[u].0);
    } else {
      FirstWinsKeys(q, p.0);
      assert FirstWins(ps)[u] == p;
      FirstIndexOfLast(ps);
    }
  }

  /** Looking a key up in the first-wins dict finds its earliest value. */
  lemma FirstWinsGet<V>(ps: seq<(string, V)>, k: string)
    requires HasKey(ps, k)
    ensures Get(FirstWins(ps), k) == Some(ps[FirstIndex(ps, k)].1)
  {
    FirstWinsKeys(ps, k);
    var d := FirstWins(ps);
    var t := FirstIndex(d, k);
    GetAt(d, t);
    FirstWinsEarliest(ps, t);
  }

  /** Offering one more pair to a first-wins dict adds it exactly when its key is new. */
  lemma FirstWinsSnoc<V>(ps: seq<(string, V)>, p: (string, V))
    ensures FirstWins(ps + [p]) == if HasKey(FirstWins(ps), p.0) then FirstWins(ps) else FirstWins(ps) + [p]
  {
    assert (ps + [p])[..|ps|] == ps;
  }

  /**
   * The insertion loop `for key, value in ps: if key not in d: d[key] = value`,
   * continuing a dict built first-wins from `before`.
   */
  method InsertFirstWins<V>(d: seq<(string, V)>, ghost before: seq<(string, V)>, ps: seq<(string, V)>)
    returns (r: seq<(string, V)>)
    requires d == FirstWins(before)
    ensures r == FirstWins(before + ps)
  {
    r := d;
    assert before + ps[..0] == before;
    for t := 0 to |ps|
      invariant r == FirstWins(before + ps[..t])
    {
      var (key, value) := ps[t];
      ghost var qs := before + ps[..t + 1];
      assert qs[..|qs| - 1] == before + ps[..t];
      assert qs[|qs| - 1] == (key, value);
      if !HasKey(r, key) {
        r := r + [(key, value)];
      }
    }
    assert ps[..|ps|] == ps;
  }

  // ---------------------------------------------------------------------------
  // First-wins over the present values of a sequence of candidates

  /** One more candidate: it is stored unless its key already is. */
  lemma InsertStep<V>(cs: seq<Option<(string, V)>>, t: nat, result: seq<(string, V)>)
    requires t < |cs| && result == FirstWins(Somes(cs, t))
    ensures FirstWins(Somes(cs, t + 1))
      == if cs[t].Some? && !HasKey(result, cs[t].value.0) then result + [cs[t].value] else result
  {
    if cs[t].Some? {
      assert Somes(cs, t + 1) == Somes(cs, t) + [cs[t].value];
      FirstWinsSnoc(Somes(cs, t), cs[t].value);
    } else {
      assert Somes(cs, t + 1) == Somes(cs, t);
    }
  }

  /** A key occurs among the present candidates exactly when some candidate carries it. */
  lemma {:induction false} SomesHasKey<V>(cs: seq<Option<(string, V)>>, n: nat, key: string)
    requires n <= |cs|
    ensures HasKey(Somes(cs, n), key) <==> exists j | 0 <= j < n :: cs[j].Some? && cs[j].value.0 == key
  {
    if n > 0 {
      SomesHasKey(cs, n - 1, key);
      if cs[n - 1].Some? {
        HasKeyAppend(Somes(cs, n - 1), cs[n - 1].value, key);
      } else {
        assert Somes(cs, n) == Somes(cs, n - 1);
      }
    }
  }

  /** The first pair with `key` among the present candidates is the value of the first candidate with that key. */
  lemma {:induction false} SomesFirst<V>(cs: seq<Option<(string, V)>>, n: nat, key: string) returns (j: nat)
    requires n <= |cs| && HasKey(Somes(cs, n), key)
    ensures j < n && cs[j] == Some(Somes(cs, n)[FirstIndex(Somes(cs, n), key)])
    ensures forall i | 0 <= i < j :: cs[i].None? || cs[i].value.0 != key
  {
    var qs := Somes(cs, n);
    var ps := Somes(cs, n - 1);
    if HasKey(ps, key) {
      j := SomesFirst(cs, n - 1, key);
      assert qs[..|ps|] == ps;
      FirstIndexOfPrefix(qs, |ps|, key);
    } else {
      SomesHasKey(cs, n - 1, key);
      j := n - 1;
      assert qs == ps + [cs[j].value];
      HasKeyAppend(ps, cs[j].value, key);
      FirstIndexOfLast(qs);
    }
  }

  /** Every kept pair is the value of the earliest candidate with its key. */
  lemma FirstWinsOfSomes<V>(cs: seq<Option<(string, V)>>, t: nat) returns (j: nat)
    requires t < |FirstWins(Somes(cs, |cs|))|
    ensures j < |cs| && cs[j] == Some(FirstWins(Somes(cs, |cs|))[t])
    ensures forall i | 0 <= i < j :: cs[i].None? || cs[i].value.0 != cs[j].value.0
  {
    var ps := Somes(cs, |cs|);
    FirstWinsEarliest(ps, t);
    j := SomesFirst(cs, |cs|, FirstWins(ps)[t].0);
  }

  /** A key is kept exactly when some candidate carries it. */
  lemma FirstWinsOfSomesKeys<V>(cs: seq<Option<(string, V)>>, key: string)
    ensures HasKey(FirstWins(Somes(cs, |cs|)), key) <==> exists j | 0 <= j < |cs| :: cs[j].Some? && cs[j].value.0 == key
  {
    FirstWinsKeys(Somes(cs, |cs|), key);
    SomesHasKey(cs, |cs|, key);
  }
}

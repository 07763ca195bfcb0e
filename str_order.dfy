/**
 * Python's ordering of strings (`a < b`): lexicographic by code point, a
 * proper prefix coming first; and `sorted` of a finite set of strings, which
 * under this total order is the unique strictly increasing listing of it.
 */
module StrOrder {

  /** `a < b` on Python strings. */
  predicate Below(a: string, b: string)
    decreases |a|
  {
    if a == [] then b != []
    else if b == [] then false
    else if a[0] != b[0] then a[0] < b[0]
    else Below(a[1..], b[1..])
  }

  lemma {:induction false} BelowIrreflexive(a: string)
    ensures !Below(a, a)
    decreases |a|
  {
    if a != [] {
      BelowIrreflexive(a[1..]);
    }
  }

  lemma {:induction false} BelowTransitive(a: string, b: string, c: string)
    requires Below(a, b) && Below(b, c)
    ensures Below(a, c)
    decreases |a|
  {
    if a != [] && a[0] == b[0] && b[0] == c[0] {
      BelowTransitive(a[1..], b[1..], c[1..]);
    }
  }

  lemma {:induction false} BelowTotal(a: string, b: string)
    ensures a == b || Below(a, b) || Below(b, a)
    decreases |a|
  {
    if a != [] && b != [] && a[0] == b[0] {
      BelowTotal(a[1..], b[1..]);
      if a[1..] == b[1..] {
        assert a == [a[0]] + a[1..] && b == [b[0]] + b[1..];
      }
    }
  }

  lemma BelowAsymmetric(a: string, b: string)
    ensures !(Below(a, b) && Below(b, a))
  {
    if Below(a, b) && Below(b, a) {
      BelowTransitive(a, b, a);
      BelowIrreflexive(a);
    }
  }

  /** `m` is the least element of `s`. */
  predicate IsLeast(m: string, s: set<string>)
  {
    m in s && forall y | y in s :: y == m || Below(m, y)
  }

  /** Every non-empty finite set of strings has a least element. */
  lemma {:induction false} LeastExists(s: set<string>)
    requires s != {}
    ensures exists m :: IsLeast(m, s)
    decreases |s|
  {
    var x :| x in s;
    if s == {x} {
      assert IsLeast(x, s);
    } else {
      var r := s - {x};
      LeastExists(r);
      var m1 :| IsLeast(m1, r);
      BelowTotal(x, m1);
      if Below(x, m1) {
        forall y | y in s ensures y == x || Below(x, y) {
          if y != x && y != m1 {
            BelowTransitive(x, m1, y);
          }
        }
        assert IsLeast(x, s);
      } else {
        assert IsLeast(m1, s);
      }
    }
  }

  /** ... and only one. */
  lemma LeastUnique(m: string, m': string, s: set<string>)
    requires IsLeast(m, s) && IsLeast(m', s)
    ensures m == m'
  {
    BelowAsymmetric(m, m');
  }

  /** Strictly increasing: sorted, without repeats. */
  predicate Increasing(xs: seq<string>)
  {
    forall i, j | 0 <= i < j < |xs| :: Below(xs[i], xs[j])
  }

  /** `sorted(s)`: the elements of `s` in increasing order, each once. */
  ghost function SortedNames(s: set<string>): (r: seq<string>)
    ensures Increasing(r)
    ensures forall i | 0 <= i < |r| :: r[i] in s
    ensures forall x | x in s :: x in r
    decreases |s|
  {
    if s == {} then []
    else
      LeastExists(s);
      var m :| IsLeast(m, s);
      var rest := SortedNames(s - {m});
      var r := [m] + rest;
      assert forall i | 1 <= i < |r| :: r[i] == rest[i - 1];
      assert forall x | x in s && x != m :: x in s - {m};
      r
  }

  /** Listing a set by repeatedly taking out its least element produces `SortedNames`. */
  method SortNames(s: set<string>) returns (names: seq<string>)
    ensures names == SortedNames(s)
  {
    names := [];
    var rest := s;
    while rest != {}
      invariant names + SortedNames(rest) == SortedNames(s)
      decreases |rest|
    {
      LeastExists(rest);
      var m :| IsLeast(m, rest);
      SortStep(names, rest, m, s);
      names := names + [m];
      rest := rest - {m};
    }
  }

  /** `SortedNames` starts with the least element. */
  lemma SortedNamesLeast(s: set<string>, m: string)
    requires IsLeast(m, s)
    ensures SortedNames(s) == [m] + SortedNames(s - {m})
  {
    var r := SortedNames(s);
    assert r[0] in s;
    forall y | y in s ensures y == r[0] || Below(r[0], y) {
      if y != r[0] {
        var i :| 0 <= i < |r| && r[i] == y;
      }
    }
    LeastUnique(m, r[0], s);
  }

  lemma SortStep(names: seq<string>, rest: set<string>, m: string, s: set<string>)
    requires IsLeast(m, rest) && names + SortedNames(rest) == SortedNames(s)
    ensures names + [m] + SortedNames(rest - {m}) == SortedNames(s)
  {
    SortedNamesLeast(rest, m);
    var tail := SortedNames(rest - {m});
    assert names + [m] + tail == names + ([m] + tail);
  }
}

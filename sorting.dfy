/**
 * Python's ordering of `str` values and its `sorted` built-in, applied to a set of
 * course codes.
 */
module Sorting {

  /** `a < b` on Python strings: code point by code point, a proper prefix first. */
  predicate Below(a: string, b: string)
    decreases |a|
  {
    if |a| == 0 then |b| > 0
    else if |b| == 0 then false
    else if a[0] != b[0] then a[0] < b[0]
    else Below(a[1..], b[1..])
  }

  lemma {:induction false} BelowIrreflexive(a: string)
    ensures !Below(a, a)
    decreases |a|
  {
    if |a| > 0 {
      BelowIrreflexive(a[1..]);
    }
  }

  lemma {:induction false} BelowAsymmetric(a: string, b: string)
    requires Below(a, b)
    ensures !Below(b, a)
    decreases |a|
  {
    if |a| > 0 && |b| > 0 && a[0] == b[0] {
      BelowAsymmetric(a[1..], b[1..]);
    }
  }

  lemma {:induction false} BelowTransitive(a: string, b: string, c: string)
    requires Below(a, b) && Below(b, c)
    ensures Below(a, c)
    decreases |a|
  {
    if |a| > 0 && a[0] == b[0] && b[0] == c[0] {
      BelowTransitive(a[1..], b[1..], c[1..]);
    }
  }

  /** Any two different strings are ordered one way or the other. */
  lemma {:induction false} BelowTotal(a: string, b: string)
    ensures a == b || Below(a, b) || Below(b, a)
    decreases |a|
  {
    if |a| > 0 && |b| > 0 && a[0] == b[0] {
      BelowTotal(a[1..], b[1..]);
      if a[1..] == b[1..] {
        assert a == [a[0]] + a[1..] && b == [b[0]] + b[1..];
      }
    }
  }

  predicate StrictlySorted(xs: seq<string>)
  {
    forall i, j :: 0 <= i < j < |xs| ==> Below(xs[i], xs[j])
  }

  /** `xs` is what `sorted(s)` returns: the elements of `s`, each once, in ascending order. */
  ghost predicate SortedListOf(xs: seq<string>, s: set<string>)
  {
    StrictlySorted(xs) && forall x :: x in xs <==> x in s
  }

  /** The smallest element of a non-empty set. */
  method Least(s: set<string>) returns (m: string)
    requires s != {}
    ensures m in s
    ensures forall y :: y in s && y != m ==> Below(m, y)
  {
    m :| m in s;
    var todo := s - {m};
    while todo != {}
      invariant todo <= s && m in s && m !in todo
      invariant forall y :: y in s && y !in todo && y != m ==> Below(m, y)
      decreases |todo|
    {
      var y :| y in todo;
      BelowTotal(m, y);
      if Below(y, m) {
        forall z | z in s && z !in todo && z != y
          ensures Below(y, z)
        {
          if z != m {
            BelowTransitive(y, m, z);
          }
        }
        m := y;
      }
      todo := todo - {y};
    }
  }

  /** `sorted(s)` for a set of strings. */
  method SortedList(s: set<string>) returns (r: seq<string>)
    ensures SortedListOf(r, s)
    ensures |r| == |s|
  {
    r := [];
    var rest := s;
    while rest != {}
      invariant rest <= s
      invariant forall x :: x in r <==> x in s && x !in rest
      invariant StrictlySorted(r)
      invariant forall i, y :: 0 <= i < |r| && y in rest ==> Below(r[i], y)
      invariant |r| + |rest| == |s|
      decreases |rest|
    {
      var m := Least(rest);
      r := r + [m];
      rest := rest - {m};
    }
  }

  /** A sorted list is determined by its set: `sorted` has exactly one possible answer. */
  lemma {:induction false} SortedListUnique(xs: seq<string>, ys: seq<string>, s: set<string>)
    requires SortedListOf(xs, s) && SortedListOf(ys, s)
    ensures xs == ys
    decreases |xs|
  {
    if xs == [] {
      assert forall x :: x !in s;
      assert forall j :: 0 <= j < |ys| ==> ys[j] in s;
    } else {
      assert xs[0] in s;
      assert ys != [] by { assert xs[0] in ys; }
      if xs[0] != ys[0] {
        assert xs[0] in ys && ys[0] in xs;
        var i :| 0 <= i < |xs| && xs[i] == ys[0];
        var j :| 0 <= j < |ys| && ys[j] == xs[0];
        assert Below(xs[0], ys[0]);
        assert Below(ys[0], xs[0]);
        BelowAsymmetric(xs[0], ys[0]);
        assert false;
      }
      var rest := s - {xs[0]};
      forall x ensures x in xs[1..] <==> x in rest {
        if x in xs[1..] {
          var k :| 1 <= k < |xs| && xs[k] == x;
          assert Below(xs[0], xs[k]);
          BelowIrreflexive(x);
        }
        if x in rest {
          assert x in xs && x != xs[0];
          var k :| 0 <= k < |xs| && xs[k] == x;
          assert k != 0;
          assert xs[1..][k - 1] == x;
        }
      }
      forall x ensures x in ys[1..] <==> x in rest {
        if x in ys[1..] {
          var k :| 1 <= k < |ys| && ys[k] == x;
          assert Below(ys[0], ys[k]);
          BelowIrreflexive(x);
        }
        if x in rest {
          assert x in ys && x != ys[0];
          var k :| 0 <= k < |ys| && ys[k] == x;
          assert k != 0;
          assert ys[1..][k - 1] == x;
        }
      }
      SortedListUnique(xs[1..], ys[1..], rest);
      assert xs == [xs[0]] + xs[1..] && ys == [ys[0]] + ys[1..];
    }
  }
}

/**
 * Python's ordering of `str` values (code point by code point, a proper
 * prefix first) and `sorted()` over a set of strings.
 */
module StringOrder {

  /** `a < b` on Python strings. */
  predicate Below(a: string, b: string)
    decreases |a|
  {
    if a == [] then b != []
    else b != [] && (a[0] < b[0] || (a[0] == b[0] && Below(a[1..], b[1..])))
  }

  lemma {:induction false} BelowIrreflexive(a: string)
    ensures !Below(a, a)
    decreases |a|
  {
    if a != [] {
      BelowIrreflexive(a[1..]);
    }
  }

  lemma {:induction false} BelowTransitive(a: string, b: string, c: string)
    requires Below(a, b) && Below(b, c)
    ensures Below(a, c)
    decreases |a|
  {
    if a != [] && a[0] == b[0] && b[0] == c[0] {
      BelowTransitive(a[1..], b[1..], c[1..]);
    }
  }

  /** Any two different strings are ordered one way. */
  lemma {:induction false} BelowTotal(a: string, b: string)
    ensures a == b || Below(a, b) || Below(b, a)
    decreases |a|
  {
    if a != [] && b != [] && a[0] == b[0] {
      BelowTotal(a[1..], b[1..]);
      if a[1..] == b[1..] {
        assert a == [a[0]] + a[1..] && b == [b[0]] + b[1..];
      }
    }
  }

  /** ... and only one way. */
  lemma {:induction false} BelowAsymmetric(a: string, b: string)
    requires Below(a, b)
    ensures !Below(b, a)
  {
    if Below(b, a) {
      BelowTransitive(a, b, a);
      BelowIrreflexive(a);
    }
  }

  predicate StrictlySorted(s: seq<string>) {
    forall i, j :: 0 <= i < j < |s| ==> Below(s[i], s[j])
  }

  /** Every non-empty finite set of strings has a least element. */
  lemma {:induction false} LeastExists(s: set<string>) returns (m: string)
    requires s != {}
    ensures m in s && forall x :: x in s && x != m ==> Below(m, x)
    decreases s
  {
    var y :| y in s;
    if s == {y} {
      m := y;
    } else {
      var m' := LeastExists(s - {y});
      BelowTotal(y, m');
      if Below(y, m') {
        m := y;
        forall x | x in s && x != m
          ensures Below(m, x)
        {
          if x != m' {
            BelowTransitive(y, m', x);
          }
        }
      } else {
        m := m';
      }
    }
  }

  /**
   * `sorted(s)` for a set of strings: every element once, in increasing
   * order.
   */
  method Sorted(s: set<string>) returns (r: seq<string>)
    ensures StrictlySorted(r)
    ensures forall x :: x in r <==> x in s
    ensures |r| == |s|
  {
    r := [];
    var rest := s;
    while rest != {}
      invariant StrictlySorted(r)
      invariant forall x :: x in s <==> x in r || x in rest
      invariant forall i, x :: 0 <= i < |r| && x in rest ==> Below(r[i], x)
      invariant forall x :: x in r ==> x !in rest
      invariant |r| + |rest| == |s|
      invariant rest <= s
      decreases rest
    {
      ghost var least := LeastExists(rest);
      var m :| m in rest && forall x :: x in rest && x != m ==> Below(m, x);
      forall x | x in rest && x != m
        ensures forall i :: 0 <= i < |r| + 1 ==> Below((r + [m])[i], x)
      {
      }
      r := r + [m];
      rest := rest - {m};
    }
  }

  /** Two strictly increasing sequences with the same elements are equal. */
  lemma {:induction false} SortedUnique(a: seq<string>, b: seq<string>)
    requires StrictlySorted(a) && StrictlySorted(b)
    requires forall x :: x in a <==> x in b
    ensures a == b
    decreases |a|
  {
    assert a != [] ==> a[0] in b;
    assert b != [] ==> b[0] in a;
    if a != [] && b != [] {
      if a[0] != b[0] {
        assert a[0] in b && b[0] in a;
        var i :| 0 <= i < |b| && b[i] == a[0];
        var j :| 0 <= j < |a| && a[j] == b[0];
        assert Below(b[0], a[0]) && Below(a[0], b[0]);
        BelowAsymmetric(a[0], b[0]);
      }
      forall x
        ensures x in a[1..] <==> x in b[1..]
      {
        if x in a[1..] {
          var i :| 1 <= i < |a| && a[i] == x;
          assert Below(a[0], x);
          BelowIrreflexive(x);
          assert x in b && x != b[0];
        }
        if x in b[1..] {
          var i :| 1 <= i < |b| && b[i] == x;
          assert Below(b[0], x);
          BelowIrreflexive(x);
          assert x in a && x != a[0];
        }
      }
      SortedUnique(a[1..], b[1..]);
      assert a == [a[0]] + a[1..] && b == [b[0]] + b[1..];
    }
  }
}

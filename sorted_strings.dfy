/**
  The order Python's `sorted` puts strings in (lexicographic by code point,
  a proper prefix first), and sorting a finite set of strings into a
  strictly increasing sequence.  Used by the structural snapshot `to_dict`.
*/
module SortedStrings {

  /** `x <= y` on Python strings. */
  predicate Below(x: string, y: string)
    decreases |x|
  {
    |x| == 0 || (|y| > 0 && (x[0] < y[0] || (x[0] == y[0] && Below(x[1..], y[1..]))))
  }

  /** `x < y` on Python strings. */
  predicate Precedes(x: string, y: string)
  {
    Below(x, y) && x != y
  }

  /** Strictly increasing, hence also free of duplicates. */
  predicate Sorted(s: seq<string>)
  {
    forall i, j :: 0 <= i < j < |s| ==> Precedes(s[i], s[j])
  }

  predicate IsLeast(m: string, s: set<string>)
  {
    m in s && forall x :: x in s ==> Below(m, x)
  }

  lemma {:induction false} BelowReflexive(x: string)
    ensures Below(x, x)
    decreases |x|
  {
    if |x| > 0 {
      BelowReflexive(x[1..]);
    }
  }

  lemma {:induction false} BelowAntisymmetric(x: string, y: string)
    requires Below(x, y) && Below(y, x)
    ensures x == y
    decreases |x|
  {
    if |x| > 0 {
      BelowAntisymmetric(x[1..], y[1..]);
      assert x == [x[0]] + x[1..] && y == [y[0]] + y[1..];
    }
  }

  lemma {:induction false} BelowTransitive(x: string, y: string, z: string)
    requires Below(x, y) && Below(y, z)
    ensures Below(x, z)
    decreases |x|
  {
    if |x| > 0 && x[0] == y[0] && y[0] == z[0] {
      BelowTransitive(x[1..], y[1..], z[1..]);
    }
  }

  lemma {:induction false} BelowTotal(x: string, y: string)
    ensures Below(x, y) || Below(y, x)
    decreases |x|
  {
    if |x| > 0 && |y| > 0 && x[0] == y[0] {
      BelowTotal(x[1..], y[1..]);
    }
  }

  /** Every non-empty finite set of strings has a least element. */
  lemma {:induction false} LeastExists(s: set<string>)
    requires s != {}
    ensures exists m :: IsLeast(m, s)
    decreases |s|
  {
    var x :| x in s;
    if s == {x} {
      BelowReflexive(x);
      assert IsLeast(x, s);
    } else {
      LeastExists(s - {x});
      var m :| IsLeast(m, s - {x});
      BelowTotal(m, x);
      if Below(m, x) {
        assert IsLeast(m, s);
      } else {
        forall y | y in s
          ensures Below(x, y)
        {
          if y == x {
            BelowReflexive(x);
          } else {
            BelowTransitive(x, m, y);
          }
        }
        assert IsLeast(x, s);
      }
    }
  }

  lemma LeastUnique(s: set<string>)
    ensures forall m, n :: IsLeast(m, s) && IsLeast(n, s) ==> m == n
  {
    forall m, n | IsLeast(m, s) && IsLeast(n, s)
      ensures m == n
    {
      BelowAntisymmetric(m, n);
    }
  }

  /** `sorted(s)` for a set of strings: its elements, each once, in increasing order. */
  function Sort(s: set<string>): (r: seq<string>)
    ensures Sorted(r)
    ensures forall x :: x in r <==> x in s
    ensures |r| == |s|
    decreases |s|
  {
    if s == {} then []
    else
      LeastExists(s);
      LeastUnique(s);
      var m :| IsLeast(m, s);
      var rest := Sort(s - {m});
      assert forall x :: x in rest ==> Precedes(m, x);
      [m] + rest
  }

}

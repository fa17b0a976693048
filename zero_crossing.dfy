/** The zero-crossing count of a lead: how many adjacent pairs of samples
    have a strictly negative product, that is, lie strictly on opposite
    sides of zero. Samples are exact reals; a pair with a zero sample on
    either side never counts. */
module ZeroCrossing {

  /** Whether the pair starting at index `i` crosses zero. */
  predicate CrossesAt(s: seq<real>, i: int)
    requires 0 <= i < |s| - 1
  {
    s[i] * s[i + 1] < 0.0
  }

  /** The count as a fold from the front: the first pair, then the rest. */
  function Count(s: seq<real>): (r: nat)
    ensures r <= if |s| == 0 then 0 else |s| - 1
  {
    if |s| < 2 then 0
    else (if s[0] * s[1] < 0.0 then 1 else 0) + Count(s[1..])
  }

  /** The indices of the pairs that cross zero: the reference definition. */
  ghost function CrossingIndices(s: seq<real>): set<int> {
    set i | 0 <= i < |s| - 1 && CrossesAt(s, i)
  }

  /** The count is the number of crossing pairs. */
  lemma {:induction false} CountIsCrossings(s: seq<real>)
    ensures Count(s) == |CrossingIndices(s)|
    decreases |s|
  {
    if |s| < 2 {
      assert CrossingIndices(s) == {};
    } else {
      var tail := CrossingIndices(s[1..]);
      var shifted := Shift(tail);
      var head: set<int> := if s[0] * s[1] < 0.0 then {0} else {};
      assert CrossingIndices(s) == head + shifted by {
        forall i | i in CrossingIndices(s) ensures i in head + shifted {
          if i > 0 {
            assert CrossesAt(s[1..], i - 1);
            assert i - 1 in tail;
          }
        }
        forall i | i in shifted ensures i in CrossingIndices(s) {
          assert i - 1 in tail;
          assert CrossesAt(s[1..], i - 1);
        }
      }
      assert head !! shifted by {
        forall i | i in shifted ensures i >= 1 {
          assert i - 1 in tail;
        }
      }
      CountIsCrossings(s[1..]);
      ShiftSize(tail);
    }
  }

  /** Every index moved up by one. */
  ghost function Shift(a: set<int>): (r: set<int>)
    ensures forall i :: i in r <==> i - 1 in a
  {
    set j | j in a :: j + 1
  }

  lemma {:induction false} ShiftSize(a: set<int>)
    ensures |Shift(a)| == |a|
    decreases |a|
  {
    if a != {} {
      assert (forall y :: y !in a) ==> a == {};
      var x :| x in a;
      ShiftSize(a - {x});
      assert Shift(a) == Shift(a - {x}) + {x + 1};
    } else {
      assert Shift(a) == {};
    }
  }

  /** A pair crosses zero exactly when its samples are strictly of opposite signs. */
  lemma OppositeSigns(a: real, b: real)
    ensures a * b < 0.0 <==> (a < 0.0 && b > 0.0) || (a > 0.0 && b < 0.0)
  {
    if a < 0.0 && b < 0.0 {
      NegativeProduct(-a, -b);
    } else if a > 0.0 && b < 0.0 {
      NegativeProduct(a, -b);
    } else if a < 0.0 && b > 0.0 {
      NegativeProduct(-a, b);
    } else if a > 0.0 && b > 0.0 {
      NegativeProduct(a, b);
    }
  }

  lemma NegativeProduct(x: real, y: real)
    requires x > 0.0 && y > 0.0
    ensures x * y > 0.0
  {
  }

  /** A signal with fewer than two samples has no pair, so no crossing. */
  lemma ShortSignal(s: seq<real>)
    requires |s| < 2
    ensures Count(s) == 0
    ensures CrossingIndices(s) == {}
  {
  }

  /** No crossing pair has a zero sample on either side. */
  lemma ZeroNeverCounted(s: seq<real>, i: int)
    requires 0 <= i < |s| - 1
    requires s[i] == 0.0 || s[i + 1] == 0.0
    ensures i !in CrossingIndices(s)
  {
  }

  /** The count over two signals put end to end: both counts, plus one when
      the pair that joins them crosses. */
  lemma {:induction false} CountAppend(a: seq<real>, b: seq<real>)
    ensures Count(a + b)
         == Count(a) + Count(b) + (if a != [] && b != [] && a[|a| - 1] * b[0] < 0.0 then 1 else 0)
    decreases |a|
  {
    if a == [] {
      assert a + b == b;
    } else if |a| == 1 {
      if b != [] {
        assert (a + b)[1..] == b;
      }
    } else {
      assert (a + b)[1..] == a[1..] + b;
      CountAppend(a[1..], b);
    }
  }

  /** A zero sample cuts the signal in two: the count is the sum of the
      counts on either side of it. */
  lemma ZeroSplits(s: seq<real>, k: int)
    requires 0 <= k < |s| && s[k] == 0.0
    ensures Count(s) == Count(s[..k]) + Count(s[k + 1..])
  {
    var right := [s[k]] + s[k + 1..];
    assert s == s[..k] + right;
    CountAppend(s[..k], right);
    CountAppend([s[k]], s[k + 1..]);
  }

  /** Flipping the polarity of a signal keeps its crossings. */
  lemma {:induction false} CountNegated(s: seq<real>)
    ensures Count(Negated(s)) == Count(s)
    decreases |s|
  {
    if |s| >= 2 {
      assert Negated(s)[1..] == Negated(s[1..]);
      assert Negated(s)[0] * Negated(s)[1] == s[0] * s[1];
      CountNegated(s[1..]);
    }
  }

  function Negated(s: seq<real>): (r: seq<real>)
    ensures |r| == |s| && forall i | 0 <= i < |s| :: r[i] == -s[i]
  {
    seq(|s|, i requires 0 <= i < |s| => -s[i])
  }

  /** The signal of the operations tests, `[1, 2, 3, -4, 2, -6]`, crosses
      zero three times. */
  lemma ExampleCount()
    ensures Count([1.0, 2.0, 3.0, -4.0, 2.0, -6.0]) == 3
  {
    var s := [1.0, 2.0, 3.0, -4.0, 2.0, -6.0];
    assert s[1..] == [2.0, 3.0, -4.0, 2.0, -6.0];
    assert s[1..][1..] == [3.0, -4.0, 2.0, -6.0];
    assert s[1..][1..][1..] == [-4.0, 2.0, -6.0];
    assert s[1..][1..][1..][1..] == [2.0, -6.0];
    assert s[1..][1..][1..][1..][1..] == [-6.0];
  }
}

/**
 The progress value reported before each candidate: `int(idx * 100 / total)`
 for the 1-based position `idx` among `total` candidates, taken here as
 exact floor division on naturals.
 */
module Progress {

  function Percent(idx: nat, total: nat): (r: nat)
    requires 0 < total
    ensures r * total <= idx * 100 < r * total + total
  {
    idx * 100 / total
  }

  /** Positions inside the candidate list report a value between 0 and 100. */
  lemma PercentBounded(idx: nat, total: nat)
    requires 1 <= idx <= total
    ensures 0 <= Percent(idx, total) <= 100
    ensures idx == total ==> Percent(idx, total) == 100
  {
    assert idx * 100 <= total * 100;
    DivMonotone(idx * 100, total * 100, total);
    assert total * 100 / total == 100;
  }

  /** A later position never reports a smaller value. */
  lemma PercentMonotone(i: nat, j: nat, total: nat)
    requires 0 < total && i <= j
    ensures Percent(i, total) <= Percent(j, total)
  {
    assert i * 100 <= j * 100;
    DivMonotone(i * 100, j * 100, total);
  }

  lemma DivMonotone(a: nat, b: nat, d: nat)
    requires 0 < d && a <= b
    ensures a / d <= b / d
  {
    var qa, qb := a / d, b / d;
    assert d * qa <= a && b < d * qb + d;
    assert d * (qa - qb - 1) == d * qa - d * qb - d;
    NegativeFactor(d, qa - qb - 1);
  }

  lemma NegativeFactor(d: int, x: int)
    requires 0 < d && d * x < 0
    ensures x < 0
  {
  }

  /** The values reported for the first `n` of `total` candidates, in order. */
  function Reports(n: nat, total: nat): (r: seq<nat>)
    requires 0 < total
    ensures |r| == n
    ensures forall i :: 0 <= i < n ==> r[i] == Percent(i + 1, total)
  {
    seq(n, i requires 0 <= i < n => Percent(i + 1, total))
  }

  /** One more handled candidate appends one more report. */
  lemma ReportsNext(n: nat, total: nat)
    requires 0 < total
    ensures Reports(n + 1, total) == Reports(n, total) + [Percent(n + 1, total)]
  {
  }

  /**
   Reports stay within 0..100, never decrease, and end at 100 when every
   candidate was reached.
   */
  lemma ReportsShape(n: nat, total: nat)
    requires 0 < total && n <= total
    ensures forall i :: 0 <= i < n ==> Reports(n, total)[i] <= 100
    ensures forall i, j :: 0 <= i <= j < n ==> Reports(n, total)[i] <= Reports(n, total)[j]
    ensures n == total ==> Reports(n, total)[n - 1] == 100
  {
    var r := Reports(n, total);
    forall i | 0 <= i < n ensures r[i] <= 100 {
      PercentBounded(i + 1, total);
    }
    forall i, j | 0 <= i <= j < n ensures r[i] <= r[j] {
      PercentMonotone(i + 1, j + 1, total);
    }
    if n == total {
      PercentBounded(n, total);
    }
  }

  /** Three candidates report 33, 66 and 100. */
  lemma ReportsOfThree()
    ensures Reports(3, 3) == [33, 66, 100]
  {
  }
}

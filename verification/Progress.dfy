/** The percentages both controllers report: processed * 100 / total,
    rounded down, and the shape of the sequence of reported values. */
module Progress {

  /** n / d on naturals, by repeated subtraction. */
  function Quotient(n: nat, d: nat): nat
    requires 0 < d
    decreases n
  {
    if n < d then 0 else 1 + Quotient(n - d, d)
  }

  lemma {:induction false} QuotientBounds(n: nat, d: nat)
    requires 0 < d
    ensures Quotient(n, d) * d <= n < Quotient(n, d) * d + d
    decreases n
  {
    if n >= d {
      QuotientBounds(n - d, d);
      var q := Quotient(n - d, d);
      assert (q + 1) * d == q * d + d;
    }
  }

  lemma {:induction false} MulMonotone(a: nat, b: nat, d: nat)
    requires a <= b
    ensures a * d <= b * d
    decreases b - a
  {
    if a < b {
      MulMonotone(a + 1, b, d);
      assert (a + 1) * d == a * d + d;
    }
  }

  lemma DivUnique(n: nat, d: nat, q: nat)
    requires 0 < d && q * d <= n < q * d + d
    ensures n / d == q
  {
    var q' := n / d;
    assert q' * d <= n < q' * d + d;
    if q' > q {
      MulMonotone(q + 1, q', d);
    } else if q' < q {
      MulMonotone(q' + 1, q, d);
    }
  }

  /** Quotient is Java's int division on non-negative operands. */
  lemma QuotientIsDivision(n: nat, d: nat)
    requires 0 < d
    ensures Quotient(n, d) == n / d
  {
    QuotientBounds(n, d);
    DivUnique(n, d, Quotient(n, d));
  }

  lemma {:induction false} QuotientMonotone(x: nat, y: nat, d: nat)
    requires x <= y && 0 < d
    ensures Quotient(x, d) <= Quotient(y, d)
    decreases x
  {
    if x >= d {
      QuotientMonotone(x - d, y - d, d);
    }
  }

  lemma {:induction false} QuotientOfMultiple(k: nat, d: nat)
    requires 0 < d
    ensures Quotient(k * d, d) == k
  {
    if k > 0 {
      QuotientOfMultiple(k - 1, d);
      assert k * d - d == (k - 1) * d;
    }
  }

  /** The percentage updateProgress reports for processed of total files. */
  function Percent(processed: nat, total: nat): nat {
    if total == 0 then 0 else Quotient(processed * 100, total)
  }

  /** Percentages grow with the count and reach 100 exactly at the total. */
  lemma PercentMonotone(a: nat, b: nat, total: nat)
    requires a <= b
    ensures Percent(a, total) <= Percent(b, total)
    ensures b <= total ==> Percent(b, total) <= 100
    ensures 0 < total ==> Percent(total, total) == 100
  {
    if total > 0 {
      QuotientMonotone(a * 100, b * 100, total);
      QuotientOfMultiple(100, total);
      assert total * 100 == 100 * total;
      if b <= total {
        QuotientMonotone(b * 100, total * 100, total);
      }
    }
  }

  /** Reported percentages never go down and stay between 0 and `top`. */
  ghost predicate ProgressUpTo(ps: seq<int>, top: int) {
    && (forall i, j :: 0 <= i < j < |ps| ==> ps[i] <= ps[j])
    && (forall i :: 0 <= i < |ps| ==> 0 <= ps[i] <= top)
  }

  /** The last percentage reported is x. */
  ghost predicate EndsAt(ps: seq<int>, x: int) {
    ps != [] && ps[|ps| - 1] == x
  }

  lemma ProgressGrows(ps: seq<int>, a: nat, b: nat, total: nat)
    requires ProgressUpTo(ps, Percent(a, total)) && a <= b
    ensures ProgressUpTo(ps, Percent(b, total))
    ensures ProgressUpTo(ps + [Percent(b, total)], Percent(b, total))
  {
    PercentMonotone(a, b, total);
  }
}

/**
 The progress bar drawn for every `progress` event: the percentage of words
 done, rounded to the nearest integer, and a bar of `BarLength` characters
 whose `=` part is that percentage of the bar, again rounded.

 `Math.round` on the floating-point quotient is modelled as exact rounding
 half up on rationals.
 */
module Progress {
  import opened Text

  /** The bar's width in characters. */
  const BarLength: nat := 40

  /** `Math.round(n / d)` for a non-negative quotient: the integer nearest to
      `n / d`, the upper one on a tie. */
  function RoundHalfUp(n: nat, d: nat): (r: nat)
    requires d > 0
    ensures 2 * n - d < 2 * d * r <= 2 * n + d
  {
    var q := (2 * n + d) / (2 * d);
    assert (2 * n + d) == 2 * d * q + (2 * n + d) % (2 * d);
    q
  }

  /** Multiplying by the same factor keeps the order. */
  lemma {:induction false} MulMonotone(a: nat, b: nat, c: nat)
    requires a <= b
    ensures c * a <= c * b
    decreases c
  {
    if c > 0 {
      MulMonotone(a, b, c - 1);
      assert c * a == (c - 1) * a + a;
      assert c * b == (c - 1) * b + b;
    }
  }

  /** A strict order between products with the same factor is the order of
      the other factors. */
  lemma MulLess(a: nat, b: nat, c: nat)
    requires c * a < c * b
    ensures a < b
  {
    if b <= a {
      MulMonotone(b, a, c);
    }
  }

  /** Rounding does not reverse the order of two quotients over the same
      divisor. */
  lemma RoundHalfUpMonotone(n1: nat, n2: nat, d: nat)
    requires d > 0 && n1 <= n2
    ensures RoundHalfUp(n1, d) <= RoundHalfUp(n2, d)
  {
    var r1, r2 := RoundHalfUp(n1, d), RoundHalfUp(n2, d);
    assert (2 * d) * (r2 + 1) == 2 * d * r2 + 2 * d;
    MulLess(r1, r2 + 1, 2 * d);
  }

  /** The percentage shown after `done` of `total` lookups. */
  function Percent(done: nat, total: nat): (pct: nat)
    requires 1 <= done <= total
    ensures pct <= 100
    ensures done == total ==> pct == 100
    ensures 200 * done - total < 2 * total * pct <= 200 * done + total
  {
    var pct := RoundHalfUp(done * 100, total);
    MulLess(pct, 101, 2 * total);
    assert done == total ==> pct == 100 by {
      if done == total {
        MulLess(99, pct, 2 * total);
      }
    }
    pct
  }

  /** The number of `=` characters for a percentage. */
  function FilledBars(pct: nat): (filled: nat)
    requires pct <= 100
    ensures filled <= BarLength
    ensures pct == 100 ==> filled == BarLength
    ensures pct == 0 ==> filled == 0
    ensures 2 * pct * BarLength - 100 < 200 * filled <= 2 * pct * BarLength + 100
  {
    RoundHalfUp(pct * BarLength, 100)
  }

  /** The number of `-` characters: the rest of the bar. */
  function EmptyBars(pct: nat): (empty: nat)
    requires pct <= 100
    ensures FilledBars(pct) + empty == BarLength
  {
    BarLength - FilledBars(pct)
  }

  /** The bar drawn after `done` of `total` lookups: exactly `BarLength`
      characters, the filled part `=` and the rest `-`. */
  function Bar(done: nat, total: nat): (bar: string)
    requires 1 <= done <= total
    ensures |bar| == BarLength
    ensures var filled := FilledBars(Percent(done, total));
      && (forall i :: 0 <= i < filled ==> bar[i] == '=')
      && (forall i :: filled <= i < BarLength ==> bar[i] == '-')
  {
    var pct := Percent(done, total);
    Repeat('=', FilledBars(pct)) + Repeat('-', EmptyBars(pct))
  }

  /** A later event never shows a smaller percentage or a shorter filled part. */
  lemma ProgressNeverShrinks(done1: nat, done2: nat, total: nat)
    requires 1 <= done1 <= done2 <= total
    ensures Percent(done1, total) <= Percent(done2, total)
    ensures FilledBars(Percent(done1, total)) <= FilledBars(Percent(done2, total))
  {
    RoundHalfUpMonotone(done1 * 100, done2 * 100, total);
    RoundHalfUpMonotone(Percent(done1, total) * BarLength, Percent(done2, total) * BarLength, 100);
  }

  /** The last event of a full pass draws a bar of `=` only. */
  lemma FinalBarIsFull(total: nat)
    requires total >= 1
    ensures Bar(total, total) == Repeat('=', BarLength)
  {
  }
}

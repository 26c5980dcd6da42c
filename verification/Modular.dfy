/** Remainders. */
module Modular {
  lemma ModPlus(n: int, m: nat, k: int)
    requires m > 0
    ensures (n + m * k) % m == n % m
  {
    var sum := n + m * k;
    var d := sum / m - n / m - k;
    assert m * d == n % m - sum % m by {
      assert m * d == m * (sum / m) - m * (n / m) - m * k;
    }
    OnlyZero(m, d);
  }

  lemma OnlyZero(m: int, d: int)
    requires m > 0
    ensures -m < m * d < m ==> d == 0
  {
    if d >= 1 {
      assert m * d >= m * 1;
    } else if d <= -1 {
      assert m * d <= m * -1;
    }
  }
}

// Quotients and remainders by a variable, kept away from the proofs that need them.
module Division {
  lemma Larger(q: nat, e: nat, m: nat)
    requires e > 0
    ensures (q + e) * m >= q * m + m
  {
    assert (q + e) * m == q * m + e * m;
    assert e * m == m + (e - 1) * m;
  }

  lemma SameQuotient(q: nat, d: nat, a: nat, b: nat, m: nat)
    requires d < m && b < m && q * m + d == a * m + b
    ensures a == q && b == d
  {
    if a > q {
      Larger(q, a - q, m);
    } else if a < q {
      Larger(a, q - a, m);
    }
  }

  lemma DivMod(q: nat, d: nat, m: nat)
    requires d < m
    ensures (q * m + d) / m == q && (q * m + d) % m == d
  {
    var x := q * m + d;
    SameQuotient(q, d, x / m, x % m, m);
  }

  lemma NextResidue(t: nat, m: nat)
    requires 0 < m
    ensures (t + 1) % m == if t % m + 1 == m then 0 else t % m + 1
  {
    var q, r := t / m, t % m;
    if r + 1 == m {
      assert t + 1 == (q + 1) * m + 0;
      DivMod(q + 1, 0, m);
    } else {
      assert t + 1 == q * m + (r + 1);
      DivMod(q, r + 1, m);
    }
  }

  lemma ShiftResidue(a: nat, m: nat)
    requires 0 < m
    ensures (a + m) % m == a % m
  {
    assert a + m == (a / m + 1) * m + a % m;
    DivMod(a / m + 1, a % m, m);
  }
}

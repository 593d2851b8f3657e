/** Multiplication and division facts, each small enough for the solver. */
module Arith {

  lemma MulMono(a: nat, b: nat, m: nat)
    requires a <= b
    ensures a * m <= b * m
    ensures a < b ==> a * m + m <= b * m
  {
    var x := b - a;
    assert b * m == (a + x) * m == a * m + x * m;
    if x > 0 {
      assert x * m == (x - 1) * m + m;
    }
  }

  lemma DivUnique(k: nat, q: nat, r: nat, m: nat)
    requires r < m && k == q * m + r
    ensures k / m == q && k % m == r
  {
    var q', r' := k / m, k % m;
    assert k == q' * m + r';
    if q' < q {
      MulMono(q', q, m);
    } else if q < q' {
      MulMono(q, q', m);
    }
  }

  lemma DivBelow(k: nat, p: nat, m: nat)
    requires k < p * m
    ensures m > 0 && k / m < p
  {
    assert m > 0;
    assert k == (k / m) * m + k % m;
    if p <= k / m {
      MulMono(p, k / m, m);
    }
  }

  /** Byte `k` lies in elements `[s, s+n)` exactly when its element number does,
      and its place inside the run is then determined. */
  lemma ByteRange(k: nat, s: nat, n: nat, e: nat)
    requires e > 0
    ensures s * e <= k < (s + n) * e <==> s <= k / e < s + n
    ensures s * e <= k ==> k - s * e == (k / e - s) * e + k % e
  {
    var q, r := k / e, k % e;
    assert k == q * e + r;
    RunBound(q, r, s, e);
    RunBound(q, r, s + n, e);
    assert (q - s) * e == q * e - s * e;
  }

  lemma RunBound(q: nat, r: nat, s: nat, e: nat)
    requires r < e
    ensures s * e <= q * e + r <==> s <= q
  {
    if s <= q { MulMono(s, q, e); } else { MulMono(q, s, e); }
  }
}

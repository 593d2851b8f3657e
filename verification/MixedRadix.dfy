/** Row-major (mixed-radix) addressing of N-dimensional arrays.

    A coordinate tuple `c` in a box of extents `d` has the linear offset
    `Linear(c, d)`; the last dimension varies fastest.  `Unrank` is the inverse. */
module MixedRadix {
  import opened Arith

  function Prod(d: seq<nat>): nat
  {
    if d == [] then 1 else d[0] * Prod(d[1..])
  }

  predicate InBox(c: seq<nat>, d: seq<nat>)
  {
    |c| == |d| && forall i | 0 <= i < |d| :: c[i] < d[i]
  }

  function Linear(c: seq<nat>, d: seq<nat>): nat
    requires |c| == |d|
  {
    if c == [] then 0 else c[0] * Prod(d[1..]) + Linear(c[1..], d[1..])
  }

  function Add(a: seq<nat>, b: seq<nat>): (c: seq<nat>)
    requires |a| == |b|
    ensures |c| == |a| && forall i | 0 <= i < |a| :: c[i] == a[i] + b[i]
  {
    seq(|a|, i requires 0 <= i < |a| => a[i] + b[i])
  }

  // ---- Linear is a bijection from the box onto [0, Prod) ----

  lemma {:induction false} LinearBound(c: seq<nat>, d: seq<nat>)
    requires InBox(c, d)
    ensures Linear(c, d) < Prod(d)
  {
    if c != [] {
      assert InBox(c[1..], d[1..]);
      LinearBound(c[1..], d[1..]);
      MulMono(c[0] + 1, d[0], Prod(d[1..]));
      assert (c[0] + 1) * Prod(d[1..]) == c[0] * Prod(d[1..]) + Prod(d[1..]);
    }
  }

  lemma {:induction false} LinearInjective(a: seq<nat>, b: seq<nat>, d: seq<nat>)
    requires InBox(a, d) && InBox(b, d) && Linear(a, d) == Linear(b, d)
    ensures a == b
  {
    if d != [] {
      assert InBox(a[1..], d[1..]) && InBox(b[1..], d[1..]);
      LinearBound(a[1..], d[1..]);
      LinearBound(b[1..], d[1..]);
      DivUnique(Linear(a, d), a[0], Linear(a[1..], d[1..]), Prod(d[1..]));
      DivUnique(Linear(b, d), b[0], Linear(b[1..], d[1..]), Prod(d[1..]));
      LinearInjective(a[1..], b[1..], d[1..]);
      assert a == [a[0]] + a[1..] && b == [b[0]] + b[1..];
    }
  }

  function Unrank(k: nat, d: seq<nat>): (c: seq<nat>)
    requires k < Prod(d)
    ensures InBox(c, d) && Linear(c, d) == k
  {
    if d == [] then []
    else
      var m := Prod(d[1..]);
      UnrankStep(k, d[0], m);
      var q, r := k / m, k % m;
      var rest := Unrank(r, d[1..]);
      LinearCons(q, rest, d);
      [q] + rest
  }

  lemma UnrankStep(k: nat, p: nat, m: nat)
    requires k < p * m
    ensures m > 0 && k / m < p && k % m < m && (k / m) * m + k % m == k
  {
    DivBelow(k, p, m);
  }

  lemma LinearCons(q: nat, rest: seq<nat>, d: seq<nat>)
    requires |d| == |rest| + 1
    ensures Linear([q] + rest, d) == q * Prod(d[1..]) + Linear(rest, d[1..])
  {
    assert ([q] + rest)[1..] == rest;
  }

  lemma UnrankLinear(c: seq<nat>, d: seq<nat>)
    requires InBox(c, d)
    ensures Linear(c, d) < Prod(d) && Unrank(Linear(c, d), d) == c
  {
    hide Linear, Prod;
    LinearBound(c, d);
    LinearInjective(Unrank(Linear(c, d), d), c, d);
  }

  lemma {:induction false} LinearAdd(a: seq<nat>, b: seq<nat>, d: seq<nat>)
    requires |a| == |b| == |d|
    ensures Linear(Add(a, b), d) == Linear(a, d) + Linear(b, d)
  {
    if a != [] {
      LinearAdd(a[1..], b[1..], d[1..]);
      assert Add(a, b)[1..] == Add(a[1..], b[1..]);
      assert (a[0] + b[0]) * Prod(d[1..]) == a[0] * Prod(d[1..]) + b[0] * Prod(d[1..]);
    }
  }

  lemma Regroup(q: nat, p: nat, l: nat, m: nat, r: nat)
    ensures q * (p * m) + (l * m + r) == (q * p + l) * m + r
  {
    assert q * (p * m) == (q * p) * m;
    assert (q * p + l) * m == (q * p) * m + l * m;
  }

  /** Splitting the tuple splits the offset. */
  lemma {:induction false} LinearSplit(c: seq<nat>, d: seq<nat>, i: nat)
    requires |c| == |d| && i <= |c|
    ensures Linear(c, d) == Linear(c[..i], d[..i]) * Prod(d[i..]) + Linear(c[i..], d[i..])
  {
    if i == 0 {
      assert c[0..] == c && d[0..] == d;
    } else {
      LinearSplit(c[1..], d[1..], i - 1);
      assert c[1..][..i - 1] == c[..i][1..] && d[1..][..i - 1] == d[..i][1..];
      assert c[1..][i - 1..] == c[i..] && d[1..][i - 1..] == d[i..];
      ProdSplit(d[1..], i - 1);
      Regroup(c[0], Prod(d[..i][1..]), Linear(c[..i][1..], d[..i][1..]), Prod(d[i..]), Linear(c[i..], d[i..]));
    }
  }

  lemma MulAssoc(a: nat, b: nat, c: nat)
    ensures a * (b * c) == (a * b) * c
  {
  }

  lemma {:induction false} ProdSplit(d: seq<nat>, i: nat)
    requires i <= |d|
    ensures Prod(d) == Prod(d[..i]) * Prod(d[i..])
  {
    if i == 0 {
      assert d[0..] == d;
    } else {
      ProdSplit(d[1..], i - 1);
      assert d[1..][..i - 1] == d[..i][1..] && d[1..][i - 1..] == d[i..];
      MulAssoc(d[0], Prod(d[..i][1..]), Prod(d[i..]));
    }
  }

  /** Changing only the last component moves the offset by the same amount. */
  lemma LinearLast(c: seq<nat>, d: seq<nat>)
    requires |c| == |d| >= 1
    ensures Linear(c, d) == Linear(c[..|c| - 1] + [0], d) + c[|c| - 1]
  {
    hide Linear, Prod;
    var n := |c| - 1;
    var z := c[..n] + [0];
    LinearSplit(c, d, n);
    LinearSplit(z, d, n);
    assert z[..n] == c[..n] && z[n..] == [0] && c[n..] == [c[n]] && d[n..] == [d[n]];
    LinearOne(c[n], d[n]);
    LinearOne(0, d[n]);
  }

  lemma LinearOne(v: nat, m: nat)
    ensures Linear([v], [m]) == v && Prod([m]) == m
  {
    assert [v][1..] == [] && [m][1..] == [];
  }
}

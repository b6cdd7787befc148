/** Facts about quotients and remainders that the solver needs spelled out. */
module Arithmetic {
  lemma MulMonotone(a: int, b: int, d: nat)
    ensures a <= b ==> a * d <= b * d
  {
  }

  lemma QuotientUnique(n: nat, d: nat, q: nat)
    requires d > 0 && q * d <= n < (q + 1) * d
    ensures n / d == q
  {
    var p := n / d;
    assert p * d <= n < (p + 1) * d;
    MulMonotone(p + 1, q, d);
    MulMonotone(q + 1, p, d);
  }

  lemma DivStep(n: nat, d: nat)
    requires n >= d > 0
    ensures n / d == (n - d) / d + 1
  {
    var q := (n - d) / d;
    assert q * d <= n - d < (q + 1) * d;
    assert (q + 1) * d == q * d + d && (q + 2) * d == (q + 1) * d + d;
    QuotientUnique(n, d, q + 1);
  }

  lemma ModOf(q: nat, r: nat, w: nat)
    requires r < w
    ensures (q * w + r) % w == r
  {
    var n := q * w + r;
    assert (q + 1) * w == q * w + w;
    QuotientUnique(n, w, q);
    assert n == n / w * w + n % w;
  }

  lemma DivModSucc(k: nat, w: nat)
    requires w > 0
    ensures k % w + 1 == w ==> (k + 1) / w == k / w + 1 && (k + 1) % w == 0
    ensures k % w + 1 < w ==> (k + 1) / w == k / w && (k + 1) % w == k % w + 1
  {
    var q, r := k / w, k % w;
    assert k == q * w + r;
    assert (q + 1) * w == q * w + w && (q + 2) * w == (q + 1) * w + w;
    if r + 1 == w {
      assert k + 1 == (q + 1) * w + 0;
      ModOf(q + 1, 0, w);
      QuotientUnique(k + 1, w, q + 1);
    } else {
      assert k + 1 == q * w + (r + 1);
      ModOf(q, r + 1, w);
      QuotientUnique(k + 1, w, q);
    }
  }

  lemma ModSucc(k: nat, w: nat)
    requires w > 0
    ensures (k + 1) % w == 0 <==> k % w + 1 == w
  {
    DivModSucc(k, w);
  }

  lemma ModSkip(n: nat, w: nat)
    requires w > 0
    ensures (n + w) % w == n % w
  {
    var q, r := n / w, n % w;
    assert n + w == (q + 1) * w + r;
    ModOf(q + 1, r, w);
  }

  lemma ModTurns(turns: nat, turn: nat, k: nat, w: nat)
    requires w > 0 && turn % w == 0
    ensures (turns * turn + k) % w == k % w
  {
    var c, q, r := turn / w, k / w, k % w;
    assert turn == c * w + 0;
    Regroup(turns, c, w);
    Distribute(turns * c, q, w);
    assert turns * turn + k == (turns * c + q) * w + r;
    ModOf(turns * c + q, r, w);
  }

  lemma Regroup(a: nat, b: nat, c: nat)
    ensures a * (b * c) == (a * b) * c
  {
  }

  lemma Distribute(a: nat, b: nat, c: nat)
    ensures (a + b) * c == a * c + b * c
  {
  }
}

/** Vectors and matrices over GF(2), stored as integer sequences the way
    numpy stores them (`dtype=int`), with the product `matmul(v, M) % 2`
    and the sum `(a + b) % 2` the code engine uses. */
module GF2 {

  /** Every entry is 0 or 1. */
  predicate IsBits(v: seq<int>) {
    forall i :: 0 <= i < |v| ==> v[i] == 0 || v[i] == 1
  }

  /** `m` has `rows` rows of `cols` entries each. */
  predicate IsMatrix(m: seq<seq<int>>, rows: nat, cols: nat) {
    |m| == rows && forall r :: 0 <= r < rows ==> |m[r]| == cols
  }

  predicate IsBitMatrix(m: seq<seq<int>>, rows: nat, cols: nat) {
    IsMatrix(m, rows, cols) && forall r :: 0 <= r < rows ==> IsBits(m[r])
  }

  function Zeros(n: nat): seq<int> {
    seq(n, _ => 0)
  }

  /** The unit vector e_p of length n (all zero when p is out of range). */
  function Unit(n: nat, p: int): seq<int> {
    seq(n, j => if j == p then 1 else 0)
  }

  /** Ones on positions [0, w), zeros elsewhere: a zero vector after
      numpy's `v[:w] = 1`, which clamps w to the length. */
  function Prefix(n: nat, w: int): seq<int> {
    seq(n, j => if j < w then 1 else 0)
  }

  function ZeroMatrix(rows: nat, cols: nat): seq<seq<int>> {
    seq(rows, _ => Zeros(cols))
  }

  function Identity(n: nat): seq<seq<int>> {
    seq(n, r => Unit(n, r))
  }

  function Column(m: seq<seq<int>>, c: nat): seq<int>
    requires forall r :: 0 <= r < |m| ==> c < |m[r]|
  {
    seq(|m|, r requires 0 <= r < |m| => m[r][c])
  }

  /** The integer dot product, before any reduction. */
  function Dot(u: seq<int>, w: seq<int>): int
    requires |u| == |w|
  {
    if |u| == 0 then 0 else u[0] * w[0] + Dot(u[1..], w[1..])
  }

  /** `matmul(v, m) % 2` for a vector of length |m| and an |m| x cols matrix. */
  function VecMatMod2(v: seq<int>, m: seq<seq<int>>, cols: nat): (r: seq<int>)
    requires IsMatrix(m, |v|, cols)
    ensures |r| == cols && IsBits(r)
  {
    seq(cols, c requires 0 <= c < cols => Dot(v, Column(m, c)) % 2)
  }

  /** `(a + b) % 2`, elementwise. */
  function AddMod2(a: seq<int>, b: seq<int>): (r: seq<int>)
    requires |a| == |b|
    ensures |r| == |a| && IsBits(r)
  {
    seq(|a|, i requires 0 <= i < |a| => (a[i] + b[i]) % 2)
  }

  /** Hamming weight: the number of non-zero entries. */
  function Weight(v: seq<int>): nat {
    if |v| == 0 then 0 else (if v[0] != 0 then 1 else 0) + Weight(v[1..])
  }

  function Min(a: int, b: int): int { if a <= b then a else b }
  function Max(a: int, b: int): int { if a >= b then a else b }

  function Pow2(e: nat): (p: nat)
    ensures p >= 1
  {
    if e == 0 then 1 else 2 * Pow2(e - 1)
  }

  // ---------------------------------------------------------------------
  // Dot products

  lemma {:induction false} DotConcat(a: seq<int>, b: seq<int>, c: seq<int>, d: seq<int>)
    requires |a| == |c| && |b| == |d|
    ensures Dot(a + b, c + d) == Dot(a, c) + Dot(b, d)
  {
    if |a| > 0 {
      assert (a + b)[1..] == a[1..] + b;
      assert (c + d)[1..] == c[1..] + d;
      DotConcat(a[1..], b, c[1..], d);
    } else {
      assert a + b == b && c + d == d;
    }
  }

  /** A dot product against a vector that is zero outside position p. */
  lemma {:induction false} DotSingle(u: seq<int>, w: seq<int>, p: int)
    requires |u| == |w| && 0 <= p < |w|
    requires forall j :: 0 <= j < |w| && j != p ==> w[j] == 0
    ensures Dot(u, w) == u[p] * w[p]
  {
    if p == 0 {
      DotZeroRight(u[1..], w[1..]);
    } else {
      DotSingle(u[1..], w[1..], p - 1);
    }
  }

  lemma {:induction false} DotZeroRight(u: seq<int>, w: seq<int>)
    requires |u| == |w|
    requires forall j :: 0 <= j < |w| ==> w[j] == 0
    ensures Dot(u, w) == 0
  {
    if |u| > 0 {
      DotZeroRight(u[1..], w[1..]);
    }
  }

  lemma {:induction false} DotSymmetric(u: seq<int>, w: seq<int>)
    requires |u| == |w|
    ensures Dot(u, w) == Dot(w, u)
  {
    if |u| > 0 {
      DotSymmetric(u[1..], w[1..]);
    }
  }

  /** A dot product with the unit vector e_p picks entry p. */
  lemma DotUnit(u: seq<int>, p: int)
    requires 0 <= p < |u|
    ensures Dot(u, Unit(|u|, p)) == u[p]
    ensures Dot(Unit(|u|, p), u) == u[p]
  {
    DotSingle(u, Unit(|u|, p), p);
    DotSymmetric(u, Unit(|u|, p));
  }

  lemma ModTimes(x: int, w: int)
    ensures ((x % 2) * w) % 2 == (x * w) % 2
  {
    var q, r := x / 2, x % 2;
    assert x == 2 * q + r;
    assert x * w == 2 * (q * w) + r * w by {
      assert (2 * q + r) * w == 2 * q * w + r * w;
    }
    ModAddEven(q * w, r * w);
  }

  lemma ModAddEven(a: int, b: int)
    ensures (2 * a + b) % 2 == b % 2
  {
  }

  /** Mod 2, a dot product is additive in its left factor even after that factor is reduced. */
  lemma {:induction false} DotAddMod2(a: seq<int>, b: seq<int>, w: seq<int>)
    requires |a| == |b| == |w|
    ensures Dot(AddMod2(a, b), w) % 2 == (Dot(a, w) + Dot(b, w)) % 2
  {
    if |a| > 0 {
      var s := AddMod2(a, b);
      assert s[1..] == AddMod2(a[1..], b[1..]);
      DotAddMod2(a[1..], b[1..], w[1..]);
      var head, tail := s[0] * w[0], Dot(s[1..], w[1..]);
      var aHead, bHead := a[0] * w[0], b[0] * w[0];
      var aTail, bTail := Dot(a[1..], w[1..]), Dot(b[1..], w[1..]);
      ModTimes(a[0] + b[0], w[0]);
      assert (a[0] + b[0]) * w[0] == aHead + bHead;
      ModSum(head, tail, aHead + bHead, aTail + bTail);
      assert Dot(a, w) + Dot(b, w) == (aHead + bHead) + (aTail + bTail);
    }
  }

  lemma ModSum(p: int, q: int, p': int, q': int)
    requires p % 2 == p' % 2 && q % 2 == q' % 2
    ensures (p + q) % 2 == (p' + q') % 2
  {
  }

  // ---------------------------------------------------------------------
  // The product mod 2

  /** The product mod 2 is linear: (a + b)M = aM + bM over GF(2). */
  lemma VecMatLinear(a: seq<int>, b: seq<int>, m: seq<seq<int>>, cols: nat)
    requires |a| == |b| && IsMatrix(m, |a|, cols)
    ensures VecMatMod2(AddMod2(a, b), m, cols)
         == AddMod2(VecMatMod2(a, m, cols), VecMatMod2(b, m, cols))
  {
    var l := VecMatMod2(AddMod2(a, b), m, cols);
    var r := AddMod2(VecMatMod2(a, m, cols), VecMatMod2(b, m, cols));
    forall c | 0 <= c < cols
      ensures l[c] == r[c]
    {
      DotAddMod2(a, b, Column(m, c));
    }
  }

  /** e_p M is row p of M, for a 0/1 matrix. */
  lemma VecMatUnit(n: nat, p: nat, m: seq<seq<int>>, cols: nat)
    requires p < n && IsBitMatrix(m, n, cols)
    ensures VecMatMod2(Unit(n, p), m, cols) == m[p]
  {
    forall c | 0 <= c < cols
      ensures VecMatMod2(Unit(n, p), m, cols)[c] == m[p][c]
    {
      DotUnit(Column(m, c), p);
    }
  }

  // ---------------------------------------------------------------------
  // The sum mod 2

  /** Adding an error vector twice cancels it. */
  lemma AddMod2Cancel(e: seq<int>, c: seq<int>)
    requires |e| == |c| && IsBits(e) && IsBits(c)
    ensures AddMod2(e, AddMod2(c, e)) == c
  {
  }

  /** Adding a vector leaves a 0/1 vector unchanged only if it is zero. */
  lemma AddMod2Identity(e: seq<int>, w: seq<int>)
    requires |e| == |w| && IsBits(e) && IsBits(w) && AddMod2(e, w) == w
    ensures e == Zeros(|e|)
  {
    forall i | 0 <= i < |e|
      ensures e[i] == 0
    {
      assert AddMod2(e, w)[i] == w[i];
    }
  }

  lemma AddMod2ZeroLeft(s: seq<int>)
    requires IsBits(s)
    ensures AddMod2(Zeros(|s|), s) == s
  {
  }

  lemma AddMod2Comm(a: seq<int>, b: seq<int>)
    requires |a| == |b|
    ensures AddMod2(a, b) == AddMod2(b, a)
  {
  }

  lemma AddMod2Assoc(a: seq<int>, b: seq<int>, c: seq<int>)
    requires |a| == |b| == |c|
    ensures AddMod2(a, AddMod2(b, c)) == AddMod2(AddMod2(a, b), c)
  {
  }

  // ---------------------------------------------------------------------
  // Hamming weight

  /** Every unit vector has Hamming weight 1. */
  lemma {:induction false} WeightUnit(n: nat, p: int)
    requires 0 <= p < n
    ensures Weight(Unit(n, p)) == 1
  {
    var u := Unit(n, p);
    if p == 0 {
      WeightZero(u[1..]);
    } else {
      assert u[1..] == Unit(n - 1, p - 1);
      WeightUnit(n - 1, p - 1);
    }
  }

  lemma {:induction false} WeightZero(v: seq<int>)
    requires forall j :: 0 <= j < |v| ==> v[j] == 0
    ensures Weight(v) == 0
  {
    if |v| > 0 {
      WeightZero(v[1..]);
    }
  }

  /** Ones on [0, w) of a length-n vector have Hamming weight min(w, n). */
  lemma {:induction false} WeightPrefix(n: nat, w: nat)
    ensures Weight(Prefix(n, w)) == Min(w, n)
  {
    var v := Prefix(n, w);
    if n > 0 {
      if w == 0 {
        WeightZero(v);
      } else {
        assert v[1..] == Prefix(n - 1, w - 1);
        WeightPrefix(n - 1, w - 1);
      }
    }
  }
}

/** Polynomials over GF(2), written as coefficient sequences with the highest degree first. */
module Gf2 {

  type Poly = seq<bool>

  /** The generator x^8 + x^5 + x^4 + 1. */
  const G: Poly := [true, false, false, true, true, false, false, false, true]

  function Zeros(n: nat): (z: Poly)
    ensures |z| == n && forall k :: 0 <= k < n ==> !z[k]
  {
    seq(n, _ => false)
  }

  /** Sum of two polynomials; over GF(2) it is also their difference. */
  function Xor(a: Poly, b: Poly): (c: Poly)
    requires |a| == |b|
    ensures |c| == |a| && forall k :: 0 <= k < |a| ==> c[k] == (a[k] != b[k])
  {
    seq(|a|, k requires 0 <= k < |a| => a[k] != b[k])
  }

  lemma XorOfConcat(a: Poly, b: Poly, c: Poly, d: Poly)
    requires |a| == |b| && |c| == |d|
    ensures Xor(a + c, b + d) == Xor(a, b) + Xor(c, d)
  {
  }

  lemma XorZeros(p: Poly)
    ensures Xor(p, Zeros(|p|)) == p && Xor(Zeros(|p|), p) == p
  {
  }

  function Scale(h: bool, p: Poly): (s: Poly)
    ensures |s| == |p| && forall k :: 0 <= k < |p| ==> s[k] == (h && p[k])
  {
    if h then p else Zeros(|p|)
  }

  /** Schoolbook product: one shifted copy of p for every coefficient of q. */
  function Mul(q: Poly, p: Poly): (r: Poly)
    requires |p| > 0
    ensures |r| == |q| + |p| - 1
  {
    if q == [] then Zeros(|p| - 1)
    else Xor(Scale(q[0], p) + Zeros(|q| - 1), [false] + Mul(q[1..], p))
  }

  /** r is what is left of p after division by the generator: p == q * G + r with deg r < 8. */
  ghost predicate IsRemainder(p: Poly, r: Poly) {
    |r| == 8 && |p| >= 8 && exists q: Poly :: IsDivision(p, q, r)
  }

  ghost predicate IsDivision(p: Poly, q: Poly, r: Poly) {
    |r| == 8 && |p| == |q| + 8 && p == Xor(Mul(q, G), Zeros(|q|) + r)
  }

  /** Division by the generator has only one quotient and one remainder. */
  lemma {:induction false} DivisionUnique(p: Poly, q: Poly, r: Poly, q': Poly, r': Poly)
    requires IsDivision(p, q, r) && IsDivision(p, q', r')
    ensures q == q' && r == r'
    decreases |q|
  {
    if q == [] {
      forall k | 0 <= k < 8 ensures r[k] == r'[k] { assert p[k] == r[k] && p[k] == r'[k]; }
    } else {
      assert p[0] == q[0] && p[0] == q'[0];
      StripHead(p, q, r);
      StripHead(p, q', r');
      DivisionUnique(Tail(p), q[1..], r, q'[1..], r');
      assert q == [q[0]] + q[1..] && q' == [q'[0]] + q'[1..];
    }
  }

  /** One step of long division: cancel the leading coefficient with a shifted copy of the generator. */
  function Tail(p: Poly): (t: Poly)
    requires |p| >= 9
    ensures |t| == |p| - 1
  {
    Xor(p, Scale(p[0], G) + Zeros(|p| - 9))[1..]
  }

  lemma StripHead(p: Poly, q: Poly, r: Poly)
    requires q != [] && IsDivision(p, q, r)
    ensures p[0] == q[0] && IsDivision(Tail(p), q[1..], r)
  {
    var m := Mul(q[1..], G);
    var rhs := Xor(m, Zeros(|q| - 1) + r);
    forall k | 0 <= k < |rhs| ensures Tail(p)[k] == rhs[k] {
      assert p[k + 1] == (Mul(q, G)[k + 1] != (Zeros(|q|) + r)[k + 1]);
    }
    assert Tail(p) == rhs;
  }

  lemma RestoreHead(p: Poly, q: Poly, r: Poly)
    requires |p| >= 9 && IsDivision(Tail(p), q, r)
    ensures IsDivision(p, [p[0]] + q, r)
  {
    var q' := [p[0]] + q;
    assert q'[1..] == q;
    var rhs := Xor(Mul(q', G), Zeros(|q'|) + r);
    forall k | 0 <= k < |p| ensures p[k] == rhs[k] {
      if k > 0 { assert Tail(p)[k - 1] == Xor(Mul(q, G), Zeros(|q|) + r)[k - 1]; }
    }
    assert p == rhs;
  }

  /** Sum of all coefficients, that is, the parity of the number of set bits. */
  function Parity(p: Poly): bool {
    if p == [] then false else p[0] != Parity(p[1..])
  }

  lemma {:induction false} ParityConcat(a: Poly, b: Poly)
    ensures Parity(a + b) == (Parity(a) != Parity(b))
  {
    if a == [] {
      assert a + b == b;
    } else {
      assert (a + b)[1..] == a[1..] + b;
      ParityConcat(a[1..], b);
    }
  }
}

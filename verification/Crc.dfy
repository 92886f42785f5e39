/** The Sensirion CRC-8 register (src/sen66/sen66_crc.cpp) and what it can detect. */
module Sen66Crc {
  import opened Gf2

  const POLYNOMIAL: bv8 := 0x31
  const INIT: bv8 := 0xFF
  const BYTE_BITS: nat := 8

  type Bytes = seq<bv8>

  // ----- The register as functions -----

  function Shift(r: bv8): bv8 {
    if r & 0x80 != 0 then (r << 1) ^ POLYNOMIAL else r << 1
  }

  function ShiftN(r: bv8, n: nat): bv8
    decreases n
  {
    if n == 0 then r else ShiftN(Shift(r), n - 1)
  }

  /** The register after the bytes of data, started at r. */
  function CrcFrom(r: bv8, data: Bytes): bv8
    decreases |data|
  {
    if data == [] then r else CrcFrom(ShiftN(r ^ data[0], BYTE_BITS), data[1..])
  }

  function CrcOf(data: Bytes): bv8 { CrcFrom(INIT, data) }

  /** The loop of the driver, byte by byte and bit by bit, on one running register. */
  method Crc(data: Bytes) returns (crc: bv8)
    ensures crc == CrcOf(data)
  {
    crc := INIT;
    var i := 0;
    while i < |data|
      invariant 0 <= i <= |data|
      invariant CrcFrom(crc, data[i..]) == CrcOf(data)
    {
      ghost var rest := data[i..];
      crc := crc ^ data[i];
      ghost var start := crc;
      var bit := 0;
      while bit < 8
        invariant 0 <= bit <= 8
        invariant ShiftN(crc, 8 - bit) == ShiftN(start, BYTE_BITS)
      {
        if crc & 0x80 != 0 {
          crc := (crc << 1) ^ POLYNOMIAL;
        } else {
          crc := crc << 1;
        }
        bit := bit + 1;
      }
      i := i + 1;
      assert rest[1..] == data[i..];
    }
  }

  // ----- The register as a polynomial of degree below 8 -----

  /** The n leading bits of a byte. */
  function TopBits(b: bv8, n: nat): (p: Poly)
    ensures |p| == n
    decreases n
  {
    if n == 0 then [] else [b & 0x80 != 0] + TopBits(b << 1, n - 1)
  }

  function BitsOf(b: bv8): (p: Poly)
    ensures |p| == 8
  {
    TopBits(b, BYTE_BITS)
  }

  lemma {:induction false} TopBitAt(b: bv8, n: nat, k: nat)
    requires k < n
    ensures TopBits(b, n)[k] == (ShiftLeft(b, k) & 0x80 != 0)
    decreases k
  {
    if k > 0 { TopBitAt(b << 1, n - 1, k - 1); }
  }

  function ShiftLeft(b: bv8, k: nat): bv8
    decreases k
  {
    if k == 0 then b else ShiftLeft(b << 1, k - 1)
  }

  lemma LeftShifts(b: bv8)
    ensures ShiftLeft(b, 1) == b << 1 && ShiftLeft(b, 2) == b << 2 && ShiftLeft(b, 3) == b << 3
    ensures ShiftLeft(b, 4) == b << 4 && ShiftLeft(b, 5) == b << 5 && ShiftLeft(b, 6) == b << 6
    ensures ShiftLeft(b, 7) == b << 7
  {
    LeftShiftAdd(b, 1, 1); LeftShiftAdd(b, 2, 1); LeftShiftAdd(b, 3, 1);
    LeftShiftAdd(b, 4, 1); LeftShiftAdd(b, 5, 1); LeftShiftAdd(b, 6, 1);
  }

  lemma {:induction false} LeftShiftAdd(b: bv8, i: nat, j: nat)
    ensures ShiftLeft(b, i + j) == ShiftLeft(ShiftLeft(b, i), j)
    decreases i
  {
    if i > 0 { LeftShiftAdd(b << 1, i - 1, j); }
  }

  lemma ShiftedTopBit(b: bv8)
    ensures ((b << 1) & 0x80 != 0) == (b & 0x40 != 0) && ((b << 2) & 0x80 != 0) == (b & 0x20 != 0)
    ensures ((b << 3) & 0x80 != 0) == (b & 0x10 != 0) && ((b << 4) & 0x80 != 0) == (b & 0x08 != 0)
    ensures ((b << 5) & 0x80 != 0) == (b & 0x04 != 0) && ((b << 6) & 0x80 != 0) == (b & 0x02 != 0)
    ensures ((b << 7) & 0x80 != 0) == (b & 0x01 != 0)
  {
  }

  lemma BitsAt(b: bv8)
    ensures var p := BitsOf(b);
      && p[0] == (b & 0x80 != 0) && p[1] == (b & 0x40 != 0) && p[2] == (b & 0x20 != 0) && p[3] == (b & 0x10 != 0)
      && p[4] == (b & 0x08 != 0) && p[5] == (b & 0x04 != 0) && p[6] == (b & 0x02 != 0) && p[7] == (b & 0x01 != 0)
  {
    forall k | 0 <= k < 8 ensures BitsOf(b)[k] == (ShiftLeft(b, k) & 0x80 != 0) { TopBitAt(b, 8, k); }
    LeftShifts(b);
    ShiftedTopBit(b);
  }

  /** The bits of a byte string in wire order. */
  function Bits(data: Bytes): (p: Poly)
    ensures |p| == 8 * |data|
  {
    if data == [] then [] else BitsOf(data[0]) + Bits(data[1..])
  }

  /** Add one message bit to the leading coefficient, multiply by x and reduce. */
  function Step(r: Poly, b: bool): (s: Poly)
    requires |r| == 8
    ensures |s| == 8
    ensures forall k :: 0 <= k < 8 ==> s[k] == ((k < 7 && r[k + 1]) != ((r[0] != b) && G[k + 1]))
  {
    Tail([r[0] != b] + r[1..] + [false])
  }

  function Feed(r: Poly, bits: Poly): (s: Poly)
    requires |r| == 8
    ensures |s| == 8
    decreases |bits|
  {
    if bits == [] then r else Feed(Step(r, bits[0]), bits[1..])
  }

  lemma XorBits(x: bv8, y: bv8, z: bv8)
    requires z == x ^ y
    ensures (z & 0x80 != 0) == ((x & 0x80 != 0) != (y & 0x80 != 0))
    ensures (z & 0x40 != 0) == ((x & 0x40 != 0) != (y & 0x40 != 0))
    ensures (z & 0x20 != 0) == ((x & 0x20 != 0) != (y & 0x20 != 0))
    ensures (z & 0x10 != 0) == ((x & 0x10 != 0) != (y & 0x10 != 0))
    ensures (z & 0x08 != 0) == ((x & 0x08 != 0) != (y & 0x08 != 0))
    ensures (z & 0x04 != 0) == ((x & 0x04 != 0) != (y & 0x04 != 0))
    ensures (z & 0x02 != 0) == ((x & 0x02 != 0) != (y & 0x02 != 0))
    ensures (z & 0x01 != 0) == ((x & 0x01 != 0) != (y & 0x01 != 0))
  {
  }

  lemma BitsOfXorAt(x: bv8, y: bv8, z: bv8)
    requires z == x ^ y
    ensures var p, q, s := BitsOf(x), BitsOf(y), BitsOf(z);
      && s[0] == (p[0] != q[0]) && s[1] == (p[1] != q[1]) && s[2] == (p[2] != q[2]) && s[3] == (p[3] != q[3])
      && s[4] == (p[4] != q[4]) && s[5] == (p[5] != q[5]) && s[6] == (p[6] != q[6]) && s[7] == (p[7] != q[7])
  {
    BitsAt(x);
    BitsAt(y);
    BitsAt(z);
    XorBits(x, y, z);
  }

  lemma BitsOfXor(x: bv8, y: bv8)
    ensures BitsOf(x ^ y) == Xor(BitsOf(x), BitsOf(y))
  {
    BitsOfXorAt(x, y, x ^ y);
    EqualBits(BitsOf(x ^ y), Xor(BitsOf(x), BitsOf(y)));
  }

  lemma NoBits(z: bv8)
    requires z & 0x80 == 0 && z & 0x40 == 0 && z & 0x20 == 0 && z & 0x10 == 0
    requires z & 0x08 == 0 && z & 0x04 == 0 && z & 0x02 == 0 && z & 0x01 == 0
    ensures z == 0
  {
  }

  lemma XorIsZero(x: bv8, y: bv8)
    ensures x ^ y == 0 <==> x == y
  {
  }

  lemma EqualBits(p: Poly, q: Poly)
    requires |p| == |q| == 8
    requires p[0] == q[0] && p[1] == q[1] && p[2] == q[2] && p[3] == q[3]
    requires p[4] == q[4] && p[5] == q[5] && p[6] == q[6] && p[7] == q[7]
    ensures p == q
  {
  }

  lemma ZeroBits(z: bv8)
    ensures BitsOf(z) == Zeros(8) <==> z == 0
  {
    var p := BitsOf(z);
    BitsAt(z);
    if p == Zeros(8) {
      assert !p[0] && !p[1] && !p[2] && !p[3] && !p[4] && !p[5] && !p[6] && !p[7];
      NoBits(z);
    }
    if z == 0 {
      EqualBits(p, Zeros(8));
    }
  }

  lemma BitsOfInjective(x: bv8, y: bv8)
    requires BitsOf(x) == BitsOf(y)
    ensures x == y
  {
    BitsOfXor(x, y);
    assert Xor(BitsOf(x), BitsOf(y)) == Zeros(8);
    ZeroBits(x ^ y);
    XorIsZero(x, y);
  }

  lemma ShiftBits(r: bv8, top: bool)
    requires top == (r & 0x80 != 0)
    ensures (Shift(r) & 0x80 != 0) == (r & 0x40 != 0) && (Shift(r) & 0x40 != 0) == (r & 0x20 != 0)
    ensures (Shift(r) & 0x20 != 0) == ((r & 0x10 != 0) != top) && (Shift(r) & 0x10 != 0) == ((r & 0x08 != 0) != top)
    ensures (Shift(r) & 0x08 != 0) == (r & 0x04 != 0) && (Shift(r) & 0x04 != 0) == (r & 0x02 != 0)
    ensures (Shift(r) & 0x02 != 0) == (r & 0x01 != 0) && (Shift(r) & 0x01 != 0) == top
  {
  }

  lemma ShiftedBits(r: bv8)
    ensures var p, q := BitsOf(r), BitsOf(Shift(r));
      && q[0] == p[1] && q[1] == p[2] && q[2] == (p[3] != p[0]) && q[3] == (p[4] != p[0])
      && q[4] == p[5] && q[5] == p[6] && q[6] == p[7] && q[7] == p[0]
  {
    BitsAt(r);
    BitsAt(Shift(r));
    ShiftBits(r, r & 0x80 != 0);
  }

  lemma ShiftIsStep(r: bv8)
    ensures BitsOf(Shift(r)) == Step(BitsOf(r), false)
  {
    ShiftedBits(r);
    EqualBits(BitsOf(Shift(r)), Step(BitsOf(r), false));
  }

  lemma {:induction false} ShiftNIsFeed(r: bv8, n: nat)
    ensures BitsOf(ShiftN(r, n)) == Feed(BitsOf(r), Zeros(n))
    decreases n
  {
    if n > 0 {
      ShiftIsStep(r);
      ShiftNIsFeed(Shift(r), n - 1);
      assert Zeros(n)[1..] == Zeros(n - 1);
    }
  }

  // ----- Linearity -----

  lemma {:induction false} FeedConcat(r: Poly, a: Poly, b: Poly)
    requires |r| == 8
    ensures Feed(r, a + b) == Feed(Feed(r, a), b)
    decreases |a|
  {
    if a == [] {
      assert a + b == b;
    } else {
      assert (a + b)[1..] == a[1..] + b;
      FeedConcat(Step(r, a[0]), a[1..], b);
    }
  }

  lemma StepLinear(r: Poly, s: Poly, a: bool, b: bool)
    requires |r| == |s| == 8
    ensures Step(Xor(r, s), a != b) == Xor(Step(r, a), Step(s, b))
  {
  }

  lemma {:induction false} FeedLinear(r: Poly, s: Poly, a: Poly, b: Poly)
    requires |r| == |s| == 8 && |a| == |b|
    ensures Feed(Xor(r, s), Xor(a, b)) == Xor(Feed(r, a), Feed(s, b))
    decreases |a|
  {
    if a != [] {
      StepLinear(r, s, a[0], b[0]);
      assert Xor(a, b)[1..] == Xor(a[1..], b[1..]);
      FeedLinear(Step(r, a[0]), Step(s, b[0]), a[1..], b[1..]);
    }
  }

  /** A step fed with a zero is injective, because the generator has a constant term. */
  lemma StepKernel(r: Poly)
    requires |r| == 8
    ensures Step(r, false) == Zeros(8) <==> r == Zeros(8)
  {
    var s := Step(r, false);
    if s == Zeros(8) {
      assert !s[7] && !s[0] && !s[1] && !s[2] && !s[3] && !s[4] && !s[5] && !s[6];
    }
  }

  lemma {:induction false} FeedZerosKernel(r: Poly, n: nat)
    requires |r| == 8
    ensures Feed(r, Zeros(n)) == Zeros(8) <==> r == Zeros(8)
    decreases n
  {
    if n > 0 {
      StepKernel(r);
      assert Zeros(n)[1..] == Zeros(n - 1);
      FeedZerosKernel(Step(r, false), n - 1);
    }
  }

  /** Bits waiting in the register, padded with zeros. */
  function Ahead(r: Poly, bits: Poly): (s: Poly)
    requires |r| == 8 && |bits| <= 8
    ensures |s| == 8
    ensures forall k :: 0 <= k < 8 ==> s[k] == (r[k] != (k < |bits| && bits[k]))
  {
    Xor(r, bits + Zeros(8 - |bits|))
  }

  lemma StepAhead(r: Poly, bits: Poly)
    requires |r| == 8 && 0 < |bits| <= 8
    ensures Step(Ahead(r, bits), false) == Ahead(Step(r, bits[0]), bits[1..])
  {
    var s, t := Step(Ahead(r, bits), false), Ahead(Step(r, bits[0]), bits[1..]);
    forall k | 0 <= k < 8 ensures s[k] == t[k] { }
  }

  /** Up to eight message bits may be added to the register all at once, as the driver does per byte. */
  lemma {:induction false} FeedAtOnce(r: Poly, bits: Poly)
    requires |r| == 8 && |bits| <= 8
    ensures Feed(r, bits) == Feed(Ahead(r, bits), Zeros(|bits|))
    decreases |bits|
  {
    if bits == [] {
      assert Ahead(r, bits) == r;
    } else {
      StepAhead(r, bits);
      FeedAtOnce(Step(r, bits[0]), bits[1..]);
      assert Zeros(|bits|)[1..] == Zeros(|bits| - 1);
    }
  }

  lemma ByteIsFeed(r: bv8, b: bv8)
    ensures BitsOf(ShiftN(r ^ b, BYTE_BITS)) == Feed(BitsOf(r), BitsOf(b))
  {
    ShiftNIsFeed(r ^ b, 8);
    BitsOfXor(r, b);
    FeedAtOnce(BitsOf(r), BitsOf(b));
    assert BitsOf(b) + Zeros(0) == BitsOf(b);
  }

  lemma {:induction false} CrcFromIsFeed(r: bv8, data: Bytes)
    ensures BitsOf(CrcFrom(r, data)) == Feed(BitsOf(r), Bits(data))
    decreases |data|
  {
    if data != [] {
      ByteIsFeed(r, data[0]);
      FeedConcat(BitsOf(r), BitsOf(data[0]), Bits(data[1..]));
      CrcFromIsFeed(ShiftN(r ^ data[0], BYTE_BITS), data[1..]);
    }
  }

  // ----- The register computes the remainder -----

  /** The register r placed on the leading coefficients of bits * x^8. */
  function Dividend(r: Poly, bits: Poly): (p: Poly)
    requires |r| == 8
    ensures |p| == |bits| + 8
  {
    Xor(r + Zeros(|bits|), bits + Zeros(8))
  }

  lemma TailOfDividend(r: Poly, bits: Poly)
    requires |r| == 8 && bits != []
    ensures Tail(Dividend(r, bits)) == Dividend(Step(r, bits[0]), bits[1..])
  {
  }

  lemma {:induction false} FeedDivides(r: Poly, bits: Poly) returns (q: Poly)
    requires |r| == 8
    ensures IsDivision(Dividend(r, bits), q, Feed(r, bits))
    decreases |bits|
  {
    var p := Dividend(r, bits);
    if bits == [] {
      q := [];
      assert p == r;
      assert Xor(Mul(q, G), Zeros(0) + r) == r;
    } else {
      var next := Step(r, bits[0]);
      var q' := FeedDivides(next, bits[1..]);
      TailOfDividend(r, bits);
      RestoreHead(p, q', Feed(r, bits));
      q := [p[0]] + q';
    }
  }

  /**
   * The bit loop computes polynomial division: the CRC of a byte string of any length is the remainder
   * of that string, with ones added to its leading eight coefficients, times x^8, and no other byte is.
   */
  lemma CrcIsRemainder(data: Bytes, crc: bv8)
    ensures IsRemainder(Dividend([true, true, true, true, true, true, true, true], Bits(data)), BitsOf(crc))
      <==> crc == CrcOf(data)
  {
    var ones: Poly := [true, true, true, true, true, true, true, true];
    assert ones == BitsOf(INIT) by { BitsAt(0xFF); EqualBits(ones, BitsOf(0xFF)); }
    var p := Dividend(ones, Bits(data));
    CrcFromIsFeed(INIT, data);
    var q := FeedDivides(ones, Bits(data));
    if IsRemainder(p, BitsOf(crc)) {
      var q' :| IsDivision(p, q', BitsOf(crc));
      DivisionUnique(p, q, BitsOf(CrcOf(data)), q', BitsOf(crc));
      BitsOfInjective(crc, CrcOf(data));
    }
  }

  /** Every shift of the register in the course of the two bytes BE and EF. */
  const FIRST_BYTE: Bytes := [0x41, 0x82, 0x35, 0x6A, 0xD4, 0x99, 0x03, 0x06, 0x0C]
  const SECOND_BYTE: Bytes := [0xE3, 0xF7, 0xDF, 0x8F, 0x2F, 0x5E, 0xBC, 0x49, 0x92]

  lemma ByteShifts(i: nat)
    requires 0 < i < 9
    ensures Shift(FIRST_BYTE[i - 1]) == FIRST_BYTE[i] && Shift(SECOND_BYTE[i - 1]) == SECOND_BYTE[i]
  {
  }

  /** The reference value of the sensor's data sheet. */
  lemma DatasheetVector()
    ensures CrcOf([0xBE, 0xEF]) == 0x92
  {
    var first, second := FIRST_BYTE, SECOND_BYTE;
    forall i | 0 < i < 9 ensures Shift(first[i - 1]) == first[i] && Shift(second[i - 1]) == second[i] { ByteShifts(i); }
    ShiftChain(first, 0, BYTE_BITS);
    ShiftChain(second, 0, BYTE_BITS);
    TwoBytes(INIT, 0xBE, 0xEF, 0x0C, 0x92);
  }

  lemma TwoBytes(r: bv8, a: bv8, b: bv8, s: bv8, t: bv8)
    requires ShiftN(r ^ a, BYTE_BITS) == s && ShiftN(s ^ b, BYTE_BITS) == t
    ensures CrcFrom(r, [a, b]) == t
  {
    assert [a, b][1..] == [b] && [b][1..] == [];
    assert CrcFrom(s, [b]) == CrcFrom(t, []);
  }

  // ----- Error detection -----

  /** A received word is an accepted one when its last byte is the CRC of the others. */
  predicate Accepted(w: Bytes) {
    |w| > 0 && CrcOf(w[..|w| - 1]) == w[|w| - 1]
  }

  function XorBytes(a: Bytes, b: Bytes): (c: Bytes)
    requires |a| == |b|
    ensures |c| == |a| && forall k :: 0 <= k < |a| ==> c[k] == a[k] ^ b[k]
  {
    if a == [] then [] else [a[0] ^ b[0]] + XorBytes(a[1..], b[1..])
  }

  lemma {:induction false} CrcFromConcat(r: bv8, a: Bytes, b: Bytes)
    ensures CrcFrom(r, a + b) == CrcFrom(CrcFrom(r, a), b)
    decreases |a|
  {
    if a == [] {
      assert a + b == b;
    } else {
      assert (a + b)[1..] == a[1..] + b;
      CrcFromConcat(ShiftN(r ^ a[0], BYTE_BITS), a[1..], b);
    }
  }

  lemma BitsCons(b: bv8, data: Bytes)
    ensures Bits([b] + data) == BitsOf(b) + Bits(data)
  {
    assert ([b] + data)[1..] == data;
  }

  lemma {:induction false} BitsXor(a: Bytes, b: Bytes)
    requires |a| == |b|
    ensures Bits(XorBytes(a, b)) == Xor(Bits(a), Bits(b))
    decreases |a|
  {
    if a != [] {
      BitsOfXor(a[0], b[0]);
      BitsXor(a[1..], b[1..]);
      BitsCons(a[0] ^ b[0], XorBytes(a[1..], b[1..]));
      XorOfConcat(BitsOf(a[0]), BitsOf(b[0]), Bits(a[1..]), Bits(b[1..]));
    }
  }

  /** Folding the trailer in shifts x = CRC ^ trailer out, and that is zero only if x is. */
  lemma TrailerFold(w: Bytes)
    requires |w| > 0
    ensures CrcOf(w) == ShiftN(CrcOf(w[..|w| - 1]) ^ w[|w| - 1], BYTE_BITS)
  {
    var body, last := w[..|w| - 1], w[|w| - 1];
    assert w == body + [last];
    CrcFromConcat(INIT, body, [last]);
    assert [last][1..] == [];
  }

  lemma ShiftedOutIffZero(x: bv8)
    ensures ShiftN(x, BYTE_BITS) == 0 <==> x == 0
  {
    ShiftNIsFeed(x, 8);
    FeedZerosKernel(BitsOf(x), 8);
    ZeroBits(x);
    ZeroBits(ShiftN(x, BYTE_BITS));
  }

  /** The driver's check: a word passes exactly when the CRC over all of it, trailer included, is zero. */
  lemma AcceptedIffZero(w: Bytes)
    requires |w| > 0
    ensures Accepted(w) <==> CrcOf(w) == 0
    ensures Accepted(w) <==> Feed(BitsOf(INIT), Bits(w)) == Zeros(8)
  {
    TrailerFold(w);
    var c, last := CrcOf(w[..|w| - 1]), w[|w| - 1];
    XorIsZero(c, last);
    ShiftedOutIffZero(c ^ last);
    ZeroBits(CrcOf(w));
    CrcFromIsFeed(INIT, w);
  }

  /** Appending its own CRC to any byte string gives an accepted word. */
  lemma AppendedCrcIsAccepted(data: Bytes)
    ensures CrcOf(data + [CrcOf(data)]) == 0
  {
    var w := data + [CrcOf(data)];
    assert w[..|w| - 1] == data;
    AcceptedIffZero(w);
  }

  lemma ZeroFeedIffDivisible(bits: Poly)
    ensures Feed(Zeros(8), bits) == Zeros(8) <==> IsRemainder(bits + Zeros(8), Zeros(8))
  {
    var p := bits + Zeros(8);
    assert Dividend(Zeros(8), bits) == p;
    var f := Feed(Zeros(8), bits);
    var q := FeedDivides(Zeros(8), bits);
    if IsRemainder(p, Zeros(8)) {
      var q' :| IsDivision(p, q', Zeros(8));
      DivisionUnique(p, q, f, q', Zeros(8));
    }
  }

  /**
   * Exactly which errors slip through: the ones whose polynomial, times x^8, is a multiple of the
   * generator. The damaged word itself plays no part.
   */
  lemma UndetectedIffDivisible(w: Bytes, e: Bytes)
    requires |w| == |e| && Accepted(w)
    ensures Accepted(XorBytes(w, e)) <==> Feed(Zeros(8), Bits(e)) == Zeros(8)
    ensures Accepted(XorBytes(w, e)) <==> IsRemainder(Bits(e) + Zeros(8), Zeros(8))
  {
    AcceptedIffZero(w);
    AcceptedIffZero(XorBytes(w, e));
    BitsXor(w, e);
    XorZeros(BitsOf(INIT));
    FeedLinear(BitsOf(INIT), Zeros(8), Bits(w), Bits(e));
    XorZeros(Feed(Zeros(8), Bits(e)));
    ZeroFeedIffDivisible(Bits(e));
  }

  /** All set bits of e lie within eight consecutive positions, and there is at least one. */
  ghost predicate IsBurst(e: Poly) {
    exists lo: nat :: lo < |e| && e[lo] && BurstFrom(e, lo)
  }

  ghost predicate BurstFrom(e: Poly, lo: nat) {
    forall k :: 0 <= k < |e| && e[k] ==> lo <= k < lo + 8
  }

  /** Leading zeros leave an empty register empty, trailing zeros never empty a full one. */
  lemma PaddingKeepsZero(lo: nat, w: Poly, hi: nat)
    ensures Feed(Zeros(8), Zeros(lo) + (w + Zeros(hi))) == Zeros(8) <==> Feed(Zeros(8), w) == Zeros(8)
  {
    FeedConcat(Zeros(8), Zeros(lo), w + Zeros(hi));
    FeedZerosKernel(Zeros(8), lo);
    FeedConcat(Zeros(8), w, Zeros(hi));
    FeedZerosKernel(Feed(Zeros(8), w), hi);
  }

  lemma ShortWindowIsNotZero(w: Poly)
    requires 0 < |w| <= 8 && w[0]
    ensures Feed(Zeros(8), w) != Zeros(8)
  {
    FeedAtOnce(Zeros(8), w);
    assert Ahead(Zeros(8), w)[0];
    FeedZerosKernel(Ahead(Zeros(8), w), |w|);
  }

  lemma BurstIsNotZero(e: Poly)
    requires IsBurst(e)
    ensures Feed(Zeros(8), e) != Zeros(8)
  {
    var lo: nat :| lo < |e| && e[lo] && BurstFrom(e, lo);
    var hi := if lo + 8 <= |e| then lo + 8 else |e|;
    var w := e[lo..hi];
    assert e == Zeros(lo) + (w + Zeros(|e| - hi));
    assert Feed(Zeros(8), w) != Zeros(8) by { ShortWindowIsNotZero(w); }
    PaddingKeepsZero(lo, w, |e| - hi);
  }

  lemma StepParity(r: Poly, b: bool)
    requires |r| == 8
    ensures Parity(Step(r, b)) == (Parity(r) != b)
  {
    var s := Step(r, b);
    Parity8(r);
    Parity8(s);
  }

  lemma Parity4(a: bool, b: bool, c: bool, d: bool)
    ensures Parity([a, b, c, d]) == (a != (b != (c != d)))
  {
    assert [a, b, c, d] == [a] + ([b] + ([c] + [d]));
    ParityConcat([a], [b] + ([c] + [d]));
    ParityConcat([b], [c] + [d]);
    ParityConcat([c], [d]);
  }

  lemma Parity8(p: Poly)
    requires |p| == 8
    ensures Parity(p) == (p[0] != (p[1] != (p[2] != (p[3] != (p[4] != (p[5] != (p[6] != p[7])))))))
  {
    assert p == [p[0], p[1], p[2], p[3]] + [p[4], p[5], p[6], p[7]];
    ParityConcat([p[0], p[1], p[2], p[3]], [p[4], p[5], p[6], p[7]]);
    Parity4(p[0], p[1], p[2], p[3]);
    Parity4(p[4], p[5], p[6], p[7]);
  }

  /** The generator has an even number of terms, so the register keeps the parity of what it was fed. */
  lemma {:induction false} FeedParity(r: Poly, bits: Poly)
    requires |r| == 8
    ensures Parity(Feed(r, bits)) == (Parity(r) != Parity(bits))
    decreases |bits|
  {
    if bits != [] {
      StepParity(r, bits[0]);
      FeedParity(Step(r, bits[0]), bits[1..]);
    }
  }

  lemma CrcParity(data: Bytes)
    ensures Parity(BitsOf(CrcOf(data))) == Parity(Bits(data))
  {
    BitsAt(INIT);
    Parity8(BitsOf(INIT));
    CrcFromIsFeed(INIT, data);
    FeedParity(BitsOf(INIT), Bits(data));
  }

  /** In a codeword of any length, every burst of up to eight bits and every odd-weight error is caught. */
  lemma DetectsBurstsAndOddErrors(w: Bytes, e: Bytes)
    requires |w| == |e| && Accepted(w)
    requires IsBurst(Bits(e)) || Parity(Bits(e))
    ensures !Accepted(XorBytes(w, e))
  {
    UndetectedIffDivisible(w, e);
    if IsBurst(Bits(e)) {
      BurstIsNotZero(Bits(e));
    } else {
      FeedParity(Zeros(8), Bits(e));
      Parity8(Zeros(8));
    }
  }

  // ----- Hamming distance of a sensor word -----

  function Weight(p: Poly): nat {
    if p == [] then 0 else (if p[0] then 1 else 0) + Weight(p[1..])
  }

  lemma {:induction false} OddWeightIsParity(p: Poly)
    ensures Parity(p) <==> Weight(p) % 2 == 1
  {
    if p != [] { OddWeightIsParity(p[1..]); }
  }

  lemma {:induction false} NoWeightIsZeros(p: Poly)
    requires Weight(p) == 0
    ensures p == Zeros(|p|)
  {
    if p != [] {
      NoWeightIsZeros(p[1..]);
      assert p == [false] + p[1..];
    }
  }

  lemma {:induction false} FirstSetBit(p: Poly) returns (lo: nat)
    requires Weight(p) > 0
    ensures lo < |p| && p == Zeros(lo) + ([true] + p[lo + 1..]) && Weight(p[lo + 1..]) == Weight(p) - 1
  {
    if p[0] {
      lo := 0;
      assert p == [true] + p[1..];
    } else {
      var k := FirstSetBit(p[1..]);
      lo := k + 1;
      assert p == [false] + p[1..] && p[1..][k + 1..] == p[lo + 1..];
      assert Zeros(lo) == [false] + Zeros(k);
    }
  }

  /** The register after a single one followed by m zeros, for every distance inside a three-byte word. */
  const SINGLE_ONE: Bytes :=
    [0x31, 0x62, 0xC4, 0xB9, 0x43, 0x86, 0x3D, 0x7A, 0xF4, 0xD9, 0x83, 0x37,
     0x6E, 0xDC, 0x89, 0x23, 0x46, 0x8C, 0x29, 0x52, 0xA4, 0x79, 0xF2]

  lemma SingleOneTable(m: nat)
    requires m < 22
    ensures Shift(SINGLE_ONE[m]) == SINGLE_ONE[m + 1]
  {
    if m < 6 {
    } else if m < 12 {
    } else if m < 17 {
    } else {
    }
  }

  lemma {:induction false} ShiftChain(table: Bytes, m: nat, n: nat)
    requires m + n < |table| && forall i :: 0 < i < |table| ==> Shift(table[i - 1]) == table[i]
    ensures ShiftN(table[m], n) == table[m + n]
    decreases n
  {
    if n > 0 { ShiftChain(table, m + 1, n - 1); }
  }

  lemma SingleOne(n: nat)
    requires n < 23
    ensures ShiftN(0x31, n) == SINGLE_ONE[n]
  {
    var table := SINGLE_ONE;
    forall i | 0 < i < |table| ensures Shift(table[i - 1]) == table[i] { SingleOneTable(i - 1); }
    ShiftChain(table, 0, n);
  }

  function TwoOnes(n: nat): Poly { [true] + (Zeros(n) + [true]) }

  lemma OneZerosOne(n: nat)
    requires n < 23
    ensures Feed(Zeros(8), TwoOnes(n)) == Step(BitsOf(SINGLE_ONE[n]), true)
  {
    var one, s := Step(Zeros(8), true), SINGLE_ONE[n];
    BitsAt(0x31);
    EqualBits(one, BitsOf(0x31));
    FeedConcat(Zeros(8), [true], Zeros(n) + [true]);
    SingleOne(n);
    ShiftNIsFeed(0x31, n);
    FeedConcat(one, Zeros(n), [true]);
  }

  lemma StepWithOne(s: bv8)
    requires Step(BitsOf(s), true) == Zeros(8)
    ensures s == 0x80
  {
    var p := BitsOf(s);
    var z := Step(p, true);
    assert !z[7] && !z[0] && !z[1] && !z[2] && !z[3] && !z[4] && !z[5] && !z[6];
    BitsAt(0x80);
    EqualBits(p, BitsOf(0x80));
    BitsOfInjective(s, 0x80);
  }

  lemma SingleOneIsNotTop(n: nat)
    requires n < 23
    ensures SINGLE_ONE[n] != 0x80
  {
  }

  lemma TwoOnesAreNotZero(n: nat)
    requires n < 23
    ensures Feed(Zeros(8), TwoOnes(n)) != Zeros(8)
  {
    OneZerosOne(n);
    if Step(BitsOf(SINGLE_ONE[n]), true) == Zeros(8) {
      StepWithOne(SINGLE_ONE[n]);
      SingleOneIsNotTop(n);
    }
  }

  lemma TwoBitShape(p: Poly) returns (i: nat, j: nat, k: nat)
    requires Weight(p) == 2
    ensures p == Zeros(i) + (TwoOnes(j) + Zeros(k)) && |p| == i + j + k + 2
  {
    i := FirstSetBit(p);
    var rest := p[i + 1..];
    j := FirstSetBit(rest);
    NoWeightIsZeros(rest[j + 1..]);
    k := |rest| - j - 1;
    assert [true] + rest == TwoOnes(j) + Zeros(k);
  }

  /** Two set bits at most 23 positions apart never cancel. */
  lemma TwoBitsAreNotZero(p: Poly)
    requires Weight(p) == 2 && |p| <= 24
    ensures Feed(Zeros(8), p) != Zeros(8)
  {
    var i, j, k := TwoBitShape(p);
    PaddingKeepsZero(i, TwoOnes(j), k);
    TwoOnesAreNotZero(j);
  }

  /** No one, two or three flipped bits turn an accepted three-byte word into another accepted one. */
  lemma DetectsUpToThreeFlips(w: Bytes, e: Bytes)
    requires |w| == |e| == 3 && Accepted(w)
    requires 1 <= Weight(Bits(e)) <= 3
    ensures !Accepted(XorBytes(w, e))
  {
    OddWeightIsParity(Bits(e));
    if Weight(Bits(e)) == 2 {
      UndetectedIffDivisible(w, e);
      TwoBitsAreNotZero(Bits(e));
    } else {
      DetectsBurstsAndOddErrors(w, e);
    }
  }
}

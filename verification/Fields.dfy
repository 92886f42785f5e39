/** The channels of a measurement and the 16-bit validity masks over them (src/sen66/sen66_protocol.h). */
module Sen66Fields {
  import opened Integers

  datatype Channel = Pm1p0 | Pm2p5 | Pm4p0 | Pm10 | Humidity | Temperature | VocIndex | NoxIndex | Co2

  /** In the order of their bits and of their words in a frame. */
  const CHANNELS: seq<Channel> := [Pm1p0, Pm2p5, Pm4p0, Pm10, Humidity, Temperature, VocIndex, NoxIndex, Co2]

  function Index(c: Channel): (i: nat)
    ensures i < 9 && CHANNELS[i] == c
  {
    match c
    case Pm1p0 => 0
    case Pm2p5 => 1
    case Pm4p0 => 2
    case Pm10 => 3
    case Humidity => 4
    case Temperature => 5
    case VocIndex => 6
    case NoxIndex => 7
    case Co2 => 8
  }

  /** A validity or change mask, as the set of channels whose bit is set. */
  type Mask = set<Channel>

  /** The bits that differ, the exclusive or of two masks. */
  function Flipped(a: Mask, b: Mask): Mask { (a - b) + (b - a) }

  // ----- The same masks as the 16-bit words that hold them -----

  function Field(c: Channel): u16 {
    match c
    case Pm1p0 => 0x001
    case Pm2p5 => 0x002
    case Pm4p0 => 0x004
    case Pm10 => 0x008
    case Humidity => 0x010
    case Temperature => 0x020
    case VocIndex => 0x040
    case NoxIndex => 0x080
    case Co2 => 0x100
  }

  /** The word in which a list of channels, lowest bit first, shows its members of a mask. */
  function WordOver(m: Mask, cs: seq<Channel>): nat {
    if cs == [] then 0 else 2 * WordOver(m, cs[1..]) + Bit(cs[0] in m)
  }

  const WIDTH: nat := 16

  function MaskWord(m: Mask): nat { WordOver(m, CHANNELS) }

  /** A bitwise operation on the lowest n bits of two words. */
  function Bitwise(op: (bool, bool) -> bool, x: nat, y: nat, n: nat): nat {
    if n == 0 then 0 else 2 * Bitwise(op, x / 2, y / 2, n - 1) + Bit(op(x % 2 == 1, y % 2 == 1))
  }

  function Or(x: nat, y: nat): nat { Bitwise((p, q) => p || q, x, y, WIDTH) }

  function And(x: nat, y: nat): nat { Bitwise((p, q) => p && q, x, y, WIDTH) }

  function ExclusiveOr(x: nat, y: nat): nat { Bitwise((p, q) => p != q, x, y, WIDTH) }

  // ----- Operations -----

  lemma {:induction false} BitwiseZero(op: (bool, bool) -> bool, n: nat)
    requires !op(false, false)
    ensures Bitwise(op, 0, 0, n) == 0
  {
    if n > 0 { BitwiseZero(op, n - 1); }
  }

  lemma BitwiseStep(op: (bool, bool) -> bool, x: nat, y: nat, p: bool, q: bool, n: nat)
    requires n > 0
    ensures Bitwise(op, 2 * x + Bit(p), 2 * y + Bit(q), n) == 2 * Bitwise(op, x, y, n - 1) + Bit(op(p, q))
  {
    assert (2 * x + Bit(p)) / 2 == x && ((2 * x + Bit(p)) % 2 == 1) == p;
    assert (2 * y + Bit(q)) / 2 == y && ((2 * y + Bit(q)) % 2 == 1) == q;
  }

  /** A bitwise operation on words is the same operation on membership. */
  lemma {:induction false} BitwiseIsMemberwise(
    op: (bool, bool) -> bool, a: Mask, b: Mask, r: Mask, cs: seq<Channel>, n: nat)
    requires |cs| <= n && !op(false, false)
    requires forall c: Channel :: op(c in a, c in b) == (c in r)
    ensures Bitwise(op, WordOver(a, cs), WordOver(b, cs), n) == WordOver(r, cs)
  {
    if cs == [] {
      BitwiseZero(op, n);
    } else {
      BitwiseIsMemberwise(op, a, b, r, cs[1..], n - 1);
      BitwiseStep(op, WordOver(a, cs[1..]), WordOver(b, cs[1..]), cs[0] in a, cs[0] in b, n);
    }
  }

  /** Bitwise or, and, exclusive or on the words are union, intersection and difference on the masks. */
  lemma WordOperations(a: Mask, b: Mask)
    ensures Or(MaskWord(a), MaskWord(b)) == MaskWord(a + b)
    ensures And(MaskWord(a), MaskWord(b)) == MaskWord(a * b)
    ensures ExclusiveOr(MaskWord(a), MaskWord(b)) == MaskWord(Flipped(a, b))
  {
    BitwiseIsMemberwise((p, q) => p || q, a, b, a + b, CHANNELS, WIDTH);
    BitwiseIsMemberwise((p, q) => p && q, a, b, a * b, CHANNELS, WIDTH);
    BitwiseIsMemberwise((p, q) => p != q, a, b, Flipped(a, b), CHANNELS, WIDTH);
  }

  // ----- Comparisons and tests -----

  lemma {:induction false} WordOverInjective(a: Mask, b: Mask, cs: seq<Channel>)
    requires WordOver(a, cs) == WordOver(b, cs)
    ensures forall c :: c in cs ==> (c in a <==> c in b)
  {
    if cs != [] {
      assert WordOver(a, cs[1..]) == WordOver(b, cs[1..]);
      WordOverInjective(a, b, cs[1..]);
    }
  }

  /** Different masks are different words; in particular only the empty mask is zero. */
  lemma WordInjective(a: Mask, b: Mask)
    ensures MaskWord(a) == MaskWord(b) <==> a == b
  {
    if MaskWord(a) == MaskWord(b) {
      WordOverInjective(a, b, CHANNELS);
      forall c: Channel ensures c in a <==> c in b { assert CHANNELS[Index(c)] == c; }
    }
  }

  function Power(n: nat): nat { if n == 0 then 1 else 2 * Power(n - 1) }

  lemma {:induction false} WordBound(m: Mask, cs: seq<Channel>)
    ensures WordOver(m, cs) < Power(|cs|)
  {
    if cs != [] { WordBound(m, cs[1..]); }
  }

  lemma {:induction false} NoWord(m: Mask, cs: seq<Channel>)
    requires forall c :: c in cs ==> c !in m
    ensures WordOver(m, cs) == 0
  {
    if cs != [] { NoWord(m, cs[1..]); }
  }

  lemma {:induction false} SingleWord(c: Channel, cs: seq<Channel>, i: nat)
    requires i < |cs| && forall j :: 0 <= j < |cs| ==> (cs[j] == c <==> j == i)
    ensures WordOver({c}, cs) == Power(i)
  {
    if i == 0 { NoWord({c}, cs[1..]); } else { SingleWord(c, cs[1..], i - 1); }
  }

  lemma SmallPowers()
    ensures Power(1) == 2 && Power(2) == 4 && Power(3) == 8 && Power(4) == 16 && Power(5) == 32
    ensures Power(6) == 64 && Power(7) == 128 && Power(8) == 256 && Power(9) == 512
  {
    assert Power(3) == 8;
    assert Power(6) == 64;
  }

  lemma FieldIsPower(c: Channel)
    ensures Field(c) == Power(Index(c))
  {
    SmallPowers();
  }

  lemma IndexAt(c: Channel, k: nat)
    requires k < 9
    ensures CHANNELS[k] == c <==> Index(c) == k
  {
  }

  /** A word has no bit outside the nine fields, and a field is the word of its channel alone. */
  lemma FieldIsWord(m: Mask, c: Channel)
    ensures MaskWord(m) < 0x200
    ensures MaskWord({c}) == Field(c)
  {
    assert Power(|CHANNELS|) == 0x200 by { SmallPowers(); }
    WordBound(m, CHANNELS);
    forall j | 0 <= j < 9 ensures CHANNELS[j] == c <==> j == Index(c) { IndexAt(c, j); }
    SingleWord(c, CHANNELS, Index(c));
    FieldIsPower(c);
  }

  /** Masking a word with a field tests membership. */
  lemma WordTests(m: Mask, c: Channel)
    ensures And(MaskWord(m), Field(c)) != 0 <==> c in m
  {
    FieldIsWord({c}, c);
    WordOperations(m, {c});
    WordInjective(m * {c}, {});
    NoWord({}, CHANNELS);
  }
}

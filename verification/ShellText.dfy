/** The decimal texts of the diagnostic shell (src/sen66/sen66_shell.cpp). */
module ShellText {
  import opened Integers

  function DigitChar(d: nat): char
    requires d < 10
  {
    "0123456789"[d]
  }

  function DigitValue(c: char): nat {
    if '0' <= c <= '9' then (c as int) - ('0' as int) else 0
  }

  /** What %d prints for a number that is not negative. */
  function Digits(n: nat): (s: string)
    ensures s != "" && s[0] != '-' && '.' !in s
  {
    if n < 10 then [DigitChar(n)] else Digits(n / 10) + [DigitChar(n % 10)]
  }

  /** What %d prints. */
  function Decimal(n: int): string { if n < 0 then "-" + Digits(-n) else Digits(n) }

  /** What %02d prints for a number below 100. */
  function TwoDigits(n: nat): string { if n < 10 then "0" + Digits(n) else Digits(n) }

  function Fraction(n: nat, fracPow: int): string { if fracPow == 100 then TwoDigits(n) else Digits(n) }

  // ----- What the texts should be -----

  function PartsText(negative: bool, whole: nat, frac: nat, fracPow: int): string {
    (if negative then "-" else "") + Digits(whole) + "." + Fraction(frac, fracPow)
  }

  function Quotient(m: nat, b: int): nat
    requires b > 0
  {
    m / b
  }

  /** Sign and magnitude: the sign of the whole value, the magnitude split at the resolution. */
  function FixedText(scaled: int, fracPow: int): string
    requires fracPow > 0
  {
    PartsText(scaled < 0, Quotient(Absolute(scaled), fracPow), Absolute(scaled) % fracPow, fracPow)
  }

  lemma TruncRemIsMagnitude(a: int, b: int)
    requires b > 0
    ensures TruncRem(a, b) == if a < 0 then -(-a % b) else a % b
  {
    if a < 0 { DivMod(-a, b); } else { DivMod(a, b); }
  }

  lemma DivMod(m: int, b: int)
    requires b > 0
    ensures m - (m / b) * b == m % b && (-(m / b)) * b == -((m / b) * b)
  {
  }

  /** The sign is printed by hand only where %d has none to print, before a zero. */
  lemma SignedWhole(negative: bool, whole: int, q: nat)
    requires negative ==> whole == 0 - q
    requires !negative ==> whole == q
    ensures (if negative && whole == 0 then "-" else "") + Decimal(whole) == (if negative then "-" else "") + Digits(q)
  {
    if negative && q == 0 { assert Decimal(whole) == Digits(q); }
  }

  /** The two parts of the magnitude, the whole one with the sign. */
  predicate Parts(scaled: int, fracPow: int, whole: int, frac: nat)
    requires fracPow > 0
  {
    && whole == (if scaled < 0 then 0 - Quotient(Absolute(scaled), fracPow) else Quotient(Absolute(scaled), fracPow))
    && frac == Absolute(scaled) % fracPow
  }

  method Split(scaled: i32, fracPow: int) returns (whole: int, frac: nat)
    requires fracPow > 0
    ensures Parts(scaled, fracPow, whole, frac)
  {
    whole := TruncDiv(scaled, fracPow);
    var rest := TruncRem(scaled, fracPow);
    TruncRemIsMagnitude(scaled, fracPow);
    if rest < 0 {
      rest := -rest;
    }
    frac := rest;
  }

  method PrintParts(negative: bool, whole: int, frac: nat, fracPow: int, ghost q: nat) returns (text: string)
    requires (negative ==> whole == 0 - q) && (!negative ==> whole == q)
    ensures text == PartsText(negative, q, frac, fracPow)
  {
    SignedWhole(negative, whole, q);
    var sign := if negative && whole == 0 then "-" else "";
    if fracPow == 100 {
      text := sign + Decimal(whole) + "." + TwoDigits(frac);
    } else {
      text := sign + Decimal(whole) + "." + Digits(frac);
    }
  }

  method PrintSignedFixed(scaled: i32, fracPow: int) returns (text: string)
    requires fracPow > 0
    ensures text == FixedText(scaled, fracPow)
  {
    var whole, frac := Split(scaled, fracPow);
    ghost var q := Quotient(Absolute(scaled), fracPow);
    text := PrintParts(scaled < 0, whole, frac, fracPow, q);
  }

  method PrintUnsignedTenth(raw: u16) returns (text: string)
    ensures text == FixedText(raw, 10)
  {
    text := Digits(raw / 10) + "." + Digits(raw % 10);
  }

  // ----- Reading a decimal text back -----

  function Pow10(n: nat): (p: nat)
    ensures p >= 1
  {
    if n == 0 then 1 else 10 * Pow10(n - 1)
  }

  function ReadDigits(s: string): nat {
    if s == "" then 0 else 10 * ReadDigits(s[..|s| - 1]) + DigitValue(s[|s| - 1])
  }

  /** The length of the part before the decimal point. */
  function PointAt(s: string): (n: nat)
    ensures n <= |s|
  {
    if s == "" || s[0] == '.' then 0 else 1 + PointAt(s[1..])
  }

  /** A number of units of 1/per. */
  datatype Scaled = Scaled(units: int, per: nat)

  function Joined(whole: string, fraction: string): Scaled {
    Scaled(ReadDigits(whole) * Pow10(|fraction|) + ReadDigits(fraction), Pow10(|fraction|))
  }

  function ReadMagnitude(s: string): Scaled {
    var n := PointAt(s);
    Joined(s[..n], if n == |s| then "" else s[n + 1..])
  }

  /** The number that a decimal text denotes. */
  function ReadDecimal(s: string): Scaled {
    if s != "" && s[0] == '-' then
      var m := ReadMagnitude(s[1..]);
      Scaled(-m.units, m.per)
    else ReadMagnitude(s)
  }

  lemma {:induction false} ReadOfDigits(n: nat)
    ensures ReadDigits(Digits(n)) == n
  {
    if n < 10 {
      assert Digits(n)[..0] == "";
    } else {
      ReadOfDigits(n / 10);
      assert Digits(n)[..|Digits(n)| - 1] == Digits(n / 10);
    }
  }

  lemma {:induction false} PointAfter(a: string, b: string)
    requires '.' !in a
    ensures PointAt(a + "." + b) == |a|
    decreases |a|
  {
    if a != "" {
      assert (a + "." + b)[1..] == a[1..] + "." + b;
      PointAfter(a[1..], b);
    }
  }

  lemma ReadOfParts(a: string, b: string)
    requires '.' !in a
    ensures ReadMagnitude(a + "." + b) == Joined(a, b)
  {
    var s := a + "." + b;
    assert PointAt(s) == |a| by { PointAfter(a, b); }
    assert s[..|a|] == a && s[|a| + 1..] == b;
  }

  lemma ReadOfTwo(c: char, d: char)
    ensures ReadDigits([c, d]) == 10 * DigitValue(c) + DigitValue(d)
  {
    assert [c, d][..1] == [c] && [c][..0] == "";
    assert ReadDigits([c]) == 10 * ReadDigits("") + DigitValue(c);
  }

  lemma DigitRoundTrip(d: nat)
    requires d < 10
    ensures DigitValue(DigitChar(d)) == d
  {
  }

  lemma TwoDigitChars(n: nat)
    requires n < 100
    ensures TwoDigits(n) == [DigitChar(n / 10), DigitChar(n % 10)]
  {
    if n >= 10 {
      assert Digits(n / 10) == [DigitChar(n / 10)];
    }
  }

  lemma SmallPowers()
    ensures Pow10(1) == 10 && Pow10(2) == 100
  {
    assert Pow10(1) == 10 * Pow10(0);
  }

  lemma ReadOfFraction(n: nat, fracPow: int)
    requires (fracPow == 10 || fracPow == 100) && n < fracPow
    ensures ReadDigits(Fraction(n, fracPow)) == n && Pow10(|Fraction(n, fracPow)|) == fracPow
  {
    SmallPowers();
    if fracPow == 100 {
      TwoDigitChars(n);
      ReadOfTwo(DigitChar(n / 10), DigitChar(n % 10));
      DigitRoundTrip(n / 10);
      DigitRoundTrip(n % 10);
    } else {
      ReadOfDigits(n);
    }
  }

  lemma SplitMagnitude(m: nat, p: int)
    requires p == 10 || p == 100
    ensures (m / p) * p + m % p == m
  {
  }

  lemma MagnitudeOfParts(a: string, b: string, w: int, f: int, p: int)
    requires ReadDigits(a) == w && ReadDigits(b) == f && Pow10(|b|) == p
    ensures Joined(a, b) == Scaled(w * p + f, p)
  {
  }

  lemma MagnitudeOf(m: nat, fracPow: int)
    requires fracPow == 10 || fracPow == 100
    ensures Joined(Digits(m / fracPow), Fraction(m % fracPow, fracPow)) == Scaled(m, fracPow)
  {
    var w, f := m / fracPow, m % fracPow;
    ReadOfDigits(w);
    ReadOfFraction(f, fracPow);
    MagnitudeOfParts(Digits(w), Fraction(f, fracPow), w, f, fracPow);
    SplitMagnitude(m, fracPow);
  }

  lemma ReadOfSigned(negative: bool, a: string, b: string)
    requires '.' !in a && a != "" && a[0] != '-'
    ensures var m := Joined(a, b);
      ReadDecimal((if negative then "-" else "") + a + "." + b) == Scaled(if negative then -m.units else m.units, m.per)
  {
    var s := a + "." + b;
    ReadOfParts(a, b);
    if negative {
      assert "-" + a + "." + b == "-" + s && ("-" + s)[1..] == s;
    } else {
      assert "" + a + "." + b == s && s[0] == a[0];
    }
  }

  /** The denoted number is value / fracPow. */
  predicate Denotes(x: Scaled, value: int, fracPow: int) { x.units * fracPow == value * x.per }

  /** Printing loses nothing: the text denotes exactly the scaled value, sign and padded fraction included. */
  lemma PrintedTextIsExact(scaled: int, fracPow: int)
    requires fracPow == 10 || fracPow == 100
    ensures ReadDecimal(FixedText(scaled, fracPow)) == Scaled(scaled, fracPow)
  {
    var m := Absolute(scaled);
    MagnitudeOf(m, fracPow);
    ReadOfSigned(scaled < 0, Digits(m / fracPow), Fraction(m % fracPow, fracPow));
  }

  /** At resolution one the text has a superfluous zero. */
  lemma WholeTextIsExact(scaled: int)
    ensures Denotes(ReadDecimal(FixedText(scaled, 1)), scaled, 1)
  {
    var m := Absolute(scaled);
    assert m / 1 == m && m % 1 == 0;
    ReadOfDigits(m);
    ReadOfDigits(0);
    SmallPowers();
    MagnitudeOfParts(Digits(m), Digits(0), m, 0, 10);
    ReadOfSigned(scaled < 0, Digits(m), Digits(0));
  }

  /** At any resolution but 10 and 100 one unit prints as a tenth. */
  lemma OneUnit(fracPow: int)
    requires fracPow > 1 && fracPow != 100
    ensures ReadDecimal(FixedText(1, fracPow)) == Scaled(1, 10)
  {
    assert 1 / fracPow == 0 && 1 % fracPow == 1;
    ReadOfDigits(0);
    ReadOfDigits(1);
    SmallPowers();
    MagnitudeOfParts(Digits(0), Digits(1), 0, 1, 10);
    ReadOfSigned(false, Digits(0), Digits(1));
  }

  /** The printer is exact at a resolution exactly when that is 1, 10 or 100; its callers use the last two. */
  lemma ExactIffResolution(fracPow: int)
    requires fracPow > 0
    ensures (forall scaled: i32 :: Denotes(ReadDecimal(FixedText(scaled, fracPow)), scaled, fracPow))
      <==> fracPow == 1 || fracPow == 10 || fracPow == 100
  {
    if fracPow == 1 {
      forall scaled: i32 ensures Denotes(ReadDecimal(FixedText(scaled, fracPow)), scaled, fracPow) {
        WholeTextIsExact(scaled);
      }
    } else if fracPow == 10 || fracPow == 100 {
      forall scaled: i32 ensures Denotes(ReadDecimal(FixedText(scaled, fracPow)), scaled, fracPow) {
        PrintedTextIsExact(scaled, fracPow);
      }
    } else {
      OneUnit(fracPow);
      var one: i32 := 1;
      assert !Denotes(ReadDecimal(FixedText(one, fracPow)), one, fracPow);
    }
  }

  predicate IsDigit(ch: char) { '0' <= ch <= '9' }

  lemma {:induction false} DigitsShape(n: nat)
    ensures forall k :: 0 <= k < |Digits(n)| ==> IsDigit(Digits(n)[k])
    ensures Digits(n)[0] == '0' <==> n == 0
    ensures n < 10 <==> |Digits(n)| == 1
  {
    if n >= 10 { DigitsShape(n / 10); }
  }

  /** A minus sign stands in front exactly of the negative values, and no zero leads a longer whole part. */
  lemma TextShape(scaled: int, fracPow: int)
    requires fracPow > 0
    ensures var text, whole := FixedText(scaled, fracPow), Digits(Quotient(Absolute(scaled), fracPow));
      && (text[0] == '-' <==> scaled < 0)
      && (if scaled < 0 then ['-'] + whole + ['.'] else whole + ['.']) <= text
      && (whole[0] == '0' ==> whole == "0")
  {
    var q := Quotient(Absolute(scaled), fracPow);
    DigitsShape(q);
    var whole, rest := Digits(q), Fraction(Absolute(scaled) % fracPow, fracPow);
    if scaled < 0 {
      assert FixedText(scaled, fracPow) == ['-'] + whole + ['.'] + rest;
    } else {
      assert FixedText(scaled, fracPow) == whole + ['.'] + rest;
    }
  }

  /** Four texts in full: a sign that no digit carries, a padded fraction, a zero, and a tenth. */
  lemma SomeTexts()
    ensures FixedText(-5, 100) == "-0.05" && FixedText(2200, 100) == "22.00"
    ensures FixedText(0, 100) == "0.00" && FixedText(-123, 10) == "-12.3"
  {
    assert Digits(22) == Digits(2) + [DigitChar(2)];
    assert Digits(12) == Digits(1) + [DigitChar(2)];
    assert Quotient(2200, 100) == 22 && Quotient(123, 10) == 12;
  }

  /** So at one resolution different values print differently. */
  lemma PrintingIsInjective(x: int, y: int, fracPow: int)
    requires fracPow == 10 || fracPow == 100
    ensures FixedText(x, fracPow) == FixedText(y, fracPow) <==> x == y
  {
    assert ReadDecimal(FixedText(x, fracPow)).units == x by { PrintedTextIsExact(x, fracPow); }
    assert ReadDecimal(FixedText(y, fracPow)).units == y by { PrintedTextIsExact(y, fracPow); }
  }
}

/** Frames of CRC-protected words and the measurement they carry (src/sen66/sen66_protocol.cpp). */
module Sen66Protocol {
  import opened Integers
  import opened Gf2
  import opened Sen66Crc
  import opened Sen66Fields

  const MEASUREMENT_WORDS: nat := 9
  const MEASUREMENT_BYTES: nat := 27
  const SERIAL_WORDS: nat := 16
  const SERIAL_BYTES: nat := 48
  const SERIAL_CHARS: nat := 33

  const UNAVAILABLE_UNSIGNED: u16 := 0xFFFF
  const UNAVAILABLE_SIGNED: i16 := 0x7FFF

  datatype Measurement = Measurement(
    pm1p0: u16, pm2p5: u16, pm4p0: u16, pm10: u16,
    humidity: i16, temperature: i16, vocIndex: i16, noxIndex: i16,
    co2: u16, valid: Mask)

  const NO_MEASUREMENT := Measurement(0, 0, 0, 0, 0, 0, 0, 0, 0, {})

  function Raw(m: Measurement, c: Channel): int {
    match c
    case Pm1p0 => m.pm1p0
    case Pm2p5 => m.pm2p5
    case Pm4p0 => m.pm4p0
    case Pm10 => m.pm10
    case Humidity => m.humidity
    case Temperature => m.temperature
    case VocIndex => m.vocIndex
    case NoxIndex => m.noxIndex
    case Co2 => m.co2
  }

  /** The channels whose words are in two's complement. */
  predicate IsSigned(c: Channel) { c.Humidity? || c.Temperature? || c.VocIndex? || c.NoxIndex? }

  // ----- Words -----

  /** Two bytes in big-endian order. */
  function Word(hi: bv8, lo: bv8): u16 { 256 * (hi as int) + lo as int }

  lemma WordIsShiftAndOr(hi: bv8, lo: bv8)
    ensures Word(hi, lo) == (((hi as bv16) << 8) | (lo as bv16)) as int
  {
  }

  lemma NextByte(b: bv8)
    requires b != 0xFF
    ensures (b + 1) as int == b as int + 1
  {
  }

  lemma IntOfByte(b: bv8, c: bv8)
    ensures b as int == c as int ==> b == c
  {
    assert (b as int) as bv8 == b && (c as int) as bv8 == c;
  }

  /** The byte with a given value. */
  function Byte(x: nat): (b: bv8)
    requires x < 256
    ensures b as int == x
  {
    if x == 0 then 0 else NextByte(Byte(x - 1)); Byte(x - 1) + 1
  }

  function HighByte(w: u16): bv8 { Byte(w / 256) }

  function LowByte(w: u16): bv8 { Byte(w % 256) }

  lemma SplitWord(w: u16)
    ensures Word(HighByte(w), LowByte(w)) == w
  {
  }

  lemma JoinBytes(hi: bv8, lo: bv8)
    ensures HighByte(Word(hi, lo)) == hi && LowByte(Word(hi, lo)) == lo
  {
    IntOfByte(HighByte(Word(hi, lo)), hi);
    IntOfByte(LowByte(Word(hi, lo)), lo);
  }

  /** The two's complement reading of a word. */
  function Signed(w: u16): i16 { if w < 0x8000 then w else w - 0x1_0000 }

  /** The word that stores a field, whatever its signedness. */
  function ToWord(x: int): u16
    requires -0x8000 <= x < 0x1_0000
  {
    if x < 0 then x + 0x1_0000 else x
  }

  function WordCount(raw: Bytes): nat { |raw| / 3 }

  function WordAt(raw: Bytes, i: nat): u16
    requires i < WordCount(raw)
  {
    Word(raw[3 * i], raw[3 * i + 1])
  }

  function WordsOf(raw: Bytes): (ws: seq<u16>)
    ensures |ws| == WordCount(raw)
    ensures forall i :: 0 <= i < |ws| ==> ws[i] == WordAt(raw, i)
  {
    seq(WordCount(raw), i requires 0 <= i < WordCount(raw) => WordAt(raw, i))
  }

  function Slot(raw: Bytes, i: nat): (w: Bytes)
    requires i < WordCount(raw)
    ensures |w| == 3
  {
    raw[3 * i..3 * i + 3]
  }

  /** Every one of the first n words carries its own CRC. */
  predicate WordsOk(raw: Bytes, n: nat)
    requires n <= WordCount(raw)
  {
    forall i: nat :: i < n ==> Accepted(Slot(raw, i))
  }

  method CheckWordsCrc(buf: Bytes, words: nat) returns (ok: bool)
    requires 3 * words <= |buf|
    ensures ok <==> WordsOk(buf, words)
  {
    var i := 0;
    while i < words
      invariant 0 <= i <= words
      invariant WordsOk(buf, i)
    {
      var w := buf[3 * i..3 * i + 3];
      assert w == Slot(buf, i) && w[..2] == w[..|w| - 1];
      var crc := Crc(w[..2]);
      if crc != w[2] {
        return false;
      }
      i := i + 1;
    }
    return true;
  }

  // ----- The encoder, as the parser's tests build frames -----

  function EncodeWord(w: u16): (b: Bytes)
    ensures |b| == 3
  {
    var payload := [HighByte(w), LowByte(w)];
    payload + [CrcOf(payload)]
  }

  function EncodeWords(ws: seq<u16>): (b: Bytes)
    ensures |b| == 3 * |ws|
  {
    if ws == [] then [] else EncodeWords(ws[..|ws| - 1]) + EncodeWord(ws[|ws| - 1])
  }

  lemma EncodeAppend(ws: seq<u16>, w: u16)
    ensures EncodeWords(ws + [w]) == EncodeWords(ws) + EncodeWord(w)
  {
    assert (ws + [w])[..|ws|] == ws;
  }

  method PutWord(dst: array<bv8>, at: nat, value: u16)
    requires at + 3 <= dst.Length
    modifies dst
    ensures forall k :: 0 <= k < at || at + 3 <= k < dst.Length ==> dst[k] == old(dst[k])
    ensures dst[..at + 3] == old(dst[..at]) + EncodeWord(value)
  {
    dst[at] := HighByte(value);
    dst[at + 1] := LowByte(value);
    assert dst[at..at + 2] == [HighByte(value), LowByte(value)];
    var crc := Crc(dst[at..at + 2]);
    dst[at + 2] := crc;
  }

  method BuildFrame(raw: array<bv8>, words: seq<u16>)
    requires raw.Length == 3 * |words|
    modifies raw
    ensures raw[..] == EncodeWords(words)
  {
    var i := 0;
    while i < |words|
      invariant 0 <= i <= |words|
      invariant raw[..3 * i] == EncodeWords(words[..i])
    {
      PutWord(raw, 3 * i, words[i]);
      assert words[..i + 1] == words[..i] + [words[i]];
      EncodeAppend(words[..i], words[i]);
      i := i + 1;
    }
    assert words[..i] == words && raw[..] == raw[..3 * i];
  }

  lemma AppendedSlot(init: Bytes, last: Bytes, i: nat)
    requires |init| % 3 == 0 && |last| == 3 && i <= WordCount(init)
    ensures Slot(init + last, i) == if i < WordCount(init) then Slot(init, i) else last
  {
  }

  lemma {:induction false} EncodedSlot(ws: seq<u16>, i: nat)
    requires i < |ws|
    ensures Slot(EncodeWords(ws), i) == EncodeWord(ws[i])
    decreases |ws|
  {
    var n := |ws| - 1;
    var init, last := EncodeWords(ws[..n]), EncodeWord(ws[n]);
    assert EncodeWords(ws) == init + last && WordCount(init) == n;
    AppendedSlot(init, last, i);
    if i < n {
      EncodedSlot(ws[..n], i);
      assert ws[..n][i] == ws[i];
    }
  }

  lemma SlotIsEncoded(w: Bytes)
    requires |w| == 3
    ensures Accepted(w) <==> w == EncodeWord(Word(w[0], w[1]))
  {
    JoinBytes(w[0], w[1]);
    assert w[..2] == [w[0], w[1]];
    assert w == [w[0], w[1]] + [w[2]];
  }

  lemma DecodedSlot(ws: seq<u16>, i: nat)
    requires i < |ws|
    ensures Accepted(Slot(EncodeWords(ws), i)) && WordAt(EncodeWords(ws), i) == ws[i]
  {
    var w := EncodeWord(ws[i]);
    assert Slot(EncodeWords(ws), i) == w by { EncodedSlot(ws, i); }
    assert Word(w[0], w[1]) == ws[i] by { SplitWord(ws[i]); }
    SlotIsEncoded(w);
  }

  /** Parsing gives back every word that was encoded. */
  lemma DecodeOfEncode(ws: seq<u16>)
    ensures WordsOk(EncodeWords(ws), |ws|) && WordsOf(EncodeWords(ws)) == ws
  {
    forall i: nat | i < |ws| ensures Accepted(Slot(EncodeWords(ws), i)) && WordAt(EncodeWords(ws), i) == ws[i] {
      DecodedSlot(ws, i);
    }
  }

  lemma SameSlots(a: Bytes, b: Bytes)
    requires |a| == |b| && |a| % 3 == 0
    requires forall i: nat :: i < WordCount(a) ==> Slot(a, i) == Slot(b, i)
    ensures a == b
  {
    forall k | 0 <= k < |a| ensures a[k] == b[k] {
      var i := k / 3;
      assert Slot(a, i)[k - 3 * i] == Slot(b, i)[k - 3 * i];
    }
  }

  /** Encoding gives back every buffer whose words pass the check, CRC bytes included, and no other. */
  lemma EncodeOfDecode(raw: Bytes)
    requires |raw| % 3 == 0
    ensures WordsOk(raw, WordCount(raw)) <==> EncodeWords(WordsOf(raw)) == raw
  {
    var ws := WordsOf(raw);
    var back := EncodeWords(ws);
    if WordsOk(raw, WordCount(raw)) {
      forall i: nat | i < WordCount(raw) ensures Slot(back, i) == Slot(raw, i) {
        EncodedSlot(ws, i);
        SlotIsEncoded(Slot(raw, i));
      }
      SameSlots(back, raw);
    }
    if back == raw { DecodeOfEncode(ws); }
  }

  // ----- Measurements -----

  /** The word with which the sensor says that a channel has no reading. */
  function Sentinel(c: Channel): u16 { if IsSigned(c) then 0x7FFF else 0xFFFF }

  /** The channels whose word is not the sentinel. */
  function ValidMask(ws: seq<u16>): Mask
    requires |ws| == 9
  {
    set c: Channel | ws[Index(c)] != Sentinel(c)
  }

  function Decode(ws: seq<u16>): Measurement
    requires |ws| == 9
  {
    Measurement(
      ws[0], ws[1], ws[2], ws[3],
      Signed(ws[4]), Signed(ws[5]), Signed(ws[6]), Signed(ws[7]), ws[8], ValidMask(ws))
  }

  /** The nine words that hold the fields of a measurement, whatever their signedness. */
  function FieldWords(m: Measurement): (ws: seq<u16>)
    ensures |ws| == 9
  {
    seq(9, i requires 0 <= i < 9 => ToWord(Raw(m, CHANNELS[i])))
  }

  class MeasurementRef {
    var value: Measurement

    constructor (m: Measurement)
      ensures value == m
    {
      value := m;
    }
  }

  /** The part of the validity mask that the first k words decide. */
  ghost function ValidUpTo(ws: seq<u16>, k: nat): Mask
    requires |ws| == 9
  {
    set c: Channel | Index(c) < k && ws[Index(c)] != Sentinel(c)
  }

  lemma ValidNext(ws: seq<u16>, k: nat)
    requires |ws| == 9 && k < 9
    ensures ValidUpTo(ws, k + 1)
         == ValidUpTo(ws, k) + if ws[k] != Sentinel(CHANNELS[k]) then {CHANNELS[k]} else {}
  {
    forall c: Channel ensures Index(c) < k + 1 <==> Index(c) < k || c == CHANNELS[k] { IndexOfChannel(k); }
  }

  lemma IndexOfChannel(k: nat)
    requires k < 9
    ensures Index(CHANNELS[k]) == k
  {
  }

  /** Set the validity bit of the k-th channel if it has a reading. */
  method MarkIf(out: MeasurementRef, present: bool, k: nat, ghost ws: seq<u16>)
    requires k < 9 && |ws| == 9 && out.value.valid == ValidUpTo(ws, k)
    requires present <==> ws[k] != Sentinel(CHANNELS[k])
    modifies out
    ensures out.value == old(out.value).(valid := ValidUpTo(ws, k + 1))
  {
    ValidNext(ws, k);
    if present {
      out.value := out.value.(valid := out.value.valid + {CHANNELS[k]});
    }
  }

  /** Fill in the fields and then the validity bits, one by one. */
  method Fill(out: MeasurementRef, ws: seq<u16>)
    requires |ws| == 9
    modifies out
    ensures out.value == Decode(ws)
  {
    out.value := Measurement(
      ws[0], ws[1], ws[2], ws[3],
      Signed(ws[4]), Signed(ws[5]), Signed(ws[6]), Signed(ws[7]), ws[8], {});
    MarkIf(out, ws[0] != UNAVAILABLE_UNSIGNED, 0, ws);
    MarkIf(out, ws[1] != UNAVAILABLE_UNSIGNED, 1, ws);
    MarkIf(out, ws[2] != UNAVAILABLE_UNSIGNED, 2, ws);
    MarkIf(out, ws[3] != UNAVAILABLE_UNSIGNED, 3, ws);
    MarkIf(out, out.value.humidity != UNAVAILABLE_SIGNED, 4, ws);
    MarkIf(out, out.value.temperature != UNAVAILABLE_SIGNED, 5, ws);
    MarkIf(out, out.value.vocIndex != UNAVAILABLE_SIGNED, 6, ws);
    MarkIf(out, out.value.noxIndex != UNAVAILABLE_SIGNED, 7, ws);
    MarkIf(out, ws[8] != UNAVAILABLE_UNSIGNED, 8, ws);
    assert ValidUpTo(ws, 9) == ValidMask(ws);
  }

  method ParseMeasurement(raw: Bytes, out: MeasurementRef) returns (ok: bool)
    requires |raw| == MEASUREMENT_BYTES
    modifies out
    ensures ok <==> WordsOk(raw, MEASUREMENT_WORDS)
    ensures out.value == if ok then Decode(WordsOf(raw)) else old(out.value)
  {
    ok := CheckWordsCrc(raw, MEASUREMENT_WORDS);
    if !ok {
      return;
    }
    var pm1p0 := Word(raw[0], raw[1]);
    var pm2p5 := Word(raw[3], raw[4]);
    var pm4p0 := Word(raw[6], raw[7]);
    var pm10 := Word(raw[9], raw[10]);
    var humidity := Word(raw[12], raw[13]);
    var temperature := Word(raw[15], raw[16]);
    var voc := Word(raw[18], raw[19]);
    var nox := Word(raw[21], raw[22]);
    var co2 := Word(raw[24], raw[25]);
    var ws := [pm1p0, pm2p5, pm4p0, pm10, humidity, temperature, voc, nox, co2];
    assert ws == WordsOf(raw);
    Fill(out, ws);
  }

  /** Every channel is read with its own signedness, and is valid exactly when its word is not the sentinel. */
  lemma DecodeChannel(ws: seq<u16>, c: Channel)
    requires |ws| == 9
    ensures Raw(Decode(ws), c) == if IsSigned(c) then Signed(ws[Index(c)]) else ws[Index(c)]
    ensures c in Decode(ws).valid <==> ws[Index(c)] != Sentinel(c)
  {
  }

  /**
   * From the two payload bytes of a channel: its value, in two's complement where the channel is signed, and
   * its validity, which only the sentinel bytes 7F FF (signed) or FF FF (unsigned) take away.
   */
  lemma ChannelOfFrame(raw: Bytes, c: Channel)
    requires |raw| == MEASUREMENT_BYTES
    ensures var m, hi, lo := Decode(WordsOf(raw)), raw[3 * Index(c)] as int, raw[3 * Index(c) + 1] as int;
      && Raw(m, c) == 256 * (if IsSigned(c) && hi >= 0x80 then hi - 0x100 else hi) + lo
      && (c in m.valid <==> !(hi == (if IsSigned(c) then 0x7F else 0xFF) && lo == 0xFF))
  {
    WordOfBytes(raw, Index(c));
    ChannelOfWord(WordsOf(raw), c, raw[3 * Index(c)] as int, raw[3 * Index(c) + 1] as int);
  }

  lemma WordOfBytes(raw: Bytes, i: nat)
    requires i < WordCount(raw)
    ensures WordsOf(raw)[i] == 256 * (raw[3 * i] as int) + raw[3 * i + 1] as int
  {
  }

  lemma ChannelOfWord(ws: seq<u16>, c: Channel, hi: int, lo: int)
    requires |ws| == 9 && 0 <= hi < 256 && 0 <= lo < 256 && ws[Index(c)] == 256 * hi + lo
    ensures Raw(Decode(ws), c) == 256 * (if IsSigned(c) && hi >= 0x80 then hi - 0x100 else hi) + lo
    ensures c in Decode(ws).valid <==> !(hi == (if IsSigned(c) then 0x7F else 0xFF) && lo == 0xFF)
  {
    DecodeChannel(ws, c);
    ChannelOfBytes(ws[Index(c)], IsSigned(c), hi, lo);
  }

  lemma ChannelOfBytes(w: u16, signed: bool, hi: int, lo: int)
    requires 0 <= hi < 256 && 0 <= lo < 256 && w == 256 * hi + lo
    ensures (if signed then Signed(w) else w) == 256 * (if signed && hi >= 0x80 then hi - 0x100 else hi) + lo
    ensures w == (if signed then 0x7FFF else 0xFFFF) <==> hi == (if signed then 0x7F else 0xFF) && lo == 0xFF
  {
  }

  /** The number in the two bytes at a position, and the same in two's complement. */
  function NumberAt(raw: Bytes, at: nat): int
    requires at + 1 < |raw|
  {
    256 * (raw[at] as int) + raw[at + 1] as int
  }

  function SignedAt(raw: Bytes, at: nat): int
    requires at + 1 < |raw|
  {
    if raw[at] as int >= 128 then NumberAt(raw, at) - 65536 else NumberAt(raw, at)
  }

  lemma ChannelAt(raw: Bytes, c: Channel, at: nat)
    requires |raw| == MEASUREMENT_BYTES && at == 3 * Index(c)
    ensures Raw(Decode(WordsOf(raw)), c) == if IsSigned(c) then SignedAt(raw, at) else NumberAt(raw, at)
    ensures c in Decode(WordsOf(raw)).valid <==> NumberAt(raw, at) != if IsSigned(c) then 0x7FFF else 0xFFFF
  {
    ChannelOfFrame(raw, c);
  }

  lemma UnsignedFields(raw: Bytes, m: Measurement)
    requires |raw| == MEASUREMENT_BYTES && m == Decode(WordsOf(raw))
    ensures m.pm1p0 == NumberAt(raw, 0) && (Pm1p0 in m.valid <==> NumberAt(raw, 0) != 0xFFFF)
    ensures m.pm2p5 == NumberAt(raw, 3) && (Pm2p5 in m.valid <==> NumberAt(raw, 3) != 0xFFFF)
    ensures m.pm4p0 == NumberAt(raw, 6) && (Pm4p0 in m.valid <==> NumberAt(raw, 6) != 0xFFFF)
    ensures m.pm10 == NumberAt(raw, 9) && (Pm10 in m.valid <==> NumberAt(raw, 9) != 0xFFFF)
    ensures m.co2 == NumberAt(raw, 24) && (Co2 in m.valid <==> NumberAt(raw, 24) != 0xFFFF)
  {
    ChannelAt(raw, Pm1p0, 0);
    ChannelAt(raw, Pm2p5, 3);
    ChannelAt(raw, Pm4p0, 6);
    ChannelAt(raw, Pm10, 9);
    ChannelAt(raw, Co2, 24);
  }

  lemma SignedFields(raw: Bytes, m: Measurement)
    requires |raw| == MEASUREMENT_BYTES && m == Decode(WordsOf(raw))
    ensures m.humidity == SignedAt(raw, 12) && (Humidity in m.valid <==> NumberAt(raw, 12) != 0x7FFF)
    ensures m.temperature == SignedAt(raw, 15) && (Temperature in m.valid <==> NumberAt(raw, 15) != 0x7FFF)
    ensures m.vocIndex == SignedAt(raw, 18) && (VocIndex in m.valid <==> NumberAt(raw, 18) != 0x7FFF)
    ensures m.noxIndex == SignedAt(raw, 21) && (NoxIndex in m.valid <==> NumberAt(raw, 21) != 0x7FFF)
  {
    ChannelAt(raw, Humidity, 12);
    ChannelAt(raw, Temperature, 15);
    ChannelAt(raw, VocIndex, 18);
    ChannelAt(raw, NoxIndex, 21);
  }

  /** Field by field: where in a frame each value stands, and which bytes make it invalid. */
  lemma FieldsOfFrame(raw: Bytes, m: Measurement)
    requires |raw| == MEASUREMENT_BYTES && m == Decode(WordsOf(raw))
    ensures m.pm1p0 == NumberAt(raw, 0) && (Pm1p0 in m.valid <==> NumberAt(raw, 0) != 0xFFFF)
    ensures m.pm2p5 == NumberAt(raw, 3) && (Pm2p5 in m.valid <==> NumberAt(raw, 3) != 0xFFFF)
    ensures m.pm4p0 == NumberAt(raw, 6) && (Pm4p0 in m.valid <==> NumberAt(raw, 6) != 0xFFFF)
    ensures m.pm10 == NumberAt(raw, 9) && (Pm10 in m.valid <==> NumberAt(raw, 9) != 0xFFFF)
    ensures m.humidity == SignedAt(raw, 12) && (Humidity in m.valid <==> NumberAt(raw, 12) != 0x7FFF)
    ensures m.temperature == SignedAt(raw, 15) && (Temperature in m.valid <==> NumberAt(raw, 15) != 0x7FFF)
    ensures m.vocIndex == SignedAt(raw, 18) && (VocIndex in m.valid <==> NumberAt(raw, 18) != 0x7FFF)
    ensures m.noxIndex == SignedAt(raw, 21) && (NoxIndex in m.valid <==> NumberAt(raw, 21) != 0x7FFF)
    ensures m.co2 == NumberAt(raw, 24) && (Co2 in m.valid <==> NumberAt(raw, 24) != 0xFFFF)
  {
    UnsignedFields(raw, m);
    SignedFields(raw, m);
  }

  lemma FieldWordsOfDecode(ws: seq<u16>)
    requires |ws| == 9
    ensures FieldWords(Decode(ws)) == ws
  {
    forall i | 0 <= i < 9 ensures FieldWords(Decode(ws))[i] == ws[i] {
      DecodeChannel(ws, CHANNELS[i]);
    }
  }

  /** An accepted 27-byte frame is reproduced byte for byte from the fields decoded from it. */
  lemma MeasurementRoundTrip(raw: Bytes)
    requires |raw| == MEASUREMENT_BYTES && WordsOk(raw, MEASUREMENT_WORDS)
    ensures EncodeWords(FieldWords(Decode(WordsOf(raw)))) == raw
  {
    FieldWordsOfDecode(WordsOf(raw));
    EncodeOfDecode(raw);
  }

  // ----- Serial numbers -----

  /** The two payload bytes of each of the first n words, in order. */
  function Payload(raw: Bytes, n: nat): (p: Bytes)
    requires n <= WordCount(raw)
    ensures |p| == 2 * n
  {
    if n == 0 then [] else Payload(raw, n - 1) + [raw[3 * n - 3], raw[3 * n - 2]]
  }

  /** Character by character: the two payload bytes of word k, high byte first, are characters 2k and 2k + 1. */
  lemma {:induction false} PayloadAt(raw: Bytes, n: nat, k: nat)
    requires k < n <= WordCount(raw)
    ensures Payload(raw, n)[2 * k] == raw[3 * k] && Payload(raw, n)[2 * k + 1] == raw[3 * k + 1]
  {
    if k < n - 1 { PayloadAt(raw, n - 1, k); }
  }

  method ParseSerialNumber(raw: Bytes, out: array<bv8>) returns (ok: bool)
    requires |raw| == SERIAL_BYTES && out.Length == SERIAL_CHARS
    modifies out
    ensures ok <==> WordsOk(raw, SERIAL_WORDS)
    ensures out[..] == if ok then Payload(raw, SERIAL_WORDS) + [0] else old(out[..])
  {
    ok := CheckWordsCrc(raw, SERIAL_WORDS);
    if !ok {
      return;
    }
    var n, i := 0, 0;
    while i < SERIAL_WORDS
      invariant 0 <= i <= SERIAL_WORDS && n == 2 * i
      invariant out[..n] == Payload(raw, i)
    {
      ghost var done := out[..n];
      var w := raw[3 * i..];
      out[n] := w[0];
      n := n + 1;
      out[n] := w[1];
      n := n + 1;
      i := i + 1;
      assert out[..n] == done + [w[0], w[1]];
    }
    out[n] := 0;
  }

  /** What strncpy leaves in a zeroed 32-byte buffer. */
  function Padded(text: Bytes): (p: Bytes)
    ensures |p| == 32
  {
    if |text| >= 32 then text[..32] else text + Nuls(32 - |text|)
  }

  function Nuls(n: nat): (z: Bytes)
    ensures |z| == n && (n > 0 ==> z[0] == 0)
  {
    if n == 0 then [] else [0] + Nuls(n - 1)
  }

  /** Bytes packed two to a word. */
  function Packed(p: Bytes, n: nat): (ws: seq<u16>)
    requires 2 * n <= |p|
    ensures |ws| == n
  {
    if n == 0 then [] else Packed(p, n - 1) + [Word(p[2 * n - 2], p[2 * n - 1])]
  }

  function SerialWordsOf(text: Bytes): (ws: seq<u16>)
    ensures |ws| == 16
  {
    Packed(Padded(text), 16)
  }

  lemma PackedNext(p: Bytes, n: nat)
    requires 2 * n + 2 <= |p|
    ensures EncodeWords(Packed(p, n + 1)) == EncodeWords(Packed(p, n)) + EncodeWord(Word(p[2 * n], p[2 * n + 1]))
  {
    var w := Word(p[2 * n], p[2 * n + 1]);
    assert Packed(p, n + 1) == Packed(p, n) + [w];
    assert EncodeWords(Packed(p, n) + [w]) == EncodeWords(Packed(p, n)) + EncodeWord(w) by {
      EncodeAppend(Packed(p, n), w);
    }
  }

  method BuildSerial(raw: array<bv8>, text: Bytes)
    requires raw.Length == SERIAL_BYTES
    modifies raw
    ensures raw[..] == EncodeWords(SerialWordsOf(text))
  {
    var padded := Padded(text);
    var i := 0;
    while i < SERIAL_WORDS
      invariant 0 <= i <= SERIAL_WORDS
      invariant raw[..3 * i] == EncodeWords(Packed(padded, i))
    {
      PackedNext(padded, i);
      var value := Word(padded[2 * i], padded[2 * i + 1]);
      PutWord(raw, 3 * i, value);
      i := i + 1;
    }
    assert raw[..] == raw[..3 * i];
  }

  /** The text of a C string: everything before the first NUL. */
  function CString(s: Bytes): Bytes {
    if s == [] || s[0] == 0 then [] else [s[0]] + CString(s[1..])
  }

  lemma {:induction false} CStringOf(text: Bytes, rest: Bytes)
    requires forall k :: 0 <= k < |text| ==> text[k] != 0
    requires rest != [] && rest[0] == 0
    ensures CString(text + rest) == text
    decreases |text|
  {
    if text == [] {
      assert text + rest == rest;
    } else {
      assert (text + rest)[1..] == text[1..] + rest;
      CStringOf(text[1..], rest);
    }
  }

  lemma AppendedPayload(init: Bytes, last: Bytes, n: nat)
    requires |init| == 3 * n && |last| == 3
    ensures Payload(init + last, n + 1) == Payload(init, n) + [last[0], last[1]]
  {
    PayloadPrefix(init, last, n);
  }

  function Unpacked(ws: seq<u16>): (p: Bytes)
    ensures |p| == 2 * |ws|
  {
    if ws == [] then [] else
      var n := |ws| - 1;
      Unpacked(ws[..n]) + [HighByte(ws[n]), LowByte(ws[n])]
  }

  lemma {:induction false} PayloadOfEncoded(ws: seq<u16>)
    ensures Payload(EncodeWords(ws), |ws|) == Unpacked(ws)
    decreases |ws|
  {
    if ws != [] {
      var n := |ws| - 1;
      var init, last := EncodeWords(ws[..n]), EncodeWord(ws[n]);
      AppendedPayload(init, last, n);
      PayloadOfEncoded(ws[..n]);
    }
  }

  lemma UnpackedAppend(ws: seq<u16>, w: u16)
    ensures Unpacked(ws + [w]) == Unpacked(ws) + [HighByte(w), LowByte(w)]
  {
    assert (ws + [w])[..|ws|] == ws;
  }

  lemma UnpackedNext(init: seq<u16>, hi: bv8, lo: bv8)
    ensures Unpacked(init + [Word(hi, lo)]) == Unpacked(init) + [hi, lo]
  {
    UnpackedAppend(init, Word(hi, lo));
    JoinBytes(hi, lo);
  }

  lemma {:induction false} UnpackedOfPacked(p: Bytes, n: nat)
    requires 2 * n <= |p|
    ensures Unpacked(Packed(p, n)) == p[..2 * n]
  {
    if n > 0 {
      UnpackedOfPacked(p, n - 1);
      UnpackedNext(Packed(p, n - 1), p[2 * n - 2], p[2 * n - 1]);
      LastTwo(p, n);
    }
  }

  lemma LastTwo(p: Bytes, n: nat)
    requires 0 < n && 2 * n <= |p|
    ensures p[..2 * n] == p[..2 * n - 2] + [p[2 * n - 2], p[2 * n - 1]]
  {
  }

  lemma {:induction false} PayloadPrefix(a: Bytes, b: Bytes, n: nat)
    requires n <= WordCount(a)
    ensures Payload(a + b, n) == Payload(a, n)
  {
    if n > 0 { PayloadPrefix(a, b, n - 1); }
  }

  /** The serial number read back is the text that was sent, cut to 32 characters. */
  lemma SerialRoundTrip(text: Bytes)
    requires forall k :: 0 <= k < |text| ==> text[k] != 0
    ensures var raw := EncodeWords(SerialWordsOf(text));
      && WordsOk(raw, SERIAL_WORDS)
      && CString(Payload(raw, SERIAL_WORDS) + [0]) == if |text| <= 32 then text else text[..32]
  {
    DecodeOfEncode(SerialWordsOf(text));
    var p := Padded(text);
    PayloadOfEncoded(SerialWordsOf(text));
    UnpackedOfPacked(p, 16);
    assert p[..32] == p;
    if |text| < 32 {
      assert p + [0] == text + (Nuls(32 - |text|) + [0]);
      CStringOf(text, Nuls(32 - |text|) + [0]);
    } else {
      CStringOf(text[..32], [0]);
      assert |text| == 32 ==> text[..32] == text;
    }
  }

  // ----- Damaged frames -----

  lemma {:induction false} BitsConcat(a: Bytes, b: Bytes)
    ensures Bits(a + b) == Bits(a) + Bits(b)
    decreases |a|
  {
    if a == [] {
      assert a + b == b;
    } else {
      assert (a + b)[1..] == a[1..] + b;
      BitsConcat(a[1..], b);
    }
  }

  lemma CutSlot(e: Bytes, i: nat)
    requires i < WordCount(e)
    ensures e == e[..3 * i] + (Slot(e, i) + e[3 * i + 3..])
  {
  }

  lemma BitsBetween(a: Bytes, b: Bytes, c: Bytes, from: nat, to: nat)
    requires from == 8 * |a| && to == from + 8 * |b|
    ensures to <= |Bits(a + (b + c))| && Bits(b) == Bits(a + (b + c))[from..to]
  {
    BitsConcat(a, b + c);
    BitsConcat(b, c);
    MiddleSlice(Bits(a), Bits(b), Bits(c));
  }

  lemma SlotBits(e: Bytes, i: nat)
    requires i < WordCount(e)
    ensures Bits(Slot(e, i)) == Bits(e)[24 * i..24 * i + 24]
  {
    CutSlot(e, i);
    BitsBetween(e[..3 * i], Slot(e, i), e[3 * i + 3..], 24 * i, 24 * i + 24);
  }

  lemma MiddleSlice(a: Poly, b: Poly, c: Poly)
    ensures (a + (b + c))[|a|..|a| + |b|] == b
  {
  }

  lemma DamagedSlot(raw: Bytes, e: Bytes, n: nat, i: nat)
    requires |raw| == |e| == 3 * n && i < n
    requires !Accepted(XorBytes(Slot(raw, i), Slot(e, i)))
    ensures !WordsOk(XorBytes(raw, e), n)
  {
    assert Slot(XorBytes(raw, e), i) == XorBytes(Slot(raw, i), Slot(e, i));
  }

  lemma ParitySplit(a: Bytes, b: Bytes)
    ensures Parity(Bits(a + b)) == (Parity(Bits(a)) != Parity(Bits(b)))
  {
    BitsConcat(a, b);
    ParityConcat(Bits(a), Bits(b));
  }

  lemma SlotOfInit(e: Bytes, n: nat, i: nat)
    requires |e| == 3 * n && i + 1 < n
    ensures Slot(e, i) == Slot(e[..3 * n - 3], i)
  {
  }

  lemma LastSlot(e: Bytes, n: nat)
    requires |e| == 3 * n && n > 0
    ensures e == e[..3 * n - 3] + Slot(e, n - 1)
  {
  }

  lemma {:induction false} OddSlot(e: Bytes, n: nat) returns (i: nat)
    requires |e| == 3 * n && Parity(Bits(e))
    ensures i < n && Parity(Bits(Slot(e, i)))
    decreases n
  {
    assert n > 0;
    LastSlot(e, n);
    ParitySplit(e[..3 * n - 3], Slot(e, n - 1));
    if Parity(Bits(Slot(e, n - 1))) {
      i := n - 1;
    } else {
      i := OddSlot(e[..3 * n - 3], n - 1);
      SlotOfInit(e, n, i);
    }
  }

  lemma BurstPart(p: Poly, q: Poly, lo: nat, from: nat, to: nat)
    requires lo < |p| && p[lo] && BurstFrom(p, lo)
    requires from <= lo < to <= |p| && q == p[from..to]
    ensures IsBurst(q)
  {
    var at := lo - from;
    assert q[at];
    forall k | 0 <= k < |q| && q[k] ensures at <= k < at + 8 { assert p[from + k]; }
    assert BurstFrom(q, at);
  }

  lemma WordHolding(lo: nat, n: nat) returns (i: nat)
    requires lo < 24 * n
    ensures i < n && 24 * i <= lo < 24 * i + 24
  {
    i := lo / 24;
  }

  lemma BurstSlot(e: Bytes, n: nat) returns (i: nat)
    requires |e| == 3 * n && IsBurst(Bits(e))
    ensures i < n && IsBurst(Bits(Slot(e, i)))
  {
    var lo := BurstStart(Bits(e));
    i := WordHolding(lo, n);
    SlotBits(e, i);
    BurstPart(Bits(e), Bits(Slot(e, i)), lo, 24 * i, 24 * i + 24);
  }

  lemma BurstStart(p: Poly) returns (lo: nat)
    requires IsBurst(p)
    ensures lo < |p| && p[lo] && BurstFrom(p, lo)
  {
    lo :| lo < |p| && p[lo] && BurstFrom(p, lo);
  }

  /**
   * A frame of any number of words, all passing, is rejected after a burst of up to eight bits (even one
   * across two words), after an odd number of flips, and after one to three flips inside some word.
   */
  lemma DamagedFrameIsRejected(raw: Bytes, e: Bytes, n: nat)
    requires |raw| == |e| == 3 * n && WordsOk(raw, n)
    requires IsBurst(Bits(e)) || Parity(Bits(e)) || exists i: nat :: i < n && 1 <= Weight(Bits(Slot(e, i))) <= 3
    ensures !WordsOk(XorBytes(raw, e), n)
  {
    var i: nat;
    if IsBurst(Bits(e)) {
      i := BurstSlot(e, n);
      DetectsBurstsAndOddErrors(Slot(raw, i), Slot(e, i));
    } else if Parity(Bits(e)) {
      i := OddSlot(e, n);
      DetectsBurstsAndOddErrors(Slot(raw, i), Slot(e, i));
    } else {
      i :| i < n && 1 <= Weight(Bits(Slot(e, i))) <= 3;
      DetectsUpToThreeFlips(Slot(raw, i), Slot(e, i));
    }
    DamagedSlot(raw, e, n, i);
  }
}

/** The attributes written from a measurement (src/air_quality_endpoint/air_quality_matter_adapter.cpp). */
module MatterAdapter {
  import opened Integers
  import opened Sen66Fields
  import opened Sen66Protocol
  import opened Binary32
  import opened AirQualityPolicy

  const NULL_TEMPERATURE: i16 := -0x8000
  const NULL_HUMIDITY: u16 := 0xFFFF

  datatype Attribute =
    | CentiDegC(t: i16)
    | CentiPercent(h: u16)
    | NullConcentration
    | Concentration(value: real)
    | AirQuality(level: Level)

  type Store = s: seq<Attribute> | |s| == 8 witness INITIAL_STORE

  /** The defaults of the attributes before the first write. */
  const INITIAL_STORE: seq<Attribute> := [
    CentiDegC(NULL_TEMPERATURE), CentiDegC(NULL_TEMPERATURE), CentiPercent(NULL_HUMIDITY),
    NullConcentration, NullConcentration, NullConcentration, NullConcentration, AirQuality(Unknown)]

  function TemperatureOf(m: Measurement): Attribute {
    CentiDegC(if Temperature in m.valid then TemperatureRawToCentiDegC(m.temperature) else NULL_TEMPERATURE)
  }

  function HumidityOf(m: Measurement): Attribute {
    CentiPercent(if Humidity in m.valid then HumidityRawToCentiPercent(m.humidity) else NULL_HUMIDITY)
  }

  function PmOf(m: Measurement, c: Channel, raw: u16): Attribute {
    if c in m.valid then Concentration(PmRawToUgm3(raw)) else NullConcentration
  }

  function Co2Of(m: Measurement): Attribute {
    if Co2 in m.valid then Concentration(Co2RawToPpm(m.co2)) else NullConcentration
  }

  function InputsOf(m: Measurement): PolicyInputs {
    PolicyInputs(Co2 in m.valid, m.co2, Pm2p5 in m.valid, m.pm2p5, Pm10 in m.valid, m.pm10)
  }

  function QualityOf(m: Measurement): Attribute { AirQuality(LevelOf(WorstRank(InputsOf(m)))) }

  /** What a measurement looks like in the attributes, in the order in which they are written. */
  function Render(m: Measurement): Store {
    [TemperatureOf(m), TemperatureOf(m), HumidityOf(m), Co2Of(m),
     PmOf(m, Pm1p0, m.pm1p0), PmOf(m, Pm2p5, m.pm2p5), PmOf(m, Pm10, m.pm10),
     QualityOf(m)]
  }

  datatype Snapshot = Snapshot(measurement: Measurement, ageMs: int, everValid: bool)

  const NO_SNAPSHOT := Snapshot(NO_MEASUREMENT, 0, false)

  method Quality(m: Measurement) returns (a: Attribute)
    ensures a == QualityOf(m)
  {
    var level := EvaluateAirQuality(InputsOf(m));
    assert level == LevelOf(WorstRank(InputsOf(m))) by { RankInjective(level); }
    a := AirQuality(level);
  }

  class AttributeStore {
    var values: Store

    constructor ()
      ensures values == INITIAL_STORE
    {
      values := INITIAL_STORE;
    }

    /** Both endpoints show the temperature. */
    method SetTemperature(m: Measurement)
      modifies this
      ensures values == old(values)[0 := TemperatureOf(m)][1 := TemperatureOf(m)]
    {
      if Temperature in m.valid {
        var centiDegC := TemperatureRawToCentiDegC(m.temperature);
        values := values[0 := CentiDegC(centiDegC)];
        values := values[1 := CentiDegC(centiDegC)];
      } else {
        values := values[0 := CentiDegC(NULL_TEMPERATURE)];
        values := values[1 := CentiDegC(NULL_TEMPERATURE)];
      }
    }

    method SetHumidity(m: Measurement)
      modifies this
      ensures values == old(values)[2 := HumidityOf(m)]
    {
      if Humidity in m.valid {
        values := values[2 := CentiPercent(HumidityRawToCentiPercent(m.humidity))];
      } else {
        values := values[2 := CentiPercent(NULL_HUMIDITY)];
      }
    }

    /** Write every attribute from the snapshot, or none before the first valid frame. */
    method ApplyLatestMeasurement(snapshot: Snapshot)
      modifies this
      ensures values == if snapshot.everValid then Render(snapshot.measurement) else old(values)
    {
      if !snapshot.everValid {
        return;
      }
      var m := snapshot.measurement;
      SetTemperature(m);
      SetHumidity(m);
      values := values[3 := Co2Of(m)];
      values := values[4 := PmOf(m, Pm1p0, m.pm1p0)];
      values := values[5 := PmOf(m, Pm2p5, m.pm2p5)];
      values := values[6 := PmOf(m, Pm10, m.pm10)];
      var quality := Quality(m);
      values := values[7 := quality];
    }
  }

  /** Whether an attribute holds its null encoding. */
  predicate IsNull(a: Attribute) {
    match a
    case CentiDegC(v) => v == NULL_TEMPERATURE
    case CentiPercent(v) => v == NULL_HUMIDITY
    case NullConcentration => true
    case Concentration(_) => false
    case AirQuality(l) => l == Unknown
  }

  lemma NullClimate(m: Measurement)
    ensures IsNull(TemperatureOf(m)) <==> Temperature !in m.valid
    ensures IsNull(HumidityOf(m)) <==> Humidity !in m.valid || m.humidity == -1
  {
  }

  lemma NullConcentrations(m: Measurement, c: Channel, raw: u16)
    ensures IsNull(Co2Of(m)) <==> Co2 !in m.valid
    ensures IsNull(PmOf(m, c, raw)) <==> c !in m.valid
  {
  }

  lemma NullQuality(m: Measurement)
    ensures IsNull(QualityOf(m)) <==> Co2 !in m.valid && Pm2p5 !in m.valid && Pm10 !in m.valid
  {
    UnknownIffNone(InputsOf(m));
  }

  /**
   * An attribute is null exactly when its channel is invalid. Two channels deserve a second look: a valid
   * temperature is halved and so never reaches the null encoding, but a valid humidity of -1 is null.
   */
  lemma NullsAreInvalidChannels(m: Measurement, r: Store)
    requires r == Render(m)
    ensures IsNull(r[0]) <==> Temperature !in m.valid
    ensures r[1] == r[0]
    ensures IsNull(r[2]) <==> Humidity !in m.valid || m.humidity == -1
    ensures IsNull(r[3]) <==> Co2 !in m.valid
    ensures IsNull(r[4]) <==> Pm1p0 !in m.valid
    ensures IsNull(r[5]) <==> Pm2p5 !in m.valid
    ensures IsNull(r[6]) <==> Pm10 !in m.valid
    ensures IsNull(r[7]) <==> Co2 !in m.valid && Pm2p5 !in m.valid && Pm10 !in m.valid
  {
    NullClimate(m);
    NullConcentrations(m, Pm1p0, m.pm1p0);
    NullConcentrations(m, Pm2p5, m.pm2p5);
    NullConcentrations(m, Pm10, m.pm10);
    NullQuality(m);
  }

  lemma DecodedInputs(ws: seq<u16>)
    requires |ws| == 9
    ensures var i := InputsOf(Decode(ws));
      && (i.co2Valid ==> i.co2Raw != 0xFFFF) && (i.pm2p5Valid ==> i.pm2p5Raw != 0xFFFF)
      && (i.pm10Valid ==> i.pm10Raw != 0xFFFF)
  {
    DecodeChannel(ws, Co2);
    DecodeChannel(ws, Pm2p5);
    DecodeChannel(ws, Pm10);
  }

  /**
   * From the words of a frame to the attributes: null exactly for the sentinel words (and the humidity word
   * 0xFFFF, which reads as -1), and no sentinel is ever classified.
   */
  lemma WireToAttributes(ws: seq<u16>, r: Store, i: PolicyInputs)
    requires |ws| == 9 && r == Render(Decode(ws)) && i == InputsOf(Decode(ws))
    ensures IsNull(r[0]) <==> ws[5] == 0x7FFF
    ensures r[1] == r[0]
    ensures IsNull(r[2]) <==> ws[4] == 0x7FFF || ws[4] == 0xFFFF
    ensures IsNull(r[3]) <==> ws[8] == 0xFFFF
    ensures IsNull(r[4]) <==> ws[0] == 0xFFFF
    ensures IsNull(r[5]) <==> ws[1] == 0xFFFF
    ensures IsNull(r[6]) <==> ws[3] == 0xFFFF
    ensures r[7] == AirQuality(Unknown) <==> ws[8] == 0xFFFF && ws[1] == 0xFFFF && ws[3] == 0xFFFF
    ensures i.co2Valid ==> i.co2Raw != 0xFFFF
    ensures i.pm2p5Valid ==> i.pm2p5Raw != 0xFFFF
    ensures i.pm10Valid ==> i.pm10Raw != 0xFFFF
  {
    var m := Decode(ws);
    NullsAreInvalidChannels(m, r);
    DecodedInputs(ws);
    assert Temperature in m.valid <==> ws[5] != 0x7FFF by { DecodeChannel(ws, Temperature); }
    assert Humidity in m.valid <==> ws[4] != 0x7FFF by { DecodeChannel(ws, Humidity); }
    assert Co2 in m.valid <==> ws[8] != 0xFFFF by { DecodeChannel(ws, Co2); }
    assert Pm1p0 in m.valid <==> ws[0] != 0xFFFF by { DecodeChannel(ws, Pm1p0); }
    assert Pm2p5 in m.valid <==> ws[1] != 0xFFFF by { DecodeChannel(ws, Pm2p5); }
    assert Pm10 in m.valid <==> ws[3] != 0xFFFF by { DecodeChannel(ws, Pm10); }
  }

  /** The number that a word holds in two's complement. */
  function TwosComplement(w: u16): int { if w < 0x8000 then w else w - 0x1_0000 }

  /** What a particulate attribute shows of its word, in tenths: within 2^-9, as rounding to binary32 leaves it. */
  predicate ShowsTenths(a: Attribute, w: u16) {
    && (w == 0xFFFF ==> a == NullConcentration)
    && (w != 0xFFFF ==>
          && a == Concentration(Fl(w as real / 10.0))
          && -1.0 / 512.0 <= a.value - w as real / 10.0 <= 1.0 / 512.0)
  }

  lemma TenthsOfWord(m: Measurement, c: Channel, w: u16)
    requires c in m.valid <==> w != 0xFFFF
    ensures ShowsTenths(PmOf(m, c, w), w)
  {
    FlExact(w);
    FlExact(10);
    FlError(w as real / 10.0);
  }

  lemma ClimateOfFrame(ws: seq<u16>, m: Measurement)
    requires |ws| == 9 && m == Decode(ws)
    ensures var t := TwosComplement(ws[5]);
      TemperatureOf(m) == CentiDegC(if ws[5] == 0x7FFF then -0x8000 else if t >= 0 then t / 2 else -(-t / 2))
    ensures HumidityOf(m) == CentiPercent(if ws[4] == 0x7FFF then 0xFFFF else ws[4])
  {
    DecodeChannel(ws, Temperature);
    DecodeChannel(ws, Humidity);
  }

  lemma ConcentrationsOfFrame(ws: seq<u16>, m: Measurement)
    requires |ws| == 9 && m == Decode(ws)
    ensures Co2Of(m) == if ws[8] == 0xFFFF then NullConcentration else Concentration(ws[8] as real)
    ensures ShowsTenths(PmOf(m, Pm1p0, m.pm1p0), ws[0])
    ensures ShowsTenths(PmOf(m, Pm2p5, m.pm2p5), ws[1])
    ensures ShowsTenths(PmOf(m, Pm10, m.pm10), ws[3])
    ensures InputsOf(m) == PolicyInputs(ws[8] != 0xFFFF, ws[8], ws[1] != 0xFFFF, ws[1], ws[3] != 0xFFFF, ws[3])
  {
    DecodeChannel(ws, Co2);
    DecodeChannel(ws, Pm1p0);
    DecodeChannel(ws, Pm2p5);
    DecodeChannel(ws, Pm10);
    TenthsOfWord(m, Pm1p0, ws[0]);
    TenthsOfWord(m, Pm2p5, ws[1]);
    TenthsOfWord(m, Pm10, ws[3]);
    FlExact(ws[8]);
  }

  /**
   * The attributes of a frame, value by value: half the temperature toward zero on both endpoints, the
   * humidity word as it is, CO2 exactly, the particulates in tenths, and the worst of three levels.
   */
  lemma AttributesOfFrame(ws: seq<u16>, r: Store)
    requires |ws| == 9 && r == Render(Decode(ws))
    ensures var t := TwosComplement(ws[5]);
      r[0] == CentiDegC(if ws[5] == 0x7FFF then -0x8000 else if t >= 0 then t / 2 else -(-t / 2))
    ensures r[1] == r[0]
    ensures r[2] == CentiPercent(if ws[4] == 0x7FFF then 0xFFFF else ws[4])
    ensures r[3] == if ws[8] == 0xFFFF then NullConcentration else Concentration(ws[8] as real)
    ensures ShowsTenths(r[4], ws[0]) && ShowsTenths(r[5], ws[1]) && ShowsTenths(r[6], ws[3])
    ensures r[7].AirQuality?
    ensures var i := PolicyInputs(ws[8] != 0xFFFF, ws[8], ws[1] != 0xFFFF, ws[1], ws[3] != 0xFFFF, ws[3]);
      && IsWorst(r[7].level, i)
      && if i.co2Valid || i.pm2p5Valid || i.pm10Valid then IsLevelOfSome(r[7].level, i) else r[7].level == Unknown
  {
    var m := Decode(ws);
    ClimateOfFrame(ws, m);
    ConcentrationsOfFrame(ws, m);
    QualityIsWorst(m);
  }

  lemma QualityIsWorst(m: Measurement)
    ensures var l, i := LevelOf(WorstRank(InputsOf(m))), InputsOf(m);
      && IsWorst(l, i)
      && if i.co2Valid || i.pm2p5Valid || i.pm10Valid then IsLevelOfSome(l, i) else l == Unknown
  {
    WorstRankProperties(InputsOf(m), InputsOf(m));
    WorstOfValid(LevelOf(WorstRank(InputsOf(m))), InputsOf(m));
  }

  lemma InitialIsRendered()
    ensures INITIAL_STORE == Render(NO_MEASUREMENT)
  {
  }
}

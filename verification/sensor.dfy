/** `mergeReadings` of host/src/firmware/sensors/sensor.ts: a left fold that
    spreads each reading over the accumulator, so later defined fields
    win and the timestamp is the last reading's.

    Timestamps are opaque integers (milliseconds since the epoch) and the
    measured values opaque reals. */
module Sensor {
  import opened Wrappers

  datatype SensorReading = SensorReading(
    timestamp: int,
    temperatureC: Option<real>,
    humidityPercent: Option<real>,
    vocPpb: Option<real>,
    pm25UgM3: Option<real>,
    co2Ppm: Option<real>)

  /** The optional fields of a reading. */
  datatype Field = Temperature | Humidity | Voc | Pm25 | Co2

  function Get(r: SensorReading, f: Field): Option<real> {
    match f
    case Temperature => r.temperatureC
    case Humidity => r.humidityPercent
    case Voc => r.vocPpb
    case Pm25 => r.pm25UgM3
    case Co2 => r.co2Ppm
  }

  /** The fold's seed: `Date(0)` and no field. */
  const Epoch: SensorReading := SensorReading(0, None, None, None, None, None)

  /** A field present in the newer object replaces the older one. */
  function Spread(older: Option<real>, newer: Option<real>): Option<real> {
    if newer.Some? then newer else older
  }

  /** One step of the fold: `{ ...acc, ...reading, timestamp }`. */
  function MergeStep(acc: SensorReading, r: SensorReading): (m: SensorReading)
    ensures m.timestamp == r.timestamp
    ensures forall f :: Get(m, f) == if Get(r, f).Some? then Get(r, f) else Get(acc, f)
  {
    SensorReading(
      r.timestamp,
      Spread(acc.temperatureC, r.temperatureC),
      Spread(acc.humidityPercent, r.humidityPercent),
      Spread(acc.vocPpb, r.vocPpb),
      Spread(acc.pm25UgM3, r.pm25UgM3),
      Spread(acc.co2Ppm, r.co2Ppm))
  }

  /** Folds the readings in order from the seed: no readings give the
      seed, and otherwise the timestamp is the last reading's. */
  function MergeReadings(rs: seq<SensorReading>): (m: SensorReading)
    ensures |rs| == 0 ==> m.timestamp == 0 && forall f :: Get(m, f).None?
    ensures |rs| > 0 ==> m.timestamp == rs[|rs| - 1].timestamp
    decreases |rs|
  {
    if |rs| == 0 then Epoch else MergeStep(MergeReadings(rs[..|rs| - 1]), rs[|rs| - 1])
  }

  /** Reading `i` is the last one that defines field `f`. */
  ghost predicate LastDefinedAt(rs: seq<SensorReading>, f: Field, i: int) {
    && 0 <= i < |rs|
    && Get(rs[i], f).Some?
    && forall j :: i < j < |rs| ==> Get(rs[j], f).None?
  }

  /** The last step of the fold, field by field. */
  lemma MergeGetLast(rs: seq<SensorReading>, f: Field)
    requires |rs| > 0
    ensures Get(MergeReadings(rs), f) == Spread(Get(MergeReadings(rs[..|rs| - 1]), f), Get(rs[|rs| - 1], f))
  {
  }

  /** Each field of the merge is the value of the last reading that defines
      it, and absent when no reading does. */
  lemma {:induction false} MergeField(rs: seq<SensorReading>, f: Field)
    ensures Get(MergeReadings(rs), f).None? <==> forall i :: 0 <= i < |rs| ==> Get(rs[i], f).None?
    ensures forall i :: LastDefinedAt(rs, f, i) ==> Get(MergeReadings(rs), f) == Get(rs[i], f)
    decreases |rs|
  {
    if |rs| > 0 {
      var n := |rs| - 1;
      var init := rs[..n];
      MergeField(init, f);
      MergeGetLast(rs, f);
      if Get(rs[n], f).Some? {
        forall i | LastDefinedAt(rs, f, i) ensures i == n {
        }
      } else {
        assert Get(MergeReadings(rs), f) == Get(MergeReadings(init), f);
        assert (forall i :: 0 <= i < |rs| ==> Get(rs[i], f).None?)
            <==> (forall i :: 0 <= i < |init| ==> Get(init[i], f).None?);
        forall i | LastDefinedAt(rs, f, i) ensures LastDefinedAt(init, f, i) {
          assert i != n;
          assert init[i] == rs[i];
          forall j | i < j < |init| ensures Get(init[j], f).None? {
            assert init[j] == rs[j];
          }
        }
      }
    }
  }

  /** Merging a single reading gives that reading back. */
  lemma MergeSingleton(r: SensorReading)
    ensures MergeReadings([r]) == r
  {
    assert [r][..0] == [];
  }

  /** Merging in two batches: merging `a + b` is the merge of `b` spread
      over the merge of `a`, so the readings can be folded in any grouping.
      Each field is `b`'s merged value when `b` defines it and `a`'s
      otherwise, and the timestamp is `b`'s when `b` is not empty. */
  lemma {:induction false} MergeAppend(a: seq<SensorReading>, b: seq<SensorReading>, f: Field)
    ensures Get(MergeReadings(a + b), f) == Spread(Get(MergeReadings(a), f), Get(MergeReadings(b), f))
    ensures |b| > 0 ==> MergeReadings(a + b).timestamp == MergeReadings(b).timestamp
    decreases |b|
  {
    if |b| == 0 {
      assert a + b == a;
    } else {
      var n := |b| - 1;
      assert (a + b)[..|a + b| - 1] == a + b[..n];
      assert (a + b)[|a + b| - 1] == b[n];
      MergeAppend(a, b[..n], f);
      MergeGetLast(a + b, f);
      MergeGetLast(b, f);
    }
  }
}

/**
 * The AQI colour rules of app.py: the band table that shades the chart background
 * (`add_aqi_bands`) and the classifier that colours the map markers (`get_aqi_color`).
 * The two hold their thresholds separately; the lemmas below prove they agree.
 */
module Aqi {
  import Seqs

  /** The colour names the dashboard uses; Gray is the "no thresholds known" colour. */
  datatype Color = Green | Yellow | Orange | Red | Gray

  /** A shaded range `(low, high)` of the chart background, in µg/m³. */
  datatype Band = Band(low: real, high: real)

  /** The pollutants with thresholds. */
  predicate IsKnownPollutant(p: string)
  {
    p == "pm2_5" || p == "pm10" || p == "nitrogen_dioxide"
  }

  /** Health ordering of the four band colours; Gray is below all of them. */
  function Severity(c: Color): int
  {
    match c
    case Gray => -1
    case Green => 0
    case Yellow => 1
    case Orange => 2
    case Red => 3
  }

  /** The colours `zip`ped with the bands, in band order. */
  const BAND_COLORS: seq<Color> := [Green, Yellow, Orange, Red]

  /** The band list of `add_aqi_bands`; empty for a pollutant without thresholds (the early return). */
  function Bands(p: string): (r: seq<Band>)
    ensures IsKnownPollutant(p) <==> r != []
    ensures r != [] ==> |r| == 4 && r[0].low == 0.0
    ensures forall i :: 0 <= i < |r| - 1 ==> r[i].high == r[i + 1].low
    ensures forall i :: 0 <= i < |r| ==> r[i].low < r[i].high
  {
    if p == "pm2_5" then
      [Band(0.0, 30.0), Band(30.0, 60.0), Band(60.0, 90.0), Band(90.0, 300.0)]
    else if p == "pm10" then
      [Band(0.0, 50.0), Band(50.0, 100.0), Band(100.0, 250.0), Band(250.0, 600.0)]
    else if p == "nitrogen_dioxide" then
      [Band(0.0, 40.0), Band(40.0, 80.0), Band(80.0, 180.0), Band(180.0, 400.0)]
    else
      []
  }

  /** What `add_aqi_bands` shades: each band with its colour, pairing stopping at the shorter list. */
  function ShadedBands(p: string): (r: seq<(Band, Color)>)
    ensures |r| == |Bands(p)|
    ensures forall i :: 0 <= i < |r| ==> r[i].0 == Bands(p)[i] && r[i].1 == BAND_COLORS[i]
  {
    Seqs.Zip(Bands(p), BAND_COLORS)
  }

  /** `get_aqi_color`: inclusive upper bounds per band, the last band open-ended. */
  function AqiColor(p: string, v: real): (c: Color)
    ensures IsKnownPollutant(p) <==> c != Gray
  {
    if p == "pm2_5" then
      if v <= 30.0 then Green else if v <= 60.0 then Yellow else if v <= 90.0 then Orange else Red
    else if p == "pm10" then
      if v <= 50.0 then Green else if v <= 100.0 then Yellow else if v <= 250.0 then Orange else Red
    else if p == "nitrogen_dioxide" then
      if v <= 40.0 then Green else if v <= 80.0 then Yellow else if v <= 180.0 then Orange else Red
    else
      Gray
  }

  /**
   * The classifier's reading of band `i` of the table: above the band's `low` (the first band
   * has no lower limit) and at most its `high` (the last band has no upper limit).
   */
  predicate InClassifierBand(bands: seq<Band>, i: nat, v: real)
    requires i < |bands|
  {
    (i == 0 || bands[i].low < v) && (i == |bands| - 1 || v <= bands[i].high)
  }

  /** The classifier and the band table agree: the colour of `v` is `colors[i]` exactly when `v` is in band `i`. */
  lemma ClassifierMatchesBands(p: string, v: real, i: nat)
    requires IsKnownPollutant(p)
    requires i < 4
    ensures |Bands(p)| == 4
    ensures AqiColor(p, v) == BAND_COLORS[i] <==> InClassifierBand(Bands(p), i, v)
  {
  }

  /** The classifier puts every value in exactly one band of the table. */
  lemma ClassifierPicksOneBand(p: string, v: real)
    requires IsKnownPollutant(p)
    ensures exists i :: 0 <= i < 4 && AqiColor(p, v) == BAND_COLORS[i]
    ensures forall i, j :: 0 <= i < j < 4 ==> !(InClassifierBand(Bands(p), i, v) && InClassifierBand(Bands(p), j, v))
  {
    var c := AqiColor(p, v);
    var i := Severity(c);
    assert 0 <= i < 4 && BAND_COLORS[i] == c;
  }

  /** A pollutant without thresholds is gray at every value and has no shaded bands. */
  lemma UnknownPollutant(p: string, v: real)
    requires !IsKnownPollutant(p)
    ensures AqiColor(p, v) == Gray
    ensures ShadedBands(p) == []
  {
  }

  /** A higher concentration never gets a milder colour. */
  lemma ColorMonotone(p: string, v1: real, v2: real)
    requires IsKnownPollutant(p)
    requires v1 <= v2
    ensures Severity(AqiColor(p, v1)) <= Severity(AqiColor(p, v2))
  {
  }
}

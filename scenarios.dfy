/** Worked examples of the dashboard rules on small concrete frames. */
module Scenarios {
  import opened Wrappers
  import opened Seqs
  import Aqi
  import opened Readings

  const DELHI_LAT := Some(28.6)
  const DELHI_LON := Some(77.2)

  /**
   * Two Delhi pm2_5 samples at the same timestamp, 40 then 55: the chart keeps the later
   * one only, and 55 µg/m³ of pm2_5 is yellow.
   */
  lemma DuplicateTimestampKeepsLastWrite()
    ensures var first := Sample("Delhi", "pm2_5", 10, 40.0, DELHI_LAT, DELHI_LON);
            var second := Sample("Delhi", "pm2_5", 10, 55.0, DELHI_LAT, DELHI_LON);
            Series([first, second], "Delhi", "pm2_5") == [second]
            && Aqi.AqiColor("pm2_5", 55.0) == Aqi.Yellow
  {
    var first := Sample("Delhi", "pm2_5", 10, 40.0, DELHI_LAT, DELHI_LON);
    var second := Sample("Delhi", "pm2_5", 10, 55.0, DELHI_LAT, DELHI_LON);
    var df := [first, second];
    assert PairRows(df, "Delhi", "pm2_5") == df by {
      FilterKeepsAll(df, OfPair("Delhi", "pm2_5"));
    }
    SeriesOfOneTimestamp(df, "Delhi", "pm2_5", 10);
    assert LastOf(df, Time, 10) == Some(second);
  }

  /**
   * Delhi's latest readings are pm2_5 = 95 and pm10 = 40: the map marks Delhi with the
   * pm2_5 reading, coloured red.
   */
  lemma HighestReadingMarksTheCity()
    ensures var pm25 := Sample("Delhi", "pm2_5", 10, 95.0, DELHI_LAT, DELHI_LON);
            var pm10 := Sample("Delhi", "pm10", 10, 40.0, DELHI_LAT, DELHI_LON);
            CityHighlights([pm25, pm10]) == [pm25] && MarkerColor(pm25) == Aqi.Red
  {
    var pm25 := Sample("Delhi", "pm2_5", 10, 95.0, DELHI_LAT, DELHI_LON);
    var pm10 := Sample("Delhi", "pm10", 10, 40.0, DELHI_LAT, DELHI_LON);
    var latest := [pm25, pm10];
    var r := CityHighlights(latest);
    assert r != [] by {
      assert City(pm25) in KeySet(latest, City);
    }
    assert r[0] in latest && r[0].value >= pm25.value;
  }

  /** An empty city selection stops the map with the warning, whatever the data. */
  lemma EmptySelectionWarns(df: seq<Sample>)
    ensures LatestReadings(df, []) == Warning("Please select at least one city")
  {
  }

  /** No Mumbai nitrogen_dioxide samples: that chart cell shows "No data". */
  lemma MissingPairShowsNoData()
    ensures var df := [Sample("Delhi", "pm2_5", 10, 40.0, DELHI_LAT, DELHI_LON)];
            ChartPanel(df, "Mumbai", "nitrogen_dioxide") == NoData
  {
  }
}

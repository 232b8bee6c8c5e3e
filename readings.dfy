/**
 * The dataframe pipelines of app.py over samples: the future-sample filter, the
 * per-(city, pollutant) series shown in each chart, the latest reading per pair
 * shown in the map table, and the one highlighted reading per city.
 */
module Readings {
  import opened Wrappers
  import opened Seqs
  import Aqi

  /**
   * One row of the frame. `t` is the display-time (Asia/Kolkata) timestamp as an integer
   * count of a fixed unit; `lat`/`lon` are None where the cell is missing.
   */
  datatype Sample = Sample(
    city: string,
    pollutant: string,
    t: int,
    value: real,
    lat: Option<real>,
    lon: Option<real>)

  /**
   * The time column as a sort rank. The one sort of this model ranks rows by a `real`, so that
   * the same sort serves `sort_values("datetime_ist")` here and the descending value sort
   * through NegValue; `as real` is injective and order-preserving, so ranking by it is
   * ranking by time.
   */
  function TimeRank(x: Sample): real
  {
    x.t as real
  }

  /** Sort key of `sort_values("value", ascending=False)`: ascending on the negated value. */
  function NegValue(x: Sample): real
  {
    -x.value
  }

  /** The time column as a deduplication key (`subset="datetime_ist"`), compared for equality. */
  function Time(x: Sample): int
  {
    x.t
  }

  function City(x: Sample): string
  {
    x.city
  }

  function PairKey(x: Sample): (string, string)
  {
    (x.city, x.pollutant)
  }

  /** Neither coordinate is missing (`dropna(subset=["latitude", "longitude"])` keeps the row). */
  predicate HasCoords(x: Sample)
  {
    x.lat.Some? && x.lon.Some?
  }

  function NotAfter(now: int): Sample -> bool
  {
    (x: Sample) => x.t <= now
  }

  function OfPair(city: string, pollutant: string): Sample -> bool
  {
    (x: Sample) => x.city == city && x.pollutant == pollutant
  }

  function InCities(selected: seq<string>): Sample -> bool
  {
    (x: Sample) => x.city in selected
  }

  // ---------------------------------------------------------------------------
  // Future-sample filter
  // ---------------------------------------------------------------------------

  /** `df[df["datetime_ist"] <= now_ist]`: drops samples dated after `now`. */
  function DropFuture(df: seq<Sample>, now: int): (r: seq<Sample>)
    ensures |r| <= |df|
    ensures forall x :: x in r <==> x in df && x.t <= now
  {
    Filter(df, NotAfter(now))
  }

  /** Nothing at or before `now` is dropped, and every surviving sample keeps its multiplicity. */
  lemma DropFutureCounts(df: seq<Sample>, now: int)
    ensures forall x :: multiset(DropFuture(df, now))[x] == if x.t <= now then multiset(df)[x] else 0
  {
    FilterMultiset(df, NotAfter(now));
  }

  /** The filter keeps relative order: it works piecewise on any split of the frame. */
  lemma DropFutureKeepsOrder(a: seq<Sample>, b: seq<Sample>, now: int)
    ensures DropFuture(a + b, now) == DropFuture(a, now) + DropFuture(b, now)
  {
    FilterConcat(a, b, NotAfter(now));
  }

  /** Filtering twice at the same `now` is filtering once. */
  lemma DropFutureIdempotent(df: seq<Sample>, now: int)
    ensures DropFuture(DropFuture(df, now), now) == DropFuture(df, now)
  {
    FilterKeepsAll(DropFuture(df, now), NotAfter(now));
  }

  // ---------------------------------------------------------------------------
  // Series reducer
  // ---------------------------------------------------------------------------

  /** `df[(df["city"] == city) & (df["pollutant"] == pollutant)]`. */
  function PairRows(df: seq<Sample>, city: string, pollutant: string): (r: seq<Sample>)
    ensures |r| <= |df|
    ensures forall x :: x in r <==> x in df && x.city == city && x.pollutant == pollutant
  {
    Filter(df, OfPair(city, pollutant))
  }

  /**
   * The chart subset: the samples of one (city, pollutant), sorted by time, with
   * `drop_duplicates(subset="datetime_ist", keep="last")`. Every timestamp of the pair
   * appears, once, in strictly ascending order.
   */
  function Series(df: seq<Sample>, city: string, pollutant: string): (r: seq<Sample>)
    ensures |r| <= |PairRows(df, city, pollutant)|
    ensures forall y :: y in r ==> y in df && y.city == city && y.pollutant == pollutant
    ensures forall i, j :: 0 <= i < j < |r| ==> r[i].t < r[j].t
    ensures KeySet(r, Time) == KeySet(PairRows(df, city, pollutant), Time)
  {
    var rows := PairRows(df, city, pollutant);
    SortThenKeepLast(rows, TimeRank, Time);
    StrictTimes(KeepLast(SortBy(rows, TimeRank), Time));
    KeepLast(SortBy(rows, TimeRank), Time)
  }

  /** Rows in time order with no timestamp twice are in strictly ascending time order. */
  lemma StrictTimes(r: seq<Sample>)
    requires SortedBy(r, TimeRank) && UniqueKeys(r, Time)
    ensures forall i, j :: 0 <= i < j < |r| ==> r[i].t < r[j].t
  {
    forall i, j | 0 <= i < j < |r| ensures r[i].t < r[j].t {
      assert TimeRank(r[i]) <= TimeRank(r[j]) && Time(r[i]) != Time(r[j]);
    }
  }

  /** What one chart cell shows: "No data" for an empty series, otherwise the series' curve. */
  datatype Panel = NoData | Chart(series: seq<Sample>)

  function ChartPanel(df: seq<Sample>, city: string, pollutant: string): (p: Panel)
    ensures p == NoData <==> forall x :: x in df ==> !(x.city == city && x.pollutant == pollutant)
    ensures p.Chart? ==> p.series == Series(df, city, pollutant) && p.series != []
  {
    var s := Series(df, city, pollutant);
    assert s == [] <==> PairRows(df, city, pollutant) == [] by {
      var rows := PairRows(df, city, pollutant);
      if rows != [] {
        assert Time(rows[0]) in KeySet(rows, Time);
      }
    }
    if s == [] then NoData else Chart(s)
  }

  /**
   * Last write wins: the kept sample at each timestamp is the last sample of the pair at that
   * timestamp in input order (given the stable sort of this model).
   */
  lemma SeriesKeepsLastWrite(df: seq<Sample>, city: string, pollutant: string, y: Sample)
    requires y in Series(df, city, pollutant)
    ensures LastOf(PairRows(df, city, pollutant), Time, y.t) == Some(y)
  {
    var rows := PairRows(df, city, pollutant);
    var sorted := SortBy(rows, TimeRank);
    var k := y.t;
    assert LastOf(sorted, Time, k) == Some(y) by {
      KeepLastPicksLast(sorted, Time);
    }
    assert Filter(sorted, KeyIs(Time, k)) == Filter(rows, KeyIs(Time, k)) by {
      SortStable(rows, TimeRank, k as real);
      TimeMasksAgree(k);
      FilterSameMask(sorted, KeyIs(TimeRank, k as real), KeyIs(Time, k));
      FilterSameMask(rows, KeyIs(TimeRank, k as real), KeyIs(Time, k));
    }
    LastOfFiltered(sorted, Time, k);
    LastOfFiltered(rows, Time, k);
  }

  /** When all of a pair's samples share one timestamp, the chart is the single last of them. */
  lemma SeriesOfOneTimestamp(df: seq<Sample>, city: string, pollutant: string, k: int)
    requires PairRows(df, city, pollutant) != []
    requires forall x :: x in PairRows(df, city, pollutant) ==> x.t == k
    ensures LastOf(PairRows(df, city, pollutant), Time, k).Some?
    ensures Series(df, city, pollutant) == [LastOf(PairRows(df, city, pollutant), Time, k).value]
  {
    var s := Series(df, city, pollutant);
    OneTimestampOnePoint(df, city, pollutant, k);
    SeriesKeepsLastWrite(df, city, pollutant, s[0]);
  }

  /** A pair whose samples all share one timestamp charts exactly one point, at that timestamp. */
  lemma OneTimestampOnePoint(df: seq<Sample>, city: string, pollutant: string, k: int)
    requires PairRows(df, city, pollutant) != []
    requires forall x :: x in PairRows(df, city, pollutant) ==> x.t == k
    ensures |Series(df, city, pollutant)| == 1 && Series(df, city, pollutant)[0].t == k
  {
    var rows := PairRows(df, city, pollutant);
    var s := Series(df, city, pollutant);
    assert s != [] by {
      assert Time(rows[0]) in KeySet(rows, Time);
    }
    forall y | y in s ensures y.t == k {
      assert y in rows;
    }
    AtMostOnePointPerTime(s, k);
  }

  /** A strictly time-ascending sequence holds at most one sample of a given time. */
  lemma AtMostOnePointPerTime(s: seq<Sample>, k: int)
    requires forall i, j :: 0 <= i < j < |s| ==> s[i].t < s[j].t
    requires forall y :: y in s ==> y.t == k
    ensures |s| <= 1
  {
    FirstTwo(s);
  }

  /**
   * Trigger helper: puts `s[0]` and `s[1]` in front of the solver, so that the two requires of
   * AtMostOnePointPerTime meet at those elements.
   */
  lemma FirstTwo<T>(s: seq<T>)
    ensures |s| > 1 ==> s[0] in s && s[1] in s
  {
  }

  /** Selecting one timestamp by its rank or by its value is the same selection. */
  lemma TimeMasksAgree(k: int)
    ensures forall x :: KeyIs(TimeRank, k as real)(x) == KeyIs(Time, k)(x)
  {
    forall x ensures KeyIs(TimeRank, k as real)(x) == KeyIs(Time, k)(x) {
      assert TimeRank(x) == k as real <==> Time(x) == k;
    }
  }

  /** Reducing an already reduced series gives it back unchanged. */
  lemma SeriesIdempotent(df: seq<Sample>, city: string, pollutant: string)
    ensures Series(Series(df, city, pollutant), city, pollutant) == Series(df, city, pollutant)
  {
    SeriesOfReordered(df, city, pollutant, Series(df, city, pollutant));
  }

  /**
   * The reduced series, fed back in any order, reduces to itself: the reducer's result
   * depends only on the bag of rows it is given once every timestamp is unique.
   */
  lemma SeriesOfReordered(df: seq<Sample>, city: string, pollutant: string, q: seq<Sample>)
    requires multiset(q) == multiset(Series(df, city, pollutant))
    ensures Series(q, city, pollutant) == Series(df, city, pollutant)
  {
    var s := Series(df, city, pollutant);
    assert forall x :: x in q ==> x in s by {
      forall x | x in q ensures x in s {
        assert x in multiset(q);
      }
    }
    FilterKeepsAll(q, OfPair(city, pollutant));
    var sorted := SortBy(q, TimeRank);
    assert StrictlySortedBy(s, TimeRank) by {
      forall i, j | 0 <= i < j < |s| ensures TimeRank(s[i]) < TimeRank(s[j]) {
        assert s[i].t < s[j].t;
      }
    }
    SortedPermutationUnique(s, sorted, TimeRank);
    assert UniqueKeys(s, Time) by {
      forall i, j | 0 <= i < j < |s| ensures Time(s[i]) != Time(s[j]) {
        assert s[i].t < s[j].t;
      }
    }
    KeepLastUniqueIsIdentity(s, Time);
  }

  // ---------------------------------------------------------------------------
  // Latest reading per (city, pollutant)
  // ---------------------------------------------------------------------------

  const SELECT_WARNING := "Please select at least one city"

  /** A sample the map may use: a selected city and both coordinates present. */
  predicate OnMap(x: Sample, selected: seq<string>)
  {
    x.city in selected && HasCoords(x)
  }

  /** `df[df["city"].isin(selected)].dropna(subset=["latitude", "longitude"])`. */
  function MapRows(df: seq<Sample>, selected: seq<string>): (r: seq<Sample>)
    ensures |r| <= |df|
    ensures forall x :: x in r <==> x in df && OnMap(x, selected)
  {
    Filter(Filter(df, InCities(selected)), HasCoords)
  }

  /**
   * `latest_df`: an empty selection stops the run with a warning; otherwise the map rows
   * sorted by time, last row of each (city, pollutant) group: exactly one row per pair
   * that has a map row, and that row carries the pair's latest timestamp.
   */
  function LatestReadings(df: seq<Sample>, selected: seq<string>): (r: Outcome<seq<Sample>>)
    ensures r.Warning? <==> selected == []
    ensures r.Warning? ==> r.message == SELECT_WARNING
    ensures r.Ok? ==> forall y :: y in r.value ==> y in df && OnMap(y, selected)
    ensures r.Ok? ==> UniqueKeys(r.value, PairKey)
    ensures r.Ok? ==> KeySet(r.value, PairKey) == KeySet(MapRows(df, selected), PairKey)
    ensures r.Ok? ==> forall y, x ::
              (y in r.value && x in df && OnMap(x, selected) && PairKey(x) == PairKey(y)) ==> x.t <= y.t
  {
    if selected == [] then
      Warning(SELECT_WARNING)
    else
      var rows := MapRows(df, selected);
      var latest := KeepLast(SortBy(rows, TimeRank), PairKey);
      SortThenKeepLast(rows, TimeRank, PairKey);
      assert forall y, x ::
               (y in latest && x in df && OnMap(x, selected) && PairKey(x) == PairKey(y)) ==> x.t <= y.t by {
        forall y, x | y in latest && x in df && OnMap(x, selected) && PairKey(x) == PairKey(y)
          ensures x.t <= y.t
        {
          assert x in rows;
          assert TimeRank(x) <= TimeRank(y);
        }
      }
      Ok(latest)
  }

  // ---------------------------------------------------------------------------
  // One highlighted reading per city
  // ---------------------------------------------------------------------------

  /**
   * `latest_city`: the latest readings sorted by value, descending, first row of each city:
   * exactly one row per city, of that city's highest value.
   */
  function CityHighlights(latest: seq<Sample>): (r: seq<Sample>)
    ensures |r| <= |latest|
    ensures forall y :: y in r ==> y in latest
    ensures UniqueKeys(r, City)
    ensures KeySet(r, City) == KeySet(latest, City)
    ensures forall y, x :: y in r && x in latest && x.city == y.city ==> x.value <= y.value
  {
    var r := KeepFirst(SortBy(latest, NegValue), City);
    SortThenKeepFirst(latest, NegValue, City);
    assert forall y, x :: y in r && x in latest && x.city == y.city ==> x.value <= y.value by {
      forall y, x | y in r && x in latest && x.city == y.city ensures x.value <= y.value {
        assert City(x) == City(y);
        assert NegValue(y) <= NegValue(x);
      }
    }
    r
  }

  /** The map's marker colour for a highlighted reading. */
  function MarkerColor(y: Sample): (c: Aqi.Color)
    ensures Aqi.IsKnownPollutant(y.pollutant) <==> c != Aqi.Gray
  {
    Aqi.AqiColor(y.pollutant, y.value)
  }

  // ---------------------------------------------------------------------------
  // The whole page
  // ---------------------------------------------------------------------------

  /** No chart, latest-data table or map marker ever shows a sample dated after `now`. */
  lemma NothingFromTheFuture(raw: seq<Sample>, now: int, selected: seq<string>, city: string, pollutant: string)
    ensures forall y :: y in Series(DropFuture(raw, now), city, pollutant) ==> y.t <= now
    ensures LatestReadings(DropFuture(raw, now), selected).Ok? ==>
              var latest := LatestReadings(DropFuture(raw, now), selected).value;
              (forall y :: y in latest ==> y.t <= now) &&
              (forall y :: y in CityHighlights(latest) ==> y.t <= now)
  {
  }
}

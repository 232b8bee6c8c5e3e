# Air-quality dashboard core, in Dafny

`app.py` is a Streamlit page. It is meant to read pollutant samples from a SQLite database,
each a row with a city, a pollutant, a timestamp, a value in µg/m³ and optional coordinates.
From those samples it draws:

- one time-series chart per (city, pollutant), with coloured AQI bands shaded behind it;
- a table, for the cities the user selected, of the latest sample that has both coordinates,
  per (city, pollutant); a pair with no such sample gets no row;
- a map with one marker per city, coloured by that city's highest latest reading.

This project models the data rules behind those views as pure functions over sequences
of samples, and proves what each one promises:

- **`Aqi`** (`aqi.dfy`): the band table of `add_aqi_bands` and the classifier
  `get_aqi_color`. The two keep their thresholds separately. The lemmas prove that they
  agree band by band, that the classifier places every value in exactly one band, and that
  a higher concentration never gets a milder colour.
- **`Readings`** (`readings.dfy`):
  - the filter that drops samples dated after "now";
  - the per-pair chart reducer (filter, sort by time, keep the last row per timestamp) and
    the "No data" branch;
  - `latest_df`, including the warning on an empty city selection;
  - `latest_city`, the highest reading per city;
  - the marker colour.
- **`Seqs`** (`seqs.dfy`): the dataframe operations these rely on, written once over
  generic sequences:
  - boolean-mask filtering;
  - a stable sort by a rank;
  - keep-last and keep-first per key, which model `drop_duplicates(keep="last")`,
    `groupby(...).tail(1)` and `groupby(...).head(1)`;
  - their properties.
- **`Wrappers`** (`wrappers.dfy`): `Option` for nullable cells, and `Outcome` for a step
  that can stop the page with a warning.
- **`Scenarios`** (`scenarios.dfy`): the rules worked out on small concrete frames.

A sample's timestamp `t` is an integer, already in display time (IST). `now` is a
parameter.

## Model

| member | source | states |
|---|---|---|
| Aqi.Bands | app.py:12-20 | thresholds exist exactly for pm2_5, pm10 and nitrogen_dioxide; each table has four bands starting at 0, each band begins where the previous one ends, and low < high |
| Aqi.ShadedBands | app.py:22-25 | the shaded ranges are the bands paired in order with green, yellow, orange, red; an unknown pollutant shades nothing |
| Aqi.AqiColor | app.py:50-69 | the colour is gray exactly when the pollutant has no thresholds |
| Aqi.ClassifierMatchesBands | app.py:12-69 | for every value and band i, the classifier returns the i-th band colour if and only if the value is above band i's low (not checked for the first band) and at most its high (not checked for the last band) |
| Aqi.ClassifierPicksOneBand | app.py:50-67 | every value of a known pollutant gets one of the four band colours, and no value lies in two bands |
| Aqi.UnknownPollutant | app.py:12-69 | a pollutant without thresholds is gray at every value and gets no shaded bands |
| Aqi.ColorMonotone | app.py:50-67 | a larger value never gets a less severe colour |
| Readings.DropFuture | app.py:44-45 | a sample is kept if and only if its time is at most now; the result is no longer than the input |
| Readings.DropFutureCounts | app.py:45 | each kept sample appears as many times as in the input, and a dropped one not at all |
| Readings.DropFutureKeepsOrder | app.py:45 | filtering a concatenation is the concatenation of the filtered parts, so input order is kept |
| Readings.DropFutureIdempotent | app.py:45 | filtering twice with the same now equals filtering once |
| Readings.PairRows | app.py:80 | a sample is kept if and only if it has the given city and pollutant |
| Readings.Series | app.py:79-83 | the series holds only samples of the pair, in strictly ascending time, each of the pair's timestamps exactly once |
| Readings.SeriesKeepsLastWrite | app.py:81-82 | the sample kept at a timestamp is the last sample of the pair with that timestamp, in input order |
| Readings.SeriesOfOneTimestamp | app.py:81-82 | when all of a pair's samples share one timestamp, the series is exactly the last of them in input order |
| Readings.OneTimestampOnePoint | app.py:79-83 | when all of a pair's samples share one timestamp, the series has exactly one point, at that timestamp |
| Readings.SeriesIdempotent | app.py:79-83 | reducing an already reduced series returns it unchanged |
| Readings.SeriesOfReordered | app.py:79-83 | the reduced series fed back in any order (any sequence with the same multiset of rows) reduces to itself |
| Seqs.SortedPermutationUnique | app.py:81 | a strictly sorted sequence is the only sorted arrangement of its rows |
| Readings.ChartPanel | app.py:85-87 | the cell shows "No data" if and only if the frame has no sample of the pair; otherwise it plots the non-empty series |
| Readings.MapRows | app.py:125-128 | a sample is kept if and only if its city is selected and both coordinates are present |
| Readings.LatestReadings | app.py:120-132 | an empty selection (and only that) yields the warning "Please select at least one city"; otherwise one row per (city, pollutant) that has a map row, each a map row of that pair with no later map row of the same pair |
| Readings.CityHighlights | app.py:146-151 | exactly one row per city of the latest rows, each a latest row of that city with no higher value among that city's latest rows |
| Readings.MarkerColor | app.py:159 | the marker is gray exactly when the highlighted reading's pollutant has no thresholds |
| Readings.NothingFromTheFuture | app.py:44-151 | no chart, latest-data row or map marker built from the filtered frame carries a time after now |
| Seqs.Filter | app.py:45 | a boolean mask keeps exactly the elements it accepts and never lengthens the frame |
| Seqs.FilterMultiset | app.py:45 | a mask keeps each accepted element with its full multiplicity and drops the rest |
| Seqs.SortBy | app.py:81 | sorting gives a permutation of the input, ordered by rank |
| Seqs.SortStable | app.py:81 | rows of equal rank keep their input order through the sort |
| Seqs.SortSortedIsIdentity | app.py:81 | sorting an already sorted frame returns it unchanged |
| Seqs.KeepLast | app.py:82 | one row per key: keys are unique in the result and every key of the input is present |
| Seqs.KeepLastPicksLast | app.py:82 | the row kept for a key is the last row with that key |
| Seqs.KeepFirst | app.py:150 | one row per key: keys are unique in the result and every key of the input is present |
| Seqs.KeepFirstPicksFirst | app.py:150 | the row kept for a key is the first row with that key |
| Seqs.KeepLastUniqueIsIdentity | app.py:82 | a frame whose keys are already unique is unchanged by keep-last |
| Seqs.KeepLastKeepsSorted | app.py:81-82 | keep-last of a sorted frame is still sorted |
| Seqs.SortThenKeepLast | app.py:129-131 | sort then keep-last yields one row per key of the input, each of maximal rank for its key |
| Seqs.Zip | app.py:24 | pairs the two lists index-wise and stops at the shorter one |
| Seqs.SortThenKeepFirst | app.py:148-150 | sort then keep-first yields one row per key of the input, each of minimal rank for its key |
| Scenarios.DuplicateTimestampKeepsLastWrite | app.py:79-83 | two Delhi pm2_5 samples at one timestamp, 40 then 55, chart as the single sample 55, which is yellow |
| Scenarios.HighestReadingMarksTheCity | app.py:146-159 | Delhi's latest pm2_5 = 95 and pm10 = 40 give the pm2_5 marker, coloured red |
| Scenarios.EmptySelectionWarns | app.py:120-122 | an empty selection yields the warning whatever the data |
| Scenarios.MissingPairShowsNoData | app.py:85-87 | a pair with no samples shows "No data" |

## Left out

- Loading the data: `app.py` opens the SQLite database at line 38 but never assigns `df`. The model takes the frame as a parameter.
- Time zones: the UTC-to-IST conversion at lines 41-42 is not modelled. Timestamps are integers in display time, and the wall-clock `now` at line 44 is a parameter.
- Rendering is not modelled: Streamlit widgets, matplotlib styling, the folium map, tooltips and `fit_bounds`. The refresh button and the sidebar's option list are left out too.
- The multiselect's default cities are not modelled. The selection is a parameter.
- The hard-coded city and pollutant lists at lines 47-48 are not modelled. The chart functions take any (city, pollutant); iterating over the lists is page layout.
- Values are exact reals, so floating-point rounding and NaN values are not modelled.
- Colours are a datatype instead of colour-name strings, and transparency (`alpha`) is not modelled.
- Seqs.SortBy: pandas' default sort does not promise to be stable. The model sorts stably, so it fixes one order among rows with equal time. These results rely on that choice: SortStable and SortSortedIsIdentity (the model's sort is what keeps equal ranks in place), SeriesKeepsLastWrite, SeriesOfOneTimestamp and DuplicateTimestampKeepsLastWrite (which of several equal-time samples is kept), and the choice of row among equal-value ties in CityHighlights. The remaining contracts name no particular tied row.
- Aqi.Bands: the `high` of the last band (300, 600, 400) bounds only the shading. The classifier's red band has no upper limit, and its green band takes negative values too. ClassifierMatchesBands states the agreement in exactly those terms.

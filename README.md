# Nearest earthquakes: a Dafny model

This project models the analysis core of a small command-line program that
lists the ten earthquakes closest to a location the user types in. The
program reads a GeoJSON feed of earthquakes, keys each event's title by its
point geometry, and deduplicates the points. A point is dropped when a point
already kept has exactly the same longitude and latitude. It then pairs every
kept point with its great-circle distance from the user's location, sorts the
pairs by distance and prints the first ten as `title || distance`.

The model has two modules:

- `GeoJson` (`geojson.dfy`): the position (`LngLatAlt`: longitude, latitude,
  altitude) and the point geometry (`Point`). Degrees are modelled as reals.
- `EarthquakeAnalyzer` (`earthquake_analyzer.dfy`): the analyzer itself.
  - Deduplication: the coordinate check `CheckIfCoordinatesEqual`, the
    "no kept point matches" check `DistinctByCoords`, and the accumulating
    loop `GetFilteredPoints`. The loop is a method, proved against the
    function `FilteredPoints`.
  - A second definition of the result, `FirstsOfCoordinates`, looks at the
    input only: the first point of each coordinate group.
  - Ranking: the pairs of point and distance (`DistanceEntries`), a sort
    by distance (`SortByDistance`), the cut to the first `maxSize`
    (`Limit`), and the whole ranking (`ClosestEarthquakes`).
  - The query as a whole: `ShowTheClosestEarthquakes`.

The distance is a parameter `computeDistance: Point -> real`, with the
user's longitude and latitude fixed inside it. The ranking needs only the
ordering of its values. Like the Java `computeDistance`, which reads only a
point's latitude and longitude, the query requires that points with equal
coordinates are at equal distance (`DistanceByCoordinates`); the bound over
the whole input, dropped points included, rests on that. The titles are the map `pointAndTitleMap` from point
to title. Its key set is walked in an order the Java hash set leaves open;
the model takes that order as the sequence `keyOrder`, which lists every
key of the map exactly once. Of each coordinate group, the first point in
`keyOrder` is kept.

## Model

| member | source | states |
|---|---|---|
| `EarthquakeAnalyzer.CheckIfCoordinatesEqual` | src/main/java/EarthquakeAnalyzer.java:61-69 | Two positions are equal exactly when they agree once their altitudes are set alike, so the altitude plays no part; every position equals itself, and equal positions share longitude and latitude. |
| `EarthquakeAnalyzer.DistinctByCoords` | src/main/java/EarthquakeAnalyzer.java:56-59 | True when no point of the accumulated set has the candidate's coordinates. A point already in the set never passes, and every point passes against the empty set. |
| `EarthquakeAnalyzer.FilteredPoints` | src/main/java/EarthquakeAnalyzer.java:46-59 | Every kept point is one of the input points. There are no more kept points than input points. |
| `EarthquakeAnalyzer.GetFilteredPoints` | src/main/java/EarthquakeAnalyzer.java:46-59 | The loop keeps exactly the points of `FilteredPoints`. No two kept points share coordinates, and no point is kept twice. Every kept point is an input point, and the output is no larger than the input. Every input point has a kept point with its coordinates. |
| `EarthquakeAnalyzer.CoordinatesDistinctHasNoDuplicates` | src/main/java/EarthquakeAnalyzer.java:47-51 | Points with pairwise distinct coordinates are pairwise distinct. So the accumulator never adds a point it already holds, just as a set would not. |
| `EarthquakeAnalyzer.FilteredPointsAreCoordinateDistinct` | src/main/java/EarthquakeAnalyzer.java:49-66 | No two kept points have both an equal longitude and an equal latitude. |
| `EarthquakeAnalyzer.FilteredPointsCoverInput` | src/main/java/EarthquakeAnalyzer.java:49-58 | Every input point has some kept point with equal coordinates. |
| `EarthquakeAnalyzer.LastKeptIffFirstOfCoordinates` | src/main/java/EarthquakeAnalyzer.java:49-58 | The check against the points kept so far holds exactly when no earlier input point has the same coordinates (both directions). |
| `EarthquakeAnalyzer.FilteredPointsKeepFirstOfEachCoordinates` | src/main/java/EarthquakeAnalyzer.java:49-51 | The kept points are exactly the first point of each coordinate group, in input order. |
| `EarthquakeAnalyzer.KeptIffFirstOfCoordinates` | src/main/java/EarthquakeAnalyzer.java:49-51 | A point is kept if and only if, at some input position, it is the first point with its coordinates. |
| `EarthquakeAnalyzer.FilteredPointsOfDistinct` | src/main/java/EarthquakeAnalyzer.java:49-58 | Input whose points already have distinct coordinates is kept whole and in order. |
| `EarthquakeAnalyzer.FilteredPointsIdempotent` | src/main/java/EarthquakeAnalyzer.java:46-53 | Deduplicating the kept points again changes nothing. |
| `EarthquakeAnalyzer.DistanceEntries` | src/main/java/EarthquakeAnalyzer.java:26 | One entry per point, each with that point's own distance. Every point has its entry, and points without repeats give entries without repeats, as map keys would. |
| `EarthquakeAnalyzer.InsertByDistance` | src/main/java/EarthquakeAnalyzer.java:29 | Inserting an entry into a sorted sequence gives a sorted sequence that holds the old entries plus the new one. |
| `EarthquakeAnalyzer.SortByDistance` | src/main/java/EarthquakeAnalyzer.java:29 | The result is ascending by distance and is a permutation of the input (same multiset, same length). |
| `EarthquakeAnalyzer.Limit` | src/main/java/EarthquakeAnalyzer.java:30 | The result is a prefix of the input, of length min(input length, limit). |
| `EarthquakeAnalyzer.ClosestEarthquakes` | src/main/java/EarthquakeAnalyzer.java:25-30 | The ranking has length min(number of points, limit). It is non-decreasing in distance. Each entry holds one of the points and that point's own distance. The ranking uses each point/distance entry at most as often as it occurs (a sub-multiset), so, for points without repeats (the keys of the map built at line 26), no entry is repeated. |
| `EarthquakeAnalyzer.ClosestEarthquakesLeaveOutNothingCloser` | src/main/java/EarthquakeAnalyzer.java:29-30 | Every point left out of the ranking is at least as far away as every ranked entry. |
| `EarthquakeAnalyzer.ClosestEarthquakesRankEachPointOnce` | src/main/java/EarthquakeAnalyzer.java:25-30 | Given points without repeats (the key set of the distance map), no point is ranked twice. |
| `EarthquakeAnalyzer.ClosestEarthquakesBeatEveryUnrankedInputPoint` | src/main/java/EarthquakeAnalyzer.java:24-30 | When the distance reads only longitude and latitude: every input point, even one dropped by deduplication, whose coordinates no ranked entry has is at least as far away as every ranked entry. |
| `EarthquakeAnalyzer.ReportLines` | src/main/java/EarthquakeAnalyzer.java:31 | One line per ranked entry: line i carries the title and the distance of ranked entry i, so the lines follow the ranking order; a sorted ranking gives lines sorted by distance. |
| `EarthquakeAnalyzer.ReportIsTheClosest` | src/main/java/EarthquakeAnalyzer.java:24-31 | The report ranks each kept point at most once, every report line is the title and distance of some input point, and no input point whose coordinates are unreported is closer than any report line. |
| `EarthquakeAnalyzer.ShowTheClosestEarthquakes` | src/main/java/EarthquakeAnalyzer.java:21-32 | The report is the titled ranking of the deduplicated points, cut at 10. It requires `keyOrder` to list every key of the title map exactly once. Its length is min(number of kept points, 10), and an empty map gives an empty report. Line i is the title and distance of ranked entry i. Distances are non-decreasing. Each line carries the title and the distance of one input point. No kept point is ranked twice, and every input point whose coordinates are not ranked is at least as far away as every line. |

## Left out

- Fetching the feed over the network and parsing its GeoJSON (`getFeatureCollectionFromUrl`): I/O done by external libraries.
- Building the title map (`getPointAndTitleMap`): it keys on the GeoJSON library's point equality, which is not part of this model, and it throws on duplicate keys. The model takes the finished map as its input.
- The haversine body of `computeDistance` and the earth radius 6371 km: double-precision trigonometry. The distance is a parameter, and only its ordering matters to the ranking.
- `Math.round` and the console output: the report keeps the unrounded distance, and printing is a sequence of lines.
- Floating-point equality: doubles are reals here. So the model ignores that NaN never equals itself, which would keep every NaN-coordinate point. As reals, 0.0 and -0.0 are one value, which agrees with `==` on doubles; what the model loses is that they are two different doubles, which `Double.compareTo` orders apart (as it orders NaN) when sorting. The commented-out rounding comparison is dead code.
- Parallel streams: everything runs sequentially, in one fixed order. The hash sets' iteration order is a sequence parameter: `keyOrder` for the input, and insertion order for the kept points that the ranking walks.
- The hash set of kept points is a sequence in insertion order. `GetFilteredPoints` proves it holds no point twice, so it has the same members as the set.
- A GeoJSON point carries only its position here. Its bounding box, CRS and extra properties are not part of this model.
- `src/main/java/Application.java`, which reads the two numbers from the console, is not part of this model.
- Ties in distance: the model's insertion sort puts entries at equal distance in one fixed order, but the stream in `showTheClosestEarthquakes` walks a hash-map entry set, which has no fixed order among equal distances. No contract depends on how ties are ordered.

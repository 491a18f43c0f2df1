/**
  The nearest-earthquakes analyzer: it drops every point whose longitude
  and latitude equal those of a point already kept, pairs each kept point
  with its distance from the reference location, sorts the pairs by
  distance and reports the first ten.

  The distance is a parameter (`computeDistance`), a function from a point
  to a totally ordered key; the reference location is fixed inside it.
*/
module EarthquakeAnalyzer {
  import opened GeoJson

  /** How many of the closest earthquakes are reported. */
  const REPORT_SIZE: nat := 10

  function Min(a: nat, b: nat): nat
  {
    if a < b then a else b
  }

  predicate NoDuplicates<T(==)>(s: seq<T>)
  {
    forall i, j :: 0 <= i < j < |s| ==> s[i] != s[j]
  }

  // ---------------------------------------------------------------------
  // Coordinate deduplication
  // ---------------------------------------------------------------------

  /** Exact equality of longitude and of latitude; the altitude is ignored. */
  predicate CheckIfCoordinatesEqual(cord1: LngLatAlt, cord2: LngLatAlt): (equal: bool)
    ensures cord1 == cord2 ==> equal
    ensures equal ==> cord2.longitude == cord1.longitude && cord2.latitude == cord1.latitude
    ensures equal <==> cord1.(altitude := 0.0) == cord2.(altitude := 0.0)
  {
    cord1.longitude == cord2.longitude && cord2.latitude == cord1.latitude
  }

  /**
    No point of `pointSet` has the same longitude and latitude as `point`.
    A point already in the set is never distinct from it, so adding the
    points that pass never adds one twice.
  */
  predicate DistinctByCoords(point: Point, pointSet: seq<Point>): (distinct: bool)
    ensures distinct ==> point !in pointSet
    ensures pointSet == [] ==> distinct
  {
    forall p :: p in pointSet ==> !CheckIfCoordinatesEqual(p.coordinates, point.coordinates)
  }

  /** No two points of `points` share their longitude and latitude. */
  predicate CoordinatesDistinct(points: seq<Point>)
  {
    forall i, j :: 0 <= i < j < |points| ==>
      !CheckIfCoordinatesEqual(points[i].coordinates, points[j].coordinates)
  }

  /**
    The points that getFilteredPoints keeps from `points`, in the order it
    adds them: each point is kept when no point kept before it has its
    coordinates.
  */
  function FilteredPoints(points: seq<Point>): (kept: seq<Point>)
    ensures forall q :: q in kept ==> q in points
    ensures |kept| <= |points|
  {
    if points == [] then []
    else
      var kept := FilteredPoints(points[..|points| - 1]);
      var point := points[|points| - 1];
      if DistinctByCoords(point, kept) then kept + [point] else kept
  }

  /** points[i] is the first point of `points` with its coordinates. */
  predicate IsFirstOfCoordinates(points: seq<Point>, i: nat)
    requires i < |points|
  {
    forall j :: 0 <= j < i ==> !CheckIfCoordinatesEqual(points[j].coordinates, points[i].coordinates)
  }

  /**
    A definition of the deduplicated points that looks only at the input:
    the first point of every coordinate group, in input order.
  */
  function FirstsOfCoordinates(points: seq<Point>): seq<Point>
  {
    if points == [] then []
    else
      var n := |points| - 1;
      FirstsOfCoordinates(points[..n]) + if IsFirstOfCoordinates(points, n) then [points[n]] else []
  }

  /**
    The deduplication loop of getFilteredPoints. Its accumulator is a hash
    set that the loop grows point by point, each check reading the set built so far; here
    it is a sequence in insertion order, which holds no point twice.
  */
  method GetFilteredPoints(unfilteredPoints: seq<Point>) returns (filteredPoints: seq<Point>)
    ensures filteredPoints == FilteredPoints(unfilteredPoints)
    ensures CoordinatesDistinct(filteredPoints) && NoDuplicates(filteredPoints)
    ensures forall q :: q in filteredPoints ==> q in unfilteredPoints
    ensures |filteredPoints| <= |unfilteredPoints|
    ensures forall j :: 0 <= j < |unfilteredPoints| ==> !DistinctByCoords(unfilteredPoints[j], filteredPoints)
  {
    filteredPoints := [];
    var i := 0;
    while i < |unfilteredPoints|
      invariant 0 <= i <= |unfilteredPoints|
      invariant filteredPoints == FilteredPoints(unfilteredPoints[..i])
    {
      var point := unfilteredPoints[i];
      if DistinctByCoords(point, filteredPoints) {
        filteredPoints := filteredPoints + [point];
      }
      assert unfilteredPoints[..i + 1][..i] == unfilteredPoints[..i];
      i := i + 1;
    }
    assert unfilteredPoints[..i] == unfilteredPoints;
    FilteredPointsAreCoordinateDistinct(unfilteredPoints);
    CoordinatesDistinctHasNoDuplicates(filteredPoints);
    FilteredPointsCoverInput(unfilteredPoints);
  }

  lemma CoordinatesDistinctHasNoDuplicates(points: seq<Point>)
    requires CoordinatesDistinct(points)
    ensures NoDuplicates(points)
  {
    forall i, j | 0 <= i < j < |points| ensures points[i] != points[j] {
      assert !CheckIfCoordinatesEqual(points[i].coordinates, points[j].coordinates);
    }
  }

  /** No two kept points share their longitude and latitude. */
  lemma {:induction false} FilteredPointsAreCoordinateDistinct(points: seq<Point>)
    ensures CoordinatesDistinct(FilteredPoints(points))
  {
    if points != [] {
      var init := points[..|points| - 1];
      var point := points[|points| - 1];
      var kept := FilteredPoints(init);
      FilteredPointsAreCoordinateDistinct(init);
      if DistinctByCoords(point, kept) {
        var r := kept + [point];
        forall i, j | 0 <= i < j < |r|
          ensures !CheckIfCoordinatesEqual(r[i].coordinates, r[j].coordinates)
        {
          if j == |kept| {
            assert r[i] in kept;
          } else {
            assert r[i] == kept[i] && r[j] == kept[j];
          }
        }
      }
    }
  }

  /** Every input point has a kept point with its longitude and latitude. */
  lemma {:induction false} FilteredPointsCoverInput(points: seq<Point>)
    ensures forall j :: 0 <= j < |points| ==> !DistinctByCoords(points[j], FilteredPoints(points))
  {
    if points != [] {
      var n := |points| - 1;
      var init := points[..n];
      var kept := FilteredPoints(init);
      var r := FilteredPoints(points);
      FilteredPointsCoverInput(init);
      assert forall q :: q in kept ==> q in r;
      forall j | 0 <= j < n
        ensures !DistinctByCoords(points[j], r)
      {
        assert points[j] == init[j];
        assert !DistinctByCoords(init[j], kept);
      }
      if DistinctByCoords(points[n], kept) {
        assert points[n] in r;
        assert CheckIfCoordinatesEqual(points[n].coordinates, points[n].coordinates);
      }
    }
  }

  /**
    The check against the points kept so far agrees with a check against
    all earlier input points.
  */
  lemma LastKeptIffFirstOfCoordinates(points: seq<Point>)
    requires points != []
    ensures DistinctByCoords(points[|points| - 1], FilteredPoints(points[..|points| - 1]))
      <==> IsFirstOfCoordinates(points, |points| - 1)
  {
    var n := |points| - 1;
    var init := points[..n];
    var kept := FilteredPoints(init);
    if DistinctByCoords(points[n], kept) {
      FilteredPointsCoverInput(init);
      forall j | 0 <= j < n
        ensures !CheckIfCoordinatesEqual(points[j].coordinates, points[n].coordinates)
      {
        assert points[j] == init[j];
        assert !DistinctByCoords(init[j], kept);
      }
    } else {
      var q :| q in kept && CheckIfCoordinatesEqual(q.coordinates, points[n].coordinates);
      assert q in init;
      var j :| 0 <= j < n && init[j] == q;
      assert points[j] == q;
    }
  }

  /**
    A point is dropped exactly when an earlier input point has its
    coordinates: of each coordinate group the first point is kept.
  */
  lemma {:induction false} FilteredPointsKeepFirstOfEachCoordinates(points: seq<Point>)
    ensures FilteredPoints(points) == FirstsOfCoordinates(points)
  {
    if points != [] {
      FilteredPointsKeepFirstOfEachCoordinates(points[..|points| - 1]);
      LastKeptIffFirstOfCoordinates(points);
    }
  }

  /** The members of FirstsOfCoordinates, by the input position they come from. */
  lemma {:induction false} FirstsOfCoordinatesMembers(points: seq<Point>, q: Point)
    ensures q in FirstsOfCoordinates(points) <==>
      exists i :: 0 <= i < |points| && points[i] == q && IsFirstOfCoordinates(points, i)
  {
    if points != [] {
      var n := |points| - 1;
      var init := points[..n];
      FirstsOfCoordinatesMembers(init, q);
      forall i | 0 <= i < n
        ensures IsFirstOfCoordinates(init, i) == IsFirstOfCoordinates(points, i)
      {
        assert forall j :: 0 <= j <= i ==> init[j] == points[j];
      }
      if q in FirstsOfCoordinates(points) && q !in FirstsOfCoordinates(init) {
        assert q == points[n] && IsFirstOfCoordinates(points, n);
      }
      if exists i :: 0 <= i < |points| && points[i] == q && IsFirstOfCoordinates(points, i) {
        var i :| 0 <= i < |points| && points[i] == q && IsFirstOfCoordinates(points, i);
        if i < n {
          assert init[i] == q && IsFirstOfCoordinates(init, i);
        }
      }
    }
  }

  /**
    A point is kept if and only if it is, at some position of the input,
    the first point with its coordinates.
  */
  lemma KeptIffFirstOfCoordinates(points: seq<Point>, q: Point)
    ensures q in FilteredPoints(points) <==>
      exists i :: 0 <= i < |points| && points[i] == q && IsFirstOfCoordinates(points, i)
  {
    FilteredPointsKeepFirstOfEachCoordinates(points);
    FirstsOfCoordinatesMembers(points, q);
  }

  /** The last point of a coordinate-distinct sequence passes the check against the others. */
  lemma LastOfDistinctPasses(points: seq<Point>)
    requires points != [] && CoordinatesDistinct(points)
    ensures CoordinatesDistinct(points[..|points| - 1])
    ensures DistinctByCoords(points[|points| - 1], points[..|points| - 1])
  {
    var n := |points| - 1;
    var init := points[..n];
    forall i, j | 0 <= i < j < |init|
      ensures !CheckIfCoordinatesEqual(init[i].coordinates, init[j].coordinates)
    {
      assert init[i] == points[i] && init[j] == points[j];
    }
    forall p | p in init
      ensures !CheckIfCoordinatesEqual(p.coordinates, points[n].coordinates)
    {
      var i :| 0 <= i < n && init[i] == p;
      assert points[i] == p;
    }
  }

  /** Input whose points already have distinct coordinates is kept whole. */
  lemma {:induction false} FilteredPointsOfDistinct(points: seq<Point>)
    requires CoordinatesDistinct(points)
    ensures FilteredPoints(points) == points
  {
    if points != [] {
      var n := |points| - 1;
      LastOfDistinctPasses(points);
      FilteredPointsOfDistinct(points[..n]);
      assert points[..n] + [points[n]] == points;
    }
  }

  /** Deduplicating twice keeps the same points as deduplicating once. */
  lemma {:induction false} FilteredPointsIdempotent(points: seq<Point>)
    ensures FilteredPoints(FilteredPoints(points)) == FilteredPoints(points)
  {
    FilteredPointsAreCoordinateDistinct(points);
    FilteredPointsOfDistinct(FilteredPoints(points));
  }

  // ---------------------------------------------------------------------
  // Ranking by distance
  // ---------------------------------------------------------------------

  /** A kept point paired with its distance from the reference location. */
  datatype Entry = Entry(point: Point, distance: real)

  /** One line of the report: an earthquake's title and its distance. */
  datatype ReportLine = ReportLine(title: string, distance: real)

  predicate SortedByDistance(entries: seq<Entry>)
  {
    forall i, j :: 0 <= i < j < |entries| ==> entries[i].distance <= entries[j].distance
  }

  /**
    Each point paired with its own distance: one entry per point, so that
    points without repeats give entries without repeats, as map keys would.
  */
  function DistanceEntries(points: seq<Point>, computeDistance: Point -> real): (entries: seq<Entry>)
    ensures |entries| == |points|
    ensures forall e :: e in entries ==> e.point in points && e.distance == computeDistance(e.point)
    ensures forall p :: p in points ==> Entry(p, computeDistance(p)) in entries
    ensures NoDuplicates(points) ==> NoDuplicates(entries)
  {
    var entries := seq(|points|, i requires 0 <= i < |points| => Entry(points[i], computeDistance(points[i])));
    assert forall p :: p in points ==> Entry(p, computeDistance(p)) in entries by {
      forall p | p in points ensures Entry(p, computeDistance(p)) in entries {
        var i :| 0 <= i < |points| && points[i] == p;
        assert entries[i] == Entry(p, computeDistance(p));
      }
    }
    entries
  }

  /** An entry no farther than the head of a sorted sequence can go in front of it. */
  lemma PrependKeepsSorted(x: Entry, s: seq<Entry>)
    ensures SortedByDistance(s) && (s != [] ==> x.distance <= s[0].distance) ==> SortedByDistance([x] + s)
  {
    if SortedByDistance(s) && (s != [] ==> x.distance <= s[0].distance) {
      var r := [x] + s;
      forall i, j | 0 <= i < j < |r| ensures r[i].distance <= r[j].distance {
        if i == 0 {
          assert r[j] == s[j - 1];
          assert s[0].distance <= s[j - 1].distance || j == 1;
        } else {
          assert r[i] == s[i - 1] && r[j] == s[j - 1];
        }
      }
    }
  }

  /** Puts `e` into `sorted` ahead of the first entry that is not closer than it. */
  function InsertByDistance(e: Entry, sorted: seq<Entry>): (r: seq<Entry>)
    ensures |r| == |sorted| + 1
    ensures r[0] == e || (sorted != [] && r[0] == sorted[0])
    ensures multiset(r) == multiset(sorted) + multiset{e}
    ensures SortedByDistance(sorted) ==> SortedByDistance(r)
  {
    if sorted == [] || e.distance <= sorted[0].distance then
      PrependKeepsSorted(e, sorted);
      [e] + sorted
    else
      assert sorted == [sorted[0]] + sorted[1..];
      var rest := InsertByDistance(e, sorted[1..]);
      assert SortedByDistance(sorted) ==> SortedByDistance(sorted[1..]);
      PrependKeepsSorted(sorted[0], rest);
      [sorted[0]] + rest
  }

  /** The entries in ascending order of distance. */
  function SortByDistance(entries: seq<Entry>): (r: seq<Entry>)
    ensures |r| == |entries|
    ensures multiset(r) == multiset(entries)
    ensures SortedByDistance(r)
  {
    if entries == [] then []
    else
      assert entries == [entries[0]] + entries[1..];
      InsertByDistance(entries[0], SortByDistance(entries[1..]))
  }

  /** The first `maxSize` entries, or all of them when there are fewer. */
  function Limit(entries: seq<Entry>, maxSize: nat): (r: seq<Entry>)
    ensures |r| == Min(|entries|, maxSize)
    ensures r <= entries
  {
    if maxSize < |entries| then entries[..maxSize] else entries
  }

  /**
    The ranking: the points paired with their distances, sorted by distance
    and cut to `maxSize`.
  */
  function ClosestEarthquakes(points: seq<Point>, computeDistance: Point -> real, maxSize: nat): (closest: seq<Entry>)
    ensures |closest| == Min(|points|, maxSize)
    ensures SortedByDistance(closest)
    ensures forall e :: e in closest ==> e.point in points && e.distance == computeDistance(e.point)
    ensures multiset(closest) <= multiset(DistanceEntries(points, computeDistance))
  {
    var entries := DistanceEntries(points, computeDistance);
    var sorted := SortByDistance(entries);
    var closest := Limit(sorted, maxSize);
    assert sorted == closest + sorted[|closest|..];
    assert multiset(sorted) == multiset(closest) + multiset(sorted[|closest|..]);
    assert forall e :: e in closest ==> e in multiset(entries);
    closest
  }

  /** Every point left out of the ranking is at least as far away as every ranked point. */
  lemma ClosestEarthquakesLeaveOutNothingCloser(points: seq<Point>, computeDistance: Point -> real, maxSize: nat, p: Point)
    requires p in points
    requires forall e :: e in ClosestEarthquakes(points, computeDistance, maxSize) ==> e.point != p
    ensures forall e :: e in ClosestEarthquakes(points, computeDistance, maxSize) ==>
      e.distance <= computeDistance(p)
  {
    var entries := DistanceEntries(points, computeDistance);
    var sorted := SortByDistance(entries);
    var closest := Limit(sorted, maxSize);
    assert closest == ClosestEarthquakes(points, computeDistance, maxSize);
    var i :| 0 <= i < |points| && points[i] == p;
    assert entries[i] == Entry(p, computeDistance(p));
    assert Entry(p, computeDistance(p)) in multiset(sorted);
    var m :| 0 <= m < |sorted| && sorted[m] == Entry(p, computeDistance(p));
    assert |closest| <= m;
    forall e | e in closest
      ensures e.distance <= computeDistance(p)
    {
      var k :| 0 <= k < |closest| && closest[k] == e;
      assert sorted[k] == e;
    }
  }

  /** In a sequence without repeats every element occurs once. */
  lemma {:induction false} NoDuplicatesOccurOnce<T>(s: seq<T>, x: T)
    requires NoDuplicates(s)
    ensures multiset(s)[x] <= 1
  {
    if s != [] {
      assert s == [s[0]] + s[1..];
      assert NoDuplicates(s[1..]) by {
        forall i, j | 0 <= i < j < |s[1..]| ensures s[1..][i] != s[1..][j] {
          assert s[1..][i] == s[i + 1] && s[1..][j] == s[j + 1];
        }
      }
      NoDuplicatesOccurOnce(s[1..], x);
      if x == s[0] {
        assert x !in s[1..];
      }
    }
  }

  /** An element found at two positions occurs at least twice. */
  lemma RepeatOccursTwice<T>(s: seq<T>, i: nat, j: nat)
    requires i < j < |s| && s[i] == s[j]
    ensures multiset(s)[s[i]] >= 2
  {
    assert s == s[..j] + [s[j]] + s[j + 1..];
    assert s[i] in s[..j];
  }

  /** Given points without repeats, no point is ranked twice. */
  lemma ClosestEarthquakesRankEachPointOnce(points: seq<Point>, computeDistance: Point -> real, maxSize: nat)
    requires NoDuplicates(points)
    ensures var closest := ClosestEarthquakes(points, computeDistance, maxSize);
      forall i, j :: 0 <= i < j < |closest| ==> closest[i].point != closest[j].point
  {
    var closest := ClosestEarthquakes(points, computeDistance, maxSize);
    var entries := DistanceEntries(points, computeDistance);
    forall i, j | 0 <= i < j < |closest|
      ensures closest[i].point != closest[j].point
    {
      if closest[i].point == closest[j].point {
        assert closest[i] in closest && closest[j] in closest;
        assert closest[i] == closest[j];
        RepeatOccursTwice(closest, i, j);
        NoDuplicatesOccurOnce(entries, closest[i]);
        assert false;
      }
    }
  }

  /** The distance depends on a point's longitude and latitude only. */
  ghost predicate DistanceByCoordinates(computeDistance: Point -> real)
  {
    forall p: Point, q: Point :: CheckIfCoordinatesEqual(p.coordinates, q.coordinates) ==> computeDistance(p) == computeDistance(q)
  }

  /**
    Over the whole input, before deduplication: every input point whose
    coordinates no ranked point has is at least as far away as every
    ranked point.
  */
  lemma ClosestEarthquakesBeatEveryUnrankedInputPoint(keyOrder: seq<Point>, computeDistance: Point -> real,
                                                        maxSize: nat, p: Point)
    requires DistanceByCoordinates(computeDistance)
    requires p in keyOrder
    requires forall e :: e in ClosestEarthquakes(FilteredPoints(keyOrder), computeDistance, maxSize) ==>
      !CheckIfCoordinatesEqual(e.point.coordinates, p.coordinates)
    ensures forall e :: e in ClosestEarthquakes(FilteredPoints(keyOrder), computeDistance, maxSize) ==>
      e.distance <= computeDistance(p)
  {
    var kept := FilteredPoints(keyOrder);
    var closest := ClosestEarthquakes(kept, computeDistance, maxSize);
    FilteredPointsCoverInput(keyOrder);
    var j :| 0 <= j < |keyOrder| && keyOrder[j] == p;
    assert !DistinctByCoords(keyOrder[j], kept);
    var q :| q in kept && CheckIfCoordinatesEqual(q.coordinates, p.coordinates);
    assert forall e :: e in closest ==> e.point != q;
    ClosestEarthquakesLeaveOutNothingCloser(kept, computeDistance, maxSize, q);
    assert computeDistance(q) == computeDistance(p);
  }

  /** Line i of `lines` is the title and the distance of ranked entry i, for every i. */
  predicate LinesFollowRanking(lines: seq<ReportLine>, ranking: seq<Entry>, pointAndTitleMap: map<Point, string>)
  {
    |lines| == |ranking| &&
    forall i :: 0 <= i < |lines| ==>
      ranking[i].point in pointAndTitleMap && lines[i] == ReportLine(pointAndTitleMap[ranking[i].point], ranking[i].distance)
  }

  /**
    The report lines of the ranked entries, in ranking order: one line per
    entry, with the entry's title and distance, so a sorted ranking gives
    lines sorted by distance.
  */
  function ReportLines(closest: seq<Entry>, pointAndTitleMap: map<Point, string>): (lines: seq<ReportLine>)
    requires forall e :: e in closest ==> e.point in pointAndTitleMap
    ensures |lines| == |closest|
    ensures SortedByDistance(closest) ==>
      forall i, j :: 0 <= i < j < |lines| ==> lines[i].distance <= lines[j].distance
    ensures forall line :: line in lines ==>
      exists e :: e in closest && line == ReportLine(pointAndTitleMap[e.point], e.distance)
    ensures LinesFollowRanking(lines, closest, pointAndTitleMap)
  {
    var lines := seq(|closest|, i requires 0 <= i < |closest| =>
      ReportLine(pointAndTitleMap[closest[i].point], closest[i].distance));
    assert forall i :: 0 <= i < |lines| ==> closest[i] in closest;
    lines
  }

  // ---------------------------------------------------------------------
  // The whole query
  // ---------------------------------------------------------------------

  /**
    Every input point whose coordinates no ranked entry has is at least as
    far away as every report line.
  */
  ghost predicate NothingCloserUnreported(keyOrder: seq<Point>, ranking: seq<Entry>, lines: seq<ReportLine>,
                                          computeDistance: Point -> real)
  {
    forall p :: p in keyOrder && (forall e :: e in ranking ==> !CheckIfCoordinatesEqual(e.point.coordinates, p.coordinates)) ==>
      forall line :: line in lines ==> line.distance <= computeDistance(p)
  }

  /**
    The report ranks each kept point at most once, and every input point
    whose coordinates it does not rank is at least as far away as every
    reported line.
  */
  lemma ReportIsTheClosest(pointAndTitleMap: map<Point, string>, keyOrder: seq<Point>,
                           computeDistance: Point -> real)
    requires forall p :: p in keyOrder ==> p in pointAndTitleMap
    requires DistanceByCoordinates(computeDistance)
    ensures var ranking := ClosestEarthquakes(FilteredPoints(keyOrder), computeDistance, REPORT_SIZE);
      forall i, j :: 0 <= i < j < |ranking| ==> ranking[i].point != ranking[j].point
    ensures var ranking := ClosestEarthquakes(FilteredPoints(keyOrder), computeDistance, REPORT_SIZE);
      NothingCloserUnreported(keyOrder, ranking, ReportLines(ranking, pointAndTitleMap), computeDistance)
    ensures var ranking := ClosestEarthquakes(FilteredPoints(keyOrder), computeDistance, REPORT_SIZE);
      forall line :: line in ReportLines(ranking, pointAndTitleMap) ==>
        exists p :: p in keyOrder && line == ReportLine(pointAndTitleMap[p], computeDistance(p))
  {
    var kept := FilteredPoints(keyOrder);
    var ranking := ClosestEarthquakes(kept, computeDistance, REPORT_SIZE);
    var report := ReportLines(ranking, pointAndTitleMap);
    FilteredPointsAreCoordinateDistinct(keyOrder);
    CoordinatesDistinctHasNoDuplicates(kept);
    ClosestEarthquakesRankEachPointOnce(kept, computeDistance, REPORT_SIZE);
    forall p | p in keyOrder && (forall e :: e in ranking ==> !CheckIfCoordinatesEqual(e.point.coordinates, p.coordinates))
      ensures forall line :: line in report ==> line.distance <= computeDistance(p)
    {
      ClosestEarthquakesBeatEveryUnrankedInputPoint(keyOrder, computeDistance, REPORT_SIZE, p);
      forall line | line in report
        ensures line.distance <= computeDistance(p)
      {
        var e :| e in ranking && line == ReportLine(pointAndTitleMap[e.point], e.distance);
      }
    }
    forall line | line in report
      ensures exists p :: p in keyOrder && line == ReportLine(pointAndTitleMap[p], computeDistance(p))
    {
      var e :| e in ranking && line == ReportLine(pointAndTitleMap[e.point], e.distance);
      assert e.point in keyOrder;
    }
  }

  /** `keyOrder` walks the key set of `pointAndTitleMap`: every key, and each key once. */
  predicate ListsEveryKeyOnce(keyOrder: seq<Point>, pointAndTitleMap: map<Point, string>)
  {
    (forall p :: p in pointAndTitleMap ==> p in keyOrder) && NoDuplicates(keyOrder)
  }

  /**
    The nearest-earthquakes query. `pointAndTitleMap` gives each point's
    title; `keyOrder` is the order in which its key set is walked, every
    key once.
  */
  method ShowTheClosestEarthquakes(pointAndTitleMap: map<Point, string>, keyOrder: seq<Point>,
                                   computeDistance: Point -> real)
    returns (report: seq<ReportLine>)
    requires forall p :: p in keyOrder ==> p in pointAndTitleMap
    requires ListsEveryKeyOnce(keyOrder, pointAndTitleMap)
    requires DistanceByCoordinates(computeDistance)
    ensures report == ReportLines(ClosestEarthquakes(FilteredPoints(keyOrder), computeDistance, REPORT_SIZE), pointAndTitleMap)
    ensures |report| == Min(|FilteredPoints(keyOrder)|, REPORT_SIZE)
    ensures pointAndTitleMap == map[] ==> report == []
    ensures forall i, j :: 0 <= i < j < |report| ==> report[i].distance <= report[j].distance
    ensures forall line :: line in report ==>
      exists p :: p in keyOrder && line == ReportLine(pointAndTitleMap[p], computeDistance(p))
    ensures LinesFollowRanking(report, ClosestEarthquakes(FilteredPoints(keyOrder), computeDistance, REPORT_SIZE),
                               pointAndTitleMap)
    ensures var ranking := ClosestEarthquakes(FilteredPoints(keyOrder), computeDistance, REPORT_SIZE);
      forall i, j :: 0 <= i < j < |ranking| ==> ranking[i].point != ranking[j].point
    ensures NothingCloserUnreported(keyOrder, ClosestEarthquakes(FilteredPoints(keyOrder), computeDistance, REPORT_SIZE),
                                    report, computeDistance)
  {
    var filteredPoints := GetFilteredPoints(keyOrder);
    var closest := ClosestEarthquakes(filteredPoints, computeDistance, REPORT_SIZE);
    report := ReportLines(closest, pointAndTitleMap);
    ReportIsTheClosest(pointAndTitleMap, keyOrder, computeDistance);
    if pointAndTitleMap == map[] {
      assert forall p :: p !in pointAndTitleMap;
      assert keyOrder == [];
    }
  }
}

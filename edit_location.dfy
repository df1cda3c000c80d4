/**
 * The edit-location check of the notebook script: a work order is reported when none of
 * its editor's accurate-enough tracks from around the edit time comes close to where the
 * work order is. Closeness is decided on five sample points per track: the track's own
 * location and the four corners of the square of half-width `accuracy` around it.
 *
 * The two remote queries of the per-feature loop are replaced by their meaning over the
 * whole tracks layer, given as a sequence: the count query becomes `RetainedCount`, the
 * location query becomes `Candidates`. The work-order query becomes `EditedBy`.
 */
module EditLocation {
  import opened Wrappers
  import opened Tracking
  import Seqs
  import WhereClause

  /** A work order as read from the layer: its geometry may be missing or not a point. */
  datatype WorkOrder = WorkOrder(objectId: int, editor: string, date: DateAttr, geometry: Option<Point>)

  // ---------------------------------------------------------------- one track

  /** The five points tried for one track: the location, then (+,+), (+,-), (-,+), (-,-) offsets by the accuracy. */
  function SamplePoints(t: Track): seq<Point> {
    var x, y, a := t.location.x, t.location.y, t.accuracy;
    [Point(x, y), Point(x + a, y + a), Point(x + a, y - a), Point(x - a, y + a), Point(x - a, y - a)]
  }

  /** Some sample point of the track lies strictly within `tolerance` of `start`. */
  predicate Corroborates(start: Point, t: Track, tolerance: real) {
    exists c | c in SamplePoints(t) :: CloserThan(start, c, tolerance)
  }

  /** Some track in the list corroborates. */
  predicate AnyCorroborates(start: Point, tracks: seq<Track>, tolerance: real) {
    exists t | t in tracks :: Corroborates(start, t, tolerance)
  }

  /**
   * The inner loop over the candidate tracks: it stops at the first track that
   * corroborates, and says whether there was one.
   */
  method ScanLocations(start: Point, locations: seq<Track>, tolerance: real) returns (isValid: bool)
    ensures isValid <==> exists i | 0 <= i < |locations| :: Corroborates(start, locations[i], tolerance)
    ensures isValid == AnyCorroborates(start, locations, tolerance)
  {
    isValid := false;
    for i := 0 to |locations|
      invariant forall j | 0 <= j < i :: !Corroborates(start, locations[j], tolerance)
    {
      var location := locations[i];
      var x, y := location.location.x, location.location.y;
      var accuracy := location.accuracy;
      var coords := [Point(x, y)];
      coords := coords + [Point(x + accuracy, y + accuracy)];
      coords := coords + [Point(x + accuracy, y - accuracy)];
      coords := coords + [Point(x - accuracy, y + accuracy)];
      coords := coords + [Point(x - accuracy, y - accuracy)];
      assert coords == SamplePoints(location);
      if exists c | c in coords :: CloserThan(start, c, tolerance) {
        isValid := true;
        break;
      }
    }
  }

  // ---------------------------------------------------------------- one work order

  /** How the loop body treats one work order, in the order the script checks things. */
  function Judge(f: WorkOrder, tracks: seq<Track>, cfg: Config): Verdict {
    match f.geometry
    case None => Fatal(NotPointGeometry)
    case Some(start) =>
      match f.date
      case NoField => Fatal(DateFieldMissing)
      case Null => NoDate
      case Millis(ms) =>
        // Python truthiness: an instant of 0 counts as "not populated"
        if ms == 0 then NoDate
        else
          var begin, end := WindowStart(ms, cfg.timeTolerance), WindowEnd(ms, cfg.timeTolerance);
          if RetainedCount(tracks, end) == 0 then NoTracksRetained
          else if AnyCorroborates(start, Candidates(tracks, f.editor, begin, end, cfg.minAccuracy), cfg.distTolerance)
          then Corroborated
          else NotCorroborated
  }

  /**
   * A work order is reported exactly when it has a point, a non-zero date, some retained
   * track before the window's end, and no track of its editor inside the window
   * (both ends included) with accuracy at most `minAccuracy` corroborates it.
   */
  lemma ReportedIff(f: WorkOrder, tracks: seq<Track>, cfg: Config)
    ensures Judge(f, tracks, cfg) == NotCorroborated <==>
      f.geometry.Some? && f.date.Millis? && f.date.ms != 0
      && RetainedCount(tracks, WindowEnd(f.date.ms, cfg.timeTolerance)) > 0
      && forall t | t in tracks && IsCandidate(t, f.editor, WindowStart(f.date.ms, cfg.timeTolerance),
                                              WindowEnd(f.date.ms, cfg.timeTolerance), cfg.minAccuracy)
           :: !Corroborates(f.geometry.value, t, cfg.distTolerance)
  {
    if f.geometry.Some? && f.date.Millis? {
      var start := f.geometry.value;
      var begin, end := WindowStart(f.date.ms, cfg.timeTolerance), WindowEnd(f.date.ms, cfg.timeTolerance);
      var candidates := Candidates(tracks, f.editor, begin, end, cfg.minAccuracy);
      CandidatesExact(tracks, f.editor, begin, end, cfg.minAccuracy);
      if AnyCorroborates(start, candidates, cfg.distTolerance) {
        var t :| t in candidates && Corroborates(start, t, cfg.distTolerance);
        assert t in tracks && IsCandidate(t, f.editor, begin, end, cfg.minAccuracy);
      }
    }
  }

  /** A track whose accuracy is worse than the minimum never takes part, wherever it is. */
  lemma InaccurateTrackIgnored(f: WorkOrder, tracks: seq<Track>, cfg: Config, t: Track)
    requires f.geometry.Some? && f.date.Millis?
    requires t.accuracy > cfg.minAccuracy
    ensures t !in Candidates(tracks, f.editor, WindowStart(f.date.ms, cfg.timeTolerance),
                             WindowEnd(f.date.ms, cfg.timeTolerance), cfg.minAccuracy)
  {
    CandidatesExact(tracks, f.editor, WindowStart(f.date.ms, cfg.timeTolerance),
                    WindowEnd(f.date.ms, cfg.timeTolerance), cfg.minAccuracy);
  }

  /**
   * Only whether some candidate corroborates matters, not the order the location query
   * returns them in (the script asks for timestamp order).
   */
  lemma {:induction false} CandidateOrderIrrelevant(start: Point, c1: seq<Track>, c2: seq<Track>, tolerance: real)
    requires multiset(c1) == multiset(c2)
    ensures AnyCorroborates(start, c1, tolerance) == AnyCorroborates(start, c2, tolerance)
  {
    forall t | t in c1 ensures t in c2 {
      assert t in multiset(c1);
    }
    forall t | t in c2 ensures t in c1 {
      assert t in multiset(c2);
    }
  }

  /** A track exactly at the tolerance distance, with accuracy 0, does not corroborate: the test is strict. */
  lemma BoundaryNotCorroborated(start: Point, t: Track, tolerance: real)
    requires t.accuracy == 0.0
    requires SquaredDistance(start, t.location) == tolerance * tolerance
    ensures !Corroborates(start, t, tolerance)
  {
    assert forall c | c in SamplePoints(t) :: c == t.location;
  }

  /** A track at the very place of the edit corroborates it for any positive tolerance. */
  lemma SamePlaceCorroborates(start: Point, t: Track, tolerance: real)
    requires t.location == start && tolerance > 0.0
    ensures Corroborates(start, t, tolerance)
  {
    var c := SamplePoints(t)[0];
    assert c == start;
    CloserThanSelf(start, tolerance);
  }

  // ---------------------------------------------------------------- the whole run

  /** The work-order query: the features whose editor is one of the workers. */
  function EditedBy(layer: seq<WorkOrder>, workers: seq<string>): seq<WorkOrder> {
    Seqs.Filter(layer, (f: WorkOrder) => f.editor in workers)
  }

  /** The loop over the features to check, as far as `fs` goes: the reported work orders, or the exit that stopped it. */
  function Scan(fs: seq<WorkOrder>, tracks: seq<Track>, cfg: Config): Outcome<seq<WorkOrder>, ExitReason> {
    if fs == [] then Done([])
    else Step(Scan(fs[..|fs| - 1], tracks, cfg), fs[|fs| - 1], tracks, cfg)
  }

  /** One iteration: an exit stays an exit; otherwise the feature is judged and appended if uncorroborated. */
  function Step(acc: Outcome<seq<WorkOrder>, ExitReason>, f: WorkOrder, tracks: seq<Track>, cfg: Config)
    : Outcome<seq<WorkOrder>, ExitReason>
  {
    match acc
    case Exit(r) => Exit(r)
    case Done(invalid) =>
      match Judge(f, tracks, cfg)
      case Fatal(r) => Exit(r)
      case NotCorroborated => Done(invalid + [f])
      case _ => Done(invalid)
  }

  lemma ScanPrefix(fs: seq<WorkOrder>, i: nat, tracks: seq<Track>, cfg: Config)
    requires i < |fs|
    ensures Scan(fs[..i + 1], tracks, cfg) == Step(Scan(fs[..i], tracks, cfg), fs[i], tracks, cfg)
  {
    assert fs[..i + 1][..i] == fs[..i];
  }

  /** `get_invalid_work_orders` as a value: exit on an empty worker list or no features, otherwise the scan. */
  function InvalidWorkOrders(layer: seq<WorkOrder>, workers: seq<string>, tracks: seq<Track>, cfg: Config)
    : Outcome<seq<WorkOrder>, ExitReason>
  {
    if |workers| == 0 then Exit(NoWorkers)
    else
      var fs := EditedBy(layer, workers);
      if |fs| == 0 then Exit(NoFeaturesToCheck) else Scan(fs, tracks, cfg)
  }

  /** Once the scan has exited, scanning further features changes nothing. */
  lemma {:induction false} ExitPersists(fs: seq<WorkOrder>, k: nat, tracks: seq<Track>, cfg: Config)
    requires k <= |fs| && Scan(fs[..k], tracks, cfg).Exit?
    ensures Scan(fs, tracks, cfg) == Scan(fs[..k], tracks, cfg)
    decreases |fs| - k
  {
    if k < |fs| {
      ScanPrefix(fs, k, tracks, cfg);
      ExitPersists(fs, k + 1, tracks, cfg);
    } else {
      assert fs[..k] == fs;
    }
  }

  /**
   * `get_invalid_work_orders`: builds the where-clause (or exits when there are no workers),
   * selects the features edited by the workers (or exits when there are none), then judges
   * each feature in order, appending the uncorroborated ones; a missing point geometry or
   * date field ends the run.
   */
  method GetInvalidWorkOrders(layer: seq<WorkOrder>, editField: string, workers: seq<string>,
                              tracks: seq<Track>, cfg: Config)
    returns (r: Outcome<seq<WorkOrder>, ExitReason>)
    ensures r == InvalidWorkOrders(layer, workers, tracks, cfg)
  {
    var query := WhereClause.BuildEditorQuery(editField, workers);
    if query.None? {
      return Exit(NoWorkers);
    }
    var featuresToCheck := EditedBy(layer, workers);
    if |featuresToCheck| == 0 {
      return Exit(NoFeaturesToCheck);
    }
    var invalidFeatures := [];
    for i := 0 to |featuresToCheck|
      invariant Scan(featuresToCheck[..i], tracks, cfg) == Done(invalidFeatures)
    {
      var feature := featuresToCheck[i];
      ScanPrefix(featuresToCheck, i, tracks, cfg);
      if feature.geometry.None? {
        ExitPersists(featuresToCheck, i + 1, tracks, cfg);
        return Exit(NotPointGeometry);
      }
      var startCoords := feature.geometry.value;
      if feature.date.NoField? {
        ExitPersists(featuresToCheck, i + 1, tracks, cfg);
        return Exit(DateFieldMissing);
      }
      if feature.date.Null? || feature.date.ms == 0 {
        continue;
      }
      var dateToCheck := feature.date.ms;
      var startDate := WindowStart(dateToCheck, cfg.timeTolerance);
      var endDate := WindowEnd(dateToCheck, cfg.timeTolerance);
      var checkTracks := RetainedCount(tracks, endDate);
      if checkTracks == 0 {
        continue;
      }
      var locationsToCheck := Candidates(tracks, feature.editor, startDate, endDate, cfg.minAccuracy);
      var isValid := ScanLocations(startCoords, locationsToCheck, cfg.distTolerance);
      if !isValid {
        invalidFeatures := invalidFeatures + [feature];
      }
    }
    assert featuresToCheck[..|featuresToCheck|] == featuresToCheck;
    return Done(invalidFeatures);
  }

  // ---------------------------------------------------------------- properties of the report

  /** The reported work orders when the scan does not exit. */
  function Reported(fs: seq<WorkOrder>, tracks: seq<Track>, cfg: Config): seq<WorkOrder> {
    Seqs.Filter(fs, (f: WorkOrder) => Judge(f, tracks, cfg) == NotCorroborated)
  }

  /**
   * The scan exits exactly when some feature is fatal; otherwise it reports exactly the
   * uncorroborated features, in their original order, each as often as it occurs.
   */
  lemma ScanReports(fs: seq<WorkOrder>, tracks: seq<Track>, cfg: Config)
    ensures Scan(fs, tracks, cfg).Exit? <==> exists i | 0 <= i < |fs| :: Judge(fs[i], tracks, cfg).Fatal?
    ensures Scan(fs, tracks, cfg).Done? ==> Scan(fs, tracks, cfg).value == Reported(fs, tracks, cfg)
  {
    ScanExits(fs, tracks, cfg);
    ScanCollects(fs, tracks, cfg);
  }

  lemma {:induction false} ScanExits(fs: seq<WorkOrder>, tracks: seq<Track>, cfg: Config)
    ensures Scan(fs, tracks, cfg).Exit? <==> exists i | 0 <= i < |fs| :: Judge(fs[i], tracks, cfg).Fatal?
  {
    if fs != [] {
      var init := fs[..|fs| - 1];
      ScanExits(init, tracks, cfg);
      if Scan(init, tracks, cfg).Exit? {
        var i :| 0 <= i < |init| && Judge(init[i], tracks, cfg).Fatal?;
        assert fs[i] == init[i];
      }
      assert forall i | 0 <= i < |init| :: fs[i] == init[i];
    }
  }

  lemma {:induction false} ScanCollects(fs: seq<WorkOrder>, tracks: seq<Track>, cfg: Config)
    ensures Scan(fs, tracks, cfg).Done? ==> Scan(fs, tracks, cfg).value == Reported(fs, tracks, cfg)
  {
    if fs != [] {
      var init, f := fs[..|fs| - 1], fs[|fs| - 1];
      assert fs == init + [f];
      ScanCollects(init, tracks, cfg);
      Seqs.FilterSnoc(init, f, (f: WorkOrder) => Judge(f, tracks, cfg) == NotCorroborated);
    }
  }

  /**
   * What a completed run reports: a subsequence of the features edited by the workers,
   * each of them with a point, a non-zero date, retained tracks and no corroborating track.
   * In particular a feature with an empty date, or with no retained tracks, is never reported.
   */
  lemma RunReportsOnlyUncorroborated(layer: seq<WorkOrder>, workers: seq<string>, tracks: seq<Track>, cfg: Config)
    requires InvalidWorkOrders(layer, workers, tracks, cfg).Done?
    ensures var invalid := InvalidWorkOrders(layer, workers, tracks, cfg).value;
      Seqs.IsSubsequence(invalid, EditedBy(layer, workers))
      && forall f | f in invalid ::
           f.editor in workers && f.geometry.Some? && f.date.Millis? && f.date.ms != 0
           && RetainedCount(tracks, WindowEnd(f.date.ms, cfg.timeTolerance)) > 0
           && Judge(f, tracks, cfg) == NotCorroborated
  {
    var fs := EditedBy(layer, workers);
    var reported := (f: WorkOrder) => Judge(f, tracks, cfg) == NotCorroborated;
    ScanReports(fs, tracks, cfg);
    Seqs.FilterIsSubsequence(fs, reported);
    Seqs.FilterMembers(fs, reported);
    Seqs.FilterMembers(layer, (f: WorkOrder) => f.editor in workers);
  }

  /** A run that does not exit reports every uncorroborated feature among those edited by the workers. */
  lemma RunReportsEveryUncorroborated(layer: seq<WorkOrder>, workers: seq<string>, tracks: seq<Track>, cfg: Config, f: WorkOrder)
    requires InvalidWorkOrders(layer, workers, tracks, cfg).Done?
    requires f in layer && f.editor in workers && Judge(f, tracks, cfg) == NotCorroborated
    ensures f in InvalidWorkOrders(layer, workers, tracks, cfg).value
  {
    var fs := EditedBy(layer, workers);
    ScanReports(fs, tracks, cfg);
    Seqs.FilterMembers(fs, (f: WorkOrder) => Judge(f, tracks, cfg) == NotCorroborated);
    Seqs.FilterMembers(layer, (f: WorkOrder) => f.editor in workers);
  }

  /**
   * The retention count looks only at the end of the window: a track older than the
   * window is enough for a work order to be judged, and reported, rather than skipped.
   */
  lemma OldTrackCountsAsRetained()
    ensures var cfg := Config(10, 100.0, 50.0);
      var edit := WorkOrder(1, "userA", Millis(3_600_000), Some(Point(0.0, 0.0)));
      var stale := Track("userA", 0, Point(0.0, 0.0), 0.0);
      Judge(edit, [stale], cfg) == NotCorroborated
  {
    var cfg := Config(10, 100.0, 50.0);
    var stale := Track("userA", 0, Point(0.0, 0.0), 0.0);
    assert Seqs.Filter([stale], (t: Track) => t.timestamp < WindowEnd(3_600_000, 10)) == [stale];
    assert Candidates([stale], "userA", WindowStart(3_600_000, 10), WindowEnd(3_600_000, 10), 50.0) == [];
  }

  /**
   * Ten minutes of tolerance, 100 metres: a track of the same user five minutes after the
   * edit, 95 metres away with accuracy 10, corroborates; its location is already inside
   * the tolerance, so the padding is not needed here.
   */
  lemma NearbyTrackScenario()
    ensures var cfg := Config(10, 100.0, 50.0);
      var edit := WorkOrder(1, "userA", Millis(43_200_000), Some(Point(0.0, 0.0)));
      var near := Track("userA", 43_500_000, Point(95.0, 0.0), 10.0);
      Judge(edit, [near], cfg) == Corroborated
  {
    var near := Track("userA", 43_500_000, Point(95.0, 0.0), 10.0);
    assert Seqs.Filter([near], (t: Track) => t.timestamp < WindowEnd(43_200_000, 10)) == [near];
    assert Candidates([near], "userA", WindowStart(43_200_000, 10), WindowEnd(43_200_000, 10), 50.0) == [near];
    assert CloserThan(Point(0.0, 0.0), SamplePoints(near)[4], 100.0);
    assert Corroborates(Point(0.0, 0.0), near, 100.0);
    assert near in [near];
  }

  /**
   * Only the padding corroborates here: the track is 105 metres away, outside the
   * tolerance, but with accuracy 10 its sample point 10 metres closer in x and 10 off in y
   * lies about 95.5 metres away, inside it.
   */
  lemma PaddedSampleCorroborates()
    ensures var cfg := Config(10, 100.0, 50.0);
      var edit := WorkOrder(1, "userA", Millis(43_200_000), Some(Point(0.0, 0.0)));
      var far := Track("userA", 43_500_000, Point(105.0, 0.0), 10.0);
      !CloserThan(Point(0.0, 0.0), far.location, cfg.distTolerance) && Judge(edit, [far], cfg) == Corroborated
  {
    var far := Track("userA", 43_500_000, Point(105.0, 0.0), 10.0);
    assert Seqs.Filter([far], (t: Track) => t.timestamp < WindowEnd(43_200_000, 10)) == [far];
    assert Candidates([far], "userA", WindowStart(43_200_000, 10), WindowEnd(43_200_000, 10), 50.0) == [far];
    assert CloserThan(Point(0.0, 0.0), SamplePoints(far)[4], 100.0);
    assert Corroborates(Point(0.0, 0.0), far, 100.0);
    assert far in [far];
  }
}

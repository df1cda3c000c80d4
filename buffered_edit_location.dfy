/**
 * The edit-location check of the stand-alone script: instead of sampling five points
 * per track, every work order's shape is buffered by `distTolerance + minAccuracy` and the
 * tracks layer is asked how many candidate tracks intersect that buffer. The work order's
 * OBJECTID is reported when that count is zero.
 *
 * The buffer and the intersection test belong to the geometry library; they are the
 * parameter `intersects`, the test "this track location intersects this buffer".
 */
module BufferedEditLocation {
  import opened Wrappers
  import opened Tracking
  import Seqs
  import Text
  import WhereClause

  /** A row of the work-order data frame: the date is whatever the date column holds. */
  datatype Row = Row(objectId: int, editor: string, date: DateAttr, shape: Point)

  /** The `BUFFERED` column: the shape grown by a radius. */
  datatype Buffer = Buffer(center: Point, radius: real)

  /** The library's intersection test between a track location and a buffer. */
  type Intersects = (Point, Buffer) -> bool

  /** The radius every row is buffered by. */
  function BufferRadius(cfg: Config): real {
    cfg.distTolerance + cfg.minAccuracy
  }

  /** The `BUFFERED` column added to the data frame: every row's shape grown by `radius`. */
  function BufferColumn(rows: seq<Row>, radius: real): (column: seq<Buffer>)
    ensures |column| == |rows|
    ensures forall i {:trigger column[i]} | 0 <= i < |rows| :: column[i] == Buffer(rows[i].shape, radius)
  {
    seq(|rows|, i requires 0 <= i < |rows| => Buffer(rows[i].shape, radius))
  }

  /** The count query of the loop body: candidate tracks whose location intersects the buffer. */
  function TracksWithinBuffer(candidates: seq<Track>, buffer: Buffer, intersects: Intersects): nat {
    |Seqs.Filter(candidates, (t: Track) => intersects(t.location, buffer))|
  }

  /**
   * How the loop body treats one row. A date column that does not exist ends the run;
   * only a null date is skipped (a zero instant is not null and is checked).
   */
  function JudgeRow(row: Row, tracks: seq<Track>, cfg: Config, intersects: Intersects): Verdict {
    match row.date
    case NoField => Fatal(DateFieldMissing)
    case Null => NoDate
    case Millis(ms) =>
      var begin, end := WindowStart(ms, cfg.timeTolerance), WindowEnd(ms, cfg.timeTolerance);
      if RetainedCount(tracks, end) == 0 then NoTracksRetained
      else
        var candidates := Candidates(tracks, row.editor, begin, end, cfg.minAccuracy);
        if TracksWithinBuffer(candidates, Buffer(row.shape, BufferRadius(cfg)), intersects) == 0
        then NotCorroborated
        else Corroborated
  }

  /**
   * A row is reported exactly when its date is present, some track is retained before the
   * window's end, and no track of its editor inside the window with accuracy at most
   * `minAccuracy` intersects the row's buffer of radius `distTolerance + minAccuracy`.
   */
  lemma ReportedIff(row: Row, tracks: seq<Track>, cfg: Config, intersects: Intersects)
    ensures JudgeRow(row, tracks, cfg, intersects) == NotCorroborated <==>
      row.date.Millis?
      && RetainedCount(tracks, WindowEnd(row.date.ms, cfg.timeTolerance)) > 0
      && forall t | t in tracks && IsCandidate(t, row.editor, WindowStart(row.date.ms, cfg.timeTolerance),
                                              WindowEnd(row.date.ms, cfg.timeTolerance), cfg.minAccuracy)
           :: !intersects(t.location, Buffer(row.shape, cfg.distTolerance + cfg.minAccuracy))
  {
    if row.date.Millis? {
      var begin, end := WindowStart(row.date.ms, cfg.timeTolerance), WindowEnd(row.date.ms, cfg.timeTolerance);
      var candidates := Candidates(tracks, row.editor, begin, end, cfg.minAccuracy);
      var buffer := Buffer(row.shape, BufferRadius(cfg));
      var hits := Seqs.Filter(candidates, (t: Track) => intersects(t.location, buffer));
      CandidatesExact(tracks, row.editor, begin, end, cfg.minAccuracy);
      Seqs.FilterMembers(candidates, (t: Track) => intersects(t.location, buffer));
      if hits != [] {
        assert hits[0] in hits;
      } else {
        forall t | t in tracks && IsCandidate(t, row.editor, begin, end, cfg.minAccuracy)
          ensures !intersects(t.location, buffer)
        {
          assert t in candidates;
        }
      }
    }
  }

  /**
   * Unlike the notebook, a zero instant is a date like any other here: a row stamped at
   * the epoch with no track of its editor is reported, not skipped.
   */
  lemma ZeroDateIsChecked()
    ensures var cfg := Config(10, 100.0, 50.0);
      var row := Row(7, "userA", Millis(0), Point(0.0, 0.0));
      var other := Track("userB", -1000, Point(0.0, 0.0), 0.0);
      JudgeRow(row, [other], cfg, (p: Point, b: Buffer) => true) == NotCorroborated
  {
    var other := Track("userB", -1000, Point(0.0, 0.0), 0.0);
    assert Seqs.Filter([other], (t: Track) => t.timestamp < WindowEnd(0, 10)) == [other];
    assert Candidates([other], "userA", WindowStart(0, 10), WindowEnd(0, 10), 50.0) == [];
  }

  // ---------------------------------------------------------------- the whole run

  /** The work-order query: the rows whose editor is one of the workers. */
  function EditedBy(rows: seq<Row>, workers: seq<string>): seq<Row> {
    Seqs.Filter(rows, (r: Row) => r.editor in workers)
  }

  /** The `iterrows` loop as far as `rows` goes: the reported OBJECTIDs, or the exit that stopped it. */
  function ScanRows(rows: seq<Row>, tracks: seq<Track>, cfg: Config, intersects: Intersects)
    : Outcome<seq<int>, ExitReason>
  {
    if rows == [] then Done([])
    else Step(ScanRows(rows[..|rows| - 1], tracks, cfg, intersects), rows[|rows| - 1], tracks, cfg, intersects)
  }

  /** One iteration: an exit stays an exit; otherwise the row is judged and its OBJECTID appended if uncorroborated. */
  function Step(acc: Outcome<seq<int>, ExitReason>, row: Row, tracks: seq<Track>, cfg: Config, intersects: Intersects)
    : Outcome<seq<int>, ExitReason>
  {
    match acc
    case Exit(r) => Exit(r)
    case Done(ids) =>
      match JudgeRow(row, tracks, cfg, intersects)
      case Fatal(r) => Exit(r)
      case NotCorroborated => Done(ids + [row.objectId])
      case _ => Done(ids)
  }

  lemma ScanPrefix(rows: seq<Row>, i: nat, tracks: seq<Track>, cfg: Config, intersects: Intersects)
    requires i < |rows|
    ensures ScanRows(rows[..i + 1], tracks, cfg, intersects) == Step(ScanRows(rows[..i], tracks, cfg, intersects), rows[i], tracks, cfg, intersects)
  {
    assert rows[..i + 1][..i] == rows[..i];
  }

  /** `get_invalid_work_orders` as a value. */
  function InvalidObjectIds(layer: seq<Row>, workers: seq<string>, tracks: seq<Track>, cfg: Config,
                            intersects: Intersects): Outcome<seq<int>, ExitReason>
  {
    if |workers| == 0 then Exit(NoWorkers)
    else
      var rows := EditedBy(layer, workers);
      if |rows| == 0 then Exit(NoFeaturesToCheck) else ScanRows(rows, tracks, cfg, intersects)
  }

  lemma {:induction false} ExitPersists(rows: seq<Row>, k: nat, tracks: seq<Track>, cfg: Config, intersects: Intersects)
    requires k <= |rows| && ScanRows(rows[..k], tracks, cfg, intersects).Exit?
    ensures ScanRows(rows, tracks, cfg, intersects) == ScanRows(rows[..k], tracks, cfg, intersects)
    decreases |rows| - k
  {
    if k < |rows| {
      ScanPrefix(rows, k, tracks, cfg, intersects);
      ExitPersists(rows, k + 1, tracks, cfg, intersects);
    } else {
      assert rows[..k] == rows;
    }
  }

  /**
   * The body of the `iterrows` loop for one row: read the date (a missing column is
   * fatal, a null is skipped), check that tracks are retained, then count the candidate
   * tracks intersecting the row's buffer.
   */
  method CheckRow(row: Row, buffer: Buffer, tracks: seq<Track>, cfg: Config, intersects: Intersects)
    returns (verdict: Verdict)
    requires buffer == Buffer(row.shape, cfg.distTolerance + cfg.minAccuracy)
    ensures verdict == JudgeRow(row, tracks, cfg, intersects)
    ensures verdict.Fatal? <==> row.date.NoField?
    ensures verdict == NotCorroborated <==>
      row.date.Millis?
      && RetainedCount(tracks, WindowEnd(row.date.ms, cfg.timeTolerance)) > 0
      && forall t | t in tracks && IsCandidate(t, row.editor, WindowStart(row.date.ms, cfg.timeTolerance),
                                              WindowEnd(row.date.ms, cfg.timeTolerance), cfg.minAccuracy)
           :: !intersects(t.location, buffer)
  {
    ReportedIff(row, tracks, cfg, intersects);
    if row.date.NoField? {
      return Fatal(DateFieldMissing);
    }
    if row.date.Null? {
      return NoDate;
    }
    var dateToCheck := row.date.ms;
    var startDate := WindowStart(dateToCheck, cfg.timeTolerance);
    var endDate := WindowEnd(dateToCheck, cfg.timeTolerance);
    var checkTracks := RetainedCount(tracks, endDate);
    if checkTracks == 0 {
      return NoTracksRetained;
    }
    var candidates := Candidates(tracks, row.editor, startDate, endDate, cfg.minAccuracy);
    var tracksWithinBuffer := TracksWithinBuffer(candidates, buffer, intersects);
    if tracksWithinBuffer == 0 {
      return NotCorroborated;
    }
    return Corroborated;
  }

  /**
   * `get_invalid_work_orders`: builds the where-clause (or exits when there are no
   * workers), selects the rows edited by the workers (or exits when there are none), adds
   * the buffer column, then judges the rows in order, appending the OBJECTID of each
   * uncorroborated one; a missing date column ends the run.
   */
  method GetInvalidWorkOrders(layer: seq<Row>, editorField: string, workers: seq<string>,
                              tracks: seq<Track>, cfg: Config, intersects: Intersects)
    returns (r: Outcome<seq<int>, ExitReason>)
    ensures r == InvalidObjectIds(layer, workers, tracks, cfg, intersects)
  {
    var query := WhereClause.BuildEditorQuery(editorField, workers);
    if query.None? {
      return Exit(NoWorkers);
    }
    var featuresDf := EditedBy(layer, workers);
    if |featuresDf| == 0 {
      return Exit(NoFeaturesToCheck);
    }
    var buffered := BufferColumn(featuresDf, cfg.distTolerance + cfg.minAccuracy);
    var invalidFeatures := [];
    for i := 0 to |featuresDf|
      invariant ScanRows(featuresDf[..i], tracks, cfg, intersects) == Done(invalidFeatures)
    {
      var row := featuresDf[i];
      ScanPrefix(featuresDf, i, tracks, cfg, intersects);
      var verdict := CheckRow(row, buffered[i], tracks, cfg, intersects);
      match verdict
      case Fatal(reason) =>
        ExitPersists(featuresDf, i + 1, tracks, cfg, intersects);
        return Exit(reason);
      case NotCorroborated =>
        invalidFeatures := invalidFeatures + [row.objectId];
      case _ =>
    }
    assert featuresDf[..|featuresDf|] == featuresDf;
    return Done(invalidFeatures);
  }

  // ---------------------------------------------------------------- properties of the report

  /** The rows a scan that does not exit reports. */
  function ReportedRows(rows: seq<Row>, tracks: seq<Track>, cfg: Config, intersects: Intersects): seq<Row> {
    Seqs.Filter(rows, (r: Row) => JudgeRow(r, tracks, cfg, intersects) == NotCorroborated)
  }

  /** The OBJECTIDs of some rows, in row order. */
  function ObjectIds(rows: seq<Row>): (ids: seq<int>)
    ensures |ids| == |rows| && forall i | 0 <= i < |rows| :: ids[i] == rows[i].objectId
  {
    seq(|rows|, i requires 0 <= i < |rows| => rows[i].objectId)
  }

  lemma ObjectIdsSnoc(rows: seq<Row>, row: Row)
    ensures ObjectIds(rows + [row]) == ObjectIds(rows) + [row.objectId]
  {
    assert forall i | 0 <= i < |rows| :: (rows + [row])[i] == rows[i];
  }

  /**
   * The scan exits exactly when some row lacks the date column; otherwise it reports one
   * OBJECTID per uncorroborated row, in row order.
   */
  lemma ScanReports(rows: seq<Row>, tracks: seq<Track>, cfg: Config, intersects: Intersects)
    ensures ScanRows(rows, tracks, cfg, intersects).Exit? <==> exists i | 0 <= i < |rows| :: rows[i].date.NoField?
    ensures ScanRows(rows, tracks, cfg, intersects).Done? ==>
      ScanRows(rows, tracks, cfg, intersects).value == ObjectIds(ReportedRows(rows, tracks, cfg, intersects))
  {
    ScanExits(rows, tracks, cfg, intersects);
    ScanCollects(rows, tracks, cfg, intersects);
  }

  lemma {:induction false} ScanExits(rows: seq<Row>, tracks: seq<Track>, cfg: Config, intersects: Intersects)
    ensures ScanRows(rows, tracks, cfg, intersects).Exit? <==> exists i | 0 <= i < |rows| :: rows[i].date.NoField?
  {
    if rows != [] {
      var init := rows[..|rows| - 1];
      ScanExits(init, tracks, cfg, intersects);
      if ScanRows(init, tracks, cfg, intersects).Exit? {
        var i :| 0 <= i < |init| && init[i].date.NoField?;
        assert rows[i] == init[i];
      }
      assert forall i | 0 <= i < |init| :: rows[i] == init[i];
    }
  }

  lemma {:induction false} ScanCollects(rows: seq<Row>, tracks: seq<Track>, cfg: Config, intersects: Intersects)
    ensures ScanRows(rows, tracks, cfg, intersects).Done? ==>
      ScanRows(rows, tracks, cfg, intersects).value == ObjectIds(ReportedRows(rows, tracks, cfg, intersects))
  {
    if rows != [] {
      var init, row := rows[..|rows| - 1], rows[|rows| - 1];
      assert rows == init + [row];
      ScanCollects(init, tracks, cfg, intersects);
      Seqs.FilterSnoc(init, row, (r: Row) => JudgeRow(r, tracks, cfg, intersects) == NotCorroborated);
      ObjectIdsSnoc(ReportedRows(init, tracks, cfg, intersects), row);
    }
  }

  /**
   * What a completed run reports: the OBJECTIDs, in row order, of a subsequence of the rows
   * edited by the workers, each of those rows with a non-null date, retained tracks, and no
   * intersecting candidate track. Null-dated rows and rows with no retained tracks never
   * contribute an id.
   */
  lemma RunReportsOnlyUncorroborated(layer: seq<Row>, workers: seq<string>, tracks: seq<Track>, cfg: Config,
                                     intersects: Intersects)
    requires InvalidObjectIds(layer, workers, tracks, cfg, intersects).Done?
    ensures var reported := ReportedRows(EditedBy(layer, workers), tracks, cfg, intersects);
      InvalidObjectIds(layer, workers, tracks, cfg, intersects).value == ObjectIds(reported)
      && Seqs.IsSubsequence(reported, EditedBy(layer, workers))
      && forall row | row in reported ::
           row.editor in workers && row.date.Millis?
           && RetainedCount(tracks, WindowEnd(row.date.ms, cfg.timeTolerance)) > 0
           && JudgeRow(row, tracks, cfg, intersects) == NotCorroborated
  {
    var rows := EditedBy(layer, workers);
    var uncorroborated := (r: Row) => JudgeRow(r, tracks, cfg, intersects) == NotCorroborated;
    ScanReports(rows, tracks, cfg, intersects);
    Seqs.FilterIsSubsequence(rows, uncorroborated);
    Seqs.FilterMembers(rows, uncorroborated);
    Seqs.FilterMembers(layer, (r: Row) => r.editor in workers);
  }

  // ---------------------------------------------------------------- the worker argument

  /** `workers.replace(" ", "").split(",")`. */
  function ParseWorkers(arg: string): seq<string> {
    Text.Split(Text.Remove(arg, ' '), ',')
  }

  /**
   * The parsed list is never empty, no name in it holds a space or a comma, and joining
   * it back with commas gives the argument with its spaces deleted.
   */
  lemma ParseWorkersShape(arg: string)
    ensures |ParseWorkers(arg)| >= 1
    ensures forall i | 0 <= i < |ParseWorkers(arg)| :: ' ' !in ParseWorkers(arg)[i] && ',' !in ParseWorkers(arg)[i]
    ensures Text.Join(",", ParseWorkers(arg)) == Text.Remove(arg, ' ')
  {
    Text.SplitJoin(Text.Remove(arg, ' '), ',');
  }

  /**
   * So a run started from the command line never takes the "no workers" exit: it goes
   * straight to the work-order query.
   */
  lemma CommandLineHasWorkers(layer: seq<Row>, arg: string, tracks: seq<Track>, cfg: Config, intersects: Intersects)
    ensures var workers := ParseWorkers(arg);
      InvalidObjectIds(layer, workers, tracks, cfg, intersects)
      == if |EditedBy(layer, workers)| == 0 then Exit(NoFeaturesToCheck)
         else ScanRows(EditedBy(layer, workers), tracks, cfg, intersects)
  {
    ParseWorkersShape(arg);
  }
}

# tracker-scripts, modelled in Dafny

A Dafny model of the sequential logic inside the Esri location-tracking scripts. The
remote GIS calls are replaced by the data they return: feature layers, track layers and
CSV files become sequences of records. The model covers seven pieces:

- **Edit-location check, notebook version** (`EditLocation`). It decides whether the worker
  who last edited a work order was near it at edit time. A work order is reported when
  none of its editor's tracks passes three tests: inside the time window (both ends
  included), accuracy at most `min_accuracy`, and one of five sample points (the track
  location and its four diagonal offsets by the accuracy) strictly closer than the
  distance tolerance. Work orders with an empty date are skipped. So are work orders with
  no retained tracks. A missing point geometry or date field stops the run.
- **Edit-location check, buffered version** (`BufferedEditLocation`). Here each work order's
  shape is buffered by `dist_tolerance + min_accuracy`, and the check counts the candidate
  tracks that intersect the buffer. OBJECTIDs of rows with a zero count are reported. The
  worker list is parsed from a comma-separated argument.
- **Field-name resolution** (`FieldNames`). `return_field_name` finds a field while ignoring
  case and underscores. It is shared by three scripts.
- **Editor where-clause** (`WhereClause`). One `field = 'worker'` test per worker, joined
  by ` OR `.
- **Last-known-location mirror** (`MirrorLkl`). Every LKL feature becomes either an update
  or an add. It is an update when some mirror feature's lower-cased global id occurs
  inside its lower-cased `globalid`.
- **Polygon cleanup donut** (`PolygonCleanup`). `form_donut` reverses every ring in place
  and appends the clockwise Web Mercator world-extent square.
- **Arcade expression generator** (`ArcadeExpression`). It folds CSV rows into an
  `if` / `else if` chain that ends with `return ''`.

Shared pieces:

- `Text`: the Python string operations the scripts use.
- `Seqs`: a filter with its subsequence and membership lemmas.
- `Tracking`: tracks, squared distances, the time window, the retention count and the
  candidate filter.
- `Wrappers`: `Option` and `Outcome`.

Each loop the scripts run is a method with invariants. Each method is proved equal to a
function that states the whole computation, and the properties are lemmas about that
function. A `sys.exit` in the middle of a loop is the `Exit` case of `Outcome`; it
discards what the loop had collected. The cleanup script's ring list is an object whose rings are
arrays, because `form_donut` changes them in place.

The "tracks retained" count is modelled as written: tracks with `timestamp < end`, not
tracks inside the window. `EditLocation.OldTrackCountsAsRetained` shows the consequence:
a track from long before the edit makes the work order count as checked.

## Model

| member | source | states |
|---|---|---|
| Text.RemoveUnderscoreLower | notebooks/scripts/check_edit_location.py:68 | deleting underscores and lower-casing commute, so the key of a name does not depend on the order of the two steps |
| Text.Strip | scripts/generate_users_arcade_expression.py:27-28 | `strip()` returns a slice of its input that neither starts nor ends with whitespace; only whitespace was removed on both sides |
| Text.StripIdempotent | scripts/generate_users_arcade_expression.py:27-28 | stripping a stripped value changes nothing |
| Text.Split | scripts/check_edit_location.py:163 | `split(',')` returns at least one piece; no piece holds the separator; every character comes from the input |
| Text.SplitJoin | scripts/check_edit_location.py:163 | joining the pieces of a split with the separator gives back the input |
| Text.JoinLength | notebooks/scripts/check_edit_location.py:81-84 | a join of n parts holds the parts plus exactly n - 1 separators |
| Text.IsSubstringAt | scripts/mirror_lkl_layer.py:94 | the scanning substring test holds exactly when the needle occurs at some position of the haystack |
| FieldNames.FirstMatch | notebooks/scripts/check_edit_location.py:66-69 | the position found is the first field whose key (underscores deleted, lower-cased) equals the query's key; no match means no field has that key |
| FieldNames.ReturnFieldName | notebooks/scripts/check_edit_location.py:66-69 | the search loop returns the original spelling of the first field whose key matches, and None exactly when no field matches |
| FieldNames.LookupByKey | scripts/check_edit_location.py:56-59 | two queries with the same key find the same field, and so does the query's key itself |
| FieldNames.NormalizeIdempotent | scripts/mirror_lkl_layer.py:53-56 | the key of a key is the key itself |
| WhereClause.BuildEditorQuery | notebooks/scripts/check_edit_location.py:79-87 | an empty worker list gives no query (the script exits); otherwise the query is the workers' `field = 'w'` tests in list order joined by ` OR ` |
| WhereClause.QueryLength | notebooks/scripts/check_edit_location.py:79-87 | the query for n workers holds the n tests and exactly n - 1 ` OR ` separators |
| WhereClause.QueryStartsWithFirstWorker | scripts/check_edit_location.py:70-78 | one worker gives that worker's test alone; with more, the query starts with the first worker's test and a separator |
| Tracking.SquaredDistance | notebooks/scripts/check_edit_location.py:56-63 | the squared distance is never negative |
| Tracking.DistanceSymmetric | notebooks/scripts/check_edit_location.py:56-63 | distance does not depend on the order of the points |
| Tracking.DistanceToSelf | notebooks/scripts/check_edit_location.py:56-63 | a point is at distance zero from itself |
| Tracking.CloserThanIsDistanceBelow | notebooks/scripts/check_edit_location.py:158-160 | comparing squares agrees with comparing the square root to the tolerance, for every tolerance |
| Tracking.CloserThanSelf | notebooks/scripts/check_edit_location.py:158-160 | a point is strictly within any positive tolerance of itself |
| Tracking.WholeSecond | notebooks/scripts/check_edit_location.py:127 | the `%Y-%m-%d %H:%M:%S` text of an instant denotes the whole second at or before it |
| Tracking.RetainedCountZeroIff | notebooks/scripts/check_edit_location.py:126-131 | the retention count is zero exactly when no track is older than the window's end |
| Tracking.CandidatesExact | notebooks/scripts/check_edit_location.py:133-141 | the location query returns exactly the tracks of the editor inside the window (both ends included) with accuracy at most `min_accuracy`, in layer order |
| Tracking.CandidatesCount | notebooks/scripts/check_edit_location.py:133-141 | a track meeting the query's conditions is returned as often as it occurs in the layer, and any other track never |
| EditLocation.ScanLocations | notebooks/scripts/check_edit_location.py:143-162 | the loop over candidate tracks, building the five sample points and stopping at the first close one, returns true exactly when some candidate has a sample point strictly within the tolerance |
| EditLocation.ReportedIff | notebooks/scripts/check_edit_location.py:102-164 | a work order is reported exactly when it has a point, a non-zero date and retained tracks, and no candidate track corroborates it |
| EditLocation.InaccurateTrackIgnored | notebooks/scripts/check_edit_location.py:134-139 | a track less accurate than `min_accuracy` is never a candidate |
| EditLocation.CandidateOrderIrrelevant | notebooks/scripts/check_edit_location.py:141-162 | whether some candidate corroborates does not depend on the order the query returns them in |
| EditLocation.BoundaryNotCorroborated | notebooks/scripts/check_edit_location.py:158-160 | a track exactly at the tolerance distance with accuracy 0 does not corroborate |
| EditLocation.SamePlaceCorroborates | notebooks/scripts/check_edit_location.py:147-160 | a track at the work order's own location corroborates for any positive tolerance |
| EditLocation.ExitPersists | notebooks/scripts/check_edit_location.py:104-120 | once the run has exited, later features change nothing |
| EditLocation.GetInvalidWorkOrders | notebooks/scripts/check_edit_location.py:72-165 | the method's result is exactly the run as a value: exit on no workers or no features, otherwise the judged scan |
| EditLocation.ScanReports | notebooks/scripts/check_edit_location.py:100-165 | the scan exits exactly when some feature lacks a point or the date field; otherwise it returns the uncorroborated features in their order |
| EditLocation.RunReportsOnlyUncorroborated | notebooks/scripts/check_edit_location.py:100-165 | the report is a subsequence of the workers' features; each reported feature has a point, a non-zero date and retained tracks, and is uncorroborated |
| EditLocation.RunReportsEveryUncorroborated | notebooks/scripts/check_edit_location.py:163-164 | every uncorroborated feature edited by a worker is reported |
| EditLocation.OldTrackCountsAsRetained | notebooks/scripts/check_edit_location.py:126-131 | a track older than the window keeps a work order from being skipped, and the work order is reported |
| EditLocation.NearbyTrackScenario | notebooks/scripts/check_edit_location.py:144-162 | a track 95 m away with accuracy 10, five minutes after the edit, corroborates it with a 100 m tolerance |
| EditLocation.PaddedSampleCorroborates | notebooks/scripts/check_edit_location.py:147-160 | a track 105 m away, outside the 100 m tolerance, still corroborates through a sample point padded by its 10 m accuracy |
| BufferedEditLocation.ReportedIff | scripts/check_edit_location.py:99-133 | a row is reported exactly when its date is not null, tracks are retained, and no candidate track intersects its buffer of radius `dist_tolerance + min_accuracy` |
| BufferedEditLocation.ZeroDateIsChecked | scripts/check_edit_location.py:101-106 | a date of 0 is not null, so the row is checked and can be reported |
| BufferedEditLocation.ExitPersists | scripts/check_edit_location.py:107-110 | once the run has exited, later rows change nothing |
| BufferedEditLocation.CheckRow | scripts/check_edit_location.py:100-133 | the loop body ends the run exactly when the date column is missing, and finds the row uncorroborated exactly when its date is not null, tracks are retained, and no track of the editor inside the window with accuracy at most `min_accuracy` intersects the row's buffer |
| BufferedEditLocation.GetInvalidWorkOrders | scripts/check_edit_location.py:62-134 | the method's result is exactly the run as a value, with every row buffered by `dist_tolerance + min_accuracy` |
| BufferedEditLocation.ScanReports | scripts/check_edit_location.py:97-134 | the scan exits exactly when some row lacks the date column; otherwise it returns the OBJECTIDs of the uncorroborated rows in row order |
| BufferedEditLocation.RunReportsOnlyUncorroborated | scripts/check_edit_location.py:97-134 | the ids come from a subsequence of the workers' rows; each such row has a date, retained tracks, and no intersecting candidate |
| BufferedEditLocation.ParseWorkersShape | scripts/check_edit_location.py:163 | the parsed worker list is non-empty; its names hold no space or comma; joined with commas it gives the argument without spaces |
| BufferedEditLocation.CommandLineHasWorkers | scripts/check_edit_location.py:163-171 | a run started from the command line never takes the "no workers" exit |
| MirrorLkl.FindInMirror | scripts/mirror_lkl_layer.py:91-96 | the inner loop fails exactly when the mirror layer is not empty and has no global-id field; otherwise it says whether some mirror feature matches |
| MirrorLkl.PartitionStep | scripts/mirror_lkl_layer.py:97-100 | each LKL feature is appended to exactly one of the two lists, the one its match decides |
| MirrorLkl.MirrorLayer | scripts/mirror_lkl_layer.py:71-106 | `main` ends as the outcome function says: item missing, no LKL features, no global-id field, or the adds and updates posted |
| MirrorLkl.PostedPartition | scripts/mirror_lkl_layer.py:90-100 | adds and updates together are as many as the LKL features; updates are exactly the matched features, adds exactly the unmatched; both keep LKL order |
| MirrorLkl.EmptyMirrorAddsAll | scripts/mirror_lkl_layer.py:92-100 | with an empty mirror layer every LKL feature is an add |
| MirrorLkl.EmptyLklPostsNothing | scripts/mirror_lkl_layer.py:82-84 | an empty LKL layer ends the run before any edit is posted |
| MirrorLkl.MatchIgnoresCase | scripts/mirror_lkl_layer.py:94 | lower-casing the global ids on either side does not change which features match |
| MirrorLkl.BracedGuidMatches | scripts/mirror_lkl_layer.py:93-94 | a braced upper-case GUID matches its bare lower-case form |
| PolygonCleanup.WorldExtentRing | scripts/polygon_cleanup_tracks.py:57-59 | the appended ring has five vertices, and its first and last vertices are equal |
| PolygonCleanup.ReverseRing | scripts/polygon_cleanup_tracks.py:55-56 | the in-place reversal leaves the ring array holding its old contents backwards |
| PolygonCleanup.FormDonut | scripts/polygon_cleanup_tracks.py:54-60 | the same list object is returned, one new ring at the end, every old ring array at its old position holding its old vertices reversed, the new ring the world extent |
| PolygonCleanup.FilterRings | scripts/polygon_cleanup_tracks.py:99-100 | the rings become a donut when the symmetric-difference flag is set and are unchanged otherwise |
| PolygonCleanup.DonutShape | scripts/polygon_cleanup_tracks.py:54-60 | a donut has one ring more; each original ring is at its position, reversed and of its old length; the world extent is last |
| PolygonCleanup.ReversedTwice | scripts/polygon_cleanup_tracks.py:56 | reversing twice gives the ring back |
| PolygonCleanup.WorldExtentClockwise | scripts/polygon_cleanup_tracks.py:57-59 | the world-extent ring's signed area is negative: it is walked clockwise |
| PolygonCleanup.ReversedFlipsOrientation | scripts/polygon_cleanup_tracks.py:55-57 | reversing a ring negates its signed area, so an outer ring becomes a hole |
| PolygonCleanup.DonutOrientation | scripts/polygon_cleanup_tracks.py:54-60 | every original ring of a donut has the opposite orientation of before, and the last ring is clockwise |
| ArcadeExpression.BuildExpression | scripts/generate_users_arcade_expression.py:20-39 | the loop, choosing `if` for row 0 and `else if` after, then the default, produces the chain of one branch per row in row order followed by `return ''` |
| ArcadeExpression.BranchesStep | scripts/generate_users_arcade_expression.py:24-36 | each row appends exactly one branch: the `if` branch for row 0, an `else if` branch for every later row |
| ArcadeExpression.ChainShape | scripts/generate_users_arcade_expression.py:24-39 | for rows, the expression is the first row's `if` branch, then one `else if` branch per later row in order, then the default |
| ArcadeExpression.NoRowsOnlyDefault | scripts/generate_users_arcade_expression.py:37-39 | with no rows the expression is only the default branch |
| ArcadeExpression.EndsWithDefault | scripts/generate_users_arcade_expression.py:37-39 | every expression ends with the default branch |
| ArcadeExpression.ValuesStripped | scripts/generate_users_arcade_expression.py:26-36 | whitespace around the CSV values does not reach the expression: pre-stripped values give the same text |

## Left out

- Authentication, layer and item lookup, `query`, `edit_features` and `delete_features`
  are remote calls. Their results are inputs: sequences of work orders, rows, tracks, LKL
  and mirror features, and the `itemFound` flag.
- The work-order query runs the where-clause on the server. Its result is modelled as the
  features whose editor is one of the workers (`EditedBy`). The clause text is built and
  proved separately.
- The two count queries and the location query run on the server. They are modelled as a
  count and a filter over the whole tracks layer. The location query's timestamp ordering
  is not modelled; `EditLocation.CandidateOrderIrrelevant` shows order does not matter.
- Logging, `print`, argparse, the CSV reader, and the `__main__` exception handler are
  I/O. A missing column or attribute that raises `KeyError` ends the run; the model covers
  this only for the date field (`DateFieldMissing`) and the mirror's global-id field.
- The geometry library's `buffer` and `intersects` are the parameter `intersects` of the
  buffered check. `geometry.union` in the cleanup script is not modelled.
- BufferedEditLocation.Row: a row's shape is taken to be a point. The script buffers
  whatever geometry the `SHAPE` column holds and does not check that it is a point.
- Floating point and `math.sqrt`: coordinates, accuracies and tolerances are exact reals,
  and distances are compared on squares.
- Dates are integer milliseconds. `utcfromtimestamp` and time zones are not modelled.
  `strftime` is modelled only as cutting off the milliseconds.
- Text.Lower: lower-cases ASCII letters only; Python's `str.lower` also maps non-ASCII
  letters.
- FieldNames.ReturnFieldName: when a lookup of the editor, OBJECTID, accuracy, creator
  or timestamp field finds nothing, the scripts go on with `None` as the field name. The
  model passes those fields' values directly.
- The missing `-workers` argument, which raises `AttributeError` on `None`, is not
  modelled.
- The notebook's final report of OBJECTIDs is logging and is not modelled.
- MirrorLkl.FindInMirror: a mirror feature that lacks the global-id attribute (a
  `KeyError`) is not modelled. Mirror features are given by that attribute's value.
- PolygonCleanup.FormDonut: requires the rings to be distinct arrays. When one list
  object occurs twice, Python reverses it twice; that aliasing is not modelled.
- PolygonCleanup.FilterRings: what the donut means for the delete filter (selecting
  tracks outside the polygons) belongs to the geometry service and is not modelled. So
  are the portal check and the deletion.
- ArcadeExpression.BuildExpression: the branches are the `textwrap.dedent` result for
  values without line breaks. A quoted CSV value holding a line break would change
  dedent's common margin; that case is not modelled.
- Tracking.DistanceToSelf: only one direction is stated (identical points are at
  distance zero), not that distance zero implies identical points.
- Quoting or escaping of values spliced into where-clauses and Arcade text: the scripts
  do none, and the model splices them in verbatim.
- The dwell-time, track-export and geofence-notification scripts are not part of this
  model.

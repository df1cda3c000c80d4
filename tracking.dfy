/**
 * What both edit-location checks share: track records, planar distance, the time window
 * around an edit, the "tracks retained" count and the candidate-track filter.
 *
 * Instants are integers in milliseconds since the epoch, as the layers store them.
 * Coordinates are reals in the projected (Web Mercator) reference system the queries ask for.
 */
module Tracking {
  import Seqs

  datatype Point = Point(x: real, y: real)

  /** One location ping of a worker: who sent it, when, where, and how accurate it claims to be. */
  datatype Track = Track(creator: string, timestamp: int, location: Point, accuracy: real)

  /** A date attribute as read from a work order: the field may be absent, null, or hold an instant. */
  datatype DateAttr = NoField | Null | Millis(ms: int)

  /** The three tolerances of a run: minutes either side of the edit, metres, metres. */
  datatype Config = Config(timeTolerance: int, distTolerance: real, minAccuracy: real)

  /** Why a run ends early through `sys.exit`. */
  datatype ExitReason = NoWorkers | NoFeaturesToCheck | NotPointGeometry | DateFieldMissing

  /** How one work order comes out of the check. */
  datatype Verdict =
    | Fatal(reason: ExitReason)   // the run stops here
    | NoDate                      // the date attribute is empty: skipped
    | NoTracksRetained            // the retention count is zero: skipped
    | Corroborated                // some candidate track supports the edit
    | NotCorroborated             // reported as invalid

  // ---------------------------------------------------------------- distance

  /** The square of the planar Euclidean distance. */
  function SquaredDistance(p: Point, q: Point): (d: real)
    ensures d >= 0.0
  {
    (p.x - q.x) * (p.x - q.x) + (p.y - q.y) * (p.y - q.y)
  }

  /** Distance does not depend on the order of the two points. */
  lemma DistanceSymmetric(p: Point, q: Point)
    ensures SquaredDistance(p, q) == SquaredDistance(q, p)
  {
  }

  /** A point is at distance zero from itself. */
  lemma DistanceToSelf(p: Point)
    ensures SquaredDistance(p, p) == 0.0
  {
  }

  /** `distance(p, q) < tolerance`, decided on squares, with no square root. */
  predicate CloserThan(p: Point, q: Point, tolerance: real) {
    0.0 < tolerance && SquaredDistance(p, q) < tolerance * tolerance
  }

  /** Any positive tolerance admits the point itself. */
  lemma CloserThanSelf(p: Point, tolerance: real)
    requires tolerance > 0.0
    ensures CloserThan(p, p, tolerance)
  {
    DistanceToSelf(p);
    CloserThanIsDistanceBelow(p, p, tolerance, 0.0);
  }

  /**
   * The square-free test agrees with comparing the true distance: for the non-negative `d`
   * with `d * d` equal to the squared distance (what `math.sqrt` returns), `CloserThan`
   * holds exactly when `d < tolerance`, whatever the sign of the tolerance.
   */
  lemma CloserThanIsDistanceBelow(p: Point, q: Point, tolerance: real, d: real)
    requires d >= 0.0 && d * d == SquaredDistance(p, q)
    ensures CloserThan(p, q, tolerance) <==> d < tolerance
  {
    if 0.0 < tolerance {
      if d < tolerance {
        SquareBelow(d, tolerance);
      } else {
        SquareAtLeast(tolerance, d);
      }
    }
  }

  /** Multiplying both sides of a strict inequality by a positive number keeps it. */
  lemma MulPositive(k: real, a: real, b: real)
    requires k > 0.0 && a < b
    ensures a * k < b * k
  {
  }

  lemma SquareBelow(a: real, b: real)
    requires 0.0 <= a < b
    ensures a * a < b * b
  {
    MulPositive(b + a, 0.0, b - a);
    assert (b - a) * (b + a) == b * b - a * a;
  }

  lemma SquareAtLeast(a: real, b: real)
    requires 0.0 <= a <= b
    ensures a * a <= b * b
  {
  }

  // ---------------------------------------------------------------- time

  /**
   * The instant a `'%Y-%m-%d %H:%M:%S'` string denotes: the milliseconds are cut off
   * (towards the past, as `strftime` does for any instant).
   */
  function WholeSecond(ms: int): (r: int)
    ensures r <= ms < r + 1000 && r % 1000 == 0
  {
    (ms / 1000) * 1000
  }

  /** The first instant of the window around an edit, as the query text gives it. */
  function WindowStart(date: int, minutes: int): int {
    WholeSecond(date - minutes * 60000)
  }

  /** The last instant of the window around an edit, as the query text gives it. */
  function WindowEnd(date: int, minutes: int): int {
    WholeSecond(date + minutes * 60000)
  }

  // ---------------------------------------------------------------- track queries

  /** The "tracks retained" count query: tracks strictly before the end of the window. */
  function RetainedCount(tracks: seq<Track>, end: int): nat {
    |Seqs.Filter(tracks, (t: Track) => t.timestamp < end)|
  }

  /** The retention count is zero exactly when no track is older than `end`. */
  lemma RetainedCountZeroIff(tracks: seq<Track>, end: int)
    ensures RetainedCount(tracks, end) == 0 <==> forall t | t in tracks :: t.timestamp >= end
  {
    var kept := Seqs.Filter(tracks, (t: Track) => t.timestamp < end);
    Seqs.FilterMembers(tracks, (t: Track) => t.timestamp < end);
    if kept != [] {
      assert kept[0] in kept;
    }
  }

  /** The location query's conditions: same user, inside the window (both ends included), accurate enough. */
  predicate IsCandidate(t: Track, editor: string, start: int, end: int, minAccuracy: real) {
    t.creator == editor && start <= t.timestamp <= end && t.accuracy <= minAccuracy
  }

  /** The location query: the tracks that meet the candidate conditions, in layer order. */
  function Candidates(tracks: seq<Track>, editor: string, start: int, end: int, minAccuracy: real): seq<Track> {
    Seqs.Filter(tracks, (t: Track) => IsCandidate(t, editor, start, end, minAccuracy))
  }

  /** Exactly the candidates are returned, and in layer order. */
  lemma CandidatesExact(tracks: seq<Track>, editor: string, start: int, end: int, minAccuracy: real)
    ensures forall t | t in Candidates(tracks, editor, start, end, minAccuracy) :: t in tracks && IsCandidate(t, editor, start, end, minAccuracy)
    ensures forall t | t in tracks && IsCandidate(t, editor, start, end, minAccuracy) :: t in Candidates(tracks, editor, start, end, minAccuracy)
    ensures Seqs.IsSubsequence(Candidates(tracks, editor, start, end, minAccuracy), tracks)
  {
    var p := (t: Track) => IsCandidate(t, editor, start, end, minAccuracy);
    Seqs.FilterMembers(tracks, p);
    Seqs.FilterIsSubsequence(tracks, p);
  }

  /** A candidate is returned as often as it occurs in the layer; anything else never. */
  lemma CandidatesCount(tracks: seq<Track>, editor: string, start: int, end: int, minAccuracy: real, t: Track)
    ensures multiset(Candidates(tracks, editor, start, end, minAccuracy))[t] ==
      (if IsCandidate(t, editor, start, end, minAccuracy) then multiset(tracks)[t] else 0)
  {
    Seqs.FilterCount(tracks, (t: Track) => IsCandidate(t, editor, start, end, minAccuracy), t);
  }
}

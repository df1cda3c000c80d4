/**
 * `form_donut` from the polygon cleanup script: turn the union of the cleanup polygons
 * inside out, so that a spatial filter selects the tracks OUTSIDE them. Every ring of the
 * union is reversed in place (an outer, clockwise ring becomes a counter-clockwise hole)
 * and the whole Web Mercator world extent is appended as the new clockwise outer ring.
 *
 * The rings list is an object whose sequence of rings grows, and each ring is an array of
 * vertices that is reversed in place, as the script's lists are.
 */
module PolygonCleanup {

  /** A vertex in Web Mercator metres (spatial reference 3857). */
  datatype Vertex = Vertex(x: real, y: real)

  /** Half the width of the Web Mercator world. */
  const Extent: real := 20037508.3427892

  /** The world-extent ring the script appends: a closed square walked clockwise. */
  function WorldExtentRing(): (ring: seq<Vertex>)
    ensures |ring| == 5 && ring[0] == ring[4]
  {
    [Vertex(-Extent, -Extent), Vertex(-Extent, Extent), Vertex(Extent, Extent),
     Vertex(Extent, -Extent), Vertex(-Extent, -Extent)]
  }

  /** A ring read backwards. */
  function Reversed(ring: seq<Vertex>): (r: seq<Vertex>)
    ensures |r| == |ring|
    ensures forall k | 0 <= k < |ring| :: r[k] == ring[|ring| - 1 - k]
  {
    seq(|ring|, k requires 0 <= k < |ring| => ring[|ring| - 1 - k])
  }

  /** The rings after `form_donut`, as values: each ring reversed, in place, then the world extent. */
  function Donut(rings: seq<seq<Vertex>>): seq<seq<Vertex>> {
    seq(|rings|, i requires 0 <= i < |rings| => Reversed(rings[i])) + [WorldExtentRing()]
  }

  /** The polygon's list of rings; each ring is a mutable array of vertices. */
  class RingList {
    var items: seq<array<Vertex>>

    /** No ring array occurs twice in the list. */
    ghost predicate Valid()
      reads this
    {
      forall i, j | 0 <= i < j < |items| :: items[i] != items[j]
    }

    /** The vertices of every ring, in list order. */
    function Contents(): (rings: seq<seq<Vertex>>)
      reads this, items
      ensures |rings| == |items|
    {
      seq(|items|, i reads this, items requires 0 <= i < |items| => items[i][..])
    }

    /** A list holding the given ring arrays. */
    constructor(rings: seq<array<Vertex>>)
      requires forall i, j | 0 <= i < j < |rings| :: rings[i] != rings[j]
      ensures items == rings && Valid()
    {
      items := rings;
    }
  }

  /** `ring.reverse()`: swap from both ends towards the middle. */
  method ReverseRing(ring: array<Vertex>)
    modifies ring
    ensures ring[..] == Reversed(old(ring[..]))
  {
    var n := ring.Length;
    for i := 0 to n / 2
      invariant forall k | 0 <= k < i :: ring[k] == old(ring[n - 1 - k]) && ring[n - 1 - k] == old(ring[k])
      invariant forall k | i <= k < n - i :: ring[k] == old(ring[k])
    {
      ring[i], ring[n - 1 - i] := ring[n - 1 - i], ring[i];
    }
  }

  /**
   * `form_donut(rings)`: every ring of the list reversed in place, keeping its position,
   * then one new ring, the world extent, appended at the end; the list object itself is
   * returned.
   */
  method FormDonut(rings: RingList) returns (result: RingList)
    requires rings.Valid()
    modifies rings, rings.items
    ensures result == rings && rings.Valid()
    ensures |rings.items| == |old(rings.items)| + 1 && rings.items[..|old(rings.items)|] == old(rings.items)
    ensures fresh(rings.items[|rings.items| - 1])
    ensures rings.Contents() == Donut(old(rings.Contents()))
  {
    var n := |rings.items|;
    for i := 0 to n
      invariant rings.items == old(rings.items)
      invariant forall k | 0 <= k < i :: rings.items[k][..] == Reversed(old(rings.items[k][..]))
      invariant forall k | i <= k < n :: rings.items[k][..] == old(rings.items[k][..])
    {
      ReverseRing(rings.items[i]);
    }
    var world := new Vertex[5];
    world[0], world[1], world[2] := Vertex(-Extent, -Extent), Vertex(-Extent, Extent), Vertex(Extent, Extent);
    world[3], world[4] := Vertex(Extent, -Extent), Vertex(-Extent, -Extent);
    assert world[..] == WorldExtentRing();
    rings.items := rings.items + [world];
    result := rings;
  }

  /**
   * The cleanup's filter geometry: the union's rings are turned into a donut only when
   * the symmetric-difference flag is set, and are left untouched otherwise.
   */
  method FilterRings(symmetricDifference: bool, rings: RingList)
    requires rings.Valid()
    modifies rings, rings.items
    ensures rings.Valid()
    ensures rings.Contents() == if symmetricDifference then Donut(old(rings.Contents())) else old(rings.Contents())
  {
    if symmetricDifference {
      var _ := FormDonut(rings);
    }
  }

  // ---------------------------------------------------------------- properties of the donut

  /**
   * The shape of a donut: one ring more than before, the original rings at their old
   * positions, each reversed and of its old length, and the world extent last.
   */
  lemma DonutShape(rings: seq<seq<Vertex>>)
    ensures |Donut(rings)| == |rings| + 1
    ensures forall i | 0 <= i < |rings| :: |Donut(rings)[i]| == |rings[i]| && Reversed(Donut(rings)[i]) == rings[i]
    ensures Donut(rings)[|rings|] == WorldExtentRing()
  {
    forall i | 0 <= i < |rings|
      ensures Reversed(Donut(rings)[i]) == rings[i]
    {
      ReversedTwice(rings[i]);
    }
  }

  /** Reversing twice gives the ring back. */
  lemma ReversedTwice(ring: seq<Vertex>)
    ensures Reversed(Reversed(ring)) == ring
  {
  }

  /** Twice the signed area swept by the edge from `a` to `b` (a shoelace term). */
  function Cross(a: Vertex, b: Vertex): real {
    a.x * b.y - b.x * a.y
  }

  /** Twice the signed area of a ring, summed over its consecutive edges: negative when clockwise. */
  function Shoelace(ring: seq<Vertex>): real {
    if |ring| < 2 then 0.0 else Cross(ring[0], ring[1]) + Shoelace(ring[1..])
  }

  /** The appended world extent is walked clockwise: its signed area is negative. */
  lemma WorldExtentClockwise()
    ensures Shoelace(WorldExtentRing()) == -8.0 * Extent * Extent < 0.0
  {
    var w := WorldExtentRing();
    assert w[1..][1..][1..][1..] == [w[4]];
  }

  /**
   * Reversing a ring flips its orientation: the signed area changes sign, so a clockwise
   * outer ring becomes a counter-clockwise hole.
   */
  lemma {:induction false} ReversedFlipsOrientation(ring: seq<Vertex>)
    ensures Shoelace(Reversed(ring)) == -Shoelace(ring)
    decreases |ring|
  {
    if |ring| >= 2 {
      var init := ring[..|ring| - 1];
      var v := ring[|ring| - 1];
      assert ring == init + [v];
      ReversedFlipsOrientation(init);
      ShoelaceSnoc(init, v);
      var r := Reversed(init);
      assert Reversed(ring) == [v] + r;
      assert ([v] + r)[1..] == r;
      assert r[0] == init[|init| - 1];
    }
  }

  /** Adding a vertex at the end adds the shoelace term of the new last edge. */
  lemma {:induction false} ShoelaceSnoc(ring: seq<Vertex>, v: Vertex)
    requires |ring| >= 1
    ensures Shoelace(ring + [v]) == Shoelace(ring) + Cross(ring[|ring| - 1], v)
  {
    if |ring| >= 2 {
      assert (ring + [v])[1..] == ring[1..] + [v];
      ShoelaceSnoc(ring[1..], v);
    } else {
      assert (ring + [v])[1..] == [v];
    }
  }

  /**
   * Every ring of a donut but the last has the opposite orientation of the ring it came
   * from, and the last ring is clockwise.
   */
  lemma DonutOrientation(rings: seq<seq<Vertex>>)
    ensures forall i | 0 <= i < |rings| :: Shoelace(Donut(rings)[i]) == -Shoelace(rings[i])
    ensures Shoelace(Donut(rings)[|rings|]) < 0.0
  {
    forall i | 0 <= i < |rings|
      ensures Shoelace(Donut(rings)[i]) == -Shoelace(rings[i])
    {
      ReversedFlipsOrientation(rings[i]);
    }
    WorldExtentClockwise();
  }
}

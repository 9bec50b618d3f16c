/**
 The map view's render effect (my-app/app/components/MapComponent.tsx): for the
 current waypoint list it places one marker per waypoint, coloured and labelled
 by position, with a distance label to the next waypoint; and, when there are at
 least two waypoints, a connecting path and one direction arrow per segment.
 The great-circle distance is a parameter; the map library itself is not modelled.
 */
module Render {
  import opened Waypoints

  datatype Option<T> = None | Some(value: T)

  type Coord = (real, real)

  /** The distance between two positions, given as lat1, lng1, lat2, lng2. */
  type Distance = (real, real, real, real) -> real

  function CoordOf(w: Waypoint): Coord
  {
    (w.lat, w.lng)
  }

  /** The path's vertices, one per waypoint, in list order. */
  function Coords(wps: seq<Waypoint>): (cs: seq<Coord>)
    ensures |cs| == |wps|
    ensures forall i :: 0 <= i < |wps| ==> cs[i] == CoordOf(wps[i])
  {
    seq(|wps|, i requires 0 <= i < |wps| => CoordOf(wps[i]))
  }

  // ---------------------------------------------------------------------------
  // Classification by position

  /** Marker colour and popup title: start at index 0 and end at the last index, but only with two or more waypoints. */
  function MarkerKind(index: nat, n: nat): (k: Kind)
    ensures k == Start <==> index == 0 && n > 1
    ensures k == End <==> index == n - 1 && n > 1
    ensures n <= 1 ==> k == Intermediate
  {
    if index == 0 && n > 1 then Start
    else if index == n - 1 && n > 1 then End
    else Intermediate
  }

  /** There is at most one start and one end, they never coincide, and both exist exactly when there are two or more waypoints. */
  lemma StartEndUnique(n: nat)
    ensures forall i: nat, j: nat :: i < n && j < n && MarkerKind(i, n) == Start && MarkerKind(j, n) == Start ==> i == j
    ensures forall i: nat, j: nat :: i < n && j < n && MarkerKind(i, n) == End && MarkerKind(j, n) == End ==> i == j
    ensures forall i: nat :: i < n ==> !(MarkerKind(i, n) == Start && MarkerKind(i, n) == End)
    ensures (exists i: nat :: i < n && MarkerKind(i, n) == Start) <==> n > 1
    ensures (exists i: nat :: i < n && MarkerKind(i, n) == End) <==> n > 1
  {
    if n > 1 {
      assert MarkerKind(0, n) == Start;
      assert MarkerKind(n - 1, n) == End;
    }
  }

  /** On a list numbered 1..N the map's index-based kinds agree with the list panel's order-based kinds. */
  lemma KindsAgree(wps: seq<Waypoint>)
    requires Numbered(wps)
    ensures forall i :: 0 <= i < |wps| ==> MarkerKind(i, |wps|) == ListKind(wps[i].order, |wps|)
  {
  }

  /** Without the numbering the two can disagree: the first of two waypoints numbered 2, 1 is the map's start and the list's end. */
  lemma KindsDisagreeWhenMisnumbered(a: Waypoint, b: Waypoint)
    requires a.order == 2 && b.order == 1
    ensures MarkerKind(0, |[a, b]|) == Start
    ensures ListKind([a, b][0].order, |[a, b]|) == End
  {
  }

  // ---------------------------------------------------------------------------
  // Distance label

  /** The unit of the "Next:" label: metres below 1000, kilometres otherwise. */
  datatype DistanceLabel = Metres(metres: real) | Kilometres(km: real)

  function LabelFor(d: real): (l: DistanceLabel)
    ensures l.Metres? <==> d < 1000.0
    ensures l.Metres? ==> l.metres == d
    ensures l.Kilometres? ==> l.km * 1000.0 == d && l.km >= 1.0
  {
    if d < 1000.0 then Metres(d) else Kilometres(d / 1000.0)
  }

  // ---------------------------------------------------------------------------
  // The render model

  /** The segment from a waypoint to the next one, with its distance label. */
  datatype Leg = Leg(from: Coord, to: Coord, distanceLabel: DistanceLabel)

  /** One marker as the render effect places it. */
  datatype Marker = Marker(id: Id, at: Coord, order: int, kind: Kind, next: Option<Leg>)

  /** A direction arrow at the middle of a segment. */
  datatype Arrow = Arrow(from: Coord, to: Coord, mid: Coord)

  /** The marker for waypoint i: its id, position and number, its kind by index, and a leg to waypoint i + 1 unless it is last. */
  function MarkerAt(wps: seq<Waypoint>, i: nat, distance: Distance): (m: Marker)
    requires i < |wps|
    ensures m.id == wps[i].id && m.at == CoordOf(wps[i]) && m.order == wps[i].order
    ensures m.kind == Start <==> i == 0 && |wps| > 1
    ensures m.kind == End <==> i == |wps| - 1 && |wps| > 1
    ensures m.next.Some? <==> i < |wps| - 1
    ensures m.next.Some? ==> m.next.value.from == m.at && m.next.value.to == CoordOf(wps[i + 1])
  {
    var w := wps[i];
    var next :=
      if i < |wps| - 1 then
        var v := wps[i + 1];
        Some(Leg(CoordOf(w), CoordOf(v), LabelFor(distance(w.lat, w.lng, v.lat, v.lng))))
      else None;
    Marker(w.id, CoordOf(w), w.order, MarkerKind(i, |wps|), next)
  }

  /** The markers placed on the map, one per waypoint, in list order. */
  function Markers(wps: seq<Waypoint>, distance: Distance): (ms: seq<Marker>)
    ensures |ms| == |wps|
  {
    seq(|wps|, i requires 0 <= i < |wps| => MarkerAt(wps, i, distance))
  }

  /** The last position at which the id occurs. */
  function LastIndex(wps: seq<Waypoint>, x: Id): (i: nat)
    requires x in Ids(wps)
    ensures i < |wps| && wps[i].id == x
    ensures forall j :: i < j < |wps| ==> wps[j].id != x
    decreases |wps|
  {
    var n := |wps| - 1;
    if wps[n].id == x then n
    else
      assert x in Ids(wps[..n]) by {
        var k :| 0 <= k < |wps| && wps[k].id == x;
        assert wps[..n][k].id == x;
      }
      LastIndex(wps[..n], x)
  }

  /** The id-keyed marker table: each id maps to the marker of its last occurrence. */
  function MarkerTable(wps: seq<Waypoint>, distance: Distance): (t: map<Id, Marker>)
    ensures t.Keys == Ids(wps)
    ensures forall x :: x in t ==> t[x].id == x
  {
    map x | x in Ids(wps) :: MarkerAt(wps, LastIndex(wps, x), distance)
  }

  /** The arrow of one segment sits halfway between its endpoints. */
  function ArrowBetween(a: Coord, b: Coord): (r: Arrow)
    ensures r.from == a && r.to == b
    ensures r.mid.0 - a.0 == b.0 - r.mid.0 && r.mid.1 - a.1 == b.1 - r.mid.1
  {
    Arrow(a, b, ((a.0 + b.0) / 2.0, (a.1 + b.1) / 2.0))
  }

  /** One arrow per consecutive pair of path vertices. */
  function Arrows(cs: seq<Coord>): (arrows: seq<Arrow>)
    ensures |arrows| == if |cs| > 0 then |cs| - 1 else 0
  {
    seq(if |cs| > 0 then |cs| - 1 else 0, i requires 0 <= i < |cs| - 1 => ArrowBetween(cs[i], cs[i + 1]))
  }

  /** Everything one run of the render effect produces. */
  datatype Scene = Scene(placed: seq<Marker>, table: map<Id, Marker>, path: Option<seq<Coord>>, arrows: seq<Arrow>)

  function SceneFor(wps: seq<Waypoint>, distance: Distance): (sc: Scene)
    ensures |sc.placed| == |wps|
    ensures sc.table.Keys == Ids(wps)
    ensures sc.path.Some? <==> |wps| > 1
    ensures sc.path.Some? ==> sc.path.value == Coords(wps)
    ensures |sc.arrows| == if |wps| > 1 then |wps| - 1 else 0
  {
    if |wps| > 1 then
      Scene(Markers(wps, distance), MarkerTable(wps, distance), Some(Coords(wps)), Arrows(Coords(wps)))
    else
      Scene(Markers(wps, distance), MarkerTable(wps, distance), None, [])
  }

  /** A "Next:" label exists for index i exactly when i is not last, and it joins waypoint i to waypoint i + 1. */
  lemma NextSegmentPairing(wps: seq<Waypoint>, distance: Distance, i: nat)
    requires i < |wps|
    ensures SceneFor(wps, distance).placed[i].next.Some? <==> i < |wps| - 1
    ensures i < |wps| - 1 ==>
      var leg := SceneFor(wps, distance).placed[i].next.value;
      leg.from == CoordOf(wps[i]) && leg.to == CoordOf(wps[i + 1])
      && leg.distanceLabel == LabelFor(distance(wps[i].lat, wps[i].lng, wps[i + 1].lat, wps[i + 1].lng))
  {
  }

  /** Every waypoint gets a marker with its own id, position, number and positional kind. */
  lemma MarkersFollowList(wps: seq<Waypoint>, distance: Distance)
    ensures |SceneFor(wps, distance).placed| == |wps|
    ensures forall i :: 0 <= i < |wps| ==>
      var m := SceneFor(wps, distance).placed[i];
      m.id == wps[i].id && m.at == CoordOf(wps[i]) && m.order == wps[i].order && m.kind == MarkerKind(i, |wps|)
  {
  }

  /** The path exists exactly with two or more waypoints; the arrows then number one fewer, one per consecutive pair. */
  lemma PathAndArrows(wps: seq<Waypoint>, distance: Distance)
    ensures SceneFor(wps, distance).path.Some? <==> |wps| > 1
    ensures |SceneFor(wps, distance).arrows| == if |wps| > 1 then |wps| - 1 else 0
    ensures forall i :: 0 <= i < |SceneFor(wps, distance).arrows| ==>
      SceneFor(wps, distance).arrows[i].from == CoordOf(wps[i])
      && SceneFor(wps, distance).arrows[i].to == CoordOf(wps[i + 1])
  {
  }

  /** The table holds exactly the list's ids; with distinct ids it finds every placed marker by its id. */
  lemma TableByLastOccurrence(wps: seq<Waypoint>, distance: Distance)
    ensures SceneFor(wps, distance).table.Keys == Ids(wps)
    ensures Distinct(wps) ==>
      forall i :: 0 <= i < |wps| ==> SceneFor(wps, distance).table[wps[i].id] == SceneFor(wps, distance).placed[i]
  {
    var sc := SceneFor(wps, distance);
    if Distinct(wps) {
      forall i | 0 <= i < |wps| ensures sc.table[wps[i].id] == sc.placed[i] {
        assert wps[i].id in Ids(wps);
        var k := LastIndex(wps, wps[i].id);
        assert k == i;
      }
    }
  }

  /** Two waypoints with one id (two clicks in the same millisecond) leave only the second in the table. */
  lemma DuplicateIdKeepsLast(a: Waypoint, b: Waypoint, distance: Distance)
    requires a.id == b.id
    ensures SceneFor([a, b], distance).table == map[b.id := SceneFor([a, b], distance).placed[1]]
  {
    var wps := [a, b];
    assert Ids(wps) == {b.id};
    assert LastIndex(wps, b.id) == 1;
  }

  /** Last writer wins: a waypoint with no later occurrence of its id is what the table holds for that id. */
  lemma TableHoldsLastWriter(wps: seq<Waypoint>, distance: Distance, i: nat)
    requires i < |wps| && forall j :: i < j < |wps| ==> wps[j].id != wps[i].id
    ensures wps[i].id in MarkerTable(wps, distance)
    ensures MarkerTable(wps, distance)[wps[i].id] == MarkerAt(wps, i, distance)
  {
    assert wps[i].id in Ids(wps);
    var k := LastIndex(wps, wps[i].id);
    assert k == i;
  }

  /** In every page state the user can reach, the map's kinds agree with the list panel's labels. */
  lemma ReachableKindsAgree(events: seq<Event>)
    ensures var w := Run(Initial, events).waypoints;
      forall i :: 0 <= i < |w| ==> MarkerKind(i, |w|) == ListKind(w[i].order, |w|)
  {
    ReachableInv(events);
    KindsAgree(Run(Initial, events).waypoints);
  }

  // ---------------------------------------------------------------------------
  // The loops of the render effect

  /** The `forEach` over the waypoints: place each marker and record it under its id. */
  method BuildMarkers(wps: seq<Waypoint>, distance: Distance) returns (placed: seq<Marker>, table: map<Id, Marker>)
    ensures placed == Markers(wps, distance)
    ensures table == MarkerTable(wps, distance)
  {
    placed, table := [], map[];
    var k := 0;
    while k < |wps|
      invariant 0 <= k <= |wps|
      invariant |placed| == k
      invariant forall j :: 0 <= j < k ==> placed[j] == MarkerAt(wps, j, distance)
      invariant table.Keys == Ids(wps[..k])
      invariant forall x :: x in table ==> table[x] == MarkerAt(wps, LastIndex(wps[..k], x), distance)
    {
      var m := MarkerAt(wps, k, distance);
      TableStep(wps, k);
      placed := placed + [m];
      table := table[wps[k].id := m];
      k := k + 1;
    }
    assert wps[..k] == wps;
  }

  /** Extending the scanned prefix by one waypoint makes it the last occurrence of its id. */
  lemma TableStep(wps: seq<Waypoint>, k: nat)
    requires k < |wps|
    ensures Ids(wps[..k + 1]) == Ids(wps[..k]) + {wps[k].id}
    ensures forall x :: x in Ids(wps[..k]) && x != wps[k].id ==> LastIndex(wps[..k + 1], x) == LastIndex(wps[..k], x)
    ensures LastIndex(wps[..k + 1], wps[k].id) == k
  {
    var p, q := wps[..k], wps[..k + 1];
    assert q == p + [wps[k]];
    assert q[..k] == p;
    assert q[k].id == wps[k].id;
    forall x | x in Ids(q) ensures x in Ids(p) + {wps[k].id} {
      var i :| 0 <= i < |q| && q[i].id == x;
      if i < k { assert p[i].id == x; }
    }
    forall x | x in Ids(p) ensures x in Ids(q) {
      var i :| 0 <= i < |p| && p[i].id == x;
      assert q[i].id == x;
    }
  }

  /** The `for` loop over consecutive path vertices: one arrow per segment. */
  method BuildArrows(cs: seq<Coord>) returns (arrows: seq<Arrow>)
    ensures arrows == Arrows(cs)
  {
    arrows := [];
    var i := 0;
    while i + 1 < |cs|
      invariant 0 <= i <= (if |cs| > 0 then |cs| - 1 else 0)
      invariant |arrows| == i
      invariant forall j :: 0 <= j < i ==> arrows[j] == ArrowBetween(cs[j], cs[j + 1])
    {
      arrows := arrows + [ArrowBetween(cs[i], cs[i + 1])];
      i := i + 1;
    }
  }

  /** The map view's three refs: markers by id, the path, and the arrows. */
  class MapView {
    var markers: map<Id, Marker>
    var polyline: Option<seq<Coord>>
    var arrows: seq<Arrow>

    constructor ()
      ensures markers == map[] && polyline == None && arrows == []
    {
      markers, polyline, arrows := map[], None, [];
    }

    /** The `[waypoints]` effect: clear the refs, then rebuild them from the list; returns the markers placed. */
    method Render(wps: seq<Waypoint>, distance: Distance) returns (placed: seq<Marker>)
      modifies this
      ensures placed == SceneFor(wps, distance).placed
      ensures markers == SceneFor(wps, distance).table
      ensures polyline == SceneFor(wps, distance).path
      ensures arrows == SceneFor(wps, distance).arrows
    {
      markers := map[];
      polyline := None;
      arrows := [];
      var table;
      placed, table := BuildMarkers(wps, distance);
      markers := table;
      if |wps| > 1 {
        var cs := Coords(wps);
        polyline := Some(cs);
        var built := BuildArrows(cs);
        arrows := built;
      }
    }
  }
}

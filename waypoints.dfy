/**
 The mission planner's waypoint store (my-app/app/page.tsx): an ordered list of
 waypoints, each carrying a 1-based display number `order`, and the small
 mission status machine beside it. Every update is functional: a click appends,
 a removal filters by id and renumbers, a reset empties the list.
 */
module Waypoints {

  type Id = string

  /** A waypoint as the planner stores it. Coordinates are opaque values. */
  datatype Waypoint = Waypoint(id: Id, lat: real, lng: real, order: int)

  /** What identifies a waypoint to the user, apart from its number. */
  datatype Point = Point(id: Id, lat: real, lng: real)

  function PointOf(w: Waypoint): Point
  {
    Point(w.id, w.lat, w.lng)
  }

  /** The points of a list, in list order, with their numbers forgotten. */
  function Points(s: seq<Waypoint>): (ps: seq<Point>)
    ensures |ps| == |s|
  {
    seq(|s|, i requires 0 <= i < |s| => PointOf(s[i]))
  }

  /** The ids that occur in a list. */
  function Ids(s: seq<Waypoint>): set<Id>
  {
    set i | 0 <= i < |s| :: s[i].id
  }

  /** The store's invariant: `order` values are exactly 1..N by position. */
  predicate Numbered(s: seq<Waypoint>)
  {
    forall i :: 0 <= i < |s| ==> s[i].order == i + 1
  }

  // ---------------------------------------------------------------------------
  // Append on click

  /** handleMapClick: the new waypoint goes last, numbered one past the old length. */
  function Append(s: seq<Waypoint>, id: Id, lat: real, lng: real): (r: seq<Waypoint>)
    ensures |r| == |s| + 1 && r[..|s|] == s
    ensures r[|s|] == Waypoint(id, lat, lng, |s| + 1)
    ensures Points(r) == Points(s) + [Point(id, lat, lng)]
    ensures Numbered(s) ==> Numbered(r)
    ensures Ids(r) == Ids(s) + {id}
  {
    var r := s + [Waypoint(id, lat, lng, |s| + 1)];
    assert forall x :: x in Ids(r) ==> x in Ids(s) + {id} by {
      forall x | x in Ids(r) ensures x in Ids(s) + {id} {
        var i :| 0 <= i < |r| && r[i].id == x;
        if i < |s| { assert s[i].id == x; }
      }
    }
    assert r[|s|].id == id;
    assert forall x :: x in Ids(s) ==> x in Ids(r) by {
      forall x | x in Ids(s) ensures x in Ids(r) {
        var i :| 0 <= i < |s| && s[i].id == x;
        assert r[i].id == x;
      }
    }
    r
  }

  /** A run of clicks, one point per click, in click order. */
  function AppendAll(s: seq<Waypoint>, clicks: seq<Point>): seq<Waypoint>
    decreases |clicks|
  {
    if clicks == [] then s
    else AppendAll(Append(s, clicks[0].id, clicks[0].lat, clicks[0].lng), clicks[1..])
  }

  /** Any run of clicks keeps a well-numbered list well numbered and lists the clicked points after the old ones. */
  lemma {:induction false} AppendAllKeepsNumbering(s: seq<Waypoint>, clicks: seq<Point>)
    requires Numbered(s)
    ensures |AppendAll(s, clicks)| == |s| + |clicks|
    ensures Numbered(AppendAll(s, clicks))
    ensures Points(AppendAll(s, clicks)) == Points(s) + clicks
    decreases |clicks|
  {
    if clicks != [] {
      var c := clicks[0];
      var s' := Append(s, c.id, c.lat, c.lng);
      AppendAllKeepsNumbering(s', clicks[1..]);
      assert Points(s) + clicks == (Points(s) + [c]) + clicks[1..];
    }
  }

  /** N clicks on an empty map give the N clicked points numbered 1..N. */
  lemma ClicksFromEmpty(clicks: seq<Point>)
    ensures Numbered(AppendAll([], clicks))
    ensures Points(AppendAll([], clicks)) == clicks
  {
    AppendAllKeepsNumbering([], clicks);
    assert Points([]) + clicks == clicks;
  }

  // ---------------------------------------------------------------------------
  // Remove by id, then renumber

  /**
   How many waypoints of the list carry the id. The body is the definition:
   one for each position whose id equals the target, summed over the list.
   */
  function CountId(s: seq<Waypoint>, id: Id): (c: nat)
    ensures c <= |s|
    ensures c == 0 <==> id !in Ids(s)
    decreases |s|
  {
    if s == [] then 0
    else
      var rest := CountId(s[1..], id);
      assert Ids(s) == {s[0].id} + Ids(s[1..]) by { IdsCons(s); }
      (if s[0].id == id then 1 else 0) + rest
  }

  lemma IdsCons(s: seq<Waypoint>)
    requires s != []
    ensures Ids(s) == {s[0].id} + Ids(s[1..])
  {
    forall x | x in Ids(s) ensures x in {s[0].id} + Ids(s[1..]) {
      var i :| 0 <= i < |s| && s[i].id == x;
      if i > 0 { assert s[1..][i - 1].id == x; }
    }
    forall x | x in Ids(s[1..]) ensures x in Ids(s) {
      var i :| 0 <= i < |s[1..]| && s[1..][i].id == x;
      assert s[i + 1].id == x;
    }
  }

  /** The `filter` step of removeWaypoint: the waypoints whose id differs from the target. */
  function Without(s: seq<Waypoint>, id: Id): (r: seq<Waypoint>)
    ensures |r| == |s| - CountId(s, id)
    ensures forall w :: w in r <==> w in s && w.id != id
    ensures Ids(r) == Ids(s) - {id}
    decreases |s|
  {
    if s == [] then []
    else
      var rest := Without(s[1..], id);
      IdsCons(s);
      var r := (if s[0].id == id then [] else [s[0]]) + rest;
      assert s == [s[0]] + s[1..];
      if s[0].id == id then r
      else
        IdsCons(r);
        assert r[1..] == rest;
        r
  }

  /** Filtering distributes over concatenation, so survivors keep their relative order. */
  lemma {:induction false} WithoutConcat(a: seq<Waypoint>, b: seq<Waypoint>, id: Id)
    ensures Without(a + b, id) == Without(a, id) + Without(b, id)
    decreases |a|
  {
    if a == [] {
      assert a + b == b;
    } else {
      assert (a + b)[1..] == a[1..] + b;
      WithoutConcat(a[1..], b, id);
    }
  }

  /** Filtering a single waypoint keeps it exactly when its id differs. */
  lemma WithoutSingle(w: Waypoint, id: Id)
    ensures Without([w], id) == if w.id == id then [] else [w]
  {
    assert [w][1..] == [];
  }

  /** Filtering an id that does not occur returns the list itself. */
  lemma {:induction false} WithoutAbsent(s: seq<Waypoint>, id: Id)
    requires id !in Ids(s)
    ensures Without(s, id) == s
    decreases |s|
  {
    if s != [] {
      IdsCons(s);
      WithoutAbsent(s[1..], id);
      assert s == [s[0]] + s[1..];
    }
  }

  /** The `map` step of removeWaypoint: each waypoint gets its 1-based position as `order`. */
  function Renumber(f: seq<Waypoint>): (r: seq<Waypoint>)
    ensures |r| == |f|
    ensures Numbered(r)
    ensures Points(r) == Points(f)
    ensures Ids(r) == Ids(f)
  {
    var r := seq(|f|, i requires 0 <= i < |f| => f[i].(order := i + 1));
    assert forall i :: 0 <= i < |f| ==> r[i].id == f[i].id;
    r
  }

  /** Renumbering a list that is already numbered changes nothing. */
  lemma RenumberNumbered(s: seq<Waypoint>)
    requires Numbered(s)
    ensures Renumber(s) == s
  {
    assert forall i :: 0 <= i < |s| ==> Renumber(s)[i] == s[i];
  }

  /** removeWaypoint: drop the waypoints with the id, then renumber the survivors. */
  function Remove(s: seq<Waypoint>, id: Id): (r: seq<Waypoint>)
    ensures Numbered(r)
    ensures |r| == |s| - CountId(s, id) && |r| <= |s|
    ensures Points(r) == Points(Without(s, id))
    ensures Ids(r) == Ids(s) - {id}
  {
    Renumber(Without(s, id))
  }

  /** Removing an absent id keeps every point in place; on a numbered list it is the identity. */
  lemma RemoveAbsent(s: seq<Waypoint>, id: Id)
    requires id !in Ids(s)
    ensures |Remove(s, id)| == |s|
    ensures Points(Remove(s, id)) == Points(s)
    ensures Numbered(s) ==> Remove(s, id) == s
  {
    WithoutAbsent(s, id);
    if Numbered(s) {
      RenumberNumbered(s);
    }
  }

  /** Removing a present id makes the list strictly shorter. */
  lemma RemovePresent(s: seq<Waypoint>, id: Id)
    requires id in Ids(s)
    ensures |Remove(s, id)| < |s|
  {
  }

  /** Removing the same id twice is the same as removing it once. */
  lemma RemoveIdempotent(s: seq<Waypoint>, id: Id)
    ensures Remove(Remove(s, id), id) == Remove(s, id)
  {
    RemoveAbsent(Remove(s, id), id);
  }

  /** Removing the middle of three distinct waypoints leaves the other two, numbered 1 and 2. */
  lemma RemoveMiddleOfThree(a: Waypoint, b: Waypoint, c: Waypoint)
    requires a.id != b.id && c.id != b.id
    ensures Remove([a, b, c], b.id) == [a.(order := 1), c.(order := 2)]
  {
    var s := [a, b, c];
    assert s[1..] == [b, c] && s[1..][1..] == [c] && s[1..][1..][1..] == [];
    assert Without(s, b.id) == [a, c];
  }

  /** No id occurs twice: what the store would keep if every click brought a fresh id. */
  predicate Distinct(s: seq<Waypoint>)
  {
    forall i, j :: 0 <= i < j < |s| ==> s[i].id != s[j].id
  }

  /** Appending a waypoint whose id is new keeps the ids distinct. */
  lemma AppendKeepsDistinct(s: seq<Waypoint>, id: Id, lat: real, lng: real)
    requires Distinct(s) && id !in Ids(s)
    ensures Distinct(Append(s, id, lat, lng))
  {
    var r := Append(s, id, lat, lng);
    forall i, j | 0 <= i < j < |r| ensures r[i].id != r[j].id {
      if j == |s| {
        assert s[i].id in Ids(s);
      } else {
        assert r[i] == s[i] && r[j] == s[j];
      }
    }
  }

  /** A waypoint whose id is not in a distinct list may go in front of it. */
  lemma ConsKeepsDistinct(w: Waypoint, t: seq<Waypoint>)
    requires Distinct(t) && w.id !in Ids(t)
    ensures Distinct([w] + t)
  {
    var r := [w] + t;
    forall i, j | 0 <= i < j < |r| ensures r[i].id != r[j].id {
      assert r[j] == t[j - 1];
      if i == 0 {
        assert t[j - 1].id in Ids(t);
      } else {
        assert r[i] == t[i - 1];
      }
    }
  }

  /** The head of a distinct list does not occur in its tail. */
  lemma HeadNotInTail(s: seq<Waypoint>)
    requires s != [] && Distinct(s)
    ensures s[0].id !in Ids(s[1..])
  {
    forall k | 0 <= k < |s[1..]| ensures s[1..][k].id != s[0].id {
      assert s[1..][k] == s[k + 1];
    }
  }

  /** Filtering keeps the ids distinct. */
  lemma {:induction false} WithoutKeepsDistinct(s: seq<Waypoint>, id: Id)
    requires Distinct(s)
    ensures Distinct(Without(s, id))
    decreases |s|
  {
    if s != [] {
      var t := s[1..];
      assert Distinct(t) by {
        forall i, j | 0 <= i < j < |t| ensures t[i].id != t[j].id {
          assert t[i] == s[i + 1] && t[j] == s[j + 1];
        }
      }
      WithoutKeepsDistinct(t, id);
      var rest := Without(t, id);
      if s[0].id != id {
        HeadNotInTail(s);
        assert Ids(rest) == Ids(t) - {id};
        ConsKeepsDistinct(s[0], rest);
        assert Without(s, id) == [s[0]] + rest;
      } else {
        assert Without(s, id) == rest;
      }
    }
  }

  /** Removing keeps the ids distinct. */
  lemma RemoveKeepsDistinct(s: seq<Waypoint>, id: Id)
    requires Distinct(s)
    ensures Distinct(Remove(s, id))
  {
    var f := Without(s, id);
    WithoutKeepsDistinct(s, id);
    var r := Remove(s, id);
    forall i | 0 <= i < |r| ensures r[i].id == f[i].id {
      assert Points(r)[i] == Points(f)[i];
    }
  }

  // ---------------------------------------------------------------------------
  // List labels

  /** How a waypoint is presented: start, end or an intermediate "Waypoint k". */
  datatype Kind = Start | End | Intermediate

  /** The list panel's label and badge colour, chosen from `order` and the list length. */
  function ListKind(order: int, n: nat): (k: Kind)
    ensures k == Start <==> order == 1 && n > 1
    ensures k == End <==> order == n && n > 1
    ensures n <= 1 ==> k == Intermediate
  {
    if order == 1 && n > 1 then Start
    else if order == n && n > 1 then End
    else Intermediate
  }

  // ---------------------------------------------------------------------------
  // The planner state and its events

  datatype Status = Idle | Running | Completed

  /** The page's state, without the simulated telemetry. */
  datatype Planner = Planner(waypoints: seq<Waypoint>, status: Status)

  const Initial: Planner := Planner([], Idle)

  /** handleMapClick on the page: the list becomes the appended list, the status stays. */
  function Click(p: Planner, id: Id, lat: real, lng: real): (r: Planner)
    ensures r.waypoints == Append(p.waypoints, id, lat, lng)
    ensures r.status == p.status
    ensures Numbered(p.waypoints) ==> Numbered(r.waypoints)
  {
    p.(waypoints := Append(p.waypoints, id, lat, lng))
  }

  /** removeWaypoint on the page: the list becomes the filtered, renumbered list, the status stays. */
  function RemoveWaypoint(p: Planner, id: Id): (r: Planner)
    ensures r.waypoints == Remove(p.waypoints, id)
    ensures r.status == p.status
    ensures Numbered(r.waypoints)
  {
    p.(waypoints := Remove(p.waypoints, id))
  }

  /** handleReset: whatever the prior state, no waypoints and status idle. */
  function Reset(p: Planner): (r: Planner)
    ensures r.waypoints == [] && r.status == Idle
  {
    Initial
  }

  /** handleStartMission: running once there is a waypoint, otherwise no change. */
  function StartMission(p: Planner): (r: Planner)
    ensures r.waypoints == p.waypoints
    ensures |p.waypoints| > 0 ==> r.status == Running
    ensures |p.waypoints| == 0 ==> r == p
  {
    if |p.waypoints| > 0 then p.(status := Running) else p
  }

  /** The Start button is enabled only with waypoints and no mission running: exactly when pressing it would change the page state. */
  predicate StartEnabled(p: Planner)
    ensures StartEnabled(p) <==> StartMission(p) != p
  {
    |p.waypoints| > 0 && p.status != Running
  }

  /** What the user can do to the page. */
  datatype Event =
    | MapClicked(id: Id, lat: real, lng: real)
    | RemoveRequested(id: Id)
    | ResetPressed
    | StartPressed

  /** One user event: clicks and removals change only the list, reset restores the initial page, Start changes only the status. */
  function Step(p: Planner, e: Event): (r: Planner)
    ensures e.ResetPressed? ==> r == Initial
    ensures e.MapClicked? || e.RemoveRequested? ==> r.status == p.status
    ensures e.StartPressed? ==> r.waypoints == p.waypoints && (r.status == p.status || r.status == Running)
    ensures e.MapClicked? ==> r.waypoints == Append(p.waypoints, e.id, e.lat, e.lng)
    ensures e.RemoveRequested? ==> r.waypoints == Remove(p.waypoints, e.id)
    ensures e.MapClicked? ==> |r.waypoints| == |p.waypoints| + 1
    ensures e.RemoveRequested? ==> |r.waypoints| <= |p.waypoints| && Numbered(r.waypoints)
    ensures Numbered(p.waypoints) ==> Numbered(r.waypoints)
  {
    match e
    case MapClicked(id, lat, lng) => Click(p, id, lat, lng)
    case RemoveRequested(id) => RemoveWaypoint(p, id)
    case ResetPressed => Reset(p)
    case StartPressed => if StartEnabled(p) then StartMission(p) else p
  }

  function Run(p: Planner, events: seq<Event>): Planner
    decreases |events|
  {
    if events == [] then p else Run(Step(p, events[0]), events[1..])
  }

  /** What every reachable planner state satisfies. */
  predicate Inv(p: Planner)
  {
    Numbered(p.waypoints) && p.status != Completed
  }

  /** On the waypoints and the status, the button's disabled state never changes what pressing Start does. */
  lemma StartGateRedundant(p: Planner)
    ensures Step(p, StartPressed) == StartMission(p)
  {
  }

  /** Every event keeps the invariant. */
  lemma StepKeepsInv(p: Planner, e: Event)
    requires Inv(p)
    ensures Inv(Step(p, e))
  {
  }

  /** Any series of events keeps the invariant; from the initial state status `completed` is never reached. */
  lemma {:induction false} RunKeepsInv(p: Planner, events: seq<Event>)
    requires Inv(p)
    ensures Inv(Run(p, events))
    decreases |events|
  {
    if events != [] {
      StepKeepsInv(p, events[0]);
      RunKeepsInv(Step(p, events[0]), events[1..]);
    }
  }

  /** From the initial page state the list is always numbered 1..N and status `completed` never occurs. */
  lemma ReachableInv(events: seq<Event>)
    ensures Numbered(Run(Initial, events).waypoints)
    ensures Run(Initial, events).status != Completed
  {
    RunKeepsInv(Initial, events);
  }

  /** A mission keeps running after all of its waypoints have been removed. */
  lemma RunningWithoutWaypoints(id: Id, lat: real, lng: real)
    ensures Run(Initial, [MapClicked(id, lat, lng), StartPressed, RemoveRequested(id)])
         == Planner([], Running)
  {
    var evs := [MapClicked(id, lat, lng), StartPressed, RemoveRequested(id)];
    var w := [Waypoint(id, lat, lng, 1)];
    var p1 := Step(Initial, evs[0]);
    assert p1 == Planner(w, Idle);
    var p2 := Step(p1, evs[1]);
    assert p2 == Planner(w, Running);
    assert w[1..] == [];
    assert Without(w, id) == [];
    var p3 := Step(p2, evs[2]);
    assert p3 == Planner([], Running);
    assert evs[1..] == [StartPressed, RemoveRequested(id)];
    assert evs[1..][1..] == [RemoveRequested(id)];
    assert evs[1..][1..][1..] == [];
    calc {
      Run(Initial, evs);
      Run(p1, evs[1..]);
      Run(p2, evs[1..][1..]);
      Run(p3, evs[1..][1..][1..]);
      p3;
    }
  }
}

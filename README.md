# BO-AT mission planner: waypoint store and render classification

This project models the logic of the BO-AT mission planner, a single-page map UI
where a user clicks points on a map to build an ordered route of waypoints.

- `waypoints.dfy`, module `Waypoints`, models `my-app/app/page.tsx`. It holds
  the waypoint list `{id, lat, lng, order}` and its operations as pure
  functions over `seq<Waypoint>`:
  - a click appends a waypoint numbered one past the old length;
  - a removal filters out the target id, then renumbers the survivors by position;
  - a reset empties the list.
  It also models the mission status (`idle`, `running`, `completed`), the Start
  button's enabling rule, and the list panel's Start/End/"Waypoint k" label.
  A page is a `Planner` record `{waypoints, status}`. User events are
  `MapClicked`, `RemoveRequested`, `ResetPressed` and `StartPressed`, and
  `Run` folds a series of them over the record.
- `render.dfy`, module `Render`, models the `[waypoints]` render effect of
  `my-app/app/components/MapComponent.tsx`. For each waypoint it places a
  marker. Each marker gets a kind by index (start, end or intermediate: colour
  and popup title) and a "Next:" leg to the following waypoint with a metres or
  kilometres label. The marker is then recorded in an id-keyed table. With two
  or more waypoints the effect also draws a path and one arrow per consecutive
  pair. The two loops are methods (`BuildMarkers`, `BuildArrows`) proved
  against specification functions. The three refs of the component
  (`markersRef`, `polylineRef`, `arrowsRef`) are the fields of class `MapView`,
  which `MapView.Render` rebuilds.

Latitude and longitude are `real` values that the model never does arithmetic
on, except the arrow midpoint. Waypoint ids are parameters. The source makes an
id from the clock at click time. Two clicks in the same millisecond therefore
get the same id, so no property here assumes ids are distinct unless it says so.

Where the intended behaviour and the code differ, the model follows the code:

- Ids are meant to be unique. The code does not ensure it. The model allows
  duplicates and shows what follows: the marker table keeps only the last marker
  for an id (`Render.DuplicateIdKeepsLast`), and a removal drops every waypoint
  with that id. On the real map this goes further. Line 192 of
  `MapComponent.tsx` overwrites the earlier marker of a duplicated id, and the
  next render removes only the markers left in the table (lines 74-77). So the
  earlier marker is never taken off the map. The effect re-runs on every render
  of the page, because `removeWaypoint` is a new function each time (line 250).
  Stale markers therefore pile up, and they stay after the id is removed. The
  model keeps no state for the map's layers, so it does not show this leak.
  When every click brings a fresh id, the ids stay distinct
  (`Waypoints.AppendKeepsDistinct`, `Waypoints.RemoveKeepsDistinct`), and then
  the table finds every waypoint's own marker (`Render.TableByLastOccurrence`).
- The simulation timer is meant to stop on reset. In the code, the cleanup
  closure of `handleStartMission` is returned to an event handler that discards
  it, so the interval is never cleared. The timer is not part of this model.
- The status type has a third value, `completed`, that no code path sets
  (`Waypoints.ReachableInv`).

Also worth knowing about the code as it stands: removing the last waypoint
does not stop a running mission (`Waypoints.RunningWithoutWaypoints`).

## Model

| member | source | states |
|---|---|---|
| `Waypoints.Append` | my-app/app/page.tsx:41-53 | the list grows by one; the earlier waypoints are unchanged; the new one is last, with the given id and coordinates and number old length + 1; a list numbered 1..N becomes numbered 1..N+1; the id set gains the new id |
| `Waypoints.AppendAllKeepsNumbering` | my-app/app/page.tsx:41-51 | on a list numbered 1..N, any series of clicks gives a list numbered by position with the clicked points, in click order, after the old ones |
| `Waypoints.ClicksFromEmpty` | my-app/__tests__/utils.test.tsx:60-70 | N clicks from an empty list give exactly the N clicked points, numbered 1..N |
| `Waypoints.Without` | my-app/app/page.tsx:86 | the filter drops exactly the waypoints carrying the id: the length falls by their count; a waypoint survives iff it was present with another id; the id set loses exactly that id |
| `Waypoints.WithoutConcat` | my-app/app/page.tsx:86 | filtering distributes over concatenation, so survivors keep their relative order |
| `Waypoints.WithoutSingle` | my-app/app/page.tsx:86 | a single waypoint is kept exactly when its id differs from the target; with WithoutConcat this makes Without the filter |
| `Waypoints.WithoutAbsent` | my-app/app/page.tsx:86 | filtering an id that does not occur returns the list unchanged |
| `Waypoints.Renumber` | my-app/app/page.tsx:87-90 | the result is numbered 1..N by position whatever the input numbers; ids, coordinates and their order are kept |
| `Waypoints.RenumberNumbered` | my-app/app/page.tsx:87-90 | renumbering a list already numbered 1..N returns it unchanged |
| `Waypoints.Remove` | my-app/app/page.tsx:84-95 | after removal each waypoint's number is its 1-based position; the length is the old length minus the number of waypoints with the id, so never larger; survivors are the filtered list's points in order; the id set loses exactly the target |
| `Waypoints.RemoveAbsent` | my-app/app/page.tsx:84-95 | removing an absent id keeps the length, ids and coordinates; if the list was numbered 1..N it is returned unchanged |
| `Waypoints.RemovePresent` | my-app/app/page.tsx:86 | removing an id that occurs makes the list strictly shorter |
| `Waypoints.RemoveIdempotent` | my-app/app/page.tsx:84-95 | removing an id a second time changes nothing |
| `Waypoints.AppendKeepsDistinct` | my-app/app/page.tsx:41-51 | appending a waypoint with a new id to a list of distinct ids keeps the ids distinct |
| `Waypoints.WithoutKeepsDistinct` | my-app/app/page.tsx:86 | filtering a list of distinct ids keeps them distinct |
| `Waypoints.RemoveKeepsDistinct` | my-app/app/page.tsx:84-95 | removing from a list of distinct ids keeps them distinct |
| `Waypoints.RemoveMiddleOfThree` | my-app/__tests__/utils.test.tsx:72-90 | removing the middle one of three waypoints leaves the first and the third, numbered 1 and 2, the third last |
| `Waypoints.ListKind` | my-app/app/page.tsx:194-204 | the list label is Start iff order is 1 and there are two or more waypoints, End iff order equals the length and there are two or more; a lone waypoint is neither |
| `Waypoints.Click` | my-app/app/page.tsx:41-53 | a click makes the list exactly the appended list (`Append`), leaves the status alone and keeps the numbering invariant |
| `Waypoints.RemoveWaypoint` | my-app/app/page.tsx:84-95 | a removal makes the list exactly the filtered, renumbered list (`Remove`), leaves the status alone and always leaves the list numbered 1..N |
| `Waypoints.Reset` | my-app/app/page.tsx:72-82 | whatever the prior state, reset gives no waypoints and status idle |
| `Waypoints.StartMission` | my-app/app/page.tsx:55-57 | with at least one waypoint the status becomes running; with none the state is unchanged; the list is never touched |
| `Waypoints.StartEnabled` | my-app/app/page.tsx:131 | the Start button is enabled exactly when pressing it would change the page state: there are waypoints and no mission is running |
| `Waypoints.Step` | my-app/app/page.tsx:117-139 | one user event: a map click or removal changes only the list, to exactly `Append` or `Remove` of the old one (one longer, or no longer and numbered); reset restores the initial page; Start changes only the status, to running; numbering is kept |
| `Waypoints.StartGateRedundant` | my-app/app/page.tsx:129-131 | on the waypoints and the status, the button's disabled rule (no waypoints, or already running) never changes what pressing Start does |
| `Waypoints.StepKeepsInv` | my-app/app/page.tsx:41-95 | every user event keeps the list numbered 1..N and the status other than completed |
| `Waypoints.RunKeepsInv` | my-app/app/page.tsx:41-95 | any series of events keeps that invariant |
| `Waypoints.ReachableInv` | my-app/app/page.tsx:32-33 | from the initial page, the list is always numbered 1..N and status completed is never reached |
| `Waypoints.RunningWithoutWaypoints` | my-app/app/page.tsx:55-95 | click, start, then remove that waypoint gives an empty list with status still running |
| `Render.Coords` | my-app/app/components/MapComponent.tsx:196 | the path vertices are the waypoints' coordinates, one per waypoint, in list order |
| `Render.MarkerKind` | my-app/app/components/MapComponent.tsx:92-98 | index 0 is start iff the length is over 1; the last index is end iff the length is over 1; with one waypoint or none, everything is intermediate |
| `Render.StartEndUnique` | my-app/app/components/MapComponent.tsx:94-98 | there is at most one start and one end, they never coincide, and each exists exactly when the length is over 1 |
| `Render.KindsAgree` | my-app/app/components/MapComponent.tsx:160-162 | on a list numbered 1..N, the map's index-based kind of every waypoint equals the list panel's order-based kind |
| `Render.ReachableKindsAgree` | my-app/app/components/MapComponent.tsx:160-162 | in every page state reachable from the initial one by user events, the map's kinds agree with the list panel's labels |
| `Render.KindsDisagreeWhenMisnumbered` | my-app/app/components/MapComponent.tsx:94-98 | without the numbering invariant the two disagree: on two waypoints numbered 2, 1 the first is the map's start and the list's end |
| `Render.LabelFor` | my-app/app/components/MapComponent.tsx:131-139 | the label is in metres iff the distance is below 1000, carrying the distance; otherwise in kilometres, carrying distance / 1000, which is at least 1 |
| `Render.MarkerAt` | my-app/app/components/MapComponent.tsx:92-140 | marker i carries waypoint i's id, position and number; it is start iff i is 0 and end iff i is last, with two or more waypoints; it has a Next leg iff i is not last, from its own position to waypoint i+1 |
| `Render.Markers` | my-app/app/components/MapComponent.tsx:92-193 | one marker per waypoint |
| `Render.LastIndex` | my-app/app/components/MapComponent.tsx:192 | for a present id, the position where it occurs with no later occurrence |
| `Render.MarkerTable` | my-app/app/components/MapComponent.tsx:192 | the table's keys are exactly the list's ids, and each id maps to a marker carrying that id |
| `Render.ArrowBetween` | my-app/app/components/MapComponent.tsx:207-211 | the arrow of a segment joins its two endpoints and sits halfway between them in both coordinates |
| `Render.SceneFor` | my-app/app/components/MapComponent.tsx:92-238 | the effect's output has one marker per waypoint, a table keyed by the list's ids, a path through the waypoints' coordinates iff there are two or more, and then one arrow fewer than waypoints |
| `Render.Arrows` | my-app/app/components/MapComponent.tsx:206 | one arrow fewer than vertices, none for an empty path |
| `Render.NextSegmentPairing` | my-app/app/components/MapComponent.tsx:126-140 | marker i has a Next leg iff i is not last; the leg runs from waypoint i to waypoint i+1 and carries the unit label of their distance |
| `Render.MarkersFollowList` | my-app/app/components/MapComponent.tsx:92-193 | the placed markers follow the list: marker i has waypoint i's id, position and number and its positional kind |
| `Render.PathAndArrows` | my-app/app/components/MapComponent.tsx:195-238 | a path exists iff the length is over 1; the arrows then number length - 1, arrow i joins waypoint i to waypoint i+1; otherwise there are none |
| `Render.TableByLastOccurrence` | my-app/app/components/MapComponent.tsx:192 | the marker table's keys are exactly the list's ids; with distinct ids, looking up any waypoint's id gives its own marker |
| `Render.DuplicateIdKeepsLast` | my-app/app/components/MapComponent.tsx:192 | two waypoints with one id leave only the second's marker in the table |
| `Render.TableHoldsLastWriter` | my-app/app/components/MapComponent.tsx:192 | any waypoint whose id does not occur later in the list is the one whose marker the table holds for that id |
| `Render.BuildMarkers` | my-app/app/components/MapComponent.tsx:92-193 | the forEach loop places exactly the specified markers in list order and builds exactly the specified id table |
| `Render.BuildArrows` | my-app/app/components/MapComponent.tsx:206-238 | the for loop builds exactly one arrow per consecutive pair of vertices |
| `Render.MapView.constructor` | my-app/app/components/MapComponent.tsx:23-25 | the refs start empty: no markers, no path, no arrows |
| `Render.MapView.Render` | my-app/app/components/MapComponent.tsx:68-243 | the effect returns the placed markers and sets the marker table, path and arrows to exactly the scene computed from the list |

## Left out

- Great-circle (haversine) distance (MapComponent.tsx:53-66): floating-point trigonometry; it is a parameter `distance` of the render model.
- Arrow angle by `atan2` (MapComponent.tsx:213): floating-point trigonometry; an arrow records its two endpoints and midpoint only.
- The midpoint is computed in exact real arithmetic, not IEEE doubles.
- Number formatting (`toFixed`, `Math.round`) for coordinates, the distance value and the metrics: float-to-text conversion. Only the metres/kilometres branch is modelled.
- Render.LabelFor: does not round metres to whole numbers or kilometres to two decimals, because that is display formatting of a float.
- The exact label strings ("Start" and "Start Point", badge and marker colours): the model keeps the classification they are chosen by.
- Waypoints.StartGateRedundant: holds on the waypoints and the status only. In the code the disabled rule also stops a second press while running from starting another telemetry interval (page.tsx:59-66) that is never cleared; the timer is not modelled.
- The early exit of the render effect when the map is not yet created (MapComponent.tsx:69): it never fires after mount, because the map is created by the first effect (lines 28-51), which runs before it.
- Stale markers left on the map for duplicated ids (MapComponent.tsx:74-77, 192): the model keeps no state for the map's layers, so `MapView.Render` starts from an empty table and cannot show markers that the cleanup misses.
- Telemetry simulation (page.tsx:58-66, 75-80): random, timer-driven float updates.
- Id generation from the clock (page.tsx:44): a clock read, so ids are inputs.
- Leaflet map creation, tile layer, click subscription, marker and popup HTML, `fitBounds`, removal of the previous layers (MapComponent.tsx:27-51, 73-89, 100-124, 142-191, 198-204, 240-242): calls into the map library. The render model records what is placed, not the library state.
- The `window.removeWaypoint` global callback (MapComponent.tsx:245-249): browser global state used to wire events.
- Console logging, React state hooks, dynamic import, JSX and styling.

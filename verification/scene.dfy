/**
 The module-level state of main.js and the three things that change it: the
 `btn` click that creates a cylinder, the radius `input` events handled by
 `updateNewGeometry`, and one call of `tick`.

 Only the most recently created cylinder is tracked (the `cylinder`
 variable); earlier ones stay in the scene and nothing edits them again, so
 the model keeps only the one that a creation retires.
 */
module Scene {
  import opened Options
  import Radius
  import opened Segments
  import opened Highlight
  import opened Viewport

  /** The number of radial segments every cylinder geometry is built with. */
  const RadialSegments: nat := 32

  /**
   The geometry handle, with the arguments in the order the source passes
   them to the library's cylinder geometry: base width, top width, height,
   radial segments.
   */
  datatype Geometry = Geometry(baseWidth: real, topWidth: real, height: real, radialSegments: nat)

  function GeometryOf(s: Segment): Geometry {
    Geometry(s.baseRadius, s.topRadius, s.height, RadialSegments)
  }

  /** The mesh: its attached record, current geometry, position and material colour. */
  datatype Cylinder = Cylinder(data: Segment, geometry: Geometry, position: Vec3, colour: Colour)

  /**
   The module-level state: the tracked cylinder (`undefined` before the first
   creation), whether `currentIntersect` is non-null, and how many geometries
   have been disposed so far.
   */
  datatype App = App(cylinder: Option<Cylinder>, intersecting: bool, disposed: nat)

  /** The state when the page has loaded. */
  const Start: App := App(None, false, 0)

  /** A cylinder whose geometry and position agree with its record. */
  predicate WellFormed(c: Cylinder) {
    && Valid(c.data)
    && c.geometry == GeometryOf(c.data)
    && c.position == Midpoint(c.data.startPoint, c.data.endPoint)
  }

  /**
   The invariant of the page: with no cylinder nothing is hovered; with one,
   it is well formed and shows red exactly when `currentIntersect` is set.
   */
  predicate PageConsistent(app: App) {
    match app.cylinder
    case None => !app.intersecting
    case Some(c) => WellFormed(c) && Consistent(State(app.intersecting, c.colour))
  }

  /** A creation's outcome: the new page state and the cylinder it stopped tracking. */
  datatype Created = Created(app: App, retired: Option<Cylinder>)

  /** The fresh cylinder the `btn` handler builds: cyan, placed at the midpoint. */
  function Build(start: Vec3, end: Vec3, baseRaw: Radius.Parsed, topRaw: Radius.Parsed,
                 distance: real): (c: Cylinder)
    requires IsDistance(distance, start, end)
    ensures WellFormed(c) && c.colour == Cyan
    ensures c.data == NewSegment(start, end, baseRaw, topRaw, distance)
  {
    var s := NewSegment(start, end, baseRaw, topRaw, distance);
    Cylinder(s, GeometryOf(s), Midpoint(start, end), Cyan)
  }

  /**
   The `btn` handler as the source writes it: the new cylinder replaces the
   tracked one, and `currentIntersect` is left as it was. The retired
   cylinder keeps whatever colour it had.
   */
  function CommitAsWritten(app: App, start: Vec3, end: Vec3, baseRaw: Radius.Parsed,
                           topRaw: Radius.Parsed, distance: real): (r: Created)
    requires IsDistance(distance, start, end)
    ensures r.app.cylinder == Some(Build(start, end, baseRaw, topRaw, distance))
    ensures r.app.intersecting == app.intersecting && r.app.disposed == app.disposed
    ensures r.retired == app.cylinder
  {
    Created(App(Some(Build(start, end, baseRaw, topRaw, distance)), app.intersecting, app.disposed),
            app.cylinder)
  }

  /**
   The `btn` handler with the hover state carried over correctly: a hovered
   cylinder that is being retired gets its cyan back, and `currentIntersect`
   starts over as null for the new one.
   */
  function Commit(app: App, start: Vec3, end: Vec3, baseRaw: Radius.Parsed,
                  topRaw: Radius.Parsed, distance: real): (r: Created)
    requires IsDistance(distance, start, end)
    ensures r.app.cylinder == Some(Build(start, end, baseRaw, topRaw, distance))
    ensures !r.app.intersecting && r.app.disposed == app.disposed
    ensures r.retired.Some? <==> app.cylinder.Some?
    ensures r.retired.Some? ==> r.retired.value.data == app.cylinder.value.data
    ensures PageConsistent(app) && r.retired.Some? ==> r.retired.value.colour == Cyan
    ensures PageConsistent(r.app)
  {
    var retired :=
      match app.cylinder
      case None => None
      case Some(c) => if app.intersecting then Some(c.(colour := Cyan)) else Some(c);
    Created(App(Some(Build(start, end, baseRaw, topRaw, distance)), false, app.disposed), retired)
  }

  /**
   `updateNewGeometry`: nothing without a cylinder; otherwise the radii are
   re-read and sanitised, a geometry with the stored height replaces the old
   one (which is disposed), and the record takes the new radii.
   */
  function UpdateNewGeometry(app: App, baseRaw: Radius.Parsed, topRaw: Radius.Parsed): (r: App)
    ensures app.cylinder.None? ==> r == app
    ensures app.cylinder.Some? ==>
      && r.cylinder.Some?
      && r.cylinder.value.data == WithRadii(app.cylinder.value.data, baseRaw, topRaw)
      && r.cylinder.value.geometry
         == Geometry(Radius.ValidRadius(baseRaw), Radius.ValidRadius(topRaw),
                     app.cylinder.value.data.height, RadialSegments)
      && r.cylinder.value.position == app.cylinder.value.position
      && r.cylinder.value.colour == app.cylinder.value.colour
      && r.intersecting == app.intersecting
      && r.disposed == app.disposed + 1
    ensures PageConsistent(app) ==> PageConsistent(r)
  {
    match app.cylinder
    case None => app
    case Some(c) =>
      var s := WithRadii(c.data, baseRaw, topRaw);
      App(Some(c.(data := s, geometry := GeometryOf(s))), app.intersecting, app.disposed + 1)
  }

  /** Two equal edits leave the same cylinder as one, at the price of one more disposal. */
  lemma UpdateIdempotent(app: App, baseRaw: Radius.Parsed, topRaw: Radius.Parsed)
    ensures UpdateNewGeometry(UpdateNewGeometry(app, baseRaw, topRaw), baseRaw, topRaw).cylinder
            == UpdateNewGeometry(app, baseRaw, topRaw).cylinder
  {
    if app.cylinder.Some? {
      WithRadiiIdempotent(app.cylinder.value.data, baseRaw, topRaw);
    }
  }

  /** What `tick` reads each frame besides the state: the ray result and the projected endpoints. */
  datatype FrameInput = FrameInput(hit: bool, startNdc: Point2, endNdc: Point2, rect: Rect)

  /** Pixel positions of the start and end labels. */
  datatype Labels = Labels(start: Point2, end: Point2)

  datatype TickResult = TickResult(app: App, writes: seq<Colour>, labels: Option<Labels>)

  /**
   One `tick`: with no cylinder nothing happens. Otherwise the highlight steps
   on the ray result and both labels are placed at the pixel positions of the
   projected endpoints, whether or not the ray hit.
   */
  function Tick(app: App, input: FrameInput): (r: TickResult)
    ensures app.cylinder.None? ==> r == TickResult(app, [], None)
    ensures app.cylinder.Some? ==>
      && r.app.cylinder.Some?
      && r.app.cylinder.value == app.cylinder.value.(colour := r.app.cylinder.value.colour)
      && r.app.disposed == app.disposed
      && r.app.intersecting == input.hit
      && r.app.cylinder.value.colour == Paint(app.cylinder.value.colour, r.writes)
      && |r.writes| <= 1
      && (app.intersecting == input.hit ==> r.writes == [])
      && (r.writes == [Red] <==> !app.intersecting && input.hit)
      && (r.writes == [Cyan] <==> app.intersecting && !input.hit)
      && r.labels == Some(Labels(ToPixel(input.startNdc, input.rect), ToPixel(input.endNdc, input.rect)))
    ensures PageConsistent(app) ==> PageConsistent(r.app)
  {
    match app.cylinder
    case None => TickResult(app, [], None)
    case Some(c) =>
      var f := Step(State(app.intersecting, c.colour), input.hit);
      TickResult(App(Some(c.(colour := f.next.colour)), f.next.intersecting, app.disposed),
                 f.writes,
                 Some(Labels(ToPixel(input.startNdc, input.rect), ToPixel(input.endNdc, input.rect))))
  }

  /** The user actions and frames that drive the page. */
  datatype Event =
    | Create(start: Vec3, end: Vec3, baseRaw: Radius.Parsed, topRaw: Radius.Parsed, distance: real)
    | Edit(baseRaw: Radius.Parsed, topRaw: Radius.Parsed)
    | Frame(input: FrameInput)

  /** A creation carries the true distance between its endpoints. */
  predicate Admissible(e: Event) {
    e.Create? ==> IsDistance(e.distance, e.start, e.end)
  }

  function Apply(app: App, e: Event): (r: App)
    requires Admissible(e)
  {
    match e
    case Create(s, t, b, p, d) => Commit(app, s, t, b, p, d).app
    case Edit(b, p) => UpdateNewGeometry(app, b, p)
    case Frame(input) => Tick(app, input).app
  }

  function Replay(app: App, events: seq<Event>): (r: App)
    requires forall i :: 0 <= i < |events| ==> Admissible(events[i])
    decreases |events|
  {
    if |events| == 0 then app else Replay(Apply(app, events[0]), events[1..])
  }

  /** Every sequence of creations, edits and frames from page load keeps the page invariant. */
  lemma {:induction false} ReplayConsistent(app: App, events: seq<Event>)
    requires PageConsistent(app)
    requires forall i :: 0 <= i < |events| ==> Admissible(events[i])
    ensures PageConsistent(Replay(app, events))
    decreases |events|
  {
    if |events| > 0 {
      var next := Apply(app, events[0]);
      assert PageConsistent(next);
      ReplayConsistent(next, events[1..]);
    }
  }

  /** One event with creation as the source writes it. */
  function ApplyAsWritten(app: App, e: Event): (r: App)
    requires Admissible(e)
  {
    match e
    case Create(s, t, b, p, d) => CommitAsWritten(app, s, t, b, p, d).app
    case Edit(b, p) => UpdateNewGeometry(app, b, p)
    case Frame(input) => Tick(app, input).app
  }

  function ReplayAsWritten(app: App, events: seq<Event>): (r: App)
    requires forall i :: 0 <= i < |events| ==> Admissible(events[i])
    decreases |events|
  {
    if |events| == 0 then app else ReplayAsWritten(ApplyAsWritten(app, events[0]), events[1..])
  }

  /** Along the source's replay, no creation happens while `currentIntersect` is set. */
  predicate CreatesUnhovered(app: App, events: seq<Event>)
    requires forall i :: 0 <= i < |events| ==> Admissible(events[i])
    decreases |events|
  {
    |events| == 0
    || ((events[0].Create? ==> !app.intersecting)
        && CreatesUnhovered(ApplyAsWritten(app, events[0]), events[1..]))
  }

  /**
   Away from the hover state the two creations agree: with nothing hovered
   the source's creation is the corrected one.
   */
  lemma CommitAgreesUnhovered(app: App, start: Vec3, end: Vec3, baseRaw: Radius.Parsed,
                              topRaw: Radius.Parsed, distance: real)
    requires IsDistance(distance, start, end)
    requires !app.intersecting
    ensures CommitAsWritten(app, start, end, baseRaw, topRaw, distance).app
            == Commit(app, start, end, baseRaw, topRaw, distance).app
  {
  }

  /**
   The source's own event handling keeps the page invariant as long as no
   creation happens while a cylinder is hovered.
   */
  lemma {:induction false} ReplayAsWrittenConsistent(app: App, events: seq<Event>)
    requires PageConsistent(app)
    requires forall i :: 0 <= i < |events| ==> Admissible(events[i])
    requires CreatesUnhovered(app, events)
    ensures PageConsistent(ReplayAsWritten(app, events))
    decreases |events|
  {
    if |events| > 0 {
      var next := ApplyAsWritten(app, events[0]);
      if events[0].Create? {
        var e := events[0];
        CommitAgreesUnhovered(app, e.start, e.end, e.baseRaw, e.topRaw, e.distance);
      }
      assert PageConsistent(next);
      ReplayAsWrittenConsistent(next, events[1..]);
    }
  }

  lemma StartConsistent()
    ensures PageConsistent(Start)
  {
  }

  /**
   The source's creation while a cylinder is hovered: the retired cylinder is
   left red for good, and the new one, though the next frame's ray hits it,
   stays cyan with no write, because `currentIntersect` was never cleared.
   */
  lemma StaleHighlightAsWritten(app: App, start: Vec3, end: Vec3, baseRaw: Radius.Parsed,
                                topRaw: Radius.Parsed, distance: real, input: FrameInput)
    requires IsDistance(distance, start, end)
    requires PageConsistent(app) && app.intersecting
    requires input.hit
    ensures var c := CommitAsWritten(app, start, end, baseRaw, topRaw, distance);
            && c.retired.value.colour == Red
            && !PageConsistent(c.app)
            && Tick(c.app, input).writes == []
            && Tick(c.app, input).app.intersecting
            && Tick(c.app, input).app.cylinder.value.colour == Cyan
  {
  }

  /** With the corrected creation the retired cylinder is cyan and the next hit turns the new one red. */
  lemma FreshHighlight(app: App, start: Vec3, end: Vec3, baseRaw: Radius.Parsed,
                       topRaw: Radius.Parsed, distance: real, input: FrameInput)
    requires IsDistance(distance, start, end)
    requires PageConsistent(app) && app.intersecting
    requires input.hit
    ensures var c := Commit(app, start, end, baseRaw, topRaw, distance);
            && c.retired.value.colour == Cyan
            && PageConsistent(c.app)
            && Tick(c.app, input).writes == [Red]
            && Tick(c.app, input).app.cylinder.value.colour == Red
  {
  }

  /** A hovered state is reachable: create a cylinder, then let the ray hit it. */
  lemma HoverReachable(start: Vec3, end: Vec3, baseRaw: Radius.Parsed,
                       topRaw: Radius.Parsed, distance: real, input: FrameInput)
    requires IsDistance(distance, start, end)
    requires input.hit
    ensures var a := Tick(Commit(Start, start, end, baseRaw, topRaw, distance).app, input).app;
            PageConsistent(a) && a.intersecting
  {
  }
}

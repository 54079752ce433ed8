/**
 * The control polygon of the bat's Bezier path and the mouse interaction
 * that edits it (main.cpp:84-86, 140-173, 209-218): four control points,
 * the last cursor position, an optional selected point, and the uploads of
 * the points to the line mesh's vertex buffer. The selection is an index
 * into the points where the source keeps a pointer into the vector.
 */
module ControlPoints {
  import opened Geometry

  datatype Option<T> = None | Some(value: T)

  /** `POINTSIZE` (main.cpp:30), the drawn size of a control point in pixels. */
  const PointSize: real := 10.0

  /** The window is `width` by `height` pixels (main.cpp:7). */
  const WindowWidth: int := 720
  const WindowHeight: int := 720

  /** `GLFW_MOUSE_BUTTON_LEFT`. */
  const LeftButton: int := 0

  /** `POINTSIZE / std::min(width, height)` (main.cpp:158): how close, in clip units, a press must be to pick a point. */
  const PickRadius: real := PointSize / (if WindowWidth <= WindowHeight then WindowWidth else WindowHeight) as real

  /** With the 720 by 720 window the pick radius is 10/720 = 1/72 of a clip unit. */
  lemma PickRadiusValue()
    ensures PickRadius == 10.0 / 720.0 && 0.0 < PickRadius < 1.0
  {
  }

  /** The four points `init` pushes, in order (main.cpp:210-213). */
  function InitialPoints(): (pts: seq<Point>)
    ensures |pts| == 4
    ensures forall i :: 0 <= i < |pts| ==> -1.0 < pts[i].x < 1.0 && -1.0 < pts[i].y < 1.0
    ensures forall i, j :: 0 <= i < j < |pts| ==> pts[i] != pts[j]
  {
    [Point(-0.7, -0.2), Point(-0.3, 0.2), Point(0.3, 0.5), Point(0.7, 0.0)]
  }

  /**
   * The cursor at pixel `(mx, my)` in clip coordinates (main.cpp:142):
   * pixel x grows to the right and y downwards, clip x and y run from -1
   * to 1 with y upwards.
   */
  function ToClip(mx: real, my: real): (p: Point)
    ensures 0.0 <= mx <= WindowWidth as real ==> -1.0 <= p.x <= 1.0
    ensures 0.0 <= my <= WindowHeight as real ==> -1.0 <= p.y <= 1.0
  {
    var d := Sub(Point(mx / WindowWidth as real, -my / WindowHeight as real), Point(0.5, -0.5));
    Point(2.0 * d.x, 2.0 * d.y)
  }

  /** The window's corners and centre land on the corners and centre of the clip square. */
  lemma ToClipCorners()
    ensures ToClip(0.0, 0.0) == Point(-1.0, 1.0)
    ensures ToClip(WindowWidth as real, WindowHeight as real) == Point(1.0, -1.0)
    ensures ToClip(WindowWidth as real / 2.0, WindowHeight as real / 2.0) == Origin
  {
  }

  /** Point `v` is close enough to the cursor `c` to be picked: its distance, squared, is below the squared radius. */
  predicate Within(v: Point, c: Point): (b: bool)
    ensures v == c ==> b
    ensures b ==> -PickRadius < v.x - c.x < PickRadius && -PickRadius < v.y - c.y < PickRadius
  {
    var d := Sub(v, c);
    var sx, sy := d.x * d.x, d.y * d.y;
    SquareSign(d.x, sx);
    SquareSign(d.y, sy);
    AxisBelowRadius(d.x, sx);
    AxisBelowRadius(d.y, sy);
    SquaredNorm(d) < PickRadius * PickRadius
  }

  /** A coordinate whose square is below the squared radius is within the radius either side. */
  lemma AxisBelowRadius(a: real, s: real)
    requires s == a * a
    ensures s < PickRadius * PickRadius ==> -PickRadius < a < PickRadius
  {
    if s < PickRadius * PickRadius {
      var m := if a >= 0.0 then a else -a;
      assert m * m == s;
      NormBelowRadius(m, PickRadius);
    }
  }

  /**
   * `Within` is the source's test `(v - c).norm() < PickRadius`: for the
   * norm `n`, the non-negative root of the squared norm, the two agree.
   */
  lemma WithinIsNormBelowRadius(v: Point, c: Point, n: real)
    requires n >= 0.0 && n * n == SquaredNorm(Sub(v, c))
    ensures Within(v, c) <==> n < PickRadius
  {
    NormBelowRadius(n, PickRadius);
  }

  /**
   * The index of the first point, in storage order, within the pick
   * radius of `c`, or `None` when there is none.
   */
  function FirstWithin(points: seq<Point>, c: Point): (r: Option<nat>)
    ensures r.Some? ==> r.value < |points| && Within(points[r.value], c)
    ensures r.Some? ==> forall j :: 0 <= j < r.value ==> !Within(points[j], c)
    ensures r.None? <==> forall j :: 0 <= j < |points| ==> !Within(points[j], c)
  {
    if |points| == 0 then None
    else if Within(points[0], c) then Some(0)
    else match FirstWithin(points[1..], c)
      case None => None
      case Some(i) => Some(i + 1)
  }

  /** The search loop of the press handler (main.cpp:156-162), stopping at the first hit. */
  method HitTest(points: seq<Point>, cursor: Point) returns (selection: Option<nat>)
    ensures selection.Some? ==> selection.value < |points| && Within(points[selection.value], cursor)
    ensures selection.Some? ==> forall j :: 0 <= j < selection.value ==> !Within(points[j], cursor)
    ensures selection.None? ==> forall j :: 0 <= j < |points| ==> !Within(points[j], cursor)
    ensures selection == FirstWithin(points, cursor)
  {
    selection := None;
    var i := 0;
    while i < |points|
      invariant 0 <= i <= |points| && selection == None
      invariant forall j :: 0 <= j < i ==> !Within(points[j], cursor)
    {
      if Within(points[i], cursor) {
        selection := Some(i);
        break;
      }
      i := i + 1;
    }
    if selection.Some? {
      FirstWithinUnique(points, cursor, selection.value);
    }
  }

  /** The first hit is unique: any index that is a hit with none before it is `FirstWithin`. */
  lemma FirstWithinUnique(points: seq<Point>, c: Point, i: nat)
    requires i < |points| && Within(points[i], c)
    requires forall j :: 0 <= j < i ==> !Within(points[j], c)
    ensures FirstWithin(points, c) == Some(i)
  {
    var r := FirstWithin(points, c);
    assert r.Some?;
    assert !(r.value < i);
    assert !(i < r.value);
  }

  /**
   * The editor's state: the control points, the last cursor position, the
   * selected point, the copy of the points last uploaded to the vertex
   * buffer, and how many uploads there have been.
   */
  datatype Editor = Editor(points: seq<Point>, position: Point, selection: Option<nat>, vbo: seq<Point>, uploads: nat)

  /**
   * What holds in every reachable state: four points, a selection that
   * indexes one of them, and a vertex buffer that holds the current points.
   */
  predicate Consistent(e: Editor): (b: bool)
    ensures b ==> |e.vbo| == 4 && (e.selection.Some? ==> e.selection.value < |e.vbo|)
  {
    |e.points| == 4 && (e.selection.Some? ==> e.selection.value < |e.points|) && e.vbo == e.points
  }

  /** `line->set_vbo("vposition", controlPoints)`: upload the current points. */
  function Upload(e: Editor): (e': Editor)
    ensures e'.vbo == e.points && e'.uploads == e.uploads + 1
    ensures e'.points == e.points && e'.position == e.position && e'.selection == e.selection
    ensures |e.points| == 4 && (e.selection.Some? ==> e.selection.value < 4) ==> Consistent(e')
  {
    e.(vbo := e.points, uploads := e.uploads + 1)
  }

  /**
   * The state when the window opens: `init` pushes the four points and
   * uploads them once (main.cpp:210-216); the cursor starts at the origin
   * with nothing selected (main.cpp:85-86).
   */
  function Init(): (e: Editor)
    ensures Consistent(e) && e.uploads == 1
    ensures e.points == InitialPoints() && e.position == Origin && e.selection == None
  {
    Upload(Editor(InitialPoints(), Origin, None, [], 0))
  }

  /**
   * The mouse-move listener with the cursor at `p` in clip coordinates
   * (main.cpp:143-149). While a point is selected and the cursor has moved,
   * the selected point takes the previous cursor position, one move behind
   * the cursor, and the points are uploaded; the cursor then becomes `p`.
   */
  function Move(e: Editor, p: Point): (e': Editor)
    requires Consistent(e)
    ensures Consistent(e')
    ensures e'.position == p && e'.selection == e.selection
    ensures forall j :: 0 <= j < |e.points| && e.selection != Some(j) ==> e'.points[j] == e.points[j]
    ensures e.selection.Some? && p != e.position ==>
      e'.points[e.selection.value] == e.position && e'.uploads == e.uploads + 1
    ensures e.selection.None? || p == e.position ==> e'.points == e.points && e'.uploads == e.uploads
  {
    NormPositiveIffDistinct(p, e.position);
    var dragged := if e.selection.Some? && SquaredNorm(Sub(p, e.position)) > 0.0
      then Upload(e.(points := e.points[e.selection.value := e.position]))
      else e;
    dragged.(position := p)
  }

  /**
   * A left press (main.cpp:155-163): the selection is cleared and becomes
   * the first point within the pick radius of the cursor, if any.
   */
  function Press(e: Editor): (e': Editor)
    requires Consistent(e)
    ensures Consistent(e')
    ensures e'.points == e.points && e'.position == e.position && e'.uploads == e.uploads
    ensures e'.selection.Some? ==> Within(e.points[e'.selection.value], e.position)
    ensures e'.selection.Some? ==> forall j :: 0 <= j < e'.selection.value ==> !Within(e.points[j], e.position)
    ensures e'.selection.None? <==> forall j :: 0 <= j < |e.points| ==> !Within(e.points[j], e.position)
  {
    e.(selection := FirstWithin(e.points, e.position))
  }

  /**
   * A left release (main.cpp:165-171): a selected point is put at the
   * cursor, the selection is cleared and the points are uploaded once;
   * without a selection nothing happens.
   */
  function Release(e: Editor): (e': Editor)
    requires Consistent(e)
    ensures Consistent(e') && e'.selection == None && e'.position == e.position
    ensures e.selection.Some? ==> e'.points[e.selection.value] == e.position && e'.uploads == e.uploads + 1
    ensures forall j :: 0 <= j < |e.points| && e.selection != Some(j) ==> e'.points[j] == e.points[j]
    ensures e.selection.None? ==> e' == e
  {
    if e.selection.Some?
    then Upload(e.(points := e.points[e.selection.value := e.position], selection := None))
    else e
  }

  /**
   * The mouse-button listener (main.cpp:153-172): its press branch and
   * then its release branch; buttons other than the left one change
   * nothing.
   */
  function Button(e: Editor, button: int, released: bool): (e': Editor)
    requires Consistent(e)
    ensures Consistent(e')
    ensures button != LeftButton ==> e' == e
    ensures e'.position == e.position
  {
    var pressed := if button == LeftButton && !released then Press(e) else e;
    if button == LeftButton && released then Release(pressed) else pressed
  }

  /**
   * The index the line shader highlights (main.cpp:123, 129): the selected
   * point, or -1 with no selection. In a consistent state it is a valid
   * index of the line's vertices `{0, 1, 2, 3}` (main.cpp:217) or -1.
   */
  function Highlighted(e: Editor): (i: int)
    requires Consistent(e)
    ensures -1 <= i < 4
    ensures i >= 0 <==> e.selection.Some?
    ensures i >= 0 ==> e.selection == Some(i)
  {
    if e.selection.Some? then e.selection.value else -1
  }

  /** An input event, the cursor given in clip coordinates. */
  datatype Event = MouseMove(p: Point) | MouseButton(button: int, released: bool)

  function Step(e: Editor, ev: Event): (e': Editor)
    requires Consistent(e)
    ensures Consistent(e')
  {
    match ev
    case MouseMove(p) => Move(e, p)
    case MouseButton(b, r) => Button(e, b, r)
  }

  /**
   * The state after a sequence of events. Every reachable state is
   * consistent, so there are always exactly four control points, and the
   * upload count never goes down.
   */
  function Run(e: Editor, events: seq<Event>): (e': Editor)
    requires Consistent(e)
    ensures Consistent(e') && |e'.points| == 4
    ensures e'.uploads >= e.uploads
    decreases |events|
  {
    if |events| == 0 then e else Run(Step(e, events[0]), events[1..])
  }

  function Moves(ps: seq<Point>): (evs: seq<Event>)
    ensures |evs| == |ps|
  {
    if |ps| == 0 then [] else [MouseMove(ps[0])] + Moves(ps[1..])
  }

  /**
   * A drag: with point `i` selected, after the cursor moves through `ps`
   * and the left button is released, point `i` sits at the last cursor
   * position, nothing is selected, and every other point is where it was.
   */
  lemma {:induction false} DragThenRelease(e: Editor, ps: seq<Point>, i: nat)
    requires Consistent(e) && e.selection == Some(i)
    ensures var last := if |ps| == 0 then e.position else ps[|ps| - 1];
      var final := Run(e, Moves(ps) + [MouseButton(LeftButton, true)]);
      final.selection == None && final.position == last && final.points[i] == last &&
      forall j :: 0 <= j < |e.points| && j != i ==> final.points[j] == e.points[j]
    decreases |ps|
  {
    var release := MouseButton(LeftButton, true);
    if |ps| == 0 {
      assert Moves(ps) + [release] == [release];
      assert Run(e, [release]) == Run(Release(e), []);
    } else {
      var next := Move(e, ps[0]);
      assert Moves(ps) + [release] == [MouseMove(ps[0])] + (Moves(ps[1..]) + [release]);
      assert Run(e, Moves(ps) + [release]) == Run(next, Moves(ps[1..]) + [release]);
      DragThenRelease(next, ps[1..], i);
      if |ps| > 1 {
        assert ps[1..][|ps[1..]| - 1] == ps[|ps| - 1];
      }
    }
  }

  /**
   * A whole drag: a left press selects point `i`, the first point within
   * the pick radius of the cursor; after the cursor moves through `ps` and
   * the button is released, point `i` sits at the last cursor position,
   * nothing is selected, and every other point is where it was.
   */
  lemma PressDragRelease(e: Editor, ps: seq<Point>, i: nat)
    requires Consistent(e) && FirstWithin(e.points, e.position) == Some(i)
    ensures var last := if |ps| == 0 then e.position else ps[|ps| - 1];
      var final := Run(e, [MouseButton(LeftButton, false)] + Moves(ps) + [MouseButton(LeftButton, true)]);
      final.selection == None && final.position == last && final.points[i] == last &&
      forall j :: 0 <= j < |e.points| && j != i ==> final.points[j] == e.points[j]
  {
    var press, release := MouseButton(LeftButton, false), MouseButton(LeftButton, true);
    var rest := Moves(ps) + [release];
    assert [press] + Moves(ps) + [release] == [press] + rest;
    assert ([press] + rest)[1..] == rest;
    var pressed := Step(e, press);
    assert pressed == Press(e);
    assert Run(e, [press] + rest) == Run(pressed, rest);
    DragThenRelease(pressed, ps, i);
  }

  /** With the initial points, a press on the first control point selects it. */
  lemma PressOnFirstPoint(pts: seq<Point>)
    requires pts == InitialPoints()
    ensures FirstWithin(pts, Point(-0.7, -0.2)) == Some(0)
  {
    assert Within(pts[0], Point(-0.7, -0.2)) by {
      assert Sub(pts[0], Point(-0.7, -0.2)) == Origin;
    }
    FirstWithinUnique(pts, Point(-0.7, -0.2), 0);
  }

  /** No point is picked when every point is at least the pick radius away from the cursor along x. */
  lemma MissesAll(points: seq<Point>, c: Point)
    requires forall j :: 0 <= j < |points| ==> points[j].x - c.x <= -PickRadius || points[j].x - c.x >= PickRadius
    ensures FirstWithin(points, c) == None
  {
    forall j | 0 <= j < |points|
      ensures !Within(points[j], c)
    {
    }
  }

  /** With the initial points, a press at the centre of the window selects nothing. */
  lemma PressAtCentre(pts: seq<Point>)
    requires pts == InitialPoints()
    ensures FirstWithin(pts, Origin) == None
  {
    PickRadiusValue();
    assert forall j :: 0 <= j < |pts| ==> pts[j].x <= -0.3 || pts[j].x >= 0.3;
    MissesAll(pts, Origin);
  }

  /**
   * The listener state of `main` as one object: the points vector, the
   * `position` and `selection` variables the lambdas capture by reference
   * (main.cpp:85-86), and the line mesh's vertex buffer.
   */
  class ControlPolygon {
    var points: seq<Point>
    var position: Point
    var selection: Option<nat>
    var vbo: seq<Point>
    var uploads: nat

    function State(): Editor
      reads this
    {
      Editor(points, position, selection, vbo, uploads)
    }

    ghost predicate Valid()
      reads this
    {
      Consistent(State())
    }

    /** `init`'s four `push_back`s and upload, then `main`'s cursor and selection (main.cpp:85-86, 210-216). */
    constructor ()
      ensures Valid() && State() == Init()
    {
      points := [];
      points := points + [Point(-0.7, -0.2)];
      points := points + [Point(-0.3, 0.2)];
      points := points + [Point(0.3, 0.5)];
      points := points + [Point(0.7, 0.0)];
      vbo := points;
      uploads := 1;
      position := Point(0.0, 0.0);
      selection := None;
    }

    /** The mouse-move listener for the cursor at pixel `(mx, my)` (main.cpp:140-150). */
    method OnMouseMove(mx: real, my: real)
      requires Valid()
      modifies this
      ensures Valid()
      ensures State() == Move(old(State()), ToClip(mx, my))
    {
      var p := ToClip(mx, my);
      NormPositiveIffDistinct(p, position);
      if selection.Some? && SquaredNorm(Sub(p, position)) > 0.0 {
        points := points[selection.value := position];
        vbo := points;
        uploads := uploads + 1;
      }
      position := p;
    }

    /** The mouse-button listener (main.cpp:153-172). */
    method OnMouseButton(button: int, released: bool)
      requires Valid()
      modifies this
      ensures Valid()
      ensures State() == Button(old(State()), button, released)
    {
      if button == LeftButton && !released {
        selection := HitTest(points, position);
      }
      if button == LeftButton && released {
        if selection.Some? {
          points := points[selection.value := position];
          selection := None;
          vbo := points;
          uploads := uploads + 1;
        }
      }
    }
  }
}

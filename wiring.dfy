/**
 * The page wiring that holds state of its own (palette.js, the `$(...)`
 * closure): pointer-stroke segmentation and the two-slot colour history.
 * DOM effects (badges, classes, data attributes) are not modelled.
 */
module Wiring {
  import opened Wrappers
  import opened Actions
  import opened Scene

  /** Pointer events on the canvas; a move carries the offset of the sample. */
  datatype PointerEvent = MouseDown | MouseUp | MouseMove(x: int, y: int)

  /** The handlers' state: the `mouseDown` flag and the previous sample. */
  datatype StrokeState = StrokeState(down: bool, prev: Point)

  /** A segment fed to addLineAction. */
  datatype Segment = Segment(from: Point, to: Point)

  /** One event: mousedown and mouseup only set the flag; a move while the
      button is down yields a segment from the previous sample, and every move
      records the new sample. */
  function Step(s: StrokeState, e: PointerEvent): (r: (StrokeState, Option<Segment>))
    ensures r.1.Some? <==> e.MouseMove? && s.down
    ensures e.MouseMove? ==> r == (StrokeState(s.down, Point(e.x, e.y)),
                                  if s.down then Some(Segment(s.prev, Point(e.x, e.y))) else None)
    ensures !e.MouseMove? ==> r.0 == StrokeState(e.MouseDown?, s.prev)
  {
    match e
    case MouseDown => (s.(down := true), None)
    case MouseUp => (s.(down := false), None)
    case MouseMove(x, y) =>
      (s.(prev := Point(x, y)), if s.down then Some(Segment(s.prev, Point(x, y))) else None)
  }

  /** A stream of events: the final state and the segments, in order. */
  function Run(s: StrokeState, events: seq<PointerEvent>): (r: (StrokeState, seq<Segment>))
    ensures |r.1| <= |events|
    ensures !s.down && MouseDown !in events ==> r.1 == [] && !r.0.down
    decreases |events|
  {
    if events == [] then (s, [])
    else
      var step := Step(s, events[0]);
      var rest := Run(step.0, events[1..]);
      (rest.0, Emitted(step.1) + rest.1)
  }

  function Emitted(seg: Option<Segment>): (segs: seq<Segment>)
  {
    if seg.Some? then [seg.value] else []
  }

  ghost predicate AllMoves(events: seq<PointerEvent>)
  {
    forall i :: 0 <= i < |events| ==> events[i].MouseMove?
  }

  function At(e: PointerEvent): (p: Point)
    requires e.MouseMove?
  {
    Point(e.x, e.y)
  }

  /** The last sample of `moves`, or `start` when there is none. */
  function LastSample(start: Point, moves: seq<PointerEvent>): (p: Point)
    requires AllMoves(moves)
  {
    if moves == [] then start else At(moves[|moves| - 1])
  }

  /** The polyline through `start` and the samples of `moves`: segment `i`
      joins sample `i - 1` (or `start`) to sample `i`. */
  function Chain(start: Point, moves: seq<PointerEvent>): (r: seq<Segment>)
    requires AllMoves(moves)
    ensures |r| == |moves|
    ensures forall i :: 0 <= i < |r| ==>
              r[i] == Segment(if i == 0 then start else At(moves[i - 1]), At(moves[i]))
    decreases |moves|
  {
    if moves == [] then [] else [Segment(start, At(moves[0]))] + Chain(At(moves[0]), moves[1..])
  }

  /** While the button is down, consecutive samples become consecutive segments. */
  lemma {:induction false} MovesWhileDown(s: StrokeState, moves: seq<PointerEvent>)
    requires s.down && AllMoves(moves)
    ensures Run(s, moves).1 == Chain(s.prev, moves)
    ensures Run(s, moves).0 == StrokeState(true, LastSample(s.prev, moves))
    decreases |moves|
  {
    if moves != [] {
      var s1 := StrokeState(true, At(moves[0]));
      assert Step(s, moves[0]) == (s1, Some(Segment(s.prev, At(moves[0]))));
      MovesWhileDown(s1, moves[1..]);
      assert LastSample(s1.prev, moves[1..]) == LastSample(s.prev, moves);
    }
  }

  /** While the button is up, moves yield no segment but still record the last sample. */
  lemma {:induction false} MovesWhileUp(s: StrokeState, moves: seq<PointerEvent>)
    requires !s.down && AllMoves(moves)
    ensures Run(s, moves).1 == []
    ensures Run(s, moves).0 == StrokeState(false, LastSample(s.prev, moves))
    decreases |moves|
  {
    if moves != [] {
      var s1 := StrokeState(false, At(moves[0]));
      assert Step(s, moves[0]) == (s1, None);
      MovesWhileUp(s1, moves[1..]);
      assert LastSample(s1.prev, moves[1..]) == LastSample(s.prev, moves);
    }
  }

  /** A drag (press, moves, release) yields the polyline from the sample seen
      before the press through every sample of the drag. */
  lemma Drag(s: StrokeState, moves: seq<PointerEvent>)
    requires AllMoves(moves)
    ensures Run(s, [MouseDown] + moves + [MouseUp]).1 == Chain(s.prev, moves)
  {
    var down := s.(down := true);
    var tail := moves + [MouseUp];
    var events := [MouseDown] + moves + [MouseUp];
    assert events == [MouseDown] + tail;
    RunAppend(s, [MouseDown], tail);
    assert Run(s, [MouseDown]).0 == down;
    assert Run(s, [MouseDown]).1 == [];
    assert Run(s, events).1 == Run(down, tail).1;
    RunAppend(down, moves, [MouseUp]);
    MovesWhileDown(down, moves);
    var last := Run(down, moves).0;
    assert Run(last, [MouseUp]).1 == [];
  }

  /** After a drag the button is up and the last sample of the drag is recorded. */
  lemma DragEnd(s: StrokeState, moves: seq<PointerEvent>)
    requires AllMoves(moves)
    ensures Run(s, [MouseDown] + moves + [MouseUp]).0
            == StrokeState(false, LastSample(s.prev, moves))
  {
    var down := s.(down := true);
    var tail := moves + [MouseUp];
    var events := [MouseDown] + moves + [MouseUp];
    assert events == [MouseDown] + tail;
    RunAppend(s, [MouseDown], tail);
    assert Run(s, [MouseDown]).0 == down;
    assert Run(s, events).0 == Run(down, tail).0;
    RunAppend(down, moves, [MouseUp]);
    MovesWhileDown(down, moves);
    var last := Run(down, moves).0;
    assert Run(last, [MouseUp]).0 == last.(down := false);
  }

  /** Running two streams one after the other. */
  lemma {:induction false} RunAppend(s: StrokeState, a: seq<PointerEvent>, b: seq<PointerEvent>)
    ensures Run(s, a + b).0 == Run(Run(s, a).0, b).0
    ensures Run(s, a + b).1 == Run(s, a).1 + Run(Run(s, a).0, b).1
    decreases |a|
  {
    if a == [] {
      assert a + b == b;
    } else {
      var ab := a + b;
      assert ab[0] == a[0];
      assert ab[1..] == a[1..] + b;
      var step := Step(s, a[0]);
      RunAppend(step.0, a[1..], b);
      assert Run(s, ab).1 == Emitted(step.1) + Run(step.0, a[1..] + b).1;
      assert Run(s, a).1 == Emitted(step.1) + Run(step.0, a[1..]).1;
    }
  }

  /** The action list a segment adds to the active frame. */
  function SegmentActions(seg: Option<Segment>, color: string): (actions: seq<Action>)
  {
    if seg.Some? then [ActionLine(seg.value.from, seg.value.to, color)] else []
  }

  /** The state of the page closure: the scene, the mouse handlers' variables
      and the colour history (`current_color`, `prev_color`). */
  class Page {
    const scene: SceneController
    var mouseDown: bool
    var prev: Point
    var currentColor: Option<string>
    var prevColor: Option<string>

    /** The colour history's current slot is the model's drawing colour. */
    ghost predicate Valid()
      reads this, scene, scene.model
    {
      scene.Valid() && currentColor == Some(scene.model.color)
    }

    function Stroke(): (st: StrokeState)
      reads this
    {
      StrokeState(mouseDown, prev)
    }

    /** Page load: a scene with one empty, active frame, drawing in green. */
    constructor ()
      ensures Valid() && fresh(scene) && fresh(scene.model)
      ensures |scene.model.frames| == 1 && fresh(scene.model.frames[0]) && scene.model.frames[0].actions == []
      ensures scene.model.activeFrame == Some(0) && scene.activeFrame == scene.model.frames[0]
      ensures scene.model.color == "green" && currentColor == Some("green") && prevColor == None
      ensures Stroke() == StrokeState(false, Undefined)
    {
      var model := new SceneModel();
      scene := new SceneController(model);
      mouseDown := false;
      prev := Undefined;
      currentColor := None;
      prevColor := None;
      new;
      scene.AddFrame();
      SetCurrentColor("green");
    }

    /** set_current_color: shifts the current colour into the previous slot. */
    method SetCurrentColor(c: string)
      requires scene.Valid()
      modifies this, scene.model
      ensures Valid()
      ensures currentColor == Some(c) && prevColor == old(currentColor)
      ensures scene.model.color == c
      ensures scene.model.frames == old(scene.model.frames)
      ensures scene.model.activeFrame == old(scene.model.activeFrame)
      ensures Stroke() == old(Stroke())
    {
      prevColor := currentColor;
      currentColor := Some(c);
      scene.SetCurrentColor(c);
    }

    method MouseDownHandler()
      modifies this
      ensures Stroke() == Step(old(Stroke()), MouseDown).0
      ensures currentColor == old(currentColor) && prevColor == old(prevColor)
    {
      mouseDown := true;
    }

    method MouseUpHandler()
      modifies this
      ensures Stroke() == Step(old(Stroke()), MouseUp).0
      ensures currentColor == old(currentColor) && prevColor == old(prevColor)
    {
      mouseDown := false;
    }

    /** The mousemove handler. While the button is down it draws the segment
        from the previous sample; with no active frame that call throws, `ok`
        is false and the previous sample is not updated. */
    method MouseMoveHandler(x: int, y: int) returns (ok: bool)
      requires Valid()
      modifies this, scene.activeFrame
      ensures Valid()
      ensures ok <==> !(old(mouseDown) && scene.activeFrame == null)
      ensures Stroke() == if ok then Step(old(Stroke()), MouseMove(x, y)).0 else old(Stroke())
      ensures forall i :: 0 <= i < |scene.model.frames| ==>
                scene.model.frames[i].actions
                == old(scene.model.frames[i].actions)
                   + if ok && scene.model.activeFrame == Some(i)
                     then SegmentActions(Step(old(Stroke()), MouseMove(x, y)).1, scene.model.color)
                     else []
      ensures currentColor == old(currentColor) && prevColor == old(prevColor)
    {
      if mouseDown {
        ok := scene.AddLineAction(prev, Point(x, y));
        if !ok {
          return;
        }
      }
      ok := true;
      prev := Point(x, y);
    }
  }

  /** Load the page, move the pointer, press, move again: the first frame
      holds exactly the green line between the two samples. */
  method LoadAndDraw() returns (page: Page)
    ensures page.Valid() && |page.scene.model.frames| == 1
    ensures page.scene.model.frames[0].actions == [ActionLine(Point(1, 2), Point(3, 4), "green")]
    ensures page.Stroke() == StrokeState(true, Point(3, 4))
  {
    page := new Page();
    var ok := page.MouseMoveHandler(1, 2);
    page.MouseDownHandler();
    ok := page.MouseMoveHandler(3, 4);
  }
}

/**
 * Points, draw actions and the canvas calls they make (palette.js, classes
 * Point, Action and ActionLine, and the drawing half of Frame).
 *
 * The canvas is foreign; drawing is modelled as the sequence of 2D-context
 * calls made, in call order.
 */
module Actions {

  /** A pointer sample. `Undefined` is the point the mousemove handler builds
      from prevX/prevY before the first sample, when both are `undefined`. */
  datatype Point = Point(x: int, y: int) | Undefined

  /** The one kind of draw action: a line segment in an opaque colour. */
  datatype Action = ActionLine(from: Point, to: Point, color: string)

  /** The 2D-context calls made while drawing. */
  datatype CanvasOp =
    | BeginPath
    | SetStrokeStyle(color: string)
    | MoveTo(p: Point)
    | LineTo(p: Point)
    | Stroke
    | SetFillStyle(color: string)
    | FillRect(x: int, y: int, width: int, height: int)

  /** The two drawing surfaces the controller draws on: `ctx` and `previewCtx`. */
  datatype Surface = Canvas | Preview

  /** A 2D-context call together with the surface it is made on. */
  datatype SurfaceOp = SurfaceOp(surface: Surface, op: CanvasOp)

  /** The calls `ops`, each made on `surface`. */
  function On(surface: Surface, ops: seq<CanvasOp>): (r: seq<SurfaceOp>)
    ensures |r| == |ops|
    ensures forall i :: 0 <= i < |r| ==> r[i].surface == surface && r[i].op == ops[i]
  {
    seq(|ops|, (i: int) requires 0 <= i < |ops| => SurfaceOp(surface, ops[i]))
  }

  const OpsPerAction := 5
  const Background := "white"
  const CanvasWidth := 800
  const CanvasHeight := 600

  /** ActionLine.draw: one stroked path from `from` to `to` in the action's colour. */
  function LineOps(a: Action): (ops: seq<CanvasOp>)
    ensures |ops| == OpsPerAction
    ensures ops[0] == BeginPath && ops[|ops| - 1] == Stroke
  {
    [BeginPath, SetStrokeStyle(a.color), MoveTo(a.from), LineTo(a.to), Stroke]
  }

  /** The calls made by drawing each action in turn. */
  function ActionsOps(actions: seq<Action>): (ops: seq<CanvasOp>)
    ensures |ops| == OpsPerAction * |actions|
  {
    if actions == [] then [] else LineOps(actions[0]) + ActionsOps(actions[1..])
  }

  /** Frame.draw: paint the whole canvas in the background colour, then every action. */
  function FrameOps(actions: seq<Action>): (ops: seq<CanvasOp>)
    ensures |ops| == 2 + OpsPerAction * |actions|
    ensures ops[..2] == [SetFillStyle(Background), FillRect(0, 0, CanvasWidth, CanvasHeight)]
  {
    [SetFillStyle(Background), FillRect(0, 0, CanvasWidth, CanvasHeight)] + ActionsOps(actions)
  }

  /** Actions are visited in insertion order: the block of calls for action
      `i` is the i-th block of the drawing. */
  lemma {:induction false} ActionsOpsAt(actions: seq<Action>, i: nat)
    requires i < |actions|
    ensures ActionsOps(actions)[OpsPerAction * i..OpsPerAction * (i + 1)] == LineOps(actions[i])
  {
    if i > 0 {
      ActionsOpsAt(actions[1..], i - 1);
      var rest := ActionsOps(actions[1..]);
      assert ActionsOps(actions) == LineOps(actions[0]) + rest;
      assert ActionsOps(actions)[OpsPerAction * i..OpsPerAction * (i + 1)]
          == rest[OpsPerAction * (i - 1)..OpsPerAction * i];
    }
  }

  /** Every action's block of calls, at once. */
  lemma ActionsOpsAtAll(actions: seq<Action>)
    ensures forall i :: 0 <= i < |actions| ==>
              ActionsOps(actions)[OpsPerAction * i..OpsPerAction * (i + 1)] == LineOps(actions[i])
  {
    forall i | 0 <= i < |actions|
      ensures ActionsOps(actions)[OpsPerAction * i..OpsPerAction * (i + 1)] == LineOps(actions[i])
    {
      ActionsOpsAt(actions, i);
    }
  }

  /** Appending an action appends its stroke after all earlier ones, so a
      later stroke paints over the earlier ones. */
  lemma {:induction false} ActionsOpsAppend(actions: seq<Action>, a: Action)
    ensures ActionsOps(actions + [a]) == ActionsOps(actions) + LineOps(a)
  {
    if actions != [] {
      assert (actions + [a])[1..] == actions[1..] + [a];
      ActionsOpsAppend(actions[1..], a);
    } else {
      assert actions + [a] == [a];
    }
  }

  /** Drawing a frame after one more action adds exactly that action's stroke
      at the end of the calls. */
  lemma FrameOpsAppend(actions: seq<Action>, a: Action)
    ensures FrameOps(actions + [a]) == FrameOps(actions) + LineOps(a)
  {
    ActionsOpsAppend(actions, a);
  }
}

# Sprite-animation editor: frame/action model

A Dafny model of the core of a small browser sprite-animation editor
(`palette.js`). The user draws line strokes onto the active frame. Frames are
ordered lists of line actions, and playback cycles the active frame.

- `wrappers.dfy`: module `Wrappers`. `Option` stands for a JavaScript value that may be `null` or `undefined`.
- `actions.dfy`: module `Actions`.
  - `Point` and `ActionLine` are immutable values. The colour is an opaque string.
  - `Point.Undefined` is the point the mousemove handler builds before it has seen any sample.
  - Drawing is modelled as the list of 2D-context calls that `ActionLine.draw` and `Frame.draw` make, in call order. The controller's calls are tagged with the surface they go to: the main canvas (`ctx`) or the preview (`previewCtx`).
- `scene.dfy`: module `Scene`.
  - `Frame` and `SceneModel` are classes whose fields are updated in place.
  - `SceneView.drawFrames` is modelled as a pure list of picker entries.
  - `SceneController` keeps a cached reference to the active `Frame`.
  - The controller's invariant `CacheAgrees` says:
    - when the model's active index is in range, the cached frame is the same object as `model.frames[model.activeFrame]`;
    - otherwise the index is `null` (no cached frame), or `-1` with no frames and no cached frame.
  - Because the cached frame is the model's own frame, drawing through the controller changes the model.
  - Every frame is created by the model, so no frame occurs twice (`SceneModel.Valid`). This is why appending to one frame leaves every other frame unchanged.
- `wiring.dfy`: module `Wiring`, the state the page's start-up closure keeps.
  - Stroke segmentation: the `mouseDown` flag and the previous sample. It is written as a pure event-step function `Step`, with `Run` over an event stream, and as the handlers of class `Page`.
  - The two-slot colour history (`current_color`, `prev_color`).

Behaviour worth knowing, modelled as the code does it:

- `SceneModel.deleteFrame` returns the first remaining frame (palette.js:76). The controller overwrites that answer and activates the **last** remaining frame with `setActiveFrame(frames.length - 1)` (palette.js:162-163).
- Deleting the only frame leaves the model's index at `-1` and no cached frame. Drawing the frames is then skipped (`SceneController.Draw` is empty).
- In that state `addLineAction` dereferences `undefined` and throws a `TypeError`. `SceneController.AddLineAction` and `Page.MouseMoveHandler` model the throw as `ok == false` with nothing changed. The thrown error also aborts the mousemove handler before it records the new sample.
- Before the first mousemove, `prevX`/`prevY` are `undefined`. A press followed by a move therefore records a line from `Point.Undefined`.
- `next()` is defined for an active index of at least `-1` and a non-empty frame list. The index is non-negative after the increment, so JavaScript's `%` and Dafny's `%` agree there.
- Inputs that only reach JavaScript coercion quirks are preconditions:
  - `next()` with a `null` index, or with no frames (reachable during playback; see "Left out");
  - `deleteFrame` or `duplicateFrame` with an index out of range;
  - `setActiveFrame` with an index other than a valid one, or `-1` on an empty list.
- Redrawing is not an effect here. What a redraw would show is a function of the state after each operation: `DrawFrames(model)` for the picker and `SceneController.Draw()` for the canvases.

## Model

| member | source | states |
|---|---|---|
| `Actions.LineOps` | palette.js:30-37 | a line is drawn as one stroked path: begin path first, stroke last, five calls |
| `Actions.FrameOps` | palette.js:45-49 | a frame's drawing starts by filling the 800x600 canvas white and has five calls per action |
| `Actions.ActionsOpsAt` | palette.js:48 | actions are drawn in insertion order: the i-th block of calls is action i's line |
| `Actions.ActionsOps` | palette.js:48 | the `forEach` over the actions makes five calls per action |
| `Actions.ActionsOpsAppend` | palette.js:48 | drawing `actions + [a]` is drawing `actions` and then `a`'s line |
| `Actions.FrameOpsAppend` | palette.js:45-57 | after `addAction(a)` a frame's drawing gains exactly `a`'s stroke, after (over) all earlier strokes |
| `Scene.Frame.constructor` | palette.js:41-43 | a new frame has no actions |
| `Scene.Frame.Draw` | palette.js:45-49 | a frame's drawing is the white fill followed, for each action i in insertion order, by action i's line |
| `Scene.Frame.Clear` | palette.js:51-53 | clear empties the action list |
| `Scene.Frame.AddAction` | palette.js:55-57 | addAction appends exactly the given action at the end |
| `Scene.RemoveAt` | palette.js:75 | `splice(k, 1)` keeps the elements before `k` and shifts the later ones down by one, in order |
| `Scene.RemoveAtMultiset` | palette.js:75 | removal keeps every other element exactly once |
| `Scene.RemoveAtDistinct` | palette.js:75 | removal from a list without repeats leaves a list without repeats |
| `Scene.NextIndex` | palette.js:92-93 | the next index is in range, one more than the current one before the last frame, 0 after the last |
| `Scene.Advance` | palette.js:91-95 | any number of successive next() calls keeps the index in range |
| `Scene.AdvanceNoWrap` | palette.js:91-95 | until the wrap, m calls move m frames forward |
| `Scene.AdvanceAdd` | palette.js:91-95 | a calls followed by b calls equal a + b calls |
| `Scene.AdvanceCycles` | palette.js:91-95 | from any frame, m calls (0 < m <= n) return to the start exactly when m is the frame count n |
| `Scene.SceneModel.constructor` | palette.js:61-65 | a new model has no frames, colour `red` and a null active index |
| `Scene.SceneModel.AddFrame` | palette.js:67-72 | appends a fresh empty frame and returns it; earlier frames, colour and active index untouched |
| `Scene.SceneModel.DeleteFrame` | palette.js:74-77 | the frames become `frames[..num] + frames[num+1..]`; returns the new first frame or null; active index untouched |
| `Scene.SceneModel.DuplicateFrame` | palette.js:79-85 | appends a fresh frame whose actions equal frame `num`'s, makes it active and returns it |
| `Scene.SceneModel.SetCurrentColor` | palette.js:87-89 | sets the colour and nothing else |
| `Scene.SceneModel.Next` | palette.js:91-95 | sets the index to `NextIndex` of the old one and returns the frame there; frames untouched |
| `Scene.Entries` | palette.js:107-110 | the index-carrying `map`: n entries, entry i has id i and is active iff i is the active index |
| `Scene.DrawFrames` | palette.js:106-110 | one entry per frame in frame order; entry i carries id i and is active iff i is the model's active index |
| `Scene.EntriesActiveCount` | palette.js:107-110 | exactly one entry is active when the index is in range, none otherwise |
| `Scene.SceneController.CacheAgrees` | palette.js:168-170 | the cached frame is `model.frames[model.activeFrame]` when that index is in range, and there is a cached frame only then |
| `Scene.SceneController.constructor` | palette.js:119-126 | a new controller has no cached frame and satisfies the cache invariant |
| `Scene.SceneController.NextFrame` | palette.js:128-131 | the model advances cyclically and the cache holds the frame now active |
| `Scene.SceneController.SetActiveFrame` | palette.js:168-172 | sets the model's index to `num` and the cache to `frames[num]`, or to none for -1 |
| `Scene.SceneController.AddFrame` | palette.js:149-153 | one fresh empty frame is added at the end and becomes active in both model and cache |
| `Scene.SceneController.DuplicateFrame` | palette.js:155-159 | a fresh copy of frame `num` is added at the end and becomes active in both model and cache |
| `Scene.SceneController.DeleteFrame` | palette.js:161-165 | frame `num` is removed with the rest kept in order; the last frame becomes active, or index -1 and no frame when none is left |
| `Scene.SceneController.AddLineAction` | palette.js:181-185 | appends one line with the given endpoints in the model's colour to the active frame, every other frame unchanged; fails with no change when there is no active frame |
| `Scene.SceneController.SetCurrentColor` | palette.js:187-189 | the model's colour becomes `c`; frames and index untouched |
| `Scene.SceneController.Draw` | palette.js:174-179 | nothing is drawn iff there is no active frame; otherwise the active frame's calls go to the main canvas and then the same calls to the preview |
| `Scene.DuplicateIsIndependent` | palette.js:79-85 | drawing on a duplicate leaves the original frame's actions as they were |
| `Wiring.Step` | palette.js:213-230 | one event: only a move while the button is down yields a segment, from the previous sample to the new one; every move records its sample; mousedown and mouseup set the flag and keep the sample |
| `Wiring.Run` | palette.js:212-230 | an event stream yields at most one segment per event, and none at all while the button stays up with no press |
| `Wiring.Chain` | palette.js:223-230 | the segments of a drag: segment i joins sample i-1 (or the starting point) to sample i |
| `Wiring.MovesWhileDown` | palette.js:223-230 | while the button is down every move yields the segment from the previous sample and records the new one |
| `Wiring.MovesWhileUp` | palette.js:223-230 | while the button is up moves yield no segment but still record the last sample |
| `Wiring.RunAppend` | palette.js:212-230 | handling two event streams in turn equals handling their concatenation |
| `Wiring.Drag` | palette.js:212-230 | press, moves, release yields exactly the polyline from the sample seen before the press through every sample |
| `Wiring.DragEnd` | palette.js:212-230 | after a drag the button is up and the drag's last sample is recorded |
| `Wiring.Page.constructor` | palette.js:196-230 | page load: one freshly created, empty, active frame, colour green in model and history, no previous colour, button up, no sample |
| `Wiring.LoadAndDraw` | palette.js:196-230 | after load, a move, a press and a move, the only frame holds exactly one green line between the two samples |
| `Wiring.Page.SetCurrentColor` | palette.js:297-300 | the current colour moves to the previous slot, the new colour becomes current and the model's colour |
| `Wiring.Page.MouseDownHandler` | palette.js:213-215 | mousedown only sets the flag |
| `Wiring.Page.MouseUpHandler` | palette.js:217-219 | mouseup only clears the flag |
| `Wiring.Page.MouseMoveHandler` | palette.js:223-230 | a move while down appends the step's segment, in the current colour, to the active frame only; every move records the sample; a throw leaves everything unchanged |

## Left out

- Canvas rendering: the model records the calls `ActionLine.draw` and `Frame.draw` make. It does not model pixels or the surfaces themselves.
- The empty base `Action.draw`: no `Action` other than `ActionLine` is ever created.
- Playback: `play`/`stop` and the `#play`/`#speed` handlers use a host timer (`setInterval`/`clearTimeout`). Their interval is the float `1000 / speed` of a DOM string. The `timer` field and the closure's `play` flag go with them. Each timer tick is `SceneController.NextFrame`, which is modelled.
- The markup `drawFrames` builds: the class names, `data-id` attributes and buttons of each `<li>`. An entry keeps only what the markup encodes: the index and whether it is active.
- `SceneView.redraw`, `SceneController.redraw` and the `draw()` calls inside controller methods: these only render. What they would show is `DrawFrames` and `SceneController.Draw` of the resulting state.
- jQuery and DOM wiring:
  - the palette, tool and frame-list click handlers;
  - `current_tool`, which is never read;
  - fullscreen;
  - the badge and `data('color')` updates in `set_current_color`;
  - the CSS lookup in `action_picker`.

  The frame-list handlers map one-to-one to `SetActiveFrame`, `DuplicateFrame` and `DeleteFrame` on the controller. They pass indices taken from the rendered entries, which the preconditions require to be in range.
- `Scene.SceneController.NextFrame` requires a non-empty frame list. This excludes a state normal use can reach: start playback, then delete every frame. The next timer tick computes `% 0`, sets the model's index to `NaN` and the cached frame to `undefined`, and drawing is skipped. The next `addFrame` resets both (palette.js:92-94, 128-131, 168-170). The model does not represent `NaN`.
- JavaScript coercion on invalid inputs: `null++`, negative or oversized `splice` indices, and `frames[num]` out of range. These are preconditions, except for `frames[-1]` after the last frame is deleted, which is modelled.
- Coordinates are integers (canvas offsets). JavaScript floating point is not modelled.

/**
 * The frame/action model of the editor (palette.js, classes Frame,
 * SceneModel, SceneView and SceneController).
 *
 * Frames are objects: the controller caches a reference to the same Frame
 * the model holds, so appending through the controller changes the model.
 */
module Scene {
  import opened Wrappers
  import opened Actions

  /** An ordered list of draw actions. */
  class Frame {
    var actions: seq<Action>

    constructor ()
      ensures actions == []
    {
      actions := [];
    }

    method Clear()
      modifies this
      ensures actions == []
    {
      actions := [];
    }

    method AddAction(a: Action)
      modifies this
      ensures actions == old(actions) + [a]
    {
      actions := actions + [a];
    }

    /** The canvas calls Frame.draw makes on one surface. */
    function Draw(): (ops: seq<CanvasOp>)
      reads this
      ensures |ops| == 2 + OpsPerAction * |actions|
      ensures ops[..2] == [SetFillStyle(Background), FillRect(0, 0, CanvasWidth, CanvasHeight)]
      ensures forall i :: 0 <= i < |actions| ==>
                ops[2 + OpsPerAction * i..2 + OpsPerAction * (i + 1)] == LineOps(actions[i])
    {
      ActionsOpsAtAll(actions);
      FrameOps(actions)
    }
  }

  /** No object occurs twice in `s`. */
  ghost predicate Distinct<T>(s: seq<T>)
  {
    forall i, j :: 0 <= i < j < |s| ==> s[i] != s[j]
  }

  /** `splice(k, 1)`: `s` without its element at `k`, the others kept in order. */
  function RemoveAt<T>(s: seq<T>, k: nat): (r: seq<T>)
    requires k < |s|
    ensures |r| == |s| - 1
    ensures forall i :: 0 <= i < k ==> r[i] == s[i]
    ensures forall i :: k <= i < |r| ==> r[i] == s[i + 1]
  {
    s[..k] + s[k + 1..]
  }

  /** Removing an element keeps every other one exactly once. */
  lemma RemoveAtMultiset<T>(s: seq<T>, k: nat)
    requires k < |s|
    ensures multiset(RemoveAt(s, k)) + multiset{s[k]} == multiset(s)
  {
    assert s == s[..k] + [s[k]] + s[k + 1..];
  }

  /** Removing an element from a list with no repeats leaves no repeats. */
  lemma RemoveAtDistinct<T>(s: seq<T>, k: nat)
    requires k < |s| && Distinct(s)
    ensures Distinct(RemoveAt(s, k))
  {
    var r := RemoveAt(s, k);
    forall i, j | 0 <= i < j < |r|
      ensures r[i] != r[j]
    {
      var i' := if i < k then i else i + 1;
      var j' := if j < k then j else j + 1;
      assert r[i] == s[i'] && r[j] == s[j'] && i' < j';
    }
  }

  /** SceneModel.next's index step: `activeFrame++`, then `% frames.length`. */
  function NextIndex(k: int, n: int): (r: int)
    requires n > 0 && k >= -1
    ensures 0 <= r < n
    ensures k + 1 < n ==> r == k + 1
    ensures k + 1 == n ==> r == 0
  {
    (k + 1) % n
  }

  /** The index after `m` successive calls of next() from index `k`. */
  function Advance(k: int, n: int, m: nat): (r: int)
    requires n > 0 && 0 <= k < n
    ensures 0 <= r < n
  {
    if m == 0 then k else NextIndex(Advance(k, n, m - 1), n)
  }

  /** Before the wrap, each call moves one frame forward. */
  lemma {:induction false} AdvanceNoWrap(k: int, n: int, m: nat)
    requires n > 0 && 0 <= k < n && k + m < n
    ensures Advance(k, n, m) == k + m
  {
    if m > 0 {
      AdvanceNoWrap(k, n, m - 1);
    }
  }

  /** `a` calls followed by `b` calls are `a + b` calls. */
  lemma {:induction false} AdvanceAdd(k: int, n: int, a: nat, b: nat)
    requires n > 0 && 0 <= k < n
    ensures Advance(k, n, a + b) == Advance(Advance(k, n, a), n, b)
  {
    if b > 0 {
      AdvanceAdd(k, n, a, b - 1);
    }
  }

  /** `n` successive calls of next() come back to the starting frame, and no
      fewer calls do: playback cycles through every frame. */
  lemma AdvanceCycles(k: int, n: int, m: nat)
    requires n > 0 && 0 <= k < n && 0 < m <= n
    ensures Advance(k, n, m) == k <==> m == n
  {
    if k + m < n {
      AdvanceNoWrap(k, n, m);
    } else {
      var toWrap := n - k;
      AdvanceNoWrap(k, n, toWrap - 1);
      AdvanceAdd(k, n, toWrap, m - toWrap);
      assert Advance(k, n, toWrap) == 0;
      if m - toWrap > 0 {
        AdvanceNoWrap(0, n, m - toWrap);
      }
    }
  }

  /** The editor's model: the frames, the drawing colour and the active index. */
  class SceneModel {
    var frames: seq<Frame>
    var color: string
    /** None is `null`; after deleting the last frame the controller stores -1 here. */
    var activeFrame: Option<int>

    /** Every frame is created by this model, so no frame occurs twice. */
    ghost predicate Valid()
      reads this
    {
      Distinct(frames)
    }

    constructor ()
      ensures Valid()
      ensures frames == [] && color == "red" && activeFrame == None
    {
      frames := [];
      color := "red";
      activeFrame := None;
    }

    /** Appends a new empty frame and returns it; the active index is untouched. */
    method AddFrame() returns (f: Frame)
      requires Valid()
      modifies this
      ensures Valid() && fresh(f) && f.actions == []
      ensures frames == old(frames) + [f]
      ensures color == old(color) && activeFrame == old(activeFrame)
    {
      f := new Frame();
      frames := frames + [f];
    }

    /** Removes the frame at `num`; returns the first remaining frame, or null. */
    method DeleteFrame(num: int) returns (first: Frame?)
      requires Valid() && 0 <= num < |frames|
      modifies this
      ensures Valid()
      ensures frames == RemoveAt(old(frames), num)
      ensures first == if frames == [] then null else frames[0]
      ensures color == old(color) && activeFrame == old(activeFrame)
    {
      RemoveAtDistinct(frames, num);
      frames := frames[..num] + frames[num + 1..];
      first := if |frames| > 0 then frames[0] else null;
    }

    /** Appends a new frame holding a copy of frame `num`'s actions and makes it active. */
    method DuplicateFrame(num: int) returns (f: Frame)
      requires Valid() && 0 <= num < |frames|
      modifies this
      ensures Valid() && fresh(f)
      ensures f.actions == old(frames[num].actions)
      ensures frames == old(frames) + [f]
      ensures activeFrame == Some(|frames| - 1) && color == old(color)
    {
      f := new Frame();
      f.actions := frames[num].actions;
      frames := frames + [f];
      activeFrame := Some(|frames| - 1);
    }

    method SetCurrentColor(c: string)
      modifies this
      ensures color == c
      ensures frames == old(frames) && activeFrame == old(activeFrame)
    {
      color := c;
    }

    /** Advances the active index cyclically and returns the frame now active. */
    method Next() returns (f: Frame)
      requires Valid() && frames != [] && activeFrame.Some? && activeFrame.value >= -1
      modifies this
      ensures Valid() && frames == old(frames) && color == old(color)
      ensures activeFrame == Some(NextIndex(old(activeFrame.value), |frames|))
      ensures f == frames[activeFrame.value]
    {
      activeFrame := Some(activeFrame.value + 1);
      // the increment leaves a non-negative index, where JavaScript's % and Dafny's agree
      activeFrame := Some(activeFrame.value % |frames|);
      f := frames[activeFrame.value];
    }
  }

  /** One entry of the frame picker: the frame's index and whether it is the active one. */
  datatype Entry = Entry(id: nat, active: bool)

  /** The picker entries for `n` frames, in frame order (the index-carrying `map`). */
  function Entries(n: nat, active: Option<int>): (r: seq<Entry>)
    ensures |r| == n
    ensures forall i :: 0 <= i < n ==> r[i].id == i && (r[i].active <==> active == Some(i))
  {
    seq(n, (i: int) requires 0 <= i < n => Entry(i, active == Some(i)))
  }

  /** SceneView.drawFrames: one entry per frame of the model, the active one marked. */
  function DrawFrames(model: SceneModel): (r: seq<Entry>)
    reads model
    ensures |r| == |model.frames|
    ensures forall i :: 0 <= i < |r| ==> r[i].id == i && (r[i].active <==> model.activeFrame == Some(i))
  {
    Entries(|model.frames|, model.activeFrame)
  }

  /** How many entries are marked active. */
  function CountActive(entries: seq<Entry>): (count: nat)
  {
    if entries == [] then 0
    else CountActive(entries[..|entries| - 1]) + (if entries[|entries| - 1].active then 1 else 0)
  }

  /** Exactly one entry is marked active when the index is in range, none otherwise. */
  lemma {:induction false} EntriesActiveCount(n: nat, active: Option<int>)
    ensures CountActive(Entries(n, active)) == if active.Some? && 0 <= active.value < n then 1 else 0
  {
    if n > 0 {
      assert Entries(n, active)[..n - 1] == Entries(n - 1, active);
      EntriesActiveCount(n - 1, active);
    }
  }

  /** Mediates between the UI and the model; caches the active Frame. */
  class SceneController {
    const model: SceneModel
    /** The cached active frame; null stands for both `null` and `undefined`. */
    var activeFrame: Frame?

    /** The cache is the model's frame at the active index whenever that is in
        range; otherwise the index is null, or -1 with no frames, and there is
        no active frame. */
    ghost predicate CacheAgrees()
      reads this, model
      ensures CacheAgrees() ==>
                (activeFrame != null <==> model.activeFrame.Some? && 0 <= model.activeFrame.value < |model.frames|)
    {
      match model.activeFrame
      case None => activeFrame == null
      case Some(k) =>
        if 0 <= k < |model.frames| then activeFrame == model.frames[k]
        else k == -1 && model.frames == [] && activeFrame == null
    }

    ghost predicate Valid()
      reads this, model
    {
      model.Valid() && CacheAgrees()
    }

    constructor (model: SceneModel)
      requires model.Valid() && model.activeFrame == None
      ensures this.model == model && activeFrame == null
      ensures Valid()
    {
      this.model := model;
      activeFrame := null;
    }

    /** Advances playback by one frame. */
    method NextFrame()
      requires Valid() && model.frames != [] && model.activeFrame.Some?
      modifies this, model
      ensures Valid() && model.frames == old(model.frames) && model.color == old(model.color)
      ensures old(model.activeFrame.value) >= 0
      ensures model.activeFrame == Some(NextIndex(old(model.activeFrame.value), |model.frames|))
      ensures activeFrame == model.frames[model.activeFrame.value]
    {
      activeFrame := model.Next();
    }

    /** Makes frame `num` active; `num` is -1 only right after the last frame was deleted. */
    method SetActiveFrame(num: int)
      requires model.Valid()
      requires 0 <= num < |model.frames| || (num == -1 && model.frames == [])
      modifies this, model
      ensures Valid()
      ensures model.activeFrame == Some(num)
      ensures activeFrame == if num == -1 then null else model.frames[num]
      ensures model.frames == old(model.frames) && model.color == old(model.color)
    {
      // frames[-1] is undefined
      activeFrame := if num == -1 then null else model.frames[num];
      model.activeFrame := Some(num);
    }

    /** Adds an empty frame and makes it active. */
    method AddFrame()
      requires Valid()
      modifies this, model
      ensures Valid()
      ensures |model.frames| == |old(model.frames)| + 1
      ensures model.frames[..|old(model.frames)|] == old(model.frames)
      ensures activeFrame == model.frames[|model.frames| - 1]
      ensures fresh(activeFrame) && activeFrame.actions == []
      ensures model.activeFrame == Some(|model.frames| - 1) && model.color == old(model.color)
    {
      activeFrame := model.AddFrame();
      SetActiveFrame(|model.frames| - 1);
    }

    /** Appends a copy of frame `num` and makes the copy active. */
    method DuplicateFrame(num: int)
      requires Valid() && 0 <= num < |model.frames|
      modifies this, model
      ensures Valid()
      ensures |model.frames| == |old(model.frames)| + 1
      ensures model.frames[..|old(model.frames)|] == old(model.frames)
      ensures activeFrame == model.frames[|model.frames| - 1]
      ensures fresh(activeFrame) && activeFrame.actions == old(model.frames[num].actions)
      ensures model.activeFrame == Some(|model.frames| - 1) && model.color == old(model.color)
    {
      activeFrame := model.DuplicateFrame(num);
      SetActiveFrame(|model.frames| - 1);
    }

    /** Deletes frame `num` and makes the last remaining frame active
        (the index becomes -1 and no frame is active when none remains). */
    method DeleteFrame(num: int)
      requires Valid() && 0 <= num < |model.frames|
      modifies this, model
      ensures Valid()
      ensures model.frames == RemoveAt(old(model.frames), num)
      ensures model.activeFrame == Some(|model.frames| - 1)
      ensures activeFrame == if model.frames == [] then null else model.frames[|model.frames| - 1]
      ensures model.color == old(model.color)
    {
      // the model's answer (the first frame) is overwritten straight away
      activeFrame := model.DeleteFrame(num);
      SetActiveFrame(|model.frames| - 1);
    }

    /** Appends a line in the current colour to the active frame. With no
        active frame JavaScript throws a TypeError here: `ok` is false and
        nothing changes. */
    method AddLineAction(from: Point, to: Point) returns (ok: bool)
      requires Valid()
      modifies activeFrame
      ensures Valid()
      ensures ok <==> activeFrame != null
      ensures ok ==> activeFrame.actions == old(activeFrame.actions) + [ActionLine(from, to, model.color)]
      ensures forall i :: 0 <= i < |model.frames| && model.activeFrame != Some(i) ==>
                model.frames[i].actions == old(model.frames[i].actions)
    {
      if activeFrame == null {
        return false;
      }
      activeFrame.AddAction(ActionLine(from, to, model.color));
      ok := true;
    }

    method SetCurrentColor(c: string)
      requires Valid()
      modifies model
      ensures Valid()
      ensures model.color == c
      ensures model.frames == old(model.frames) && model.activeFrame == old(model.activeFrame)
    {
      model.SetCurrentColor(c);
    }

    /** SceneController.draw: the active frame is drawn on the main canvas and
        then on the preview; with no active frame nothing is drawn. */
    function Draw(): (ops: seq<SurfaceOp>)
      reads this, activeFrame
      ensures ops == [] <==> activeFrame == null
      ensures activeFrame != null ==>
                var frame := FrameOps(activeFrame.actions);
                |ops| == 2 * |frame| &&
                forall i :: 0 <= i < |frame| ==>
                  ops[i] == SurfaceOp(Canvas, frame[i]) && ops[|frame| + i] == SurfaceOp(Preview, frame[i])
    {
      if activeFrame == null then [] else On(Canvas, activeFrame.Draw()) + On(Preview, activeFrame.Draw())
    }
  }

  /** A duplicate is independent of its original: drawing on the copy leaves
      the original's actions as they were. */
  method DuplicateIsIndependent(scene: SceneController, num: int, from: Point, to: Point)
    requires scene.Valid() && 0 <= num < |scene.model.frames|
    modifies scene, scene.model
    ensures scene.Valid() && |scene.model.frames| == |old(scene.model.frames)| + 1
    ensures scene.model.frames[num] == old(scene.model.frames[num])
    ensures scene.model.frames[num].actions == old(scene.model.frames[num].actions)
    ensures scene.activeFrame != null && scene.activeFrame != scene.model.frames[num]
    ensures scene.activeFrame.actions == old(scene.model.frames[num].actions) + [ActionLine(from, to, scene.model.color)]
  {
    scene.DuplicateFrame(num);
    var ok := scene.AddLineAction(from, to);
  }
}

/** The injector's state as a value: what each mixer input holds, the input
    weights, the two controller fields and the node bookkeeping, with one pure
    function per step of its coroutines. The class in module Injection keeps
    this state in arrays and fields and is proved to follow these functions. */
module InjectorState {
  import opened Crossfade

  datatype Option<T> = None | Some(value: T)

  /** Inputs of the layer mixer: the base input 0 and the three overlays. */
  const Inputs: int := 4

  /** The id of the animator-controller node connected to input 0. */
  const BaseNode: nat := 0

  /** The locals of a running TransitAnimation. */
  datatype Transit = Transit(startTime: real, waitTime: real, time: real,
                             initialIndex: int, initialWeight: Vec3, targetWeight: Vec3)
  {
    predicate Valid()
    {
      waitTime == startTime + time && 0 <= initialIndex <= Overlays &&
      InUnit(initialWeight) && InUnit(targetWeight)
    }
  }

  /** The locals of a running StartAnimation. */
  datatype StartTask = StartTask(fromIndex: int, toIndex: int, transit: Transit)

  /** The locals of a running EndAnimation. */
  datatype EndTask = EndTask(localTransitionCount: int, transit: Transit)

  /** The locals of a running StartAndEndAnimation, with the fades as clamped. */
  datatype PlayTask = PlayTask(localTransitionCount: int, length: real,
                               fadeInTime: real, fadeOutTime: real, start: StartTask)
  {
    /** The fades fit the clip and the snapshot follows at least one start. */
    predicate Valid()
    {
      length >= 0.0 && fadeInTime + fadeOutTime <= length && localTransitionCount >= 1
    }
  }

  /** slots: the node on each mixer input, None when the input is empty;
      weights: the blend weight of each input; currentAnimationIndex: the
      active overlay, 0 for none; playableTransitionCount: the generation
      counter; nextNode: the id the next clip node created gets;
      destroyed: every node destroyed so far. */
  datatype State = State(slots: seq<Option<nat>>, weights: seq<real>,
                         currentAnimationIndex: int, playableTransitionCount: int,
                         nextNode: nat, destroyed: set<nat>)
  {
    /** Input 0 holds the base node at weight 1, all weights lie in [0, 1],
        a connected node is live (created and not yet destroyed) and no node
        sits on two inputs. Written out input by input over the four inputs. */
    predicate Valid()
    {
      |slots| == Inputs && |weights| == Inputs &&
      slots[0] == Some(BaseNode) && weights[0] == 1.0 &&
      0 <= currentAnimationIndex <= Overlays && playableTransitionCount >= 0 &&
      InRange(1) && InRange(2) && InRange(3) &&
      Live(0) && Live(1) && Live(2) && Live(3) &&
      Apart(0, 1) && Apart(0, 2) && Apart(0, 3) && Apart(1, 2) && Apart(1, 3) && Apart(2, 3) &&
      (forall d :: d in destroyed ==> d < nextNode)
    }

    /** The weight of input i lies in [0, 1]. */
    predicate InRange(i: int)
      requires 0 <= i < |weights|
    {
      0.0 <= weights[i] <= 1.0
    }

    /** The node on input i, if any, has been created and not destroyed. */
    predicate Live(i: int)
      requires 0 <= i < |slots|
    {
      slots[i].Some? ==> slots[i].value < nextNode && slots[i].value !in destroyed
    }

    /** Inputs i and j do not hold the same node. */
    predicate Apart(i: int, j: int)
      requires 0 <= i < |slots| && 0 <= j < |slots|
    {
      slots[i].Some? && slots[j].Some? ==> slots[i].value != slots[j].value
    }

    /** The weights of the three overlay inputs. */
    function Overlay(): Vec3
      requires |weights| == Inputs
    {
      Vec3(weights[1], weights[2], weights[3])
    }
  }

  /** Once the graph is set up: the animator controller on input 0 at weight 1,
      the overlays empty at weight 0, no overlay active, no run begun. */
  const Initial: State :=
    State([Some(BaseNode), None, None, None], [1.0, 0.0, 0.0, 0.0], 0, 0, BaseNode + 1, {})

  /** The overlay nodes held in inputs 1 .. n-1 of a slot table. */
  function OverlayNodes(s: seq<Option<nat>>, n: int): (r: set<nat>)
    requires n <= |s|
    ensures forall i :: 1 <= i < n && s[i].Some? ==> s[i].value in r
    ensures forall x :: x in r ==> exists i :: 1 <= i < n && s[i] == Some(x)
    decreases n
  {
    if n <= 1 then {}
    else OverlayNodes(s, n - 1) + (if s[n - 1].Some? then {s[n - 1].value} else {})
  }

  // ---------------------------------------------------------------------------
  // Connecting and releasing one input

  /** RemovePlayable(index): the node of overlay `index` is disconnected and
      destroyed, and the input weight set to 0. The node destroyed was live,
      so no node is ever destroyed twice. */
  function Release(s: State, index: int): (r: State)
    requires s.Valid() && 1 <= index <= Overlays && s.slots[index].Some?
    ensures r.Valid()
    ensures s.slots[index].value !in s.destroyed && r.destroyed == s.destroyed + {s.slots[index].value}
  {
    s.(slots := s.slots[index := None], weights := s.weights[index := 0.0],
       destroyed := s.destroyed + {s.slots[index].value})
  }

  /** RemovePlayable touches only its own input: every other input keeps its
      node and weight, the base input included, and neither controller field
      changes. */
  lemma ReleaseEffect(s: State, index: int)
    requires s.Valid() && 1 <= index <= Overlays && s.slots[index].Some?
    ensures Release(s, index).slots[index] == None && Release(s, index).weights[index] == 0.0
    ensures forall i :: 0 <= i < Inputs && i != index ==>
      Release(s, index).slots[i] == s.slots[i] && Release(s, index).weights[i] == s.weights[i]
    ensures Release(s, index).currentAnimationIndex == s.currentAnimationIndex
    ensures Release(s, index).playableTransitionCount == s.playableTransitionCount
  {
  }

  /** A fresh clip node connected to the empty overlay `index`; connecting
      without a weight leaves the input weight at 0. */
  function Connect(s: State, index: int): (r: State)
    requires s.Valid() && 1 <= index <= Overlays && s.slots[index].None?
    ensures r.Valid()
    ensures s.nextNode !in r.destroyed && r.slots[index] == Some(s.nextNode)
  {
    s.(slots := s.slots[index := Some(s.nextNode)], weights := s.weights[index := 0.0],
       nextNode := s.nextNode + 1)
  }

  // ---------------------------------------------------------------------------
  // TransitAnimation

  /** The locals TransitAnimation(time, transitIndex) records when begun at
      `now`: its deadline, the active overlay, the overlay weights as they
      stand and the one-hot target. */
  function BeginTransit(s: State, time: real, transitIndex: int, now: real): (t: Transit)
    requires s.Valid()
    ensures t.Valid() && t.startTime == now && t.waitTime == now + time && t.time == time
  {
    Transit(now, now + time, time, s.currentAnimationIndex, s.Overlay(), TargetWeights(transitIndex))
  }

  /** The overlay weights `v` with those of empty overlays forced to 0. */
  function Masked(slots: seq<Option<nat>>, v: Vec3): (r: Vec3)
    requires |slots| == Inputs
    ensures forall i :: 1 <= i <= Overlays ==> r.Get(i) == if slots[i].None? then 0.0 else v.Get(i)
    ensures InUnit(v) ==> InUnit(r) && Sum(r) <= Sum(v)
  {
    Vec3(if slots[1].None? then 0.0 else v.x,
         if slots[2].None? then 0.0 else v.y,
         if slots[3].None? then 0.0 else v.z)
  }

  /** The weights with the three overlay weights replaced by `v`. */
  function WithOverlay(w: seq<real>, v: Vec3): (r: seq<real>)
    requires |w| == Inputs
    ensures |r| == Inputs && r[0] == w[0]
  {
    [w[0], v.x, v.y, v.z]
  }

  /** Whether a transition's remaining time at `now` is positive. */
  predicate TimeRemains(t: Transit, now: real)
  {
    t.waitTime - now > 0.0
  }

  /** The overlay weights a transition gives while time remains: the
      remaining fraction of the way from the target back to the initial
      weights. */
  function Interpolated(t: Transit, now: real): (v: Vec3)
    requires t.Valid() && t.startTime <= now && TimeRemains(t, now)
    ensures InUnit(v)
  {
    LerpVec(t.targetWeight, t.initialWeight, Remaining(t.waitTime - now, t.time))
  }

  /** One evaluation of the transition's wait predicate at `now`: nothing is
      written once the active overlay has changed; otherwise the overlays get
      the interpolated weights while time remains, their targets when not. */
  function Ticked(s: State, t: Transit, now: real): (r: State)
    requires s.Valid() && t.Valid() && t.startTime <= now
    ensures r.Valid()
  {
    if s.currentAnimationIndex != t.initialIndex then s
    else if TimeRemains(t, now) then
      s.(weights := WithOverlay(s.weights, Masked(s.slots, Interpolated(t, now))))
    else
      s.(weights := WithOverlay(s.weights, t.targetWeight))
  }

  /** What that evaluation returns: true while the wait goes on. */
  predicate KeepWaiting(s: State, t: Transit, now: real)
  {
    s.currentAnimationIndex == t.initialIndex && TimeRemains(t, now)
  }

  /** A tick writes overlay weights only: the slot table, the base weight and
      the controller fields stay as they are. */
  lemma TickKeepsSlots(s: State, t: Transit, now: real)
    requires s.Valid() && t.Valid() && t.startTime <= now
    ensures Ticked(s, t, now).slots == s.slots
    ensures Ticked(s, t, now).weights[0] == s.weights[0]
    ensures Ticked(s, t, now).currentAnimationIndex == s.currentAnimationIndex
    ensures Ticked(s, t, now).playableTransitionCount == s.playableTransitionCount
    ensures Ticked(s, t, now).destroyed == s.destroyed
  {
  }

  /** Once the active overlay has changed since the transition began, its
      wait ends at the next tick and no weight is written. */
  lemma TickSuperseded(s: State, t: Transit, now: real)
    requires s.Valid() && t.Valid() && t.startTime <= now
    requires s.currentAnimationIndex != t.initialIndex
    ensures !KeepWaiting(s, t, now) && Ticked(s, t, now) == s
  {
  }

  /** While time remains (which needs a positive length), every occupied
      overlay gets the weight lying the remaining fraction of the way from its
      target back to its initial weight, so between the two; an empty one gets
      0; the wait goes on. */
  lemma TickInterpolates(s: State, t: Transit, now: real)
    requires s.Valid() && t.Valid() && t.startTime <= now
    requires s.currentAnimationIndex == t.initialIndex && now < t.waitTime
    ensures KeepWaiting(s, t, now) && 0.0 < t.time
    ensures forall i :: 1 <= i <= Overlays ==>
      Ticked(s, t, now).weights[i] ==
        (if s.slots[i].None? then 0.0
         else Lerp(t.targetWeight.Get(i), t.initialWeight.Get(i), Remaining(t.waitTime - now, t.time)))
    ensures forall i :: 1 <= i <= Overlays && s.slots[i].Some? ==>
      Min(t.targetWeight.Get(i), t.initialWeight.Get(i)) <= Ticked(s, t, now).weights[i]
      <= Max(t.targetWeight.Get(i), t.initialWeight.Get(i))
  {
    var f := Remaining(t.waitTime - now, t.time);
    var r := Ticked(s, t, now);
    forall i | 1 <= i <= Overlays
      ensures r.weights[i] == (if s.slots[i].None? then 0.0
                               else Lerp(t.targetWeight.Get(i), t.initialWeight.Get(i), f))
    {
      assert r.weights[i] == Masked(s.slots, Interpolated(t, now)).Get(i);
    }
  }

  /** When time is up, always so for a length of 0 or less, every overlay is
      set exactly to its target and the wait ends. */
  lemma TickSnaps(s: State, t: Transit, now: real)
    requires s.Valid() && t.Valid() && t.startTime <= now
    requires s.currentAnimationIndex == t.initialIndex && t.waitTime <= now
    ensures !KeepWaiting(s, t, now) && Ticked(s, t, now).Overlay() == t.targetWeight
  {
  }

  /** A transition of length 0 or less snaps at its very first tick, so the
      division by its length is never reached. */
  lemma TickWithoutLength(s: State, t: Transit, now: real)
    requires s.Valid() && t.Valid() && t.startTime <= now && t.time <= 0.0
    requires s.currentAnimationIndex == t.initialIndex
    ensures !TimeRemains(t, now)
    ensures !KeepWaiting(s, t, now) && Ticked(s, t, now).Overlay() == t.targetWeight
  {
    TickSnaps(s, t, now);
  }

  // ---------------------------------------------------------------------------
  // StartAnimation

  /** The state after the synchronous part of StartAnimation: any node on the
      overlay after the active one is released, a fresh node is connected
      there, that overlay becomes the active one and the generation counter
      goes up. */
  function Started(s: State): (r: State)
    requires s.Valid()
    ensures r.Valid()
  {
    var to := NextIndex(s.currentAnimationIndex);
    var cleared := if s.slots[to].Some? then Release(s, to) else s;
    Connect(cleared, to).(currentAnimationIndex := to,
                          playableTransitionCount := s.playableTransitionCount + 1)
  }

  /** The locals of StartAnimation(fadeTime) begun at `now`: the overlay that
      was active, the one claimed, and the transition into the latter. */
  function StartTaskOf(s: State, fadeTime: real, now: real): (task: StartTask)
    requires s.Valid()
    ensures 0 <= task.fromIndex <= Overlays
    ensures task.transit.Valid() && task.transit.startTime == now
  {
    var to := NextIndex(s.currentAnimationIndex);
    StartTask(s.currentAnimationIndex, to, BeginTransit(Started(s), fadeTime, to, now))
  }

  /** What the synchronous part of StartAnimation does. The overlay claimed
      lies in 1..3 and differs from the active one; it receives a node never
      used before (and so not destroyed) at weight 0 and becomes active; the
      counter goes up by exactly one; the node it held before, if any, is
      destroyed; every other input keeps its node and weight. The transition
      begun runs from the overlay weights as they now stand to the one-hot
      target of the claimed overlay. */
  lemma StartedEffect(s: State, fadeTime: real, now: real)
    requires s.Valid()
    ensures var to := NextIndex(s.currentAnimationIndex); var r := Started(s);
      var task := StartTaskOf(s, fadeTime, now);
      1 <= to <= Overlays && to != s.currentAnimationIndex &&
      task.fromIndex == s.currentAnimationIndex && task.toIndex == to &&
      r.currentAnimationIndex == to &&
      r.playableTransitionCount == s.playableTransitionCount + 1 &&
      r.slots[to] == Some(s.nextNode) && s.nextNode !in s.destroyed &&
      (forall i :: 0 <= i < Inputs && i != to ==> r.slots[i] == s.slots[i]) &&
      r.weights == s.weights[to := 0.0] &&
      r.destroyed == s.destroyed + (if s.slots[to].Some? then {s.slots[to].value} else {}) &&
      task.transit.initialIndex == to && task.transit.initialWeight == r.Overlay() &&
      task.transit.targetWeight == TargetWeights(to) &&
      task.transit.startTime == now && task.transit.time == fadeTime
  {
  }

  /** The state after the rest of StartAnimation: the overlay that was active
      when it began is released, unless it was the base input or is empty by
      now. The counter is not consulted. */
  function Resumed(s: State, fromIndex: int): (r: State)
    requires s.Valid() && 0 <= fromIndex <= Overlays
    ensures r.Valid()
  {
    if fromIndex != 0 && s.slots[fromIndex].Some? then Release(s, fromIndex) else s
  }

  /** The rest of StartAnimation releases at most the input it began on, and
      exactly when that is an occupied overlay; the base input and the
      controller fields never change. */
  lemma ResumedEffect(s: State, fromIndex: int)
    requires s.Valid() && 0 <= fromIndex <= Overlays
    ensures var r := Resumed(s, fromIndex);
      r.slots[0] == s.slots[0] && r.weights[0] == s.weights[0] &&
      (forall i :: 0 <= i < Inputs && i != fromIndex ==>
         r.slots[i] == s.slots[i] && r.weights[i] == s.weights[i]) &&
      (r.slots[fromIndex].None? <==> fromIndex != 0 || s.slots[fromIndex].None?) &&
      var released := fromIndex != 0 && s.slots[fromIndex].Some?;
      r.weights[fromIndex] == (if released then 0.0 else s.weights[fromIndex]) &&
      r.destroyed == s.destroyed + (if released then {s.slots[fromIndex].value} else {}) &&
      r.currentAnimationIndex == s.currentAnimationIndex &&
      r.playableTransitionCount == s.playableTransitionCount
  {
  }

  // ---------------------------------------------------------------------------
  // EndAnimation

  /** The state after the synchronous part of EndAnimation: no overlay active. */
  function Ended(s: State): (r: State)
    requires s.Valid()
    ensures r.Valid()
  {
    s.(currentAnimationIndex := 0)
  }

  /** The locals of EndAnimation(fadeTime) begun at `now`: the counter as it
      stood and the transition to all-zero overlay weights. */
  function EndTaskOf(s: State, fadeTime: real, now: real): (task: EndTask)
    requires s.Valid()
    ensures task.transit.Valid() && task.transit.startTime == now
  {
    EndTask(s.playableTransitionCount, BeginTransit(Ended(s), fadeTime, 0, now))
  }

  /** EndAnimation's synchronous part snapshots the counter and never changes
      it, makes no overlay active, and leaves every node and weight alone. */
  lemma EndedEffect(s: State, fadeTime: real, now: real)
    requires s.Valid()
    ensures var r := Ended(s); var task := EndTaskOf(s, fadeTime, now);
      task.localTransitionCount == s.playableTransitionCount == r.playableTransitionCount &&
      r.currentAnimationIndex == 0 && r.slots == s.slots && r.weights == s.weights &&
      task.transit.initialIndex == 0 && task.transit.initialWeight == s.Overlay() &&
      task.transit.targetWeight == Zero
  {
  }

  /** Inputs 1 .. n-1 released where occupied, in ascending order. */
  function ReleaseOverlays(s: State, n: int): (r: State)
    requires s.Valid() && 1 <= n <= Inputs
    ensures r.Valid()
    ensures r.currentAnimationIndex == s.currentAnimationIndex
    ensures r.playableTransitionCount == s.playableTransitionCount
    ensures forall k :: n <= k < Inputs ==> r.slots[k] == s.slots[k]
    decreases n
  {
    if n == 1 then s
    else
      var p := ReleaseOverlays(s, n - 1);
      if p.slots[n - 1].Some? then Release(p, n - 1) else p
  }

  lemma {:induction false} ReleaseOverlaysEffect(s: State, n: int)
    requires s.Valid() && 1 <= n <= Inputs
    ensures var r := ReleaseOverlays(s, n);
      r.slots[0] == s.slots[0] && r.weights[0] == s.weights[0] &&
      (forall k :: 1 <= k < n ==>
         r.slots[k] == None && r.weights[k] == if s.slots[k].Some? then 0.0 else s.weights[k]) &&
      (forall k :: n <= k < Inputs ==> r.weights[k] == s.weights[k])
  {
    if n > 1 {
      ReleaseOverlaysEffect(s, n - 1);
      var p := ReleaseOverlays(s, n - 1);
      assert p.slots[n - 1] == s.slots[n - 1];
      if p.slots[n - 1].Some? {
        ReleaseEffect(p, n - 1);
      }
    }
  }

  /** Releasing inputs 1 .. n-1 destroys exactly the nodes they held. */
  lemma {:induction false} ReleaseOverlaysDestroys(s: State, n: int)
    requires s.Valid() && 1 <= n <= Inputs
    ensures ReleaseOverlays(s, n).destroyed == s.destroyed + OverlayNodes(s.slots, n)
  {
    if n > 1 {
      ReleaseOverlaysDestroys(s, n - 1);
      var p := ReleaseOverlays(s, n - 1);
      assert p.slots[n - 1] == s.slots[n - 1];
      assert OverlayNodes(s.slots, n) == OverlayNodes(s.slots, n - 1)
        + (if s.slots[n - 1].Some? then {s.slots[n - 1].value} else {});
    }
  }

  /** The state after the rest of EndAnimation: nothing happens when a newer
      StartAnimation has begun; otherwise every overlay is released. */
  function EndResumed(s: State, task: EndTask): (r: State)
    requires s.Valid()
    ensures r.Valid()
  {
    if s.playableTransitionCount != task.localTransitionCount then s
    else ReleaseOverlays(s, Inputs)
  }

  /** Releasing every overlay empties all three, sets those that held a node
      to weight 0, keeps the base input and destroys exactly the overlay nodes. */
  lemma ReleaseAllEffect(s: State)
    requires s.Valid()
    ensures ReleaseOverlays(s, Inputs).slots[0] == Some(BaseNode)
    ensures forall i :: 1 <= i < Inputs ==> ReleaseOverlays(s, Inputs).slots[i] == None
    ensures ReleaseOverlays(s, Inputs).weights[0] == 1.0
    ensures forall i :: 1 <= i < Inputs ==>
      ReleaseOverlays(s, Inputs).weights[i] == if s.slots[i].Some? then 0.0 else s.weights[i]
    ensures ReleaseOverlays(s, Inputs).destroyed == s.destroyed + OverlayNodes(s.slots, Inputs)
  {
    ReleaseOverlaysEffect(s, Inputs);
    ReleaseOverlaysDestroys(s, Inputs);
  }

  /** When the counter moved, the rest of EndAnimation changes nothing. When
      it did not, all three overlays end up empty, those that held a node at
      weight 0, the base input is kept, and exactly the overlay nodes are
      destroyed. The controller fields never change. */
  lemma EndResumedEffect(s: State, task: EndTask)
    requires s.Valid()
    ensures s.playableTransitionCount != task.localTransitionCount ==> EndResumed(s, task) == s
    ensures s.playableTransitionCount == task.localTransitionCount ==>
      EndResumed(s, task).slots[0] == Some(BaseNode) &&
      (forall i :: 1 <= i < Inputs ==> EndResumed(s, task).slots[i] == None) &&
      EndResumed(s, task).weights[0] == 1.0 &&
      (forall i :: 1 <= i < Inputs ==>
         EndResumed(s, task).weights[i] == if s.slots[i].Some? then 0.0 else s.weights[i]) &&
      EndResumed(s, task).destroyed == s.destroyed + OverlayNodes(s.slots, Inputs)
    ensures EndResumed(s, task).currentAnimationIndex == s.currentAnimationIndex
    ensures EndResumed(s, task).playableTransitionCount == s.playableTransitionCount
  {
    if s.playableTransitionCount == task.localTransitionCount {
      ReleaseAllEffect(s);
    }
  }

  // ---------------------------------------------------------------------------
  // StartAndEndAnimation

  /** The locals of StartAndEndAnimation for a clip of the given length, begun
      at `now`: the fades clamped to the clip, the counter value its own
      StartAnimation leaves behind, and that StartAnimation's locals. */
  function PlayTaskOf(s: State, length: real, fadeInTime: real, fadeOutTime: real, now: real): (task: PlayTask)
    requires s.Valid() && length >= 0.0
    ensures Fades(task.fadeInTime, task.fadeOutTime) == ClampFades(fadeInTime, fadeOutTime, length)
    ensures task.localTransitionCount == Started(s).playableTransitionCount
    ensures task.Valid()
  {
    var fades := ClampFades(fadeInTime, fadeOutTime, length);
    PlayTask(s.playableTransitionCount + 1, length, fades.fadeIn, fades.fadeOut,
             StartTaskOf(s, fades.fadeIn, now))
  }

  /** Whether no StartAnimation has begun since the play run's own. */
  predicate Current(s: State, task: PlayTask)
  {
    s.playableTransitionCount == task.localTransitionCount
  }

  /** The hold a play run waits for after fading in, None when it stops. */
  function PlayHold(s: State, task: PlayTask): (hold: Option<real>)
    ensures hold.Some? <==> Current(s, task)
    ensures hold.Some? ==> hold.value + task.fadeInTime + task.fadeOutTime == task.length
    ensures task.Valid() && hold.Some? ==> hold.value >= 0.0
  {
    if !Current(s, task) then None
    else Some(task.length - task.fadeInTime - task.fadeOutTime)
  }

  /** The EndAnimation a play run begins after its hold, None when it stops. */
  function PlayFadeOut(s: State, task: PlayTask, now: real): (end: Option<EndTask>)
    requires s.Valid()
    ensures end.Some? <==> Current(s, task)
    ensures end.Some? ==>
      end.value.localTransitionCount == task.localTransitionCount &&
      end.value.transit.targetWeight == Zero && end.value.transit.initialIndex == 0 &&
      end.value.transit.time == task.fadeOutTime && end.value.transit.startTime == now
  {
    if !Current(s, task) then None else Some(EndTaskOf(s, task.fadeOutTime, now))
  }

  /** The state after a play run's fade-out step. */
  function FadedOut(s: State, task: PlayTask): (r: State)
    requires s.Valid()
    ensures r.Valid()
  {
    if !Current(s, task) then s else Ended(s)
  }

  // ---------------------------------------------------------------------------
  // The generation counter

  /** Only StartAnimation moves the counter, and only up by one: every other
      step, EndAnimation included, keeps it. */
  lemma CounterSteps(s: State, t: Transit, now: real, fromIndex: int, e: EndTask, p: PlayTask)
    requires s.Valid() && t.Valid() && t.startTime <= now && 0 <= fromIndex <= Overlays
    ensures Started(s).playableTransitionCount == s.playableTransitionCount + 1
    ensures Resumed(s, fromIndex).playableTransitionCount == s.playableTransitionCount
    ensures Ended(s).playableTransitionCount == s.playableTransitionCount
    ensures EndResumed(s, e).playableTransitionCount == s.playableTransitionCount
    ensures Ticked(s, t, now).playableTransitionCount == s.playableTransitionCount
    ensures FadedOut(s, p).playableTransitionCount == s.playableTransitionCount
  {
    TickKeepsSlots(s, t, now);
  }

  /** The snapshot a play run takes is the counter value its own
      StartAnimation leaves behind: with no other StartAnimation in between,
      the hold is taken, never negative, and the fade-out begins. */
  lemma PlayGate(s: State, length: real, fadeInTime: real, fadeOutTime: real, now: real)
    requires s.Valid() && length >= 0.0
    ensures var task := PlayTaskOf(s, length, fadeInTime, fadeOutTime, now);
      Current(Started(s), task) &&
      PlayHold(Started(s), task).Some? && PlayHold(Started(s), task).value >= 0.0 &&
      PlayFadeOut(Started(s), task, now).Some?
  {
    var task := PlayTaskOf(s, length, fadeInTime, fadeOutTime, now);
    assert Current(Started(s), task);
    assert task.length - task.fadeInTime - task.fadeOutTime >= 0.0;
  }

  /** Once a later StartAnimation has raised the counter past a play run's
      snapshot, the run skips both its hold and its fade-out and changes
      nothing. */
  lemma PlaySuperseded(s: State, length: real, fadeInTime: real, fadeOutTime: real, now: real, later: State)
    requires s.Valid() && length >= 0.0 && later.Valid()
    requires later.playableTransitionCount > Started(s).playableTransitionCount
    ensures var task := PlayTaskOf(s, length, fadeInTime, fadeOutTime, now);
      PlayHold(later, task).None? && PlayFadeOut(later, task, now).None? &&
      FadedOut(later, task) == later
  {
  }
}

/** The animation injector: a layer mixer with four inputs, input 0 holding the
    actor's own animator controller and inputs 1..3 holding overlay clips, plus
    the coroutines that fill those overlay slots, crossfade their weights and
    release them.

    Each coroutine is split at its suspension points into methods: a begin
    method for the part that runs synchronously when it is started, a tick
    method for one evaluation of a wait predicate, and a resume method for the
    part after the wait. The host's level time is passed in as `now`; a
    scheduler is whoever calls these methods, in whatever order it likes.
    Every method is proved to move the injector's state as the matching
    function of module InjectorState does. */
module Injection {
  import opened Crossfade
  import opened InjectorState

  class AnimationInjector {
    /** The node connected to each mixer input, None when the input is empty. */
    const slots: array<Option<nat>>
    /** The blend weight of each mixer input. */
    const weights: array<real>
    /** The active overlay slot; 0 when none is. */
    var currentAnimationIndex: int
    /** The generation counter: how many StartAnimation runs have begun. */
    var playableTransitionCount: int
    /** The id the next clip node created will get. */
    var nextNode: nat
    /** Every node destroyed so far. */
    ghost var destroyed: set<nat>

    /** The injector's state as a value. */
    ghost function State(): InjectorState.State
      reads this, slots, weights
    {
      InjectorState.State(slots[..], weights[..], currentAnimationIndex,
                          playableTransitionCount, nextNode, destroyed)
    }

    ghost predicate Valid()
      reads this, slots, weights
    {
      State().Valid()
    }

    /** The state once the graph is set up: the animator controller on input 0
        with weight 1, the overlay inputs empty with weight 0. */
    constructor ()
      ensures Valid() && fresh(slots) && fresh(weights)
      ensures State() == Initial
    {
      slots := new Option<nat>[] [Some(BaseNode), None, None, None];
      weights := new real[] [1.0, 0.0, 0.0, 0.0];
      currentAnimationIndex := 0;
      playableTransitionCount := 0;
      nextNode := BaseNode + 1;
      destroyed := {};
    }

    /** The active overlay slot, 0 for none. */
    function GetCurrentAnimationIndex(): (r: int)
      reads this, slots, weights
      requires Valid()
      ensures 0 <= r <= Overlays
    {
      currentAnimationIndex
    }

    /** Disconnect and destroy the node of overlay slot `index` and zero its
        weight. */
    method RemovePlayable(index: int)
      requires Valid() && 1 <= index <= Overlays && slots[index].Some?
      modifies this`destroyed, slots, weights
      ensures Valid()
      ensures State() == Release(old(State()), index)
    {
      var playable := slots[index].value;
      slots[index] := None;
      weights[index] := 0.0;
      destroyed := destroyed + {playable};
    }

    /** Create a node for a new clip and connect it to the empty overlay slot
        `index`; connecting without a weight gives the input weight 0. */
    method ConnectClip(index: int)
      requires Valid() && 1 <= index <= Overlays && slots[index].None?
      modifies this`nextNode, slots, weights
      ensures Valid()
      ensures State() == Connect(old(State()), index)
    {
      var temporaryPlayable := nextNode;
      nextNode := nextNode + 1;
      slots[index] := Some(temporaryPlayable);
      weights[index] := 0.0;
    }

    // -------------------------------------------------------------------------
    // TransitAnimation

    /** The synchronous start of a transition into slot `transitIndex` lasting
        `time`: record the deadline, the active slot, the overlay weights as
        they stand and the one-hot target, and pin the base weight to 1 (which
        it already is, so the state does not change). */
    method TransitAnimation(time: real, transitIndex: int, now: real) returns (t: Transit)
      requires Valid()
      modifies weights
      ensures Valid()
      ensures State() == old(State())
      ensures t == BeginTransit(State(), time, transitIndex, now)
    {
      var waitTime := now + time;
      var initialIndex := currentAnimationIndex;
      var initialWeight := Vec3(weights[1], weights[2], weights[3]);
      var targetWeight := TargetWeights(transitIndex);
      weights[0] := 1.0;
      assert weights[..] == old(weights[..]);
      t := Transit(now, waitTime, time, initialIndex, initialWeight, targetWeight);
    }

    /** One evaluation of the transition's wait predicate at level time `now`;
        the wait goes on while it returns true. */
    method TransitAnimationTick(t: Transit, now: real) returns (keepWaiting: bool)
      requires Valid() && t.Valid() && t.startTime <= now
      modifies weights
      ensures Valid()
      ensures State() == Ticked(old(State()), t, now)
      ensures keepWaiting == KeepWaiting(old(State()), t, now)
    {
      if currentAnimationIndex != t.initialIndex {
        return false;
      }
      var diff := t.waitTime - now;
      if diff > 0.0 {
        var weight := LerpVec(t.targetWeight, t.initialWeight, Remaining(diff, t.time));
        if slots[1].None? { weight := weight.(x := 0.0); }
        if slots[2].None? { weight := weight.(y := 0.0); }
        if slots[3].None? { weight := weight.(z := 0.0); }
        SetOverlayWeights(weight);
        keepWaiting := true;
      } else {
        SetOverlayWeights(t.targetWeight);
        keepWaiting := false;
      }
    }

    /** Write the weights of the three overlay inputs. */
    method SetOverlayWeights(v: Vec3)
      requires Valid() && InUnit(v)
      modifies weights
      ensures Valid()
      ensures State() == old(State()).(weights := WithOverlay(old(weights[..]), v))
    {
      weights[1] := v.x;
      weights[2] := v.y;
      weights[3] := v.z;
    }

    // -------------------------------------------------------------------------
    // StartAnimation

    /** The synchronous part of StartAnimation, up to the wait for its transition. */
    method StartAnimation(fadeTime: real, now: real) returns (task: StartTask)
      requires Valid()
      modifies this, slots, weights
      ensures Valid()
      ensures State() == Started(old(State()))
      ensures task == StartTaskOf(old(State()), fadeTime, now)
    {
      ghost var before := State();
      var fromIndex := currentAnimationIndex;
      var toIndex := NextIndex(currentAnimationIndex);
      if slots[toIndex].Some? {
        RemovePlayable(toIndex);
      }
      ghost var cleared := State();
      assert cleared == if before.slots[toIndex].Some? then Release(before, toIndex) else before;
      ConnectClip(toIndex);
      currentAnimationIndex := toIndex;
      playableTransitionCount := playableTransitionCount + 1;
      assert State() == Started(before);
      var transit := TransitAnimation(fadeTime, toIndex, now);
      task := StartTask(fromIndex, toIndex, transit);
    }

    /** The rest of StartAnimation after its transition: release the slot that
        was active when it began, unless that was the base slot or the slot is
        empty by now. The generation counter is not consulted. */
    method StartAnimationResume(task: StartTask)
      requires Valid() && 0 <= task.fromIndex <= Overlays
      modifies this`destroyed, slots, weights
      ensures Valid()
      ensures State() == Resumed(old(State()), task.fromIndex)
    {
      if task.fromIndex != 0 && slots[task.fromIndex].Some? {
        RemovePlayable(task.fromIndex);
      }
    }

    // -------------------------------------------------------------------------
    // EndAnimation

    /** The synchronous part of EndAnimation, up to the wait for its transition:
        snapshot the generation counter, make no overlay active and begin a
        transition to all-zero overlay weights. */
    method EndAnimation(fadeTime: real, now: real) returns (task: EndTask)
      requires Valid()
      modifies this`currentAnimationIndex, weights
      ensures Valid()
      ensures State() == Ended(old(State()))
      ensures task == EndTaskOf(old(State()), fadeTime, now)
    {
      var localTransitionCount := playableTransitionCount;
      currentAnimationIndex := 0;
      var transit := TransitAnimation(fadeTime, 0, now);
      task := EndTask(localTransitionCount, transit);
    }

    /** The rest of EndAnimation after its transition: if a newer StartAnimation
        has begun meanwhile, stop without touching anything; otherwise release
        every occupied overlay slot, in ascending order. */
    method EndAnimationResume(task: EndTask)
      requires Valid()
      modifies this`destroyed, slots, weights
      ensures Valid()
      ensures State() == EndResumed(old(State()), task)
    {
      if playableTransitionCount != task.localTransitionCount {
        return;
      }
      for i := 1 to Inputs
        invariant Valid()
        invariant State() == ReleaseOverlays(old(State()), i)
      {
        if slots[i].Some? {
          RemovePlayable(i);
        }
      }
    }

    // -------------------------------------------------------------------------
    // StartAndEndAnimation

    /** The synchronous part of StartAndEndAnimation for a clip of the given
        length, up to the wait for its StartAnimation: clamp the fades to the
        clip, snapshot the counter value the coming StartAnimation will leave
        behind, and run that StartAnimation's own synchronous part with the
        clamped fade-in. */
    method StartAndEndAnimation(length: real, fadeInTime: real, fadeOutTime: real, now: real)
      returns (task: PlayTask)
      requires Valid() && length >= 0.0
      modifies this, slots, weights
      ensures Valid()
      ensures State() == Started(old(State()))
      ensures task == PlayTaskOf(old(State()), length, fadeInTime, fadeOutTime, now)
    {
      var fades := ClampFades(fadeInTime, fadeOutTime, length);
      var localTransitionCount := playableTransitionCount + 1;
      var start := StartAnimation(fades.fadeIn, now);
      task := PlayTask(localTransitionCount, length, fades.fadeIn, fades.fadeOut, start);
    }

    /** StartAndEndAnimation after its StartAnimation has finished: the hold
        this run waits for before fading out, or None when a newer
        StartAnimation has begun and the run stops here. */
    method StartAndEndAnimationHold(task: PlayTask) returns (hold: Option<real>)
      requires Valid()
      ensures hold == PlayHold(State(), task)
      ensures task.Valid() && hold.Some? ==> hold.value >= 0.0
    {
      if playableTransitionCount != task.localTransitionCount {
        return None;
      }
      hold := Some(task.length - task.fadeInTime - task.fadeOutTime);
    }

    /** StartAndEndAnimation after its hold: stop when a newer StartAnimation
        has begun, otherwise begin an EndAnimation with the clamped fade-out. */
    method StartAndEndAnimationFadeOut(task: PlayTask, now: real) returns (end: Option<EndTask>)
      requires Valid()
      modifies this`currentAnimationIndex, weights
      ensures Valid()
      ensures State() == FadedOut(old(State()), task)
      ensures end == PlayFadeOut(old(State()), task, now)
    {
      if playableTransitionCount != task.localTransitionCount {
        return None;
      }
      var e := EndAnimation(task.fadeOutTime, now);
      end := Some(e);
    }

    // -------------------------------------------------------------------------
    // Public entry points: each starts one coroutine, which runs up to its
    // first wait before the call returns.

    /** Start crossfading into a new clip. */
    method SetAnimation(fadeTime: real, now: real) returns (task: StartTask)
      requires Valid()
      modifies this, slots, weights
      ensures Valid()
      ensures State() == Started(old(State()))
      ensures task == StartTaskOf(old(State()), fadeTime, now)
    {
      task := StartAnimation(fadeTime, now);
    }

    /** Start crossfading back to the base animation. */
    method ResetAnimation(fadeTime: real, now: real) returns (task: EndTask)
      requires Valid()
      modifies this`currentAnimationIndex, weights
      ensures Valid()
      ensures State() == Ended(old(State()))
      ensures task == EndTaskOf(old(State()), fadeTime, now)
    {
      task := EndAnimation(fadeTime, now);
    }

    /** Start playing a clip once: fade in, hold, fade out. */
    method PlayAnimation(length: real, fadeInTime: real, fadeOutTime: real, now: real)
      returns (task: PlayTask)
      requires Valid() && length >= 0.0
      modifies this, slots, weights
      ensures Valid()
      ensures State() == Started(old(State()))
      ensures task == PlayTaskOf(old(State()), length, fadeInTime, fadeOutTime, now)
    {
      task := StartAndEndAnimation(length, fadeInTime, fadeOutTime, now);
    }
  }
}

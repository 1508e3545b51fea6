/** What the injector does when a host issues several requests whose
    coroutines overlap: each lemma follows one order of begin, tick and resume
    steps through the state functions the injector's methods are proved to
    follow, from any valid state unless it says otherwise. */
module Scenarios {
  import opened Crossfade
  import opened InjectorState
  import opened Injection

  /** The state after n successive SetAnimation calls with no tick between. */
  function StartedTimes(s: State, n: nat): (r: State)
    requires s.Valid()
    ensures r.Valid()
  {
    if n == 0 then s else Started(StartedTimes(s, n - 1))
  }

  /** Successive SetAnimation calls from the initial state claim the overlay
      slots in the order of the allocation sequence, 1, 2, 3, 1, ..., and the
      counter counts them. */
  lemma {:induction false} StartsFollowAllocations(n: nat)
    ensures Initial.Valid()
    ensures StartedTimes(Initial, n).currentAnimationIndex == Allocations(n)
    ensures StartedTimes(Initial, n).playableTransitionCount == n
  {
    assert Initial.Valid();
    if n > 0 {
      StartsFollowAllocations(n - 1);
    }
  }

  /** Two SetAnimation calls in a row: the first run's transition stops at
      its next tick without writing a weight, since the active overlay has
      moved on. */
  lemma SetThenSetTick(s: State, fade1: real, now1: real, at: real)
    requires s.Valid() && now1 <= at
    ensures var t1 := StartTaskOf(s, fade1, now1); var s2 := Started(Started(s));
      !KeepWaiting(s2, t1.transit, at) && Ticked(s2, t1.transit, at) == s2
  {
    var t1 := StartTaskOf(s, fade1, now1);
    var s2 := Started(Started(s));
    assert t1.transit.initialIndex == Started(s).currentAnimationIndex;
    assert s2.currentAnimationIndex == NextIndex(Started(s).currentAnimationIndex);
    TickSuperseded(s2, t1.transit, at);
  }

  /** Two SetAnimation calls in a row, once both runs have finished (each
      run resumes with the overlay that was active when it began, as
      StartedEffect shows): the second clip is the active one and still
      connected, the first clip is released by the second run's cleanup, and
      whatever overlay was active before both is released by the first run's
      cleanup. */
  lemma SetThenSetCleanup(s: State)
    requires s.Valid()
    ensures var s1 := Started(s); var s2 := Started(s1);
      var done := Resumed(Resumed(s2, s.currentAnimationIndex), s1.currentAnimationIndex);
      done.currentAnimationIndex == s2.currentAnimationIndex &&
      done.slots[s2.currentAnimationIndex] == Some(s1.nextNode) &&
      done.slots[s1.currentAnimationIndex].None? &&
      (s.currentAnimationIndex != 0 ==> done.slots[s.currentAnimationIndex].None?)
  {
    var i0 := s.currentAnimationIndex;
    var s1 := Started(s);
    var s2 := Started(s1);
    var to1 := NextIndex(i0);
    var to2 := NextIndex(to1);
    assert s1.currentAnimationIndex == to1;
    assert s2.currentAnimationIndex == to2;
    assert s2.slots[to2] == Some(s1.nextNode);
    assert to2 != i0;
    var m := Resumed(s2, i0);
    ResumedEffect(s2, i0);
    ResumedEffect(m, to1);
  }

  /** Half way through any transition still current, every occupied overlay
      has the mean of its initial and its target weight. */
  lemma TickHalfway(s: State, t: Transit)
    requires s.Valid() && t.Valid() && t.time > 0.0
    requires s.currentAnimationIndex == t.initialIndex
    ensures forall i :: 1 <= i <= Overlays && s.slots[i].Some? ==>
      Ticked(s, t, t.startTime + t.time / 2.0).weights[i]
        == (t.targetWeight.Get(i) + t.initialWeight.Get(i)) / 2.0
  {
    var at := t.startTime + t.time / 2.0;
    assert t.waitTime - at == t.time / 2.0;
    TickInterpolates(s, t, at);
    forall i | 1 <= i <= Overlays && s.slots[i].Some?
      ensures Ticked(s, t, at).weights[i] == (t.targetWeight.Get(i) + t.initialWeight.Get(i)) / 2.0
    {
      LerpHalfway(t.targetWeight.Get(i), t.initialWeight.Get(i), t.time);
    }
  }

  /** Half way through a transition into overlay k that began from the
      weights as they stand: overlay k is half way to 1, and every other
      occupied overlay at half its weight. */
  lemma TickHalfwayInto(s: State, t: Transit, k: int)
    requires s.Valid() && t.Valid() && t.time > 0.0 && 1 <= k <= Overlays
    requires s.currentAnimationIndex == t.initialIndex && s.slots[k].Some?
    requires t.initialWeight == s.Overlay() && t.targetWeight == TargetWeights(k)
    ensures Ticked(s, t, t.startTime + t.time / 2.0).weights[k] == (1.0 + s.weights[k]) / 2.0
    ensures forall i :: 1 <= i <= Overlays && i != k && s.slots[i].Some? ==>
      Ticked(s, t, t.startTime + t.time / 2.0).weights[i] == s.weights[i] / 2.0
  {
    TickHalfway(s, t);
    forall i | 1 <= i <= Overlays
      ensures t.initialWeight.Get(i) == s.weights[i]
    {
    }
  }

  /** Half way through the fade-in of a SetAnimation, the new clip has weight
      one half, and every other occupied overlay half the weight it had. */
  lemma FadeInHalfway(s: State, fadeTime: real, now: real)
    requires s.Valid() && fadeTime > 0.0
    ensures var t := StartTaskOf(s, fadeTime, now);
      var r := Ticked(Started(s), t.transit, now + fadeTime / 2.0);
      r.weights[t.toIndex] == 0.5 &&
      forall i :: 1 <= i <= Overlays && i != t.toIndex && Started(s).slots[i].Some? ==>
        r.weights[i] == Started(s).weights[i] / 2.0
  {
    var t := StartTaskOf(s, fadeTime, now);
    var s1 := Started(s);
    var to := NextIndex(s.currentAnimationIndex);
    assert t.toIndex == to && s1.currentAnimationIndex == to;
    assert t.transit == BeginTransit(s1, fadeTime, to, now);
    assert s1.slots[to].Some? && s1.weights[to] == 0.0;
    TickHalfwayInto(s1, t.transit, to);
  }

  /** A ResetAnimation left alone until its transition has run out: the tick
      snaps every overlay to weight 0, leaves the slots as they were, and ends
      the wait. */
  lemma ResetSnapsToZero(s: State, fadeTime: real, now: real, at: real)
    requires s.Valid() && now <= at && now + fadeTime <= at
    ensures var e := EndTaskOf(s, fadeTime, now); var x := Ticked(Ended(s), e.transit, at);
      x.Overlay() == Zero && x.slots == s.slots && x.currentAnimationIndex == 0
    ensures var e := EndTaskOf(s, fadeTime, now); !KeepWaiting(Ended(s), e.transit, at)
  {
    var e := EndTaskOf(s, fadeTime, now);
    EndedEffect(s, fadeTime, now);
    TickSnaps(Ended(s), e.transit, at);
    TickKeepsSlots(Ended(s), e.transit, at);
  }

  /** The same reset, resumed after that tick (`x`): every overlay is empty at
      weight 0 and only the base animation plays. */
  lemma ResetUninterrupted(s: State, fadeTime: real, now: real, at: real, e: EndTask, x: State)
    requires s.Valid() && now <= at && now + fadeTime <= at
    requires e == EndTaskOf(s, fadeTime, now) && x == Ticked(Ended(s), e.transit, at)
    ensures forall i :: 1 <= i <= Overlays ==>
      EndResumed(x, e).slots[i].None? && EndResumed(x, e).weights[i] == 0.0
    ensures EndResumed(x, e).slots[0] == Some(BaseNode)
    ensures EndResumed(x, e).weights[0] == 1.0
  {
    EndedEffect(s, fadeTime, now);
    TickSnaps(Ended(s), e.transit, at);
    TickKeepsSlots(Ended(s), e.transit, at);
    assert x.weights[1] == 0.0 && x.weights[2] == 0.0 && x.weights[3] == 0.0;
    EndResumedEffect(x, e);
  }

  /** A SetAnimation during the fade-out of a ResetAnimation: the reset's
      cleanup sees the counter moved and leaves everything alone, the new
      clip included. */
  lemma ResetInterruptedBySet(s: State, fadeTime: real, now: real)
    requires s.Valid()
    ensures var e := EndTaskOf(s, fadeTime, now); var later := Started(Ended(s));
      EndResumed(later, e) == later
  {
  }

  /** Releasing overlays that are already empty changes nothing. */
  lemma {:induction false} ReleaseOverlaysWhenEmpty(s: State, n: int)
    requires s.Valid() && 1 <= n <= Inputs
    requires forall i :: 1 <= i < Inputs ==> s.slots[i].None?
    ensures ReleaseOverlays(s, n) == s
  {
    if n > 1 {
      ReleaseOverlaysWhenEmpty(s, n - 1);
    }
  }

  /** Two ResetAnimation calls in a row: both snapshots agree with the
      counter, so both cleanups pass their gate; the first leaves no overlay
      active and every overlay empty, and the second finds nothing left to
      release, so the result is that of a single reset. */
  lemma ResetTwice(s: State, fade1: real, now1: real, fade2: real, now2: real)
    requires s.Valid()
    ensures var e1 := EndTaskOf(s, fade1, now1); var e2 := EndTaskOf(Ended(s), fade2, now2);
      var once := EndResumed(Ended(Ended(s)), e1);
      e1.localTransitionCount == e2.localTransitionCount == once.playableTransitionCount &&
      once.currentAnimationIndex == 0 &&
      (forall i :: 1 <= i < Inputs ==> once.slots[i].None?) &&
      EndResumed(once, e2) == once
  {
    var e1 := EndTaskOf(s, fade1, now1);
    var once := EndResumed(Ended(Ended(s)), e1);
    EndResumedEffect(Ended(Ended(s)), e1);
    ReleaseOverlaysWhenEmpty(once, Inputs);
  }

  /** A SetAnimation while a PlayAnimation is fading in: the play run skips
      both its hold and its fade-out, and so never undoes the newer clip. */
  lemma PlaySupersededBySet(s: State, length: real, fadeInTime: real, fadeOutTime: real, now: real)
    requires s.Valid() && length >= 0.0
    ensures var task := PlayTaskOf(s, length, fadeInTime, fadeOutTime, now);
      var later := Started(Started(s));
      PlayHold(later, task).None? && PlayFadeOut(later, task, now).None? &&
      FadedOut(later, task) == later
  {
  }

  /** Four SetAnimation calls in quick succession: the fourth claims the slot
      the second run began on, which is the slot the second run releases when
      it finishes. That cleanup does not consult the counter, so it releases
      the clip of the fourth run, the active one. */
  lemma FourStartsReleaseActive(s: State, fadeTime: real, now: real)
    requires s.Valid()
    ensures var s1 := Started(s); var s4 := Started(Started(Started(s1)));
      var t2 := StartTaskOf(s1, fadeTime, now);
      t2.fromIndex == s4.currentAnimationIndex &&
      s4.slots[s4.currentAnimationIndex].Some? &&
      Resumed(s4, t2.fromIndex).slots[s4.currentAnimationIndex].None?
  {
  }

  /** The reset interrupted by a set, driven through the injector's methods in
      the order a host would call them: the reset's cleanup leaves the state
      the set produced. */
  method ResetThenSet(inj: AnimationInjector, now: real)
    requires inj.Valid()
    modifies inj, inj.slots, inj.weights
    ensures inj.Valid()
    ensures inj.State() == Started(Ended(old(inj.State())))
  {
    ghost var s0 := inj.State();
    var reset := inj.ResetAnimation(1.0, now);
    var start := inj.SetAnimation(1.0, now);
    ghost var s2 := inj.State();
    assert s2 == Started(Ended(s0));
    TickSuperseded(s2, reset.transit, now + 0.5);
    var waiting := inj.TransitAnimationTick(reset.transit, now + 0.5);
    assert inj.State() == s2;
    ResetInterruptedBySet(s0, 1.0, now);
    inj.EndAnimationResume(reset);
  }
}

# Animation injector overlay slots in Dafny

`AnimationInjector` is a Unity component that plays one-off animation clips
over an actor's animator controller. It owns a layer mixer with four inputs:
input 0 always holds the animator controller at weight 1; inputs 1, 2 and 3
are overlay slots, each empty or holding one clip node. Two controller
fields describe the state: the index of the active overlay (0 when none is
active) and a generation counter for clip transitions. Three coroutines
change that state:

- `StartAnimation` claims the next overlay slot in round-robin order and
  crossfades into it;
- `EndAnimation` crossfades back to the base animation and then empties the
  overlays;
- `StartAndEndAnimation` plays a clip once: fade in, hold, fade out.

The public `SetAnimation`, `ResetAnimation` and `PlayAnimation` only start
these coroutines.

This project models that state machine and proves what each step does to
it. It has four modules.

- `Crossfade` (crossfade.dfy) holds the pure calculations:
  - the round-robin choice of the next slot;
  - the one-hot target weights;
  - the linear interpolation of a weight;
  - the clamp that shortens a play request's fades to fit the clip.
- `InjectorState` (state.dfy) describes the injector's state as a value:
  - the slot table, as node ids;
  - the four weights and the two controller fields;
  - the id of the next node to be created;
  - the set of nodes destroyed so far.

  Each step of each coroutine is a function on that value. Lemmas say what
  each step changes and what it keeps.
- `Injection` (injector.dfy) is the component as a class. The slot table and
  the weights are arrays; the controller fields are mutable fields. Each
  coroutine is split at its wait into methods:
  - a begin method for the part that runs as soon as the coroutine starts;
  - a tick method for one evaluation of the wait predicate;
  - a resume method for the part after the wait.

  Every method is proved to move the object's state exactly as the matching
  `InjectorState` function does, and to keep the validity invariant.
- `Scenarios` (scenarios.dfy) follows several requests whose coroutines
  overlap through these steps. For example, a reset interrupted by a new
  clip, two clips in a row, or four clips in quick succession.

The host's clock is a parameter `now` of the methods that read it. A
scheduler is whoever calls the phase methods, in whatever order it likes.
Creating a clip node is modelled as handing out a fresh id. Destroying one
adds its id to a ghost set, which shows that no node is ever destroyed
twice and that a connected node is always live.

The model follows the code exactly where the code is surprising:

- Only `StartAnimation` raises the counter (AnimationInjector/AnimationInjector.cs:133).
  `EndAnimation` snapshots the counter but never raises it. A later reset
  therefore does not cancel an earlier reset's cleanup (`ResetTwice`).
- The cleanup at the end of `StartAnimation` does not consult the counter
  (AnimationInjector/AnimationInjector.cs:136). Four `SetAnimation` calls
  in quick succession therefore let the second run's cleanup release the
  clip of the fourth run, which is the active one
  (`FourStartsReleaseActive`).

## Model

| member | source | states |
|---|---|---|
| Crossfade.NextIndex | AnimationInjector/AnimationInjector.cs:124-125 | the slot claimed lies in 1..3, differs from the active one, and is the active index mod 3 plus 1 |
| Crossfade.AllocationsCycle | AnimationInjector/AnimationInjector.cs:124-125 | starting with no overlay active, the n-th request claims slot (n-1) mod 3 + 1, so requests cycle 1, 2, 3, 1, ... |
| Crossfade.AllocationsPeriod | AnimationInjector/AnimationInjector.cs:124-125 | two consecutive requests claim different slots; requests three apart claim the same slot |
| Crossfade.TargetWeights | AnimationInjector/AnimationInjector.cs:83-89 | the target is one-hot: 1 at the transit index and 0 elsewhere; it is all zero for index 0; it sums to 1 or 0 and lies in [0, 1] |
| Crossfade.Lerp | AnimationInjector/AnimationInjector.cs:100 | an interpolated weight lies between its two endpoints; fractions 0 and 1 give the endpoints |
| Crossfade.LerpVec | AnimationInjector/AnimationInjector.cs:100 | the vector lerp works component by component and keeps weights in [0, 1] |
| Crossfade.Remaining | AnimationInjector/AnimationInjector.cs:97-100 | while time remains, the fraction diff / time lies in (0, 1] |
| Crossfade.LerpLinearInTime | AnimationInjector/AnimationInjector.cs:97-100 | after running `elapsed` of `time`, a weight has covered exactly the fraction elapsed / time of the way from its initial value to its target |
| Crossfade.LerpHalfway | AnimationInjector/AnimationInjector.cs:97-100 | half way through, a weight is the mean of its initial value and its target |
| Crossfade.ClampFades | AnimationInjector/AnimationInjector.cs:152-159 | fades that fit the clip are unchanged; fades that do not fit are shortened so they sum to exactly the clip length; the hold length minus fade-in minus fade-out is never negative |
| Crossfade.ClampKeepsRatio | AnimationInjector/AnimationInjector.cs:154-158 | a clamped pair is the requested pair scaled by the common factor length / (fadeIn + fadeOut), so the ratio of the two fades is kept |
| Crossfade.ClampNonNegative | AnimationInjector/AnimationInjector.cs:152-159 | non-negative fades stay non-negative and never grow |
| Crossfade.ClampExample | AnimationInjector/AnimationInjector.cs:152-164 | fades of 3 and 3 on a clip of length 4 become 2 and 2, which leaves a hold of 0 |
| InjectorState.Release | AnimationInjector/AnimationInjector.cs:65-71 | removing a node keeps the state valid; the destroyed node was live, so it is destroyed once; exactly that node joins the destroyed set |
| InjectorState.ReleaseEffect | AnimationInjector/AnimationInjector.cs:65-71 | the slot is left empty at weight 0; every other input keeps its node and weight; neither controller field changes |
| InjectorState.Connect | AnimationInjector/AnimationInjector.cs:130-131 | the empty slot receives a node never used before, which is not destroyed; the state stays valid |
| InjectorState.BeginTransit | AnimationInjector/AnimationInjector.cs:75-91 | the transition records the deadline now + time, its start and its length, and is well formed |
| InjectorState.Masked | AnimationInjector/AnimationInjector.cs:101-103 | masking weights that lie in [0, 1] keeps them in [0, 1] and never raises their total; an empty overlay ends at 0 and an occupied one keeps its weight |
| InjectorState.Interpolated | AnimationInjector/AnimationInjector.cs:97-100 | while time remains, the interpolated overlay weights lie in [0, 1] |
| InjectorState.Ticked | AnimationInjector/AnimationInjector.cs:93-119 | one evaluation of the wait predicate keeps the state valid |
| InjectorState.TickKeepsSlots | AnimationInjector/AnimationInjector.cs:93-119 | a tick writes overlay weights only; the slot table, the base weight, both controller fields and the destroyed set are unchanged |
| InjectorState.TickSuperseded | AnimationInjector/AnimationInjector.cs:95 | once the active overlay has changed, the wait ends and no weight is written |
| InjectorState.TickInterpolates | AnimationInjector/AnimationInjector.cs:97-110 | while time remains, each occupied overlay gets the lerp from its target towards its initial weight by the remaining fraction, which lies between the two; an empty overlay gets 0; the wait goes on |
| InjectorState.TickSnaps | AnimationInjector/AnimationInjector.cs:111-117 | when time is up, the overlay weights are exactly the target and the wait ends |
| InjectorState.TickWithoutLength | AnimationInjector/AnimationInjector.cs:97-98 | a transition of length 0 or less takes the snap branch at its first tick, so the division by its length is never reached |
| InjectorState.Started | AnimationInjector/AnimationInjector.cs:124-133 | the synchronous part of StartAnimation keeps the state valid |
| InjectorState.StartTaskOf | AnimationInjector/AnimationInjector.cs:124-134 | the index recorded for the cleanup lies in 0..3, and the transition begun is well formed and starts now |
| InjectorState.StartedEffect | AnimationInjector/AnimationInjector.cs:124-134 | the claimed slot lies in 1..3 and differs from the active one; any previous occupant is destroyed; a fresh node is put there at weight 0 and becomes active; the counter rises by exactly 1; every other input is untouched; the transition runs from the current overlay weights to the one-hot target of the claimed slot |
| InjectorState.Resumed | AnimationInjector/AnimationInjector.cs:136 | the cleanup after StartAnimation's wait keeps the state valid |
| InjectorState.ResumedEffect | AnimationInjector/AnimationInjector.cs:136 | the cleanup releases the slot that was active when the run began exactly when that slot is an overlay and occupied: then the slot ends empty at weight 0 and exactly its node is destroyed; otherwise its weight and the destroyed set are unchanged; every other input, input 0 and both controller fields never change |
| InjectorState.Ended | AnimationInjector/AnimationInjector.cs:142 | the synchronous part of EndAnimation keeps the state valid |
| InjectorState.EndTaskOf | AnimationInjector/AnimationInjector.cs:141-143 | the transition EndAnimation begins is well formed and starts now |
| InjectorState.EndedEffect | AnimationInjector/AnimationInjector.cs:141-143 | EndAnimation snapshots the counter and never changes it; it makes no overlay active and leaves every node and weight alone; its transition aims at all-zero overlay weights |
| InjectorState.ReleaseOverlays | AnimationInjector/AnimationInjector.cs:146-147 | releasing the first slots keeps the state and both controller fields, and leaves the later slots untouched |
| InjectorState.ReleaseOverlaysEffect | AnimationInjector/AnimationInjector.cs:146-147 | after the loop reaches slot n, slots 1..n-1 are empty, those that held a node at weight 0; input 0 and the later weights are unchanged |
| InjectorState.ReleaseOverlaysDestroys | AnimationInjector/AnimationInjector.cs:146-147 | the loop destroys exactly the nodes the released slots held |
| InjectorState.ReleaseAllEffect | AnimationInjector/AnimationInjector.cs:146-147 | after the whole loop, all three overlays are empty, input 0 still holds the base node at weight 1, and exactly the overlay nodes are destroyed |
| InjectorState.EndResumed | AnimationInjector/AnimationInjector.cs:144-147 | the cleanup after EndAnimation's wait keeps the state valid |
| InjectorState.EndResumedEffect | AnimationInjector/AnimationInjector.cs:144-147 | if the counter moved, nothing changes; if not, all overlays are emptied, input 0 is kept and exactly the overlay nodes are destroyed; the controller fields never change |
| InjectorState.PlayTaskOf | AnimationInjector/AnimationInjector.cs:152-162 | a play run uses the clamped fades, which fit the clip; its snapshot count + 1 is the counter value its own StartAnimation leaves behind |
| InjectorState.PlayHold | AnimationInjector/AnimationInjector.cs:163-164 | the hold is taken exactly when the counter still equals the snapshot; hold, fade-in and fade-out together make up the clip length; for a task whose fades fit the clip, as every play run's do, the hold is never negative |
| InjectorState.PlayFadeOut | AnimationInjector/AnimationInjector.cs:165-166 | the fade-out starts exactly when the counter still equals the snapshot; the EndAnimation it begins snapshots that same counter value and fades from no active overlay to all-zero weights over the clamped fade-out, starting now |
| InjectorState.FadedOut | AnimationInjector/AnimationInjector.cs:165-166 | the fade-out step keeps the state valid |
| InjectorState.CounterSteps | AnimationInjector/AnimationInjector.cs:122-148 | only StartAnimation's begin step moves the counter, up by exactly 1; a tick, StartAnimation's cleanup, both steps of EndAnimation and a play run's fade-out step all keep it |
| InjectorState.PlayGate | AnimationInjector/AnimationInjector.cs:161-166 | with no other StartAnimation in between, the play run passes both gates and its hold is never negative |
| InjectorState.PlaySuperseded | AnimationInjector/AnimationInjector.cs:161-166 | once a later StartAnimation has raised the counter, the play run skips its hold and its fade-out and changes nothing |
| Injection.AnimationInjector.constructor | AnimationInjector/AnimationInjector.cs:54-63 | after setup, input 0 holds the animator controller at weight 1, the overlays are empty at weight 0, no overlay is active and the counter is 0 |
| Injection.AnimationInjector.GetCurrentAnimationIndex | AnimationInjector/AnimationInjector.cs:20 | the active index always lies in 0..3 |
| Injection.AnimationInjector.RemovePlayable | AnimationInjector/AnimationInjector.cs:65-71 | the object's new state is Release of its old state |
| Injection.AnimationInjector.ConnectClip | AnimationInjector/AnimationInjector.cs:130-131 | the object's new state is Connect of its old state |
| Injection.AnimationInjector.TransitAnimation | AnimationInjector/AnimationInjector.cs:73-91 | the state is unchanged, since the base weight is already 1; the locals recorded are BeginTransit of the state |
| Injection.AnimationInjector.TransitAnimationTick | AnimationInjector/AnimationInjector.cs:93-119 | the new state is Ticked of the old state, and the result is whether the wait goes on |
| Injection.AnimationInjector.SetOverlayWeights | AnimationInjector/AnimationInjector.cs:105-107 | the three overlay weights are replaced and nothing else changes |
| Injection.AnimationInjector.StartAnimation | AnimationInjector/AnimationInjector.cs:122-134 | the new state is Started of the old state, and the locals are StartTaskOf the old state |
| Injection.AnimationInjector.StartAnimationResume | AnimationInjector/AnimationInjector.cs:136 | the new state is Resumed of the old state for the recorded index |
| Injection.AnimationInjector.EndAnimation | AnimationInjector/AnimationInjector.cs:139-143 | the new state is Ended of the old state, and the locals are EndTaskOf the old state |
| Injection.AnimationInjector.EndAnimationResume | AnimationInjector/AnimationInjector.cs:144-147 | the gated release loop leaves EndResumed of the old state |
| Injection.AnimationInjector.StartAndEndAnimation | AnimationInjector/AnimationInjector.cs:150-162 | the clamp and the launch of StartAnimation leave Started of the old state, and the locals are PlayTaskOf the old state |
| Injection.AnimationInjector.StartAndEndAnimationHold | AnimationInjector/AnimationInjector.cs:163-164 | the hold returned is PlayHold of the object's state, so it is given exactly while no newer StartAnimation has begun, and it is never negative for a play run's task |
| Injection.AnimationInjector.StartAndEndAnimationFadeOut | AnimationInjector/AnimationInjector.cs:165-166 | the new state is FadedOut of the old state, and the EndAnimation begun is PlayFadeOut of the old state |
| Injection.AnimationInjector.SetAnimation | AnimationInjector/AnimationInjector.cs:169-176 | starting the coroutine runs StartAnimation's begin step |
| Injection.AnimationInjector.ResetAnimation | AnimationInjector/AnimationInjector.cs:178-181 | starting the coroutine runs EndAnimation's begin step |
| Injection.AnimationInjector.PlayAnimation | AnimationInjector/AnimationInjector.cs:183-190 | starting the coroutine runs StartAndEndAnimation's begin step |
| Scenarios.StartsFollowAllocations | AnimationInjector/AnimationInjector.cs:124-133 | successive SetAnimation calls from the initial state claim the slots in the allocation order, and the counter counts them |
| Scenarios.SetThenSetTick | AnimationInjector/AnimationInjector.cs:93-95 | after a second SetAnimation, the first run's wait ends at its next tick without writing a weight |
| Scenarios.SetThenSetCleanup | AnimationInjector/AnimationInjector.cs:122-137 | after two SetAnimation runs finish, the second clip is active and connected, the first clip is released, and so is the overlay that was active before both |
| Scenarios.TickHalfway | AnimationInjector/AnimationInjector.cs:97-107 | half way through a transition still current, every occupied overlay has the mean of its initial and its target weight |
| Scenarios.TickHalfwayInto | AnimationInjector/AnimationInjector.cs:83-107 | half way into slot k, overlay k is half way to 1 and every other occupied overlay has half its weight |
| Scenarios.FadeInHalfway | AnimationInjector/AnimationInjector.cs:122-134 | half way through a SetAnimation fade-in, the new clip has weight 1/2 and every other occupied overlay has half its weight |
| Scenarios.ResetSnapsToZero | AnimationInjector/AnimationInjector.cs:139-143 | a ResetAnimation left alone snaps every overlay to weight 0 at its deadline and ends its wait, and the slots stay as they were |
| Scenarios.ResetUninterrupted | AnimationInjector/AnimationInjector.cs:139-148 | after an uninterrupted reset, every overlay is empty at weight 0 and only the base animation plays |
| Scenarios.ResetInterruptedBySet | AnimationInjector/AnimationInjector.cs:144 | a SetAnimation during a reset's fade makes the reset's cleanup change nothing |
| Scenarios.ReleaseOverlaysWhenEmpty | AnimationInjector/AnimationInjector.cs:146-147 | the release loop over empty overlays changes nothing |
| Scenarios.ResetTwice | AnimationInjector/AnimationInjector.cs:139-148 | two ResetAnimation runs in a row take the same snapshot, equal to the counter, so both pass the gate; the first leaves no overlay active and all overlays empty; the second cleanup changes nothing |
| Scenarios.PlaySupersededBySet | AnimationInjector/AnimationInjector.cs:161-166 | a SetAnimation during a PlayAnimation's fade-in makes the play run skip both its hold and its fade-out |
| Scenarios.FourStartsReleaseActive | AnimationInjector/AnimationInjector.cs:136 | with four SetAnimation calls in quick succession, the second run's ungated cleanup releases the active clip of the fourth |
| Scenarios.ResetThenSet | AnimationInjector/AnimationInjector.cs:139-148 | driven through the injector's methods, a reset interrupted by a set ends in the state the set produced |

## Left out

- The construction of a default full-body avatar mask in `Start`
  (AnimationInjector/AnimationInjector.cs:23-47) is not modelled. It is
  setup through Unity calls and affects only layer masks.
- Layer masks are not modelled: `SetLayerMaskFromAvatarMask`
  (AnimationInjector/AnimationInjector.cs:126) and the mask argument of the
  `SetAnimation` and `PlayAnimation` overloads. A mask sets which body parts
  an overlay drives; it never touches the slot table, the weights or the
  counters.
- The Unity playable graph is kept only as the slot table and the weights.
  Creating, playing and destroying the graph in `SetupPlayableGraph` and
  `OnDisable` (AnimationInjector/AnimationInjector.cs:49-63) is reduced to
  the constructor's initial state. The `GetAnimationLayerMixerPlayable`
  accessor, which hands out the Unity mixer object, is left out.
- Unity's coroutine scheduling is not modelled: `StartCoroutine`,
  `WaitWhile`, `WaitForSeconds` and frames. Level time is a `now` parameter,
  and the order of the phase methods is chosen by the caller. The model
  assumes that a nested coroutine begins as soon as it is yielded.
- Injection.AnimationInjector.StartAndEndAnimationHold returns the hold
  length instead of waiting for it.
- Floating point is not modelled. The 32-bit floats and the double level
  time are exact reals, so rounding in `Vector3.Lerp`, in the division
  diff / time and in the fade clamp is not captured. `Vector3.Lerp` is
  assumed to compute target + (initial − target)·fraction.
- A level clock that runs backwards is not modelled. Every tick requires
  its `now` to be no earlier than the transition's start, so the fraction
  diff / time lies in (0, 1] and the clamp of `Vector3.Lerp` to [0, 1]
  never acts. `Time.timeSinceLevelLoadAsDouble` restarts at a scene load;
  a transition on an object that survives the load would see diff > time,
  and Unity would clamp the fraction to 1 (the initial weights). Neither
  that case nor the clamp is captured.
- Injection.AnimationInjector.StartAnimation: the 32-bit wrap-around of the
  counter after 2^31 starts is not modelled; the counter is an unbounded
  integer.
- Injection.AnimationInjector.StartAndEndAnimation requires a clip length
  of 0 or more, which every Unity clip has. With a negative length and both
  fades 0, the clamp divides 0 by 0 in float arithmetic and the fades
  become NaN; NaN fades are not modelled.
- Connecting a clip with `ConnectInput(index, playable, 0)` is taken to
  leave that input's weight at 0, as Unity's three-argument overload does.

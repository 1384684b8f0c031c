# GLRootView: a verified model of the gallery's GL render root

GLRootView (`src/com/android/gallery3d/ui/GLRootView.java`) is the surface view at
the root of the gallery's GL scene graph. Between the UI thread and the GL render
thread it does five things:

- it coalesces frame requests through `mRenderRequested`;
- it keeps a layout-dirty bit in `mFlags`, next to the bit the constructor sets;
- it swaps the content view, cancelling a gesture in progress on the outgoing
  view;
- it filters touch events by whether a gesture is in progress (`mInDownState`);
- on each frame it consumes the layout bit, stamps every newly launched animation
  with one clock value, and re-arms a round-robin runner of idle listeners. That
  runner (`IdleRunner`) is kept to at most one copy in the render thread's queue by
  its `mActive` flag.

The model has three modules:

- `RootSpec` holds the root's fields as a value (`Root`) and one function per
  operation giving the state after it. Every call the root makes to a collaborator
  is recorded, in order, in a `trace` of `Effect`s:
  - to the host: `requestRender`, `queueEvent(mIdleRunner)`;
  - to a view: attach, detach, dispatch, layout, render;
  - to an idle listener;
  - to a texture or canvas helper.

  What the collaborators answer is a parameter of the operation: whether the
  content handled a touch, whether a listener wants to stay, and whether the
  upload limit was reached. So are the clocks and the surface size.
- `RootProperties` proves what the operations promise, alone and in sequence. It
  also defines a small host that runs the root's operations and the queued idle
  runners, and proves that at most one idle runner ever waits in its queue.
- `GLRoot` is the class `GLRootView`:
  - its fields are updated in place, as the Java fields are;
  - `mFlags` is a `bv32` updated with the same `|=` and `&= ~` as in the source;
  - the animation start-time loop is a `while` loop;
  - each method is proved to produce exactly the state of the matching `RootSpec`
    function. Each method also keeps `Valid`, the `Consistent` predicate that the
    constructor establishes. So every property of `RootProperties` holds of the
    object, including those that assume a consistent root.

  `IdleRunner`'s one field, `mActive`, is kept in the root as `idleActive`. Its two
  methods are `IdleRun` and `IdleEnable`.

Some of the code's behaviour is easy to misread; the model keeps it as written:

- An UP or CANCEL is forwarded to the content even when no gesture is in progress
  (lines 327-329). A DOWN is forwarded even during a gesture (line 330). The
  filter only drops MOVE and the other actions outside a gesture.
  `NoGestureWithoutHandledDown` states what this guarantees: as long as no DOWN is
  handled, no gesture starts and no MOVE or other action reaches a view.
- After a listener asks to stay, the runner is queued again only when no frame is
  pending (line 367). A listener left waiting this way is picked up by the next
  frame, which enables the runner whenever listeners wait (line 310).
  `IdleResumesAfterNextFrame` proves this.
- When the served listener returns false, `run` returns before it could queue the
  runner again (line 361). If a listener is still waiting and no frame is
  pending, nothing is left to serve it. It waits until something unrelated calls
  `requestRender`, draws a frame or calls `addOnGLIdleListener`.
  `DroppedListenerStallsQueue` states this stall.
- `requestLayoutContentPane` returns early while `FLAG_INITIALIZED` is clear
  (line 167). The constructor sets that bit (line 98) and nothing clears it, so
  this guard cannot fire on a constructed object. The predicate `Consistent`, which
  the class keeps as `Valid`, records this.

## Model

| member | source | states |
|---|---|---|
| RootSpec.Constructed | src/com/android/gallery3d/ui/GLRootView.java:96-99 | a new root is initialized with a layout pending, no frame requested, no content, no gesture, no animation, no listener and no runner queued |
| RootSpec.RequestRender | src/com/android/gallery3d/ui/GLRootView.java:147-157 | afterwards a frame is requested; the host is asked only if none was requested before, and nothing else changes |
| RootSpec.RequestLayoutContentPane | src/com/android/gallery3d/ui/GLRootView.java:159-174 | no change without content, with a layout already pending or before initialization; otherwise the layout bit is set and a frame is requested, the host being asked only if no frame was pending |
| RootSpec.LayoutContentPane | src/com/android/gallery3d/ui/GLRootView.java:176-186 | the layout bit is cleared whatever the size; the content is laid out to (0, 0, width, height) only when it exists and neither dimension is 0; nothing else changes |
| RootSpec.DetachContentPane | src/com/android/gallery3d/ui/GLRootView.java:128-139 | the outgoing view gets a CANCEL stamped `now` only if a gesture was in progress, then is detached, then textures are yielded; the gesture is over and nothing else changes |
| RootSpec.ReplaceContentPane | src/com/android/gallery3d/ui/GLRootView.java:128-144 | for a view other than the current one: the calls made are exactly the swap's, the new view is the content, a gesture on an outgoing view is over, and on an initialized root a new view leaves a layout pending and a frame requested if none was |
| RootSpec.SetContentPane | src/com/android/gallery3d/ui/GLRootView.java:125-145 | passing the current view changes nothing at all; otherwise the calls and the new state are those of a replacement; animations and listeners are untouched |
| RootSpec.RegisterLaunchedAnimation | src/com/android/gallery3d/ui/GLRootView.java:108-115 | the animation is appended to the pending list and nothing else changes |
| RootSpec.IdleEnable | src/com/android/gallery3d/ui/GLRootView.java:371-376 | the runner is queued only if it was not queued already; afterwards it is marked queued |
| RootSpec.AddOnGLIdleListener | src/com/android/gallery3d/ui/GLRootView.java:117-123 | the listener goes to the tail of the queue and the runner is queued unless it already is |
| RootSpec.IdleRun | src/com/android/gallery3d/ui/GLRootView.java:352-369 | with no listener it only clears the queued mark; otherwise only the head listener is called (told whether a frame is pending), it goes back to the tail if and only if it asked to stay, and the runner is queued again exactly when it stayed and no frame is pending |
| RootSpec.StampAll | src/com/android/gallery3d/ui/GLRootView.java:297-303 | every animation in the list ends with start time `now`; every other animation keeps its start time or stays without one |
| RootSpec.BeginFrame | src/com/android/gallery3d/ui/GLRootView.java:283-295 | resources are released and the upload budget reset first, the frame request and the layout bit are cleared, the content is laid out if the bit was set and then rendered |
| RootSpec.FlushAnimations | src/com/android/gallery3d/ui/GLRootView.java:297-303 | the pending animations all get start time `now`, the others keep theirs, and the pending list is empty |
| RootSpec.EndFrame | src/com/android/gallery3d/ui/GLRootView.java:305-311 | a frame is requested if the upload limit was reached, and the runner is queued if listeners wait and it is not queued yet |
| RootSpec.OnDrawFrameLocked | src/com/android/gallery3d/ui/GLRootView.java:280-311 | after a frame no layout is pending, a frame is requested exactly when the upload limit was reached, the pending animations all share the start time `now`, other start times are kept, and the runner is marked queued whenever listeners wait |
| RootSpec.DispatchTouchEvent | src/com/android/gallery3d/ui/GLRootView.java:323-345 | outside a gesture an event other than DOWN, UP and CANCEL is dropped with result false; otherwise it is forwarded to the content if there is one, and the result is the content's answer (false without content); UP and CANCEL end the gesture; a gesture starts only on a handled DOWN |
| RootProperties.RequestRenderCoalesces | src/com/android/gallery3d/ui/GLRootView.java:147-157 | any number n >= 1 of requestRender calls before a frame amount to one: the host is asked once if no frame was requested, else never |
| RootProperties.SwapDispatches | src/com/android/gallery3d/ui/GLRootView.java:128-139 | the only touch event a content swap delivers is one CANCEL to the outgoing view, and only when it is in the middle of a gesture |
| RootProperties.SwapInCounts | src/com/android/gallery3d/ui/GLRootView.java:140-144 | a swap to a new view attaches it exactly once and asks the host for a frame exactly when its layout request is the first thing pending |
| RootProperties.SetSameContentIsNoOp | src/com/android/gallery3d/ui/GLRootView.java:127 | setting the current content again changes no state and calls no view |
| RootProperties.SwapCancelsGesture | src/com/android/gallery3d/ui/GLRootView.java:128-139 | during a gesture the outgoing view receives exactly one more event, a CANCEL stamped `now`, right before its detach; the incoming view receives none; the gesture is over |
| RootProperties.SwapWithoutGestureSendsNoEvent | src/com/android/gallery3d/ui/GLRootView.java:125-145 | outside a gesture a content swap delivers no touch event to any view |
| RootProperties.SwapInAttachesAndRequestsLayout | src/com/android/gallery3d/ui/GLRootView.java:140-144 | on a consistent root a new view becomes the content, is attached exactly once, leaves a layout pending, and the host is asked for a frame exactly when neither a layout nor a frame was pending |
| RootProperties.SwapOutRequestsNothing | src/com/android/gallery3d/ui/GLRootView.java:128-143 | clearing the content detaches the old view (after a CANCEL if a gesture was in progress), attaches nothing and leaves the layout and frame flags as they were |
| RootProperties.SwapKeepsRunnerCount | src/com/android/gallery3d/ui/GLRootView.java:125-145 | a content swap never queues the idle runner, whatever the old and new views |
| RootProperties.FrameLayoutCount | src/com/android/gallery3d/ui/GLRootView.java:291 | a frame lays the content out to the full surface exactly when a layout is pending and the surface is not empty, and then exactly once |
| RootProperties.FrameRequestCount | src/com/android/gallery3d/ui/GLRootView.java:305-307 | a frame asks the host for another frame exactly when the upload limit was reached |
| RootProperties.FrameRunnerCount | src/com/android/gallery3d/ui/GLRootView.java:309-311 | a frame queues the idle runner exactly when listeners wait and the runner is not queued yet |
| RootProperties.FrameLayoutAndRequests | src/com/android/gallery3d/ui/GLRootView.java:280-311 | over the whole trace, a frame adds one layout of the content exactly when one was pending on a non-empty surface, one host request exactly when the upload limit was hit (leaving the request flag set), and one queued runner exactly when listeners wait and none is queued |
| RootProperties.RequestedLayoutIsDoneByNextFrame | src/com/android/gallery3d/ui/GLRootView.java:159-186 | a layout request on a root with content is carried out by the next frame on a non-empty surface: exactly one more layout, and no layout left pending |
| RootProperties.AnimationsShareFrameTime | src/com/android/gallery3d/ui/GLRootView.java:297-303 | two animations launched between two frames get the very same start time, the next frame's clock, and the pending list is then empty |
| RootProperties.FreshContentThenRequests | src/com/android/gallery3d/ui/GLRootView.java:140-157 | on a new root, installing a view and then three requestRender calls attach the view and ask the host for exactly one frame, with the layout pending |
| RootProperties.ContentThenFrame | src/com/android/gallery3d/ui/GLRootView.java:280-311 | the frame after that lays the view out exactly once, leaves nothing pending, and the host was asked for exactly one frame in all |
| RootProperties.IdleRunKeepServesHead | src/com/android/gallery3d/ui/GLRootView.java:352-369 | a run whose listener asks to stay serves the head listener and moves it to the tail |
| RootProperties.RotateOnce | src/com/android/gallery3d/ui/GLRootView.java:357-366 | taking the head to the tail and then rotating by n - 1 is rotating by n |
| RootProperties.IdleRoundRobin | src/com/android/gallery3d/ui/GLRootView.java:352-369 | with listeners that always stay, n runs serve the first n listeners in FIFO order, and those n have rotated to the back |
| RootProperties.FullRoundRestoresQueue | src/com/android/gallery3d/ui/GLRootView.java:352-369 | a round of as many runs as listeners serves each listener once, in order, and restores the queue |
| RootProperties.DroppedListenerDoesNotRearm | src/com/android/gallery3d/ui/GLRootView.java:361 | a listener that returns false is dropped and the runner is not queued again, even with listeners left |
| RootProperties.IdleResumesAfterNextFrame | src/com/android/gallery3d/ui/GLRootView.java:309-311 | when a run leaves listeners queued without re-arming the runner, the next frame queues the runner exactly once |
| RootProperties.DroppedListenerStallsQueue | src/com/android/gallery3d/ui/GLRootView.java:355-368 | a run whose listener returns false, with others waiting and no frame pending, leaves no runner queued and no frame requested, and every further run is refused |
| RootProperties.NoGestureWithoutHandledDown | src/com/android/gallery3d/ui/GLRootView.java:323-345 | starting outside a gesture, as long as no DOWN is handled, no gesture starts and only DOWN, UP and CANCEL ever reach a view |
| RootProperties.UpCancelAndDownAlwaysForwarded | src/com/android/gallery3d/ui/GLRootView.java:326-338 | with content, UP, CANCEL and DOWN are always forwarded, gesture or not, and the result is the content's answer |
| RootProperties.StepPreservesInvariant | src/com/android/gallery3d/ui/GLRootView.java:371-376 | every operation, run as the host runs it, keeps the root consistent and keeps exactly one runner waiting in the host queue when the runner is marked queued, and none otherwise |
| RootProperties.AtMostOneIdleRunnerQueued | src/com/android/gallery3d/ui/GLRootView.java:347-376 | in every run from construction, at most one idle runner waits in the host's queue, and one waits exactly when it is marked queued |
| GLRoot.SetNeedLayout | src/com/android/gallery3d/ui/GLRootView.java:169 | or-ing FLAG_NEED_LAYOUT into mFlags sets the layout bit and keeps the initialized bit |
| GLRoot.ClearNeedLayout | src/com/android/gallery3d/ui/GLRootView.java:177 | and-ing mFlags with the complement of FLAG_NEED_LAYOUT clears the layout bit and keeps the initialized bit |
| GLRoot.GLRootView.constructor | src/com/android/gallery3d/ui/GLRootView.java:96-99 | the object starts with mFlags = FLAG_NEED_LAYOUT, adds FLAG_INITIALIZED, and is in the state `Constructed` |
| GLRoot.GLRootView.RequestRender | src/com/android/gallery3d/ui/GLRootView.java:147-157 | the object ends in the state `RootSpec.RequestRender` gives |
| GLRoot.GLRootView.RequestLayoutContentPane | src/com/android/gallery3d/ui/GLRootView.java:159-174 | the object ends in the state `RootSpec.RequestLayoutContentPane` gives, with mFlags updated bitwise |
| GLRoot.GLRootView.LayoutContentPane | src/com/android/gallery3d/ui/GLRootView.java:176-186 | the object ends in the state `RootSpec.LayoutContentPane` gives |
| GLRoot.GLRootView.OnLayout | src/com/android/gallery3d/ui/GLRootView.java:188-192 | a changed host layout is a layout request; an unchanged one changes nothing |
| GLRoot.GLRootView.SetContentPane | src/com/android/gallery3d/ui/GLRootView.java:125-145 | the object ends in the state `RootSpec.SetContentPane` gives |
| GLRoot.GLRootView.RegisterLaunchedAnimation | src/com/android/gallery3d/ui/GLRootView.java:108-115 | the object ends in the state `RootSpec.RegisterLaunchedAnimation` gives |
| GLRoot.GLRootView.IdleEnable | src/com/android/gallery3d/ui/GLRootView.java:371-376 | the object ends in the state `RootSpec.IdleEnable` gives |
| GLRoot.GLRootView.AddOnGLIdleListener | src/com/android/gallery3d/ui/GLRootView.java:117-123 | the object ends in the state `RootSpec.AddOnGLIdleListener` gives |
| GLRoot.GLRootView.IdleRun | src/com/android/gallery3d/ui/GLRootView.java:352-369 | the object ends in the state `RootSpec.IdleRun` gives |
| GLRoot.GLRootView.FlushAnimations | src/com/android/gallery3d/ui/GLRootView.java:297-303 | the loop gives each pending animation, first to last, the start time `now` (the invariant: the map so far is `StampAll` of the prefix done), then empties the list |
| GLRoot.GLRootView.OnDrawFrameLocked | src/com/android/gallery3d/ui/GLRootView.java:280-311 | the object ends in the state `RootSpec.OnDrawFrameLocked` gives |
| GLRoot.GLRootView.DispatchTouchEvent | src/com/android/gallery3d/ui/GLRootView.java:323-345 | the object's new state and the returned `handled` are those `RootSpec.DispatchTouchEvent` gives |

## Left out

- Threads and locks: `mRenderLock`, the `synchronized (mIdleListeners)` blocks,
  `volatile`, and `lockRenderThread`/`unlockRenderThread`. Every operation is
  treated as atomic, and the operations run one after another.
- The GL/EGL lifecycle: `onSurfaceCreated`, `onSurfaceChanged` (including the
  `mGL == gl` assertion), `onDrawFrame`'s clock update and slow-frame timing,
  `onPause`, and the constructor's `GLSurfaceView` setup. These are calls into
  Android and GL classes that are not part of this model.
- Rendering itself: `mContentView.render(mCanvas)` is recorded as a `Render` call
  only.
- The texture and canvas helpers and the clocks are recorded as trace entries or
  taken as parameters:
  `deleteRecycledResources`, `resetUploadLimit`, `yieldAllTextures`,
  `uploadLimitReached`, `AnimationTime`, `SystemClock`, `MotionEvent.obtain`/`recycle`.
- All `DEBUG_*` branches (frame-rate output, profiling, the invalidate marker, the
  drawing statistics) and the `Log` calls. The constants are false, and the
  branches do I/O and floating point.
- Touch coordinates and every action code the root does not test (pointer
  up/down of a second finger, outside, ...). These are one `Other` action, which
  the root treats like MOVE.
- Re-entrant calls are not modelled: a view, animation or listener calling back into
  the root from inside `dispatchTouchEvent`, `attachToRoot`, `detachFromRoot`,
  `layout`, `render`, `setStartTime` or `onGLIdle`. Each such call is one trace
  entry, and its answer is a parameter. One consequence is
  RootSpec.OnDrawFrameLocked's `r.renderRequested == uploadLimitReached`. It holds
  because `render` (line 294) cannot call `requestRender` back. In the Java, a
  content view that requests a frame while it renders leaves `mRenderRequested`
  set.
- Collaborators are assumed to return normally. In the Java, an exception thrown by
  a view or listener propagates through the `try`/`finally` blocks (lines 161-173, 257-262,
  333-344, 359-364) and leaves the root part-way through the operation. For
  example, a throwing `onGLIdle` leaves its listener removed from the queue and
  `mActive` false (lines 355-361). Every model operation runs to completion.
- Object identity: views, animations and listeners are numbers. Two listener
  entries with the same number stand for the same object added twice.
- The start time a `CanvasAnimation` holds is kept in the root as the map
  `startTime`. The animation objects themselves are not modelled.
- The animation loop runs inline in `onDrawFrameLocked` in the Java. Here it is
  the method `FlushAnimations`, called at the same point of the frame.

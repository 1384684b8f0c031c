/** The state of a GL render root (GLRootView) as a value, and one function per
    operation of the root giving the state after that operation.

    Everything the root does to the outside world (asking the host for a frame,
    queueing the idle runner on the render thread, calling a content view or an
    idle listener) is recorded, in order, in `trace`. Whatever those collaborators
    answer (whether the content view handled a touch event, whether an idle
    listener wants to be called again) is a parameter of the operation, and so are
    the clock, the surface size and the texture-upload budget. */
module RootSpec {

  datatype Option<T> = None | Some(value: T)

  /** Identity of a GLView object (the content pane compares views by reference). */
  type ViewId = nat
  /** Identity of a CanvasAnimation object. */
  type AnimId = nat
  /** Identity of an OnGLIdleListener object. */
  type ListenerId = nat

  /** The MotionEvent action codes the root distinguishes; `Other` stands for every
      remaining code (outside, pointer down/up of a second finger, ...). */
  datatype Action = Down | Up | Move | Cancel | Other

  /** A touch event as far as the root is concerned (coordinates are not modelled). */
  datatype MotionEvent = MotionEvent(action: Action, downTime: int, eventTime: int)

  /** One call from the root to a collaborator. */
  datatype Effect =
    | HostRequestRender                     // GLSurfaceView.requestRender
    | HostQueueIdleRunner                   // queueEvent(mIdleRunner)
    | YieldAllTextures                      // BasicTexture.yieldAllTextures
    | DeleteRecycledResources               // GLCanvas.deleteRecycledResources
    | ResetUploadLimit                      // UploadedTexture.resetUploadLimit
    | Attach(view: ViewId)                  // GLView.attachToRoot
    | Detach(view: ViewId)                  // GLView.detachFromRoot
    | Dispatch(view: ViewId, event: MotionEvent)  // GLView.dispatchTouchEvent
    | Layout(view: ViewId, left: int, top: int, right: int, bottom: int)  // GLView.layout
    | Render(view: ViewId)                  // GLView.render
    | OnIdle(listener: ListenerId, renderRequested: bool)  // OnGLIdleListener.onGLIdle

  /** The fields of GLRootView that the operations read and write. `initialized`
      and `needLayout` are the FLAG_INITIALIZED and FLAG_NEED_LAYOUT bits of mFlags,
      `idleActive` is the `mActive` field of its IdleRunner, and `startTime` holds
      the start time each CanvasAnimation was last given by this root. */
  datatype Root = Root(
    initialized: bool,
    needLayout: bool,
    renderRequested: bool,
    content: Option<ViewId>,
    inDownState: bool,
    animations: seq<AnimId>,
    startTime: map<AnimId, int>,
    idleListeners: seq<ListenerId>,
    idleActive: bool,
    trace: seq<Effect>)

  /** What every reachable root satisfies: the constructor's initialized bit is
      never cleared, and a gesture can only be in progress on an existing content
      view. */
  predicate Consistent(s: Root)
  {
    s.initialized && (s.inDownState ==> s.content.Some?)
  }

  /** The state right after the constructor: mFlags starts as FLAG_NEED_LAYOUT and
      the constructor adds FLAG_INITIALIZED. */
  function Constructed(): (r: Root)
    ensures Consistent(r) && r.needLayout
    ensures !r.renderRequested && !r.inDownState && !r.idleActive && r.content == None
    ensures r.animations == [] && r.idleListeners == [] && r.trace == []
  {
    Root(true, true, false, None, false, [], map[], [], false, [])
  }

  /** requestRender: asks the host for a frame only when none is already asked for. */
  function RequestRender(s: Root): (r: Root)
    ensures r.renderRequested
    ensures r == s.(renderRequested := true,
                    trace := s.trace + if s.renderRequested then [] else [HostRequestRender])
  {
    if s.renderRequested then s
    else s.(renderRequested := true, trace := s.trace + [HostRequestRender])
  }

  /** requestLayoutContentPane: marks the layout dirty and asks for a frame, unless
      there is no content, a layout is already pending, or the root is not yet
      initialized. */
  function RequestLayoutContentPane(s: Root): (r: Root)
    ensures s.content == None || s.needLayout || !s.initialized ==> r == s
    ensures s.content != None && s.initialized ==>
              r.needLayout && r.renderRequested == (s.renderRequested || !s.needLayout)
    ensures r.initialized == s.initialized
    ensures var fires := s.content != None && !s.needLayout && s.initialized;
            r == s.(needLayout := s.needLayout || fires,
                    renderRequested := s.renderRequested || fires,
                    trace := s.trace + if fires && !s.renderRequested then [HostRequestRender] else [])
  {
    if s.content == None || s.needLayout then s
    else if !s.initialized then s
    else RequestRender(s.(needLayout := true))
  }

  /** layoutContentPane: clears the layout bit first, then lays the content out over
      the whole surface, but only when there is content and the surface is not
      empty in either direction. */
  function LayoutContentPane(s: Root, width: int, height: int): (r: Root)
    ensures !r.needLayout && r.initialized == s.initialized
    ensures r.(needLayout := s.needLayout, trace := s.trace) == s
    ensures r.trace == s.trace + if s.content.Some? && width != 0 && height != 0
                                 then [Layout(s.content.value, 0, 0, width, height)] else []
  {
    var s1 := s.(needLayout := false);
    if s1.content.Some? && width != 0 && height != 0 then
      s1.(trace := s1.trace + [Layout(s1.content.value, 0, 0, width, height)])
    else s1
  }

  /** The calls made to an outgoing content view: a CANCEL stamped `now` if a
      gesture is in progress, then the detach, then the texture yield. */
  function DetachEffects(outgoing: ViewId, inDownState: bool, now: int): (effects: seq<Effect>)
  {
    (if inDownState then [Dispatch(outgoing, MotionEvent(Cancel, now, now))] else [])
    + [Detach(outgoing), YieldAllTextures]
  }

  /** The outgoing half of setContentPane: a gesture in progress on the outgoing
      view is cancelled with a synthesized CANCEL stamped `now`, then the view is
      detached and the textures are yielded. */
  function DetachContentPane(s: Root, now: int): (r: Root)
    requires s.content.Some?
    ensures !r.inDownState
    ensures r.trace == s.trace + DetachEffects(s.content.value, s.inDownState, now)
    ensures r.initialized == s.initialized && r.needLayout == s.needLayout && r.renderRequested == s.renderRequested && r.content == s.content
    ensures r.animations == s.animations && r.startTime == s.startTime
    ensures r.idleListeners == s.idleListeners && r.idleActive == s.idleActive
  {
    var outgoing := s.content.value;
    var cancelled :=
      if s.inDownState then
        s.(trace := s.trace + [Dispatch(outgoing, MotionEvent(Cancel, now, now))], inDownState := false)
      else s;
    cancelled.(trace := cancelled.trace + [Detach(outgoing), YieldAllTextures])
  }

  /** The calls setContentPane makes, in order: none for the current view;
      otherwise those to the outgoing view, the attach of the incoming one, and a
      request for a frame when its layout request is the first thing pending. */
  function SwapEffects(s: Root, content: Option<ViewId>, now: int): (effects: seq<Effect>)
  {
    if content == s.content then []
    else
      (if s.content.Some? then DetachEffects(s.content.value, s.inDownState, now) else [])
      + (if content.Some? then
           [Attach(content.value)]
           + (if s.initialized && !s.needLayout && !s.renderRequested then [HostRequestRender] else [])
         else [])
  }

  /** setContentPane for a view other than the current one: cancels a gesture in
      progress on the outgoing view, detaches it, attaches the new one and asks
      for a layout. */
  function ReplaceContentPane(s: Root, content: Option<ViewId>, now: int): (r: Root)
    requires content != s.content
    ensures r.trace == s.trace + SwapEffects(s, content, now)
    ensures r.content == content
    ensures (s.content.Some? ==> !r.inDownState) && (s.content.None? ==> r.inDownState == s.inDownState)
    ensures content.None? ==> r.needLayout == s.needLayout && r.renderRequested == s.renderRequested
    ensures content.Some? && s.initialized ==>
              r.needLayout && r.renderRequested == (s.renderRequested || !s.needLayout)
    ensures r.initialized == s.initialized
    ensures r.animations == s.animations && r.startTime == s.startTime
    ensures r.idleListeners == s.idleListeners && r.idleActive == s.idleActive
  {
    var detached := if s.content.Some? then DetachContentPane(s, now) else s;
    var replaced := detached.(content := content);
    if content.Some? then
      var attached := replaced.(trace := replaced.trace + [Attach(content.value)]);
      var r := RequestLayoutContentPane(attached);
      assert r.trace == detached.trace + [Attach(content.value)]
                        + (if s.initialized && !s.needLayout && !s.renderRequested then [HostRequestRender] else []);
      r
    else replaced
  }

  /** setContentPane: a no-op for the current view, otherwise a replacement. `now`
      is the uptime clock read for the synthesized CANCEL. */
  function SetContentPane(s: Root, content: Option<ViewId>, now: int): (r: Root)
    ensures content == s.content ==> r == s
    ensures r.trace == s.trace + SwapEffects(s, content, now)
    ensures r.content == content
    ensures (s.content.Some? && content != s.content ==> !r.inDownState)
            && (s.content.None? ==> r.inDownState == s.inDownState)
    ensures content.None? ==> r.needLayout == s.needLayout && r.renderRequested == s.renderRequested
    ensures content.Some? && content != s.content && s.initialized ==>
              r.needLayout && r.renderRequested == (s.renderRequested || !s.needLayout)
    ensures r.initialized == s.initialized
    ensures r.animations == s.animations && r.startTime == s.startTime
    ensures r.idleListeners == s.idleListeners && r.idleActive == s.idleActive
  {
    if content == s.content then s else ReplaceContentPane(s, content, now)
  }

  /** registerLaunchedAnimation: the animation waits for the next frame's clock. */
  function RegisterLaunchedAnimation(s: Root, animation: AnimId): (r: Root)
    ensures r.animations == s.animations + [animation]
    ensures r.(animations := s.animations) == s
  {
    s.(animations := s.animations + [animation])
  }

  /** IdleRunner.enable: queues the runner only if it is not queued already. */
  function IdleEnable(s: Root): (r: Root)
    ensures r.idleActive
    ensures r == s.(idleActive := true,
                    trace := s.trace + if s.idleActive then [] else [HostQueueIdleRunner])
  {
    if s.idleActive then s
    else s.(idleActive := true, trace := s.trace + [HostQueueIdleRunner])
  }

  /** addOnGLIdleListener: appends the listener and makes sure a runner is queued. */
  function AddOnGLIdleListener(s: Root, listener: ListenerId): (r: Root)
    ensures r.idleListeners == s.idleListeners + [listener] && r.idleActive
    ensures r.trace == s.trace + if s.idleActive then [] else [HostQueueIdleRunner]
    ensures r.(idleListeners := s.idleListeners, idleActive := s.idleActive, trace := s.trace) == s
  {
    IdleEnable(s.(idleListeners := s.idleListeners + [listener]))
  }

  /** IdleRunner.run: serves the head listener only; it goes back to the tail only
      if it returned true (`keep`), and only then is the runner queued again, and
      only if no frame is pending. */
  function IdleRun(s: Root, keep: bool): (r: Root)
    ensures s.idleListeners == [] ==> r == s.(idleActive := false)
    ensures s.idleListeners != [] ==>
              r.idleListeners == s.idleListeners[1..] + (if keep then [s.idleListeners[0]] else []) &&
              r.trace == s.trace + [OnIdle(s.idleListeners[0], s.renderRequested)]
                                 + (if keep && !s.renderRequested then [HostQueueIdleRunner] else []) &&
              r.idleActive == (keep && !s.renderRequested)
    ensures r.(idleListeners := s.idleListeners, idleActive := s.idleActive, trace := s.trace) == s
  {
    var s1 := s.(idleActive := false);
    if s1.idleListeners == [] then s1
    else
      var listener := s1.idleListeners[0];
      var s2 := s1.(idleListeners := s1.idleListeners[1..],
                    trace := s1.trace + [OnIdle(listener, s1.renderRequested)]);
      if !keep then s2
      else
        var s3 := s2.(idleListeners := s2.idleListeners + [listener]);
        if !s3.renderRequested then IdleEnable(s3) else s3
  }

  /** The start-time map after `setStartTime(now)` was called on each animation of
      `anims`, first to last. */
  function StampAll(m: map<AnimId, int>, anims: seq<AnimId>, now: int): (r: map<AnimId, int>)
    ensures forall a :: a in anims ==> a in r && r[a] == now
    ensures forall a :: a !in anims ==> (a in r <==> a in m) && (a in m ==> r[a] == m[a])
    decreases |anims|
  {
    if anims == [] then m
    else StampAll(m, anims[..|anims| - 1], now)[anims[|anims| - 1] := now]
  }

  /** The calls the first part of a frame makes, in order: release recycled
      resources, reset the upload budget, lay the content out over the whole
      surface if a layout is pending and the surface is not empty, render it. */
  function BeginEffects(s: Root, width: int, height: int): (effects: seq<Effect>)
  {
    [DeleteRecycledResources, ResetUploadLimit]
    + (if s.needLayout && s.content.Some? && width != 0 && height != 0
       then [Layout(s.content.value, 0, 0, width, height)] else [])
    + (if s.content.Some? then [Render(s.content.value)] else [])
  }

  /** The first part of onDrawFrameLocked: release recycled resources, reset the
      upload budget, clear the render request, lay out if the layout bit is set,
      and render the content. */
  function BeginFrame(s: Root, width: int, height: int): (r: Root)
    ensures !r.renderRequested && !r.needLayout && r.initialized == s.initialized
    ensures r.trace == s.trace + BeginEffects(s, width, height)
    ensures r.content == s.content && r.inDownState == s.inDownState
    ensures r.animations == s.animations && r.startTime == s.startTime
    ensures r.idleListeners == s.idleListeners && r.idleActive == s.idleActive
  {
    var s1 := s.(trace := s.trace + [DeleteRecycledResources, ResetUploadLimit],
                 renderRequested := false);
    var s2 := if s1.needLayout then LayoutContentPane(s1, width, height) else s1;
    if s2.content.Some? then s2.(trace := s2.trace + [Render(s2.content.value)]) else s2
  }

  /** The animation part of onDrawFrameLocked: every pending animation gets the
      one clock value `now` and the pending list is emptied. */
  function FlushAnimations(s: Root, now: int): (r: Root)
    ensures r.animations == []
    ensures forall a :: a in s.animations ==> a in r.startTime && r.startTime[a] == now
    ensures forall a :: a !in s.animations ==>
              (a in r.startTime <==> a in s.startTime) &&
              (a in s.startTime ==> r.startTime[a] == s.startTime[a])
    ensures r.(animations := s.animations, startTime := s.startTime) == s
  {
    if s.animations != [] then
      s.(startTime := StampAll(s.startTime, s.animations, now), animations := [])
    else s
  }

  /** The calls the end of a frame makes: ask the host for another frame if the
      upload budget ran out, and queue the idle runner if listeners wait and it
      is not queued yet. */
  function EndEffects(s: Root, uploadLimitReached: bool): (effects: seq<Effect>)
  {
    (if uploadLimitReached && !s.renderRequested then [HostRequestRender] else [])
    + (if !s.idleActive && s.idleListeners != [] then [HostQueueIdleRunner] else [])
  }

  /** The last part of onDrawFrameLocked, after the animations got their start
      time: request another frame if the upload budget ran out, and enable the
      idle runner if any listener waits. */
  function EndFrame(s: Root, uploadLimitReached: bool): (r: Root)
    ensures r.renderRequested == (s.renderRequested || uploadLimitReached)
    ensures r.idleActive == (s.idleActive || s.idleListeners != [])
    ensures r.trace == s.trace + EndEffects(s, uploadLimitReached)
    ensures r.(renderRequested := s.renderRequested, idleActive := s.idleActive, trace := s.trace) == s
  {
    var s1 := if uploadLimitReached then RequestRender(s) else s;
    if s1.idleListeners != [] then IdleEnable(s1) else s1
  }

  /** The calls one frame makes, in order. */
  function FrameEffects(s: Root, width: int, height: int, uploadLimitReached: bool): (effects: seq<Effect>)
  {
    BeginEffects(s, width, height)
    + (if uploadLimitReached then [HostRequestRender] else [])
    + (if !s.idleActive && s.idleListeners != [] then [HostQueueIdleRunner] else [])
  }

  /** onDrawFrameLocked: one frame. `width` and `height` are the view's size,
      `now` the animation clock of this frame and `uploadLimitReached` what the
      texture uploader reports after rendering. */
  function OnDrawFrameLocked(s: Root, width: int, height: int, now: int, uploadLimitReached: bool): (r: Root)
    ensures !r.needLayout && r.initialized == s.initialized
    ensures r.renderRequested == uploadLimitReached
    ensures r.animations == []
    ensures forall a :: a in s.animations ==> a in r.startTime && r.startTime[a] == now
    ensures forall a :: a !in s.animations ==>
              (a in r.startTime <==> a in s.startTime) &&
              (a in s.startTime ==> r.startTime[a] == s.startTime[a])
    ensures r.content == s.content && r.inDownState == s.inDownState
    ensures r.idleListeners == s.idleListeners
    ensures r.idleActive == (s.idleActive || s.idleListeners != [])
    ensures r.trace == s.trace + FrameEffects(s, width, height, uploadLimitReached)
  {
    var s1 := BeginFrame(s, width, height);
    var s2 := FlushAnimations(s1, now);
    var r := EndFrame(s2, uploadLimitReached);
    assert EndEffects(s2, uploadLimitReached)
           == (if uploadLimitReached then [HostRequestRender] else [])
              + (if !s.idleActive && s.idleListeners != [] then [HostQueueIdleRunner] else []);
    assert r.trace == s.trace + BeginEffects(s, width, height) + EndEffects(s2, uploadLimitReached);
    r
  }

  /** dispatchTouchEvent: UP and CANCEL end the gesture and are forwarded; any
      other event but DOWN is dropped while no gesture is in progress; a DOWN the
      content handled starts one. The result is whether the content handled it
      (`contentHandles` is the content view's own answer). */
  function DispatchTouchEvent(s: Root, event: MotionEvent, contentHandles: bool): (r: (Root, bool))
    ensures event.action !in {Down, Up, Cancel} && !s.inDownState ==> r == (s, false)
    ensures var forwarded := event.action in {Down, Up, Cancel} || s.inDownState;
            r.1 == (forwarded && s.content.Some? && contentHandles) &&
            r.0.trace == s.trace + if forwarded && s.content.Some? then [Dispatch(s.content.value, event)] else []
    ensures event.action in {Up, Cancel} ==> !r.0.inDownState
    ensures r.0.inDownState && !s.inDownState ==> event.action == Down && r.1
    ensures event.action == Down && r.1 ==> r.0.inDownState
    ensures event.action in {Down, Move, Other} ==> (r.0.inDownState <==> s.inDownState || (event.action == Down && r.1))
    ensures r.0.initialized == s.initialized && r.0.needLayout == s.needLayout && r.0.renderRequested == s.renderRequested && r.0.content == s.content
    ensures r.0.animations == s.animations && r.0.startTime == s.startTime
    ensures r.0.idleListeners == s.idleListeners && r.0.idleActive == s.idleActive
  {
    var action := event.action;
    if action != Cancel && action != Up && !s.inDownState && action != Down then (s, false)
    else
      var s1 := if action == Cancel || action == Up then s.(inDownState := false) else s;
      var handled := s1.content.Some? && contentHandles;
      var s2 := if s1.content.Some? then s1.(trace := s1.trace + [Dispatch(s1.content.value, event)]) else s1;
      var s3 := if action == Down && handled then s2.(inDownState := true) else s2;
      (s3, handled)
  }
}

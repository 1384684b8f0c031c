/** GLRootView as the object it is: the fields its methods update in place and one
    method per operation. Each method is proved to leave the object in the state
    the matching function of RootSpec gives, so every property proved about those
    functions holds of the object.

    The IdleRunner's only field, mActive, is kept here as `idleActive`, and its two
    methods are IdleRun and IdleEnable. */
module GLRoot {
  import opened RootSpec

  /** The bits of mFlags. */
  const FlagInitialized: bv32 := 1
  const FlagNeedLayout: bv32 := 2

  /** `mFlags |= FLAG_NEED_LAYOUT`. */
  function SetNeedLayout(flags: bv32): (r: bv32)
    ensures r & FlagNeedLayout != 0
    ensures (r & FlagInitialized != 0) == (flags & FlagInitialized != 0)
  {
    flags | FlagNeedLayout
  }

  /** `mFlags &= ~FLAG_NEED_LAYOUT`. */
  function ClearNeedLayout(flags: bv32): (r: bv32)
    ensures r & FlagNeedLayout == 0
    ensures (r & FlagInitialized != 0) == (flags & FlagInitialized != 0)
  {
    flags & !FlagNeedLayout
  }

  class GLRootView {
    var flags: bv32
    var renderRequested: bool
    var contentView: Option<ViewId>
    var inDownState: bool
    var animations: seq<AnimId>
    /** The start time each animation was last given (CanvasAnimation.setStartTime). */
    var startTime: map<AnimId, int>
    /** The idle listener queue, head first. */
    var idleListeners: seq<ListenerId>
    /** IdleRunner.mActive: the runner is in the render thread's queue. */
    var idleActive: bool
    /** The calls made so far to the host, the views and the listeners. */
    ghost var trace: seq<Effect>

    /** The object's fields as a RootSpec state. */
    ghost function State(): (r: Root)
      reads this
    {
      Root(flags & FlagInitialized != 0, flags & FlagNeedLayout != 0, renderRequested,
           contentView, inDownState, animations, startTime, idleListeners, idleActive, trace)
    }

    /** What the constructor establishes and every method keeps: the object is
        initialized, and a gesture is only ever in progress on a content view. */
    ghost predicate Valid()
      reads this
    {
      Consistent(State())
    }

    /** mFlags starts as FLAG_NEED_LAYOUT and the constructor adds FLAG_INITIALIZED. */
    constructor ()
      ensures State() == Constructed()
      ensures Valid()
    {
      flags := FlagNeedLayout;
      renderRequested := false;
      contentView := None;
      inDownState := false;
      animations := [];
      startTime := map[];
      idleListeners := [];
      idleActive := false;
      trace := [];
      new;
      flags := flags | FlagInitialized;
    }

    method RequestRender()
      requires Valid()
      modifies this
      ensures Valid()
      ensures State() == RootSpec.RequestRender(old(State()))
    {
      if renderRequested {
        return;
      }
      renderRequested := true;
      trace := trace + [HostRequestRender];
    }

    method RequestLayoutContentPane()
      requires Valid()
      modifies this
      ensures Valid()
      ensures State() == RootSpec.RequestLayoutContentPane(old(State()))
    {
      if contentView == None || flags & FlagNeedLayout != 0 {
        return;
      }
      if flags & FlagInitialized == 0 {
        return;
      }
      flags := SetNeedLayout(flags);
      RequestRender();
    }

    /** layoutContentPane; `width` and `height` are the view's current size. */
    method LayoutContentPane(width: int, height: int)
      requires Valid()
      modifies this
      ensures Valid()
      ensures State() == RootSpec.LayoutContentPane(old(State()), width, height)
    {
      flags := ClearNeedLayout(flags);
      if contentView.Some? && width != 0 && height != 0 {
        trace := trace + [Layout(contentView.value, 0, 0, width, height)];
      }
    }

    /** onLayout: a changed layout of the host view asks for a content layout. */
    method OnLayout(changed: bool)
      requires Valid()
      modifies this
      ensures Valid()
      ensures State() == if changed then RootSpec.RequestLayoutContentPane(old(State())) else old(State())
    {
      if changed {
        RequestLayoutContentPane();
      }
    }

    /** setContentPane; `now` is the uptime clock read for the synthesized CANCEL. */
    method SetContentPane(content: Option<ViewId>, now: int)
      requires Valid()
      modifies this
      ensures Valid()
      ensures State() == RootSpec.SetContentPane(old(State()), content, now)
    {
      if contentView == content {
        return;
      }
      if contentView.Some? {
        if inDownState {
          trace := trace + [Dispatch(contentView.value, MotionEvent(Cancel, now, now))];
          inDownState := false;
        }
        trace := trace + [Detach(contentView.value)];
        trace := trace + [YieldAllTextures];
      }
      ghost var detached := State();
      assert detached == if old(State()).content.Some? then DetachContentPane(old(State()), now) else old(State());
      contentView := content;
      if content.Some? {
        trace := trace + [Attach(content.value)];
        ghost var attached := State();
        RequestLayoutContentPane();
        assert State() == RootSpec.RequestLayoutContentPane(attached);
      }
    }

    method RegisterLaunchedAnimation(animation: AnimId)
      requires Valid()
      modifies this
      ensures Valid()
      ensures State() == RootSpec.RegisterLaunchedAnimation(old(State()), animation)
    {
      animations := animations + [animation];
    }

    /** IdleRunner.enable. */
    method IdleEnable()
      requires Valid()
      modifies this
      ensures Valid()
      ensures State() == RootSpec.IdleEnable(old(State()))
    {
      if idleActive {
        return;
      }
      idleActive := true;
      trace := trace + [HostQueueIdleRunner];
    }

    method AddOnGLIdleListener(listener: ListenerId)
      requires Valid()
      modifies this
      ensures Valid()
      ensures State() == RootSpec.AddOnGLIdleListener(old(State()), listener)
    {
      idleListeners := idleListeners + [listener];
      IdleEnable();
    }

    /** IdleRunner.run; `keep` is what the served listener's onGLIdle returns. */
    method IdleRun(keep: bool)
      requires Valid()
      modifies this
      ensures Valid()
      ensures State() == RootSpec.IdleRun(old(State()), keep)
    {
      idleActive := false;
      if idleListeners == [] {
        return;
      }
      var listener := idleListeners[0];
      idleListeners := idleListeners[1..];
      trace := trace + [OnIdle(listener, renderRequested)];
      if !keep {
        return;
      }
      idleListeners := idleListeners + [listener];
      if !renderRequested {
        IdleEnable();
      }
    }

    /** Gives every pending animation the start time `now`, in order, and empties
        the pending list. */
    method FlushAnimations(now: int)
      requires Valid()
      modifies this
      ensures Valid()
      ensures State() == RootSpec.FlushAnimations(old(State()), now)
    {
      if animations == [] {
        return;
      }
      var i := 0;
      while i < |animations|
        invariant 0 <= i <= |animations|
        invariant startTime == StampAll(old(startTime), animations[..i], now)
        invariant unchanged(this`flags, this`renderRequested, this`contentView, this`inDownState)
        invariant unchanged(this`animations, this`idleListeners, this`idleActive, this`trace)
      {
        assert animations[..i + 1][..i] == animations[..i];
        startTime := startTime[animations[i] := now];
        i := i + 1;
      }
      assert animations[..i] == animations;
      animations := [];
    }

    /** onDrawFrameLocked. `width` and `height` are the view's size, `now` the
        animation clock and `uploadLimitReached` what the texture uploader reports
        after rendering. */
    method OnDrawFrameLocked(width: int, height: int, now: int, uploadLimitReached: bool)
      requires Valid()
      modifies this
      ensures Valid()
      ensures State() == RootSpec.OnDrawFrameLocked(old(State()), width, height, now, uploadLimitReached)
    {
      trace := trace + [DeleteRecycledResources, ResetUploadLimit];
      renderRequested := false;
      if flags & FlagNeedLayout != 0 {
        LayoutContentPane(width, height);
      }
      if contentView.Some? {
        trace := trace + [Render(contentView.value)];
      }
      assert State() == BeginFrame(old(State()), width, height);
      FlushAnimations(now);
      ghost var flushed := State();
      if uploadLimitReached {
        RequestRender();
      }
      if idleListeners != [] {
        IdleEnable();
      }
      assert State() == EndFrame(flushed, uploadLimitReached);
    }

    /** dispatchTouchEvent; `contentHandles` is what the content view's own
        dispatchTouchEvent returns. */
    method DispatchTouchEvent(event: MotionEvent, contentHandles: bool) returns (handled: bool)
      requires Valid()
      modifies this
      ensures Valid()
      ensures (State(), handled) == RootSpec.DispatchTouchEvent(old(State()), event, contentHandles)
    {
      var action := event.action;
      if action == Cancel || action == Up {
        inDownState := false;
      } else if !inDownState && action != Down {
        return false;
      }
      handled := contentView.Some? && contentHandles;
      if contentView.Some? {
        trace := trace + [Dispatch(contentView.value, event)];
      }
      if action == Down && handled {
        inDownState := true;
      }
    }
  }
}

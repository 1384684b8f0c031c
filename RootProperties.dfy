/** Properties of GLRootView that relate several operations: coalescing of render
    requests, what a content swap sends to the outgoing and incoming views, what a
    frame does, the round-robin service of idle listeners, the touch filter over
    a stream of events, and the invariant that at most one idle runner is ever
    waiting in the render thread's queue. */
module RootProperties {
  import opened RootSpec

  /** How many times `e` occurs in the trace `t`. */
  function Count(t: seq<Effect>, e: Effect): (n: nat)
    decreases |t|
  {
    if t == [] then 0
    else Count(t[..|t| - 1], e) + (if t[|t| - 1] == e then 1 else 0)
  }

  lemma {:induction false} CountAppend(a: seq<Effect>, b: seq<Effect>, e: Effect)
    ensures Count(a + b, e) == Count(a, e) + Count(b, e)
    decreases |b|
  {
    if b == [] {
      assert a + b == a;
    } else {
      CountAppend(a, b[..|b| - 1], e);
      assert (a + b)[..|a + b| - 1] == a + b[..|b| - 1];
    }
  }

  lemma CountSingleton(e: Effect, x: Effect)
    ensures Count([e], x) == if e == x then 1 else 0
  {
    assert [e][..0] == [];
  }

  lemma {:induction false} CountAbsent(t: seq<Effect>, e: Effect)
    requires e !in t
    ensures Count(t, e) == 0
    decreases |t|
  {
    if t != [] {
      assert t == t[..|t| - 1] + [t[|t| - 1]];
      CountAbsent(t[..|t| - 1], e);
    }
  }

  /** The touch events the trace `t` delivered to view `v`, in order. */
  function DispatchedTo(t: seq<Effect>, v: ViewId): (events: seq<MotionEvent>)
    decreases |t|
  {
    if t == [] then []
    else
      var last := t[|t| - 1];
      DispatchedTo(t[..|t| - 1], v) + (if last.Dispatch? && last.view == v then [last.event] else [])
  }

  lemma {:induction false} DispatchedToAppend(a: seq<Effect>, b: seq<Effect>, v: ViewId)
    ensures DispatchedTo(a + b, v) == DispatchedTo(a, v) + DispatchedTo(b, v)
    decreases |b|
  {
    if b == [] {
      assert a + b == a;
    } else {
      var front := b[..|b| - 1];
      var last := b[|b| - 1];
      var tail := if last.Dispatch? && last.view == v then [last.event] else [];
      DispatchedToAppend(a, front, v);
      assert (a + b)[..|a + b| - 1] == a + front;
      assert (a + b)[|a + b| - 1] == last;
      calc {
        DispatchedTo(a + b, v);
        DispatchedTo(a + front, v) + tail;
        DispatchedTo(a, v) + DispatchedTo(front, v) + tail;
        DispatchedTo(a, v) + (DispatchedTo(front, v) + tail);
        DispatchedTo(a, v) + DispatchedTo(b, v);
      }
    }
  }

  /** The idle listeners the trace `t` invoked, in order. */
  function Served(t: seq<Effect>): (listeners: seq<ListenerId>)
    decreases |t|
  {
    if t == [] then []
    else
      var last := t[|t| - 1];
      Served(t[..|t| - 1]) + (if last.OnIdle? then [last.listener] else [])
  }

  // ---------------------------------------------------------------------------
  // Render requests

  /** `n` consecutive calls of requestRender. */
  function RequestRenderTimes(s: Root, n: nat): (r: Root)
    decreases n
  {
    if n == 0 then s else RequestRenderTimes(RequestRender(s), n - 1)
  }

  /** Any number of requestRender calls before the next frame amount to one: the
      host is asked for a frame once if none was pending, and not at all
      otherwise. */
  lemma {:induction false} RequestRenderCoalesces(s: Root, n: nat)
    requires n >= 1
    ensures RequestRenderTimes(s, n) == RequestRender(s)
    ensures RequestRenderTimes(s, n).renderRequested
    ensures Count(RequestRenderTimes(s, n).trace, HostRequestRender)
              == Count(s.trace, HostRequestRender) + (if s.renderRequested then 0 else 1)
    decreases n
  {
    if n > 1 {
      RequestRenderCoalesces(RequestRender(s), n - 1);
    }
    if !s.renderRequested {
      CountAppend(s.trace, [HostRequestRender], HostRequestRender);
    }
  }

  // ---------------------------------------------------------------------------
  // Content pane

  /** An entry that occurs in neither `a` nor `c` is counted in `a + b + c` as
      often as in `b`. */
  lemma CountMiddle(a: seq<Effect>, b: seq<Effect>, c: seq<Effect>, e: Effect)
    requires e !in a && e !in c
    ensures Count(a + b + c, e) == Count(b, e)
  {
    CountAppend(a + b, c, e);
    CountAppend(a, b, e);
    CountAbsent(a, e);
    CountAbsent(c, e);
  }

  /** A trace without any Dispatch entry delivers nothing to any view. */
  lemma {:induction false} NoDispatchIn(t: seq<Effect>, v: ViewId)
    requires forall e | e in t :: !e.Dispatch?
    ensures DispatchedTo(t, v) == []
    decreases |t|
  {
    if t != [] {
      assert t == t[..|t| - 1] + [t[|t| - 1]];
      NoDispatchIn(t[..|t| - 1], v);
    }
  }

  /** The only touch event a content swap delivers is the CANCEL to an outgoing
      view that is in the middle of a gesture. */
  lemma SwapDispatches(s: Root, content: Option<ViewId>, now: int, v: ViewId)
    ensures DispatchedTo(SwapEffects(s, content, now), v)
            == if content != s.content && s.content.Some? && s.inDownState && v == s.content.value
               then [MotionEvent(Cancel, now, now)] else []
  {
    var x := SwapEffects(s, content, now);
    if content != s.content && s.content.Some? && s.inDownState {
      var d := Dispatch(s.content.value, MotionEvent(Cancel, now, now));
      var rest := x[1..];
      assert x == [d] + rest;
      DispatchedToAppend([d], rest, v);
      NoDispatchIn(rest, v);
      assert DispatchedTo([d], v) == (if v == s.content.value then [d.event] else []) by {
        assert [d][..0] == [];
      }
    } else {
      NoDispatchIn(x, v);
    }
  }

  /** Installing view `v` in place of another attaches `v` once and asks the host
      for a frame once exactly when its layout request is the first thing
      pending. */
  lemma SwapInCounts(s: Root, v: ViewId, now: int)
    requires s.content != Some(v)
    ensures Count(SwapEffects(s, Some(v), now), Attach(v)) == 1
    ensures Count(SwapEffects(s, Some(v), now), HostRequestRender)
            == if s.initialized && !s.needLayout && !s.renderRequested then 1 else 0
  {
    var out := if s.content.Some? then DetachEffects(s.content.value, s.inDownState, now) else [];
    var req := if s.initialized && !s.needLayout && !s.renderRequested then [HostRequestRender] else [];
    var x := SwapEffects(s, Some(v), now);
    assert x == out + [Attach(v)] + req;
    assert Count(x, Attach(v)) == 1 by {
      CountMiddle(out, [Attach(v)], req, Attach(v));
      CountSingleton(Attach(v), Attach(v));
    }
    assert Count(x, HostRequestRender) == Count(req, HostRequestRender) by {
      CountMiddle(out + [Attach(v)], req, [], HostRequestRender);
      assert out + [Attach(v)] + req + [] == x;
    }
    if req != [] {
      CountSingleton(HostRequestRender, HostRequestRender);
    }
  }

  /** Passing the current content view again changes nothing and calls no view. */
  lemma SetSameContentIsNoOp(s: Root, now: int)
    ensures SetContentPane(s, s.content, now) == s
  {
  }

  /** Replacing the content during a gesture: the outgoing view receives exactly
      one more touch event, a CANCEL stamped `now`, immediately before it is
      detached; the incoming view receives none; the gesture is over. */
  lemma SwapCancelsGesture(s: Root, content: Option<ViewId>, now: int)
    requires s.content.Some? && s.inDownState && content != s.content
    ensures var r := SetContentPane(s, content, now);
            && !r.inDownState
            && |r.trace| >= |s.trace| + 2
            && r.trace[|s.trace|] == Dispatch(s.content.value, MotionEvent(Cancel, now, now))
            && r.trace[|s.trace| + 1] == Detach(s.content.value)
            && DispatchedTo(r.trace, s.content.value)
                 == DispatchedTo(s.trace, s.content.value) + [MotionEvent(Cancel, now, now)]
            && (content.Some? ==>
                  DispatchedTo(r.trace, content.value) == DispatchedTo(s.trace, content.value))
  {
    var r := SetContentPane(s, content, now);
    var x := SwapEffects(s, content, now);
    var outgoing := s.content.value;
    assert x[0] == Dispatch(outgoing, MotionEvent(Cancel, now, now)) && x[1] == Detach(outgoing);
    assert DispatchedTo(r.trace, outgoing) == DispatchedTo(s.trace, outgoing) + [MotionEvent(Cancel, now, now)] by {
      DispatchedToAppend(s.trace, x, outgoing);
      SwapDispatches(s, content, now, outgoing);
    }
    if content.Some? {
      assert DispatchedTo(r.trace, content.value) == DispatchedTo(s.trace, content.value) by {
        DispatchedToAppend(s.trace, x, content.value);
        SwapDispatches(s, content, now, content.value);
      }
    }
  }

  /** Replacing the content when no gesture is in progress sends no touch event
      to any view. */
  lemma SwapWithoutGestureSendsNoEvent(s: Root, content: Option<ViewId>, now: int, v: ViewId)
    requires !s.inDownState
    ensures DispatchedTo(SetContentPane(s, content, now).trace, v) == DispatchedTo(s.trace, v)
  {
    DispatchedToAppend(s.trace, SwapEffects(s, content, now), v);
    SwapDispatches(s, content, now, v);
  }

  /** Installing a new view on a consistent root: it becomes the content, is
      attached exactly once, the layout bit is set (the constructor set the
      initialized bit), and the host is asked for a frame only if neither a
      layout nor a frame was already pending. */
  lemma SwapInAttachesAndRequestsLayout(s: Root, v: ViewId, now: int)
    requires Consistent(s) && s.content != Some(v)
    ensures var r := SetContentPane(s, Some(v), now);
            && r.content == Some(v)
            && Count(r.trace, Attach(v)) == Count(s.trace, Attach(v)) + 1
            && r.needLayout
            && r.renderRequested == (s.renderRequested || !s.needLayout)
            && Count(r.trace, HostRequestRender)
                 == Count(s.trace, HostRequestRender)
                    + (if !s.needLayout && !s.renderRequested then 1 else 0)
  {
    var x := SwapEffects(s, Some(v), now);
    CountAppend(s.trace, x, Attach(v));
    CountAppend(s.trace, x, HostRequestRender);
    SwapInCounts(s, v, now);
  }

  /** Clearing the content detaches the old view, attaches nothing and asks for
      no layout and no frame. */
  lemma SwapOutRequestsNothing(s: Root, now: int)
    requires s.content.Some?
    ensures var r := SetContentPane(s, None, now);
            && r.content == None && !r.inDownState
            && r.initialized == s.initialized && r.needLayout == s.needLayout && r.renderRequested == s.renderRequested
            && r.trace == s.trace
                          + (if s.inDownState then [Dispatch(s.content.value, MotionEvent(Cancel, now, now))] else [])
                          + [Detach(s.content.value), YieldAllTextures]
  {
  }

  // ---------------------------------------------------------------------------
  // Frames

  /** A frame lays the content out to the full surface exactly when a layout is
      pending and the surface is not empty. */
  lemma FrameLayoutCount(s: Root, width: int, height: int, uploadLimitReached: bool)
    requires s.content.Some?
    ensures Count(FrameEffects(s, width, height, uploadLimitReached), Layout(s.content.value, 0, 0, width, height))
            == if s.needLayout && width != 0 && height != 0 then 1 else 0
  {
    var lay := Layout(s.content.value, 0, 0, width, height);
    var b := if s.needLayout && width != 0 && height != 0 then [lay] else [];
    var rest := [Render(s.content.value)]
                + (if uploadLimitReached then [HostRequestRender] else [])
                + (if !s.idleActive && s.idleListeners != [] then [HostQueueIdleRunner] else []);
    assert FrameEffects(s, width, height, uploadLimitReached)
           == [DeleteRecycledResources, ResetUploadLimit] + b + rest;
    CountMiddle([DeleteRecycledResources, ResetUploadLimit], b, rest, lay);
    if b != [] { CountSingleton(lay, lay); }
  }

  /** A frame asks the host for another frame exactly when the upload budget ran
      out. */
  lemma FrameRequestCount(s: Root, width: int, height: int, uploadLimitReached: bool)
    ensures Count(FrameEffects(s, width, height, uploadLimitReached), HostRequestRender)
            == if uploadLimitReached then 1 else 0
  {
    var d := if uploadLimitReached then [HostRequestRender] else [];
    var e := if !s.idleActive && s.idleListeners != [] then [HostQueueIdleRunner] else [];
    CountMiddle(BeginEffects(s, width, height), d, e, HostRequestRender);
    if d != [] { CountSingleton(HostRequestRender, HostRequestRender); }
  }

  /** A frame queues the idle runner exactly when listeners wait and it is not
      queued yet. */
  lemma FrameRunnerCount(s: Root, width: int, height: int, uploadLimitReached: bool)
    ensures Count(FrameEffects(s, width, height, uploadLimitReached), HostQueueIdleRunner)
            == if !s.idleActive && s.idleListeners != [] then 1 else 0
  {
    var a := BeginEffects(s, width, height) + if uploadLimitReached then [HostRequestRender] else [];
    var e := if !s.idleActive && s.idleListeners != [] then [HostQueueIdleRunner] else [];
    assert FrameEffects(s, width, height, uploadLimitReached) == a + e + [];
    CountMiddle(a, e, [], HostQueueIdleRunner);
    if e != [] { CountSingleton(HostQueueIdleRunner, HostQueueIdleRunner); }
  }

  /** One frame clears the layout bit whatever the surface size; the content is
      laid out to the full surface exactly when a layout was pending and the
      surface is not empty; the host is asked for another frame exactly when the
      upload budget ran out, and then the render request is left set; the idle
      runner is queued exactly when listeners wait and it is not queued yet. */
  lemma FrameLayoutAndRequests(s: Root, width: int, height: int, now: int, uploadLimitReached: bool)
    ensures var r := OnDrawFrameLocked(s, width, height, now, uploadLimitReached);
            && !r.needLayout
            && (s.content.Some? ==>
                  Count(r.trace, Layout(s.content.value, 0, 0, width, height))
                  == Count(s.trace, Layout(s.content.value, 0, 0, width, height))
                     + (if s.needLayout && width != 0 && height != 0 then 1 else 0))
            && Count(r.trace, HostRequestRender)
                 == Count(s.trace, HostRequestRender) + (if uploadLimitReached then 1 else 0)
            && r.renderRequested == uploadLimitReached
            && Count(r.trace, HostQueueIdleRunner)
                 == Count(s.trace, HostQueueIdleRunner)
                    + (if !s.idleActive && s.idleListeners != [] then 1 else 0)
  {
    var f := FrameEffects(s, width, height, uploadLimitReached);
    if s.content.Some? {
      CountAppend(s.trace, f, Layout(s.content.value, 0, 0, width, height));
    }
    CountAppend(s.trace, f, HostRequestRender);
    CountAppend(s.trace, f, HostQueueIdleRunner);
    if s.content.Some? {
      FrameLayoutCount(s, width, height, uploadLimitReached);
    }
    FrameRequestCount(s, width, height, uploadLimitReached);
    FrameRunnerCount(s, width, height, uploadLimitReached);
  }

  /** A layout request on a consistent root with content is carried out by the
      next frame on a non-empty surface: the content is laid out exactly once
      more, and however many requests came before, the layout bit is then clear. */
  lemma RequestedLayoutIsDoneByNextFrame(s: Root, width: int, height: int, now: int, uploadLimitReached: bool)
    requires Consistent(s) && s.content.Some? && width != 0 && height != 0
    ensures var r := OnDrawFrameLocked(RequestLayoutContentPane(s), width, height, now, uploadLimitReached);
            && !r.needLayout
            && Count(r.trace, Layout(s.content.value, 0, 0, width, height))
               == Count(s.trace, Layout(s.content.value, 0, 0, width, height)) + 1
  {
    var lay := Layout(s.content.value, 0, 0, width, height);
    var m := RequestLayoutContentPane(s);
    var x := if !s.needLayout && !s.renderRequested then [HostRequestRender] else [];
    assert m.trace == s.trace + x;
    CountAppend(s.trace, x, lay);
    CountAbsent(x, lay);
    FrameLayoutAndRequests(m, width, height, now, uploadLimitReached);
  }

  /** Two animations registered in the same inter-frame window get the very same
      start time, the clock value of the frame that follows. */
  lemma AnimationsShareFrameTime(s: Root, a: AnimId, b: AnimId, width: int, height: int, now: int, uploadLimitReached: bool)
    ensures var r := OnDrawFrameLocked(RegisterLaunchedAnimation(RegisterLaunchedAnimation(s, a), b),
                                       width, height, now, uploadLimitReached);
            && a in r.startTime && b in r.startTime
            && r.startTime[a] == r.startTime[b] == now
            && r.animations == []
  {
    var s2 := RegisterLaunchedAnimation(RegisterLaunchedAnimation(s, a), b);
    assert a in s2.animations && b in s2.animations;
  }

  /** A view installed on a fresh root, followed by three render requests: the
      view is attached, the layout is pending and the host was asked for one
      frame. */
  lemma FreshContentThenRequests(v: ViewId, t0: int)
    ensures var s := RequestRenderTimes(SetContentPane(Constructed(), Some(v), t0), 3);
            && s.content == Some(v) && s.needLayout && s.renderRequested
            && s.trace == [Attach(v), HostRequestRender]
  {
    var s1 := SetContentPane(Constructed(), Some(v), t0);
    assert s1.trace == [Attach(v)] && s1.needLayout && !s1.renderRequested;
    RequestRenderCoalesces(s1, 3);
  }

  /** The scenario of a new content view followed by three render requests and one
      frame on a non-empty surface: the layout is done, nothing is left pending,
      the host was asked for exactly one frame, and the frame asks for no other. */
  lemma ContentThenFrame(v: ViewId, t0: int, width: int, height: int, now: int)
    requires width != 0 && height != 0
    ensures var s := RequestRenderTimes(SetContentPane(Constructed(), Some(v), t0), 3);
            var r := OnDrawFrameLocked(s, width, height, now, false);
            && !r.needLayout && !r.renderRequested
            && Count(r.trace, Layout(v, 0, 0, width, height)) == 1
            && Count(r.trace, HostRequestRender) == 1
  {
    FreshContentThenRequests(v, t0);
    FrameAfterAttachAndRequest(RequestRenderTimes(SetContentPane(Constructed(), Some(v), t0), 3),
                               v, width, height, now);
  }

  /** The frame step of ContentThenFrame, for any root whose trace is one attach
      and one host request. */
  lemma FrameAfterAttachAndRequest(s: Root, v: ViewId, width: int, height: int, now: int)
    requires width != 0 && height != 0
    requires s.content == Some(v) && s.needLayout
    requires s.trace == [Attach(v)] + [HostRequestRender] + []
    ensures var r := OnDrawFrameLocked(s, width, height, now, false);
            && !r.needLayout && !r.renderRequested
            && Count(r.trace, Layout(v, 0, 0, width, height)) == 1
            && Count(r.trace, HostRequestRender) == 1
  {
    assert Count(s.trace, Layout(v, 0, 0, width, height)) == 0 by {
      CountAbsent(s.trace, Layout(v, 0, 0, width, height));
    }
    assert Count(s.trace, HostRequestRender) == 1 by {
      CountMiddle([Attach(v)], [HostRequestRender], [], HostRequestRender);
      CountSingleton(HostRequestRender, HostRequestRender);
    }
    FrameLayoutAndRequests(s, width, height, now, false);
  }

  // ---------------------------------------------------------------------------
  // Idle listeners

  /** `n` runs of the idle runner in which every served listener asks to stay. */
  function IdleRunsKeeping(s: Root, n: nat): (r: Root)
    decreases n
  {
    if n == 0 then s else IdleRunsKeeping(IdleRun(s, true), n - 1)
  }

  lemma {:induction false} ServedAppendOne(t: seq<Effect>, e: Effect)
    ensures Served(t + [e]) == Served(t) + (if e.OnIdle? then [e.listener] else [])
  {
    assert (t + [e])[..|t + [e]| - 1] == t;
  }

  /** One run in which the served listener asks to stay: the head listener is
      served and moves to the tail. */
  lemma IdleRunKeepServesHead(s: Root)
    requires s.idleListeners != []
    ensures IdleRun(s, true).idleListeners == s.idleListeners[1..] + [s.idleListeners[0]]
    ensures Served(IdleRun(s, true).trace) == Served(s.trace) + [s.idleListeners[0]]
  {
    var served := s.trace + [OnIdle(s.idleListeners[0], s.renderRequested)];
    ServedAppendOne(s.trace, OnIdle(s.idleListeners[0], s.renderRequested));
    if !s.renderRequested {
      ServedAppendOne(served, HostQueueIdleRunner);
    }
  }

  /** Moving the head of `l` to its tail and then rotating by `n - 1` is rotating
      `l` by `n`; serving the head and then the `n - 1` next is serving the first
      `n`. */
  lemma RotateOnce(l: seq<ListenerId>, n: nat, served: seq<ListenerId>)
    requires 1 <= n <= |l|
    ensures var m := l[1..] + [l[0]];
            && m[n - 1..] + m[..n - 1] == l[n..] + l[..n]
            && served + [l[0]] + m[..n - 1] == served + l[..n]
  {
    var m := l[1..] + [l[0]];
    assert m[n - 1..] == l[n..] + [l[0]];
    assert m[..n - 1] == l[1..n];
    assert l[..n] == [l[0]] + l[1..n];
  }

  /** Listeners that always ask to stay are served one per run, in FIFO order,
      each going back to the tail: after `n` runs the first `n` listeners have
      been served in order and have rotated to the back. */
  lemma {:induction false} IdleRoundRobin(s: Root, n: nat)
    requires n <= |s.idleListeners|
    ensures var r := IdleRunsKeeping(s, n);
            && r.idleListeners == s.idleListeners[n..] + s.idleListeners[..n]
            && Served(r.trace) == Served(s.trace) + s.idleListeners[..n]
    decreases n
  {
    if n > 0 {
      var s1 := IdleRun(s, true);
      IdleRunKeepServesHead(s);
      IdleRoundRobin(s1, n - 1);
      RotateOnce(s.idleListeners, n, Served(s.trace));
    }
  }

  /** A full round of |L| runs serves every listener once, in order, and leaves
      the queue as it was. */
  lemma FullRoundRestoresQueue(s: Root)
    ensures var r := IdleRunsKeeping(s, |s.idleListeners|);
            && r.idleListeners == s.idleListeners
            && Served(r.trace) == Served(s.trace) + s.idleListeners
  {
    IdleRoundRobin(s, |s.idleListeners|);
    assert s.idleListeners[|s.idleListeners|..] + s.idleListeners[..|s.idleListeners|] == s.idleListeners;
  }

  /** A listener that returns false is dropped and the runner is not re-armed,
      even when other listeners remain. */
  lemma DroppedListenerDoesNotRearm(s: Root)
    requires |s.idleListeners| >= 2
    ensures var r := IdleRun(s, false);
            && r.idleListeners == s.idleListeners[1..]
            && !r.idleActive
            && Count(r.trace, HostQueueIdleRunner) == Count(s.trace, HostQueueIdleRunner)
  {
    CountAppend(s.trace, [OnIdle(s.idleListeners[0], s.renderRequested)], HostQueueIdleRunner);
    assert Count([OnIdle(s.idleListeners[0], s.renderRequested)], HostQueueIdleRunner) == 0 by {
      assert [OnIdle(s.idleListeners[0], s.renderRequested)][..0] == [];
    }
  }

  /** When a run leaves listeners queued but does not re-arm the runner (its
      listener was dropped, or a frame is pending), the next frame, when it comes,
      queues the runner once. */
  lemma IdleResumesAfterNextFrame(s: Root, keep: bool, width: int, height: int, now: int, uploadLimitReached: bool)
    ensures var r := IdleRun(s, keep);
            var f := OnDrawFrameLocked(r, width, height, now, uploadLimitReached);
            && (r.idleListeners != [] ==> f.idleActive)
            && Count(f.trace, HostQueueIdleRunner)
               == Count(r.trace, HostQueueIdleRunner) + (if !r.idleActive && r.idleListeners != [] then 1 else 0)
  {
    FrameLayoutAndRequests(IdleRun(s, keep), width, height, now, uploadLimitReached);
  }

  // ---------------------------------------------------------------------------
  // Touch filter

  /** The events and the content's answers, delivered one after the other. */
  function DeliverAll(s: Root, events: seq<(MotionEvent, bool)>): (r: Root)
    decreases |events|
  {
    if events == [] then s
    else
      var last := events[|events| - 1];
      DispatchTouchEvent(DeliverAll(s, events[..|events| - 1]), last.0, last.1).0
  }

  /** Gesture integrity as the root enforces it: starting with no gesture, as
      long as the content handles no DOWN, no gesture starts and the only events
      that reach any view are DOWN, UP and CANCEL; every MOVE and every other
      action is dropped. */
  lemma {:induction false} NoGestureWithoutHandledDown(s: Root, events: seq<(MotionEvent, bool)>)
    requires !s.inDownState
    requires forall i :: 0 <= i < |events| && events[i].0.action == Down ==> !events[i].1
    ensures var r := DeliverAll(s, events);
            && !r.inDownState
            && |s.trace| <= |r.trace| && r.trace[..|s.trace|] == s.trace
            && forall k :: |s.trace| <= k < |r.trace| ==>
                 r.trace[k].Dispatch? && r.trace[k].event.action in {Down, Up, Cancel}
    decreases |events|
  {
    if events != [] {
      var prefix := events[..|events| - 1];
      var last := events[|events| - 1];
      NoGestureWithoutHandledDown(s, prefix);
      var m := DeliverAll(s, prefix);
      var r := DispatchTouchEvent(m, last.0, last.1).0;
      assert r == DeliverAll(s, events);
      assert last.0.action == Down ==> !last.1 by {
        assert last == events[|events| - 1];
      }
      assert r.trace[..|m.trace|] == m.trace;
      forall k | |s.trace| <= k < |r.trace|
        ensures r.trace[k].Dispatch? && r.trace[k].event.action in {Down, Up, Cancel}
      {
        if k < |m.trace| {
          assert r.trace[k] == m.trace[k];
        }
      }
    }
  }

  /** UP and CANCEL reach the content even when no gesture is in progress, and a
      DOWN reaches it even during a gesture. */
  lemma UpCancelAndDownAlwaysForwarded(s: Root, event: MotionEvent, contentHandles: bool)
    requires s.content.Some? && event.action in {Up, Cancel, Down}
    ensures DispatchTouchEvent(s, event, contentHandles).0.trace == s.trace + [Dispatch(s.content.value, event)]
    ensures DispatchTouchEvent(s, event, contentHandles).1 == contentHandles
  {
  }

  // ---------------------------------------------------------------------------
  // Every operation, and the host that drives them

  /** The operations of the root, including the two the host's render thread runs
      (a frame and a queued idle runner). */
  datatype Op =
    | SetContent(content: Option<ViewId>, now: int)
    | Request
    | RequestLayout
    | Register(animation: AnimId)
    | AddIdle(listener: ListenerId)
    | Touch(event: MotionEvent, contentHandles: bool)
    | Frame(width: int, height: int, now: int, uploadLimitReached: bool)
    | RunIdle(keep: bool)

  function Apply(s: Root, op: Op): (r: Root)
  {
    match op
    case SetContent(content, now) => SetContentPane(s, content, now)
    case Request => RequestRender(s)
    case RequestLayout => RequestLayoutContentPane(s)
    case Register(a) => RegisterLaunchedAnimation(s, a)
    case AddIdle(l) => AddOnGLIdleListener(s, l)
    case Touch(e, h) => DispatchTouchEvent(s, e, h).0
    case Frame(w, h, now, limit) => OnDrawFrameLocked(s, w, h, now, limit)
    case RunIdle(keep) => IdleRun(s, keep)
  }

  /** The root together with the number of idle runners the host has taken from
      its queue and run so far; the runners still waiting are those queued
      (HostQueueIdleRunner in the trace) minus those run. */
  datatype Host = Host(root: Root, runs: nat)

  function Pending(h: Host): (n: int)
  {
    Count(h.root.trace, HostQueueIdleRunner) - h.runs
  }

  /** The host runs an idle runner only when one is waiting. */
  function Step(h: Host, op: Op): (h': Host)
  {
    if op.RunIdle? && Pending(h) <= 0 then h
    else Host(Apply(h.root, op), h.runs + if op.RunIdle? then 1 else 0)
  }

  function Execute(ops: seq<Op>): (h: Host)
    decreases |ops|
  {
    if ops == [] then Host(Constructed(), 0)
    else Step(Execute(ops[..|ops| - 1]), ops[|ops| - 1])
  }

  /** The runner is waiting in the host queue exactly when mActive is set. */
  predicate HostInvariant(h: Host)
  {
    Consistent(h.root) && Pending(h) == (if h.root.idleActive then 1 else 0)
  }

  /** A dropped listener can stall the queue: when the served listener returns
      false with others waiting and no frame pending, nothing is left to wake the
      runner. The host holds no runner, no frame is requested, and every further
      run is refused until a frame, a render request or a new listener arrives. */
  lemma DroppedListenerStallsQueue(h: Host)
    requires HostInvariant(h) && h.root.idleActive
    requires |h.root.idleListeners| >= 2 && !h.root.renderRequested
    ensures var h1 := Step(h, RunIdle(false));
            && h1.root.idleListeners == h.root.idleListeners[1..]
            && !h1.root.renderRequested && !h1.root.idleActive
            && Pending(h1) == 0
            && forall k :: Step(h1, RunIdle(k)) == h1
  {
    StepRunIdle(h, false);
  }

  lemma CountAddedOne(t: seq<Effect>, e: Effect, x: Effect)
    ensures Count(t + [e], x) == Count(t, x) + (if e == x then 1 else 0)
  {
    assert (t + [e])[..|t + [e]| - 1] == t;
  }

  /** Appending entries other than the runner leaves the runner count alone. */
  lemma NoRunnerAdded(t: seq<Effect>, x: seq<Effect>)
    requires HostQueueIdleRunner !in x
    ensures Count(t + x, HostQueueIdleRunner) == Count(t, HostQueueIdleRunner)
  {
    CountAppend(t, x, HostQueueIdleRunner);
    CountAbsent(x, HostQueueIdleRunner);
  }

  /** setContentPane never queues the idle runner. */
  lemma SwapKeepsRunnerCount(s: Root, content: Option<ViewId>, now: int)
    ensures Count(SetContentPane(s, content, now).trace, HostQueueIdleRunner)
            == Count(s.trace, HostQueueIdleRunner)
  {
    var x := SwapEffects(s, content, now);
    assert HostQueueIdleRunner !in x by {
      if content != s.content {
        var outgoing := if s.content.Some? then DetachEffects(s.content.value, s.inDownState, now) else [];
        var incoming := if content.Some? then
                          [Attach(content.value)]
                          + (if s.initialized && !s.needLayout && !s.renderRequested then [HostRequestRender] else [])
                        else [];
        assert x == outgoing + incoming;
        assert HostQueueIdleRunner !in outgoing;
        assert HostQueueIdleRunner !in incoming;
      }
    }
    NoRunnerAdded(s.trace, x);
  }

  lemma StepSetContent(h: Host, content: Option<ViewId>, now: int)
    requires HostInvariant(h)
    ensures HostInvariant(Step(h, SetContent(content, now)))
  {
    var r := SetContentPane(h.root, content, now);
    assert Step(h, SetContent(content, now)) == Host(r, h.runs);
    SwapKeepsRunnerCount(h.root, content, now);
  }

  lemma StepRequest(h: Host)
    requires HostInvariant(h)
    ensures HostInvariant(Step(h, Request))
  {
    var s := h.root;
    assert Step(h, Request) == Host(RequestRender(s), h.runs);
    if !s.renderRequested {
      NoRunnerAdded(s.trace, [HostRequestRender]);
    }
  }

  lemma StepRequestLayout(h: Host)
    requires HostInvariant(h)
    ensures HostInvariant(Step(h, RequestLayout))
  {
    var s := h.root;
    assert Step(h, RequestLayout) == Host(RequestLayoutContentPane(s), h.runs);
    if s.content.Some? && !s.needLayout && !s.renderRequested {
      NoRunnerAdded(s.trace, [HostRequestRender]);
    }
  }

  lemma StepAddIdle(h: Host, l: ListenerId)
    requires HostInvariant(h)
    ensures HostInvariant(Step(h, AddIdle(l)))
  {
    if !h.root.idleActive {
      CountAddedOne(h.root.trace, HostQueueIdleRunner, HostQueueIdleRunner);
    }
  }

  lemma StepTouch(h: Host, e: MotionEvent, handles: bool)
    requires HostInvariant(h)
    ensures HostInvariant(Step(h, Touch(e, handles)))
  {
    var s := h.root;
    var r := DispatchTouchEvent(s, e, handles).0;
    assert Step(h, Touch(e, handles)) == Host(r, h.runs);
    var forwarded := e.action in {Down, Up, Cancel} || s.inDownState;
    var x := if forwarded && s.content.Some? then [Dispatch(s.content.value, e)] else [];
    assert r.trace == s.trace + x;
    NoRunnerAdded(s.trace, x);
  }

  lemma StepFrame(h: Host, width: int, height: int, now: int, uploadLimitReached: bool)
    requires HostInvariant(h)
    ensures HostInvariant(Step(h, Frame(width, height, now, uploadLimitReached)))
  {
    FrameLayoutAndRequests(h.root, width, height, now, uploadLimitReached);
  }

  lemma StepRunIdle(h: Host, keep: bool)
    requires HostInvariant(h)
    ensures HostInvariant(Step(h, RunIdle(keep)))
  {
    var s := h.root;
    if Pending(h) > 0 && s.idleListeners != [] {
      var served := s.trace + [OnIdle(s.idleListeners[0], s.renderRequested)];
      CountAddedOne(s.trace, OnIdle(s.idleListeners[0], s.renderRequested), HostQueueIdleRunner);
      if keep && !s.renderRequested {
        CountAddedOne(served, HostQueueIdleRunner, HostQueueIdleRunner);
      }
    }
  }

  /** Every operation, run the way the host runs it, keeps the host invariant. */
  lemma StepPreservesInvariant(h: Host, op: Op)
    requires HostInvariant(h)
    ensures HostInvariant(Step(h, op))
  {
    match op
    case SetContent(content, now) => StepSetContent(h, content, now);
    case Request => StepRequest(h);
    case RequestLayout => StepRequestLayout(h);
    case Register(a) =>
    case AddIdle(l) => StepAddIdle(h, l);
    case Touch(e, handles) => StepTouch(h, e, handles);
    case Frame(w, hh, now, limit) => StepFrame(h, w, hh, now, limit);
    case RunIdle(keep) => StepRunIdle(h, keep);
  }

  /** In every run of the root from its construction, at most one idle runner is
      waiting in the host's queue, and one is waiting exactly when mActive says
      so. */
  lemma {:induction false} AtMostOneIdleRunnerQueued(ops: seq<Op>)
    ensures HostInvariant(Execute(ops))
    ensures 0 <= Pending(Execute(ops)) <= 1
    decreases |ops|
  {
    if ops == [] {
      assert Count([], HostQueueIdleRunner) == 0;
    } else {
      AtMostOneIdleRunnerQueued(ops[..|ops| - 1]);
      StepPreservesInvariant(Execute(ops[..|ops| - 1]), ops[|ops| - 1]);
    }
  }
}

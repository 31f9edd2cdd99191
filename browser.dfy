/** ohuac-examples/browser.rs: how a window resize travels from the
    compositor to the constellation, and from there to the script threads,
    the windows and the render backend. Pixel sizes are plain numbers; the
    floating-point values derived from them are kept as symbolic terms. */
module Browser {
  import opened Wrappers

  /** A scale factor (`f32` in the source), compared but never computed with. */
  datatype Scale = Scale(value: int)

  datatype Size2D = Size2D(width: nat, height: nat)
  datatype Point2D = Point2D(x: nat, y: nat)
  datatype Rect = Rect(origin: Point2D, size: Size2D)

  /** `page_zoom * hidpi_factor()`, kept as the product of its factors. */
  datatype DevicePixelRatio = Dppx(pageZoom: Scale, hidpiFactor: Scale)

  /** `window_rect.size.to_f32() / dppx`, kept as the quotient's operands. */
  datatype CssSize = InitialViewport(deviceSize: Size2D, dppx: DevicePixelRatio)

  datatype WindowSizeData = WindowSizeData(devicePixelRatio: DevicePixelRatio, initialViewport: CssSize)

  datatype WindowSizeType = Initial | Resize

  datatype PipelineId = PipelineId(index: nat)
  datatype BrowsingContextId = BrowsingContextId(index: nat)

  /** A top-level context's id wraps its browsing context's id, which
      `BrowsingContextId::from` unwraps. */
  datatype TopLevelBrowsingContextId = TopLevel(browsingContextId: BrowsingContextId)

  datatype CompositionPipeline = CompositionPipeline(id: PipelineId, topLevelBrowsingContextId: TopLevelBrowsingContextId)

  datatype ConstellationData = ConstellationData(
    topLevelBrowsingContextId: TopLevelBrowsingContextId,
    data: WindowSizeData,
    sizeType: WindowSizeType)

  /** What the compositor hands on: the window rectangle and frame size for
      the render backend, and the data for the constellation. */
  datatype WindowSizeOutput = WindowSizeOutput(windowRect: Rect, frameSize: Size2D, constellation: ConstellationData)

  /** What the host window reports when asked. */
  datatype HostWindow = HostWindow(hidpiFactor: Scale, windowRect: Rect, framebufferSize: Size2D)

  class IOCompositor {
    var rootPipeline: Option<CompositionPipeline>
    var pageZoom: Scale
    var scaleFactor: Scale
    var frameSize: Size2D
    var windowRect: Rect

    constructor (rootPipeline: Option<CompositionPipeline>, pageZoom: Scale, scaleFactor: Scale,
                 frameSize: Size2D, windowRect: Rect)
      ensures this.rootPipeline == rootPipeline && this.pageZoom == pageZoom
      ensures this.scaleFactor == scaleFactor && this.frameSize == frameSize && this.windowRect == windowRect
    {
      this.rootPipeline := rootPipeline;
      this.pageZoom := pageZoom;
      this.scaleFactor := scaleFactor;
      this.frameSize := frameSize;
      this.windowRect := windowRect;
    }

    /** `set_window_size` (`&self`): the data for the render backend and the
        constellation, or nothing without a root pipeline. `hidpiFactor` is
        the compositor's `hidpi_factor()`, which is not part of this model. */
    function SetWindowSize(sizeType: WindowSizeType, hidpiFactor: Scale): (r: Option<WindowSizeOutput>)
      reads this
      ensures r.None? <==> rootPipeline.None?
      ensures r.Some? ==>
        && r.value.windowRect == windowRect
        && r.value.frameSize == frameSize
        && r.value.constellation.topLevelBrowsingContextId == rootPipeline.value.topLevelBrowsingContextId
        && r.value.constellation.sizeType == sizeType
        && r.value.constellation.data.devicePixelRatio == Dppx(pageZoom, hidpiFactor)
        && r.value.constellation.data.initialViewport == InitialViewport(windowRect.size, Dppx(pageZoom, hidpiFactor))
    {
      var dppx := Dppx(pageZoom, hidpiFactor);
      var data := WindowSizeData(dppx, InitialViewport(windowRect.size, dppx));
      match rootPipeline
      case None => None
      case Some(pipeline) =>
        Some(WindowSizeOutput(windowRect, frameSize,
          ConstellationData(pipeline.topLevelBrowsingContextId, data, sizeType)))
    }

    /** Nothing is propagated when the host reports the stored geometry. */
    predicate UpToDate(host: HostWindow)
      reads this
    {
      windowRect == host.windowRect && frameSize == host.framebufferSize
    }

    /** `on_resize_window_event`: the scale factor follows the host's
        (before the de-duplication check); a resize that changes neither the
        window rectangle nor the framebuffer size produces nothing; otherwise
        the geometry is recorded (the frame size from the argument, not from
        the host) and `set_window_size(Resize)` is produced. The compositor's
        `hidpi_factor()` is taken to be its updated scale factor. */
    method OnResizeWindowEvent(newSize: Size2D, host: HostWindow) returns (r: Option<WindowSizeOutput>)
      modifies this
      ensures scaleFactor == host.hidpiFactor
      ensures rootPipeline == old(rootPipeline) && pageZoom == old(pageZoom)
      ensures old(UpToDate(host)) ==> r.None? && frameSize == old(frameSize) && windowRect == old(windowRect)
      ensures !old(UpToDate(host)) ==>
        && frameSize == newSize
        && windowRect == host.windowRect
        && r == SetWindowSize(Resize, host.hidpiFactor)
    {
      var newScaleFactor := host.hidpiFactor;
      if scaleFactor != newScaleFactor {
        scaleFactor := newScaleFactor;
      }
      var newWindowRect := host.windowRect;
      var newFrameSize := host.framebufferSize;
      if windowRect == newWindowRect && frameSize == newFrameSize {
        return None;
      }
      frameSize := newSize;
      windowRect := newWindowRect;
      r := SetWindowSize(Resize, scaleFactor);
    }
  }

  datatype Pipeline = Pipeline(id: PipelineId, browsingContextId: BrowsingContextId)

  datatype SessionHistoryEntry = SessionHistoryEntry(pipelineId: Option<PipelineId>)

  datatype BrowsingContext = BrowsingContext(
    pipelineId: PipelineId,
    prev: seq<SessionHistoryEntry>,
    next: seq<SessionHistoryEntry>,
    size: Option<CssSize>)

  /** A navigation whose document is still loading. */
  datatype SessionHistoryChange = SessionHistoryChange(browsingContextId: BrowsingContextId, newPipelineId: PipelineId)

  /** The three outputs of a resize: the active pipeline, the inactive
      history pipelines and the pending pipelines. */
  datatype ResizeTargets = ResizeTargets(active: Option<Pipeline>, inactive: Option<seq<Pipeline>>, pending: seq<Pipeline>)

  /** The still-open pipelines of the pending changes that belong to `ctx`
      (by the pipeline's own context id), in the order of the changes. */
  function PendingPipelines(pipelines: map<PipelineId, Pipeline>, changes: seq<SessionHistoryChange>,
                            ctx: BrowsingContextId): seq<Pipeline>
  {
    if changes == [] then []
    else
      var pid := changes[|changes| - 1].newPipelineId;
      PendingPipelines(pipelines, changes[..|changes| - 1], ctx)
        + (if pid in pipelines && pipelines[pid].browsingContextId == ctx then [pipelines[pid]] else [])
  }

  /** `prev.chain(next).filter_map(..).filter_map(..)`: the entries that
      name a pipeline that still exists, resolved, in order. */
  function InactivePipelines(pipelines: map<PipelineId, Pipeline>, entries: seq<SessionHistoryEntry>): seq<Pipeline>
  {
    if entries == [] then []
    else
      var e := entries[|entries| - 1];
      InactivePipelines(pipelines, entries[..|entries| - 1])
        + (if e.pipelineId.Some? && e.pipelineId.value in pipelines then [pipelines[e.pipelineId.value]] else [])
  }

  /** The result of `resize_browsing_context` on the given tables: `None`
      when the context's active pipeline is closed. */
  function ResizeOutcome(pipelines: map<PipelineId, Pipeline>, contexts: map<BrowsingContextId, BrowsingContext>,
                         changes: seq<SessionHistoryChange>, ctx: BrowsingContextId): Option<ResizeTargets>
  {
    var pending := PendingPipelines(pipelines, changes, ctx);
    if ctx !in contexts then Some(ResizeTargets(None, None, pending))
    else
      var bc := contexts[ctx];
      if bc.pipelineId !in pipelines then None
      else Some(ResizeTargets(Some(pipelines[bc.pipelineId]),
                              Some(InactivePipelines(pipelines, bc.prev + bc.next)), pending))
  }

  /** Shorthand: `pipelines[pid]` is an open pipeline of context `ctx`. */
  predicate OpenIn(pipelines: map<PipelineId, Pipeline>, pid: PipelineId, ctx: BrowsingContextId)
  {
    pid in pipelines && pipelines[pid].browsingContextId == ctx
  }

  /** A pipeline is pending exactly when some pending change opened it, it
      is still open, and it belongs to the context. */
  lemma {:induction false} PendingMembership(pipelines: map<PipelineId, Pipeline>, changes: seq<SessionHistoryChange>,
                                             ctx: BrowsingContextId, p: Pipeline)
    ensures p in PendingPipelines(pipelines, changes, ctx) <==>
      exists k :: 0 <= k < |changes| && OpenIn(pipelines, changes[k].newPipelineId, ctx)
                  && pipelines[changes[k].newPipelineId] == p
  {
    if changes != [] {
      var init := changes[..|changes| - 1];
      PendingMembership(pipelines, init, ctx, p);
      assert forall k :: 0 <= k < |init| ==> init[k] == changes[k];
    }
  }

  /** The pending list keeps the order of the changes. */
  lemma {:induction false} PendingConcat(pipelines: map<PipelineId, Pipeline>, c1: seq<SessionHistoryChange>,
                                         c2: seq<SessionHistoryChange>, ctx: BrowsingContextId)
    ensures PendingPipelines(pipelines, c1 + c2, ctx) ==
      PendingPipelines(pipelines, c1, ctx) + PendingPipelines(pipelines, c2, ctx)
  {
    if c2 == [] {
      assert c1 + c2 == c1;
    } else {
      var init := c2[..|c2| - 1];
      assert (c1 + c2)[..|c1 + c2| - 1] == c1 + init;
      PendingConcat(pipelines, c1, init, ctx);
    }
  }

  /** An inactive pipeline is one that a history entry names and that is
      still open. */
  lemma {:induction false} InactiveMembership(pipelines: map<PipelineId, Pipeline>, entries: seq<SessionHistoryEntry>, p: Pipeline)
    ensures p in InactivePipelines(pipelines, entries) <==>
      exists k :: 0 <= k < |entries| && entries[k].pipelineId.Some? && entries[k].pipelineId.value in pipelines
                  && pipelines[entries[k].pipelineId.value] == p
  {
    if entries != [] {
      var init := entries[..|entries| - 1];
      InactiveMembership(pipelines, init, p);
      assert forall k :: 0 <= k < |init| ==> init[k] == entries[k];
    }
  }

  /** `prev` comes before `next`, each in its own order. */
  lemma {:induction false} InactiveConcat(pipelines: map<PipelineId, Pipeline>, prev: seq<SessionHistoryEntry>,
                                          next: seq<SessionHistoryEntry>)
    ensures InactivePipelines(pipelines, prev + next) ==
      InactivePipelines(pipelines, prev) + InactivePipelines(pipelines, next)
  {
    if next == [] {
      assert prev + next == prev;
    } else {
      var init := next[..|next| - 1];
      assert (prev + next)[..|prev + next| - 1] == prev + init;
      InactiveConcat(pipelines, prev, init);
    }
  }

  /** The call is aborted exactly when the context exists and its active
      pipeline is closed; closed pending or history pipelines never abort it. */
  lemma ResizeAbortsIff(pipelines: map<PipelineId, Pipeline>, contexts: map<BrowsingContextId, BrowsingContext>,
                        changes: seq<SessionHistoryChange>, ctx: BrowsingContextId)
    ensures ResizeOutcome(pipelines, contexts, changes, ctx).None? <==>
      ctx in contexts && contexts[ctx].pipelineId !in pipelines
    ensures ctx !in contexts ==>
      ResizeOutcome(pipelines, contexts, changes, ctx) == Some(ResizeTargets(None, None, PendingPipelines(pipelines, changes, ctx)))
  {
  }

  /** Every pipeline a resize is dispatched to is open, and every pending
      one belongs to the resized context. */
  lemma NoDanglingDispatch(pipelines: map<PipelineId, Pipeline>, contexts: map<BrowsingContextId, BrowsingContext>,
                           changes: seq<SessionHistoryChange>, ctx: BrowsingContextId, p: Pipeline)
    requires ResizeOutcome(pipelines, contexts, changes, ctx).Some?
    ensures var t := ResizeOutcome(pipelines, contexts, changes, ctx).value;
      && (t.active.Some? ==> t.active.value in pipelines.Values)
      && (t.inactive.Some? && p in t.inactive.value ==> p in pipelines.Values)
      && (p in t.pending ==> p in pipelines.Values && p.browsingContextId == ctx)
  {
    var t := ResizeOutcome(pipelines, contexts, changes, ctx).value;
    if t.active.Some? {
      assert pipelines[contexts[ctx].pipelineId] == t.active.value;
    }
    if t.inactive.Some? && p in t.inactive.value {
      var bc := contexts[ctx];
      InactiveMembership(pipelines, bc.prev + bc.next, p);
      var k :| 0 <= k < |bc.prev + bc.next| && (bc.prev + bc.next)[k].pipelineId.Some?
        && (bc.prev + bc.next)[k].pipelineId.value in pipelines
        && pipelines[(bc.prev + bc.next)[k].pipelineId.value] == p;
    }
    if p in t.pending {
      PendingMembership(pipelines, changes, ctx, p);
    }
  }

  class Constellation {
    var windowSize: WindowSizeData
    var pipelines: map<PipelineId, Pipeline>
    var browsingContexts: map<BrowsingContextId, BrowsingContext>
    var pendingChanges: seq<SessionHistoryChange>

    constructor (windowSize: WindowSizeData, pipelines: map<PipelineId, Pipeline>,
                 browsingContexts: map<BrowsingContextId, BrowsingContext>, pendingChanges: seq<SessionHistoryChange>)
      ensures this.windowSize == windowSize && this.pipelines == pipelines
      ensures this.browsingContexts == browsingContexts && this.pendingChanges == pendingChanges
    {
      this.windowSize := windowSize;
      this.pipelines := pipelines;
      this.browsingContexts := browsingContexts;
      this.pendingChanges := pendingChanges;
    }

    /** `resize_browsing_context`: records the new viewport on the context
        (if it exists) and nowhere else, then collects the pipelines to
        notify. */
    method ResizeBrowsingContext(newSize: WindowSizeData, sizeType: WindowSizeType, ctx: BrowsingContextId)
      returns (r: Option<ResizeTargets>)
      modifies this
      ensures windowSize == old(windowSize) && pipelines == old(pipelines) && pendingChanges == old(pendingChanges)
      ensures browsingContexts ==
        if ctx in old(browsingContexts)
        then old(browsingContexts)[ctx := old(browsingContexts)[ctx].(size := Some(newSize.initialViewport))]
        else old(browsingContexts)
      ensures r == ResizeOutcome(pipelines, old(browsingContexts), pendingChanges, ctx)
    {
      if ctx in browsingContexts {
        browsingContexts := browsingContexts[ctx := browsingContexts[ctx].(size := Some(newSize.initialViewport))];
      }
      var futurePipelines: seq<Pipeline> := [];
      var i: nat := 0;
      while i < |pendingChanges|
        invariant i <= |pendingChanges|
        invariant futurePipelines == PendingPipelines(pipelines, pendingChanges[..i], ctx)
      {
        var pipelineId := pendingChanges[i].newPipelineId;
        assert pendingChanges[..i + 1][..i] == pendingChanges[..i];
        if pipelineId in pipelines {
          var pipeline := pipelines[pipelineId];
          if pipeline.browsingContextId == ctx {
            futurePipelines := futurePipelines + [pipeline];
          }
        }
        i := i + 1;
      }
      assert pendingChanges[..i] == pendingChanges;
      if ctx in browsingContexts {
        var browsingContext := browsingContexts[ctx];
        if browsingContext.pipelineId !in pipelines {
          return None;
        }
        var pipeline := pipelines[browsingContext.pipelineId];
        var inactive := InactivePipelines(pipelines, browsingContext.prev + browsingContext.next);
        return Some(ResizeTargets(Some(pipeline), Some(inactive), futurePipelines));
      }
      return Some(ResizeTargets(None, None, futurePipelines));
    }

    /** `handle_window_size_msg`: stores the new window size and resizes the
        top-level context. The source drops the resize result; the model
        returns it, as the declared result type intends. */
    method HandleWindowSizeMsg(topLevel: TopLevelBrowsingContextId, newSize: WindowSizeData, sizeType: WindowSizeType)
      returns (r: Option<ResizeTargets>)
      modifies this
      ensures windowSize == newSize
      ensures pipelines == old(pipelines) && pendingChanges == old(pendingChanges)
      ensures var ctx := topLevel.browsingContextId;
        && browsingContexts ==
          (if ctx in old(browsingContexts)
           then old(browsingContexts)[ctx := old(browsingContexts)[ctx].(size := Some(newSize.initialViewport))]
           else old(browsingContexts))
        && r == ResizeOutcome(pipelines, old(browsingContexts), pendingChanges, ctx)
    {
      windowSize := newSize;
      var browsingContextId := topLevel.browsingContextId;
      r := ResizeBrowsingContext(newSize, sizeType, browsingContextId);
    }
  }

  class RenderBackend {
    var windowSize: Size2D
    var innerRect: Rect

    constructor (windowSize: Size2D, innerRect: Rect)
      ensures this.windowSize == windowSize && this.innerRect == innerRect
    {
      this.windowSize := windowSize;
      this.innerRect := innerRect;
    }

    /** `set_window_parameters`: both fields are overwritten. */
    method SetWindowParameters(windowSize: Size2D, innerRect: Rect)
      modifies this
      ensures this.windowSize == windowSize && this.innerRect == innerRect
    {
      this.windowSize := windowSize;
      this.innerRect := innerRect;
    }
  }

  /** A `Window` of the script thread; its cells are set through `&self`. */
  class Window {
    var windowSize: Option<WindowSizeData>
    var resizeEvent: Option<(WindowSizeData, WindowSizeType)>

    constructor ()
      ensures windowSize.None? && resizeEvent.None?
    {
      windowSize := None;
      resizeEvent := None;
    }

    /** `set_window_size`: overwrites its cell, so repeating it changes nothing. */
    method SetWindowSize(size: WindowSizeData)
      modifies this
      ensures windowSize == Some(size) && resizeEvent == old(resizeEvent)
    {
      windowSize := Some(size);
    }

    /** `set_resize_event`: overwrites its cell; the last event wins. */
    method SetResizeEvent(event: WindowSizeData, eventType: WindowSizeType)
      modifies this
      ensures resizeEvent == Some((event, eventType)) && windowSize == old(windowSize)
    {
      resizeEvent := Some((event, eventType));
    }
  }

  /** A document still waiting for its network response. */
  datatype InProgressLoad = InProgressLoad(pipelineId: PipelineId, windowSize: Option<WindowSizeData>)

  /** The index of the first load of pipeline `id`, if any. */
  function FirstLoadIndex(loads: seq<InProgressLoad>, id: PipelineId): (r: Option<nat>)
    ensures r.Some? ==> r.value < |loads| && loads[r.value].pipelineId == id
    ensures r.Some? ==> forall j :: 0 <= j < r.value ==> loads[j].pipelineId != id
    ensures r.None? ==> forall j :: 0 <= j < |loads| ==> loads[j].pipelineId != id
  {
    if loads == [] then None
    else if loads[0].pipelineId == id then Some(0)
    else match FirstLoadIndex(loads[1..], id)
      case None => None
      case Some(k) => Some(k + 1)
  }

  /** The loads after buffering `size` on the first load of `id`. */
  function BufferOnFirstLoad(loads: seq<InProgressLoad>, id: PipelineId, size: WindowSizeData): seq<InProgressLoad>
  {
    match FirstLoadIndex(loads, id)
    case None => loads
    case Some(k) => loads[k := loads[k].(windowSize := Some(size))]
  }

  /** Only the first load of `id` changes, and only its size; the list keeps
      its length and its pipeline ids. */
  lemma BufferOnFirstLoadSpec(loads: seq<InProgressLoad>, id: PipelineId, size: WindowSizeData)
    ensures var r := BufferOnFirstLoad(loads, id, size);
      && |r| == |loads|
      && (forall j :: 0 <= j < |r| ==> r[j].pipelineId == loads[j].pipelineId)
      && (forall j :: 0 <= j < |r| && loads[j].pipelineId != id ==> r[j] == loads[j])
      && (forall j :: 0 <= j < |r| && loads[j].pipelineId == id ==>
            r[j].windowSize == (if Some(j) == FirstLoadIndex(loads, id) then Some(size) else loads[j].windowSize))
  {
  }

  /** Buffering twice keeps only the later size; buffering the same size
      twice is the same as once. */
  lemma BufferLastWins(loads: seq<InProgressLoad>, id: PipelineId, s1: WindowSizeData, s2: WindowSizeData)
    ensures BufferOnFirstLoad(BufferOnFirstLoad(loads, id, s1), id, s2) == BufferOnFirstLoad(loads, id, s2)
    ensures BufferOnFirstLoad(BufferOnFirstLoad(loads, id, s1), id, s1) == BufferOnFirstLoad(loads, id, s1)
  {
    SameIdsSameFirstLoad(loads, BufferOnFirstLoad(loads, id, s1), id);
  }

  /** The first load of `id` depends only on the pipeline ids. */
  lemma {:induction false} SameIdsSameFirstLoad(a: seq<InProgressLoad>, b: seq<InProgressLoad>, id: PipelineId)
    requires |a| == |b| && forall j :: 0 <= j < |a| ==> a[j].pipelineId == b[j].pipelineId
    ensures FirstLoadIndex(a, id) == FirstLoadIndex(b, id)
  {
    if a != [] {
      SameIdsSameFirstLoad(a[1..], b[1..], id);
    }
  }

  class ScriptThread {
    var documents: map<PipelineId, Window>
    var incompleteLoads: seq<InProgressLoad>

    constructor (documents: map<PipelineId, Window>, incompleteLoads: seq<InProgressLoad>)
      ensures this.documents == documents && this.incompleteLoads == incompleteLoads
    {
      this.documents := documents;
      this.incompleteLoads := incompleteLoads;
    }

    /** `handle_resize`: a live window gets the resize event; otherwise the
        size is buffered on the first incomplete load of the pipeline;
        otherwise nothing changes. */
    method HandleResize(id: PipelineId, size: WindowSizeData, sizeType: WindowSizeType)
      modifies this, if id in documents then {documents[id]} else {}
      ensures documents == old(documents)
      ensures id in documents ==>
        && documents[id].resizeEvent == Some((size, sizeType))
        && documents[id].windowSize == old(documents[id].windowSize)
        && incompleteLoads == old(incompleteLoads)
      ensures id !in documents ==> incompleteLoads == BufferOnFirstLoad(old(incompleteLoads), id, size)
    {
      if id in documents {
        var window := documents[id];
        window.SetResizeEvent(size, sizeType);
        return;
      }
      var k: nat := 0;
      while k < |incompleteLoads| && incompleteLoads[k].pipelineId != id
        invariant k <= |incompleteLoads|
        invariant forall j :: 0 <= j < k ==> incompleteLoads[j].pipelineId != id
      {
        k := k + 1;
      }
      if k < |incompleteLoads| {
        assert FirstLoadIndex(incompleteLoads, id) == Some(k);
        incompleteLoads := incompleteLoads[k := incompleteLoads[k].(windowSize := Some(size))];
        return;
      }
      assert FirstLoadIndex(incompleteLoads, id).None?;
    }

    /** `handle_resize_inactive_msg`: the window must exist (the source
        panics otherwise); only its window size is set. */
    method HandleResizeInactiveMsg(id: PipelineId, newSize: WindowSizeData)
      requires id in documents
      modifies documents[id]
      ensures documents[id].windowSize == Some(newSize)
      ensures documents[id].resizeEvent == old(documents[id].resizeEvent)
    {
      var window := documents[id];
      window.SetWindowSize(newSize);
    }
  }
}

/** Frame ownership between the capture callback, the stream worker and the main loop of ai-demo:
    on_new_frame and stream_process (ai-demo/device/video_stream.c), app_update_device_stream and
    on_app_idle (ai-demo/device/app.c).

    Steps are the actions between two scheduling points; cond_mutex is explicit, and each addref or
    unref is one step because frame_mutex is held around it. The worker keeps cond_mutex from the end of
    its wait to its next wait. Assumed: one capture thread, the worker is waiting when capture starts, a
    wait only ends by a signal or broadcast, and pthread calls do not fail. */
module DeviceStream {
  import opened Text

  type Image = seq<int>

  datatype Owner = Free | Capture | Worker

  datatype CapturePc = CapIdle | CapAllocated(id: nat) | CapSignalling | CapUnlocking

  datatype WorkerPc =
    | WkWaiting | WkWoken | WkResumed      // pthread_cond_wait
    | WkRequest(id: nat)                   // ai_request and draw_frame
    | WkUpdate(id: nat)                    // before on_update_frame
    | WkQueueing(id: nat)                  // reference added, idle record not yet queued
    | WkRelease(id: nat)                   // before device_stream_unref_frame
    | WkClear | WkLooping | WkExited

  datatype UiPc = UiIdle | UiUsing(id: nat)

  /** The video source: at the end of its stream a restart is queued, and it may end for good. */
  datatype Source = Playing | RestartQueued | Ended

  /** Frames are numbered in allocation order; `refs[id] == 0` once the frame is freed. */
  datatype Frames = Frames(images: seq<Image>, refs: seq<int>, freed: seq<nat>)

  datatype Log = Log(published: seq<nat>, processed: seq<nat>, shown: seq<(nat, Image)>)

  datatype State = State(
    running: bool, busy: bool, mutex: Owner, stopSignalled: bool,
    cap: CapturePc, wk: WorkerPc, ui: UiPc,
    slot: nat, pending: bool,             // stream->frame, and whether the worker has yet to take it
    source: Source,
    frames: Frames,
    idles: seq<(nat, Image)>,             // queued idle records with the image they were queued for
    log: Log,
    lostSignals: nat)

  datatype Step =
    | CapCheck(image: Image) | CapLock | CapSignal | CapUnlock
    | WkAcquire | WkTake | WkAnswer(ok: bool, drawn: Option<Image>)
    | WkAddRef | WkQueue | WkUnref | WkClearBusy | WkLoop
    | UiDispatch | UiRelease
    | EndOfStream | Restart | CaptureEnds | Stop | Broadcast

  predicate Enabled(s: State, e: Step) {
    match e
    case CapCheck(_) => s.cap.CapIdle? && s.source.Playing?
    case CapLock => s.cap.CapAllocated? && s.mutex.Free?
    case CapSignal => s.cap.CapSignalling?
    case CapUnlock => s.cap.CapUnlocking?
    case WkAcquire => s.wk.WkWoken? && s.mutex.Free?
    case WkTake => s.wk.WkResumed?
    case WkAnswer(_, _) => s.wk.WkRequest? && s.wk.id < |s.frames.images|
    case WkAddRef => s.wk.WkUpdate? && s.wk.id < |s.frames.refs|
    case WkQueue => s.wk.WkQueueing? && s.wk.id < |s.frames.images|
    case WkUnref => s.wk.WkRelease? && s.wk.id < |s.frames.refs|
    case WkClearBusy => s.wk.WkClear?
    case WkLoop => s.wk.WkLooping?
    case UiDispatch => s.ui.UiIdle? && s.idles != [] && s.idles[0].0 < |s.frames.images|
    case UiRelease => s.ui.UiUsing? && s.ui.id < |s.frames.refs|
    case EndOfStream => s.source.Playing?
    case Restart => s.source.RestartQueued?
    case CaptureEnds => !s.source.Ended?
    case Stop => s.running
    case Broadcast => !s.running && s.mutex.Free? && !s.stopSignalled
  }

  /** video_frame_unref: nothing on a dead frame, free at zero. */
  function Unref(f: Frames, id: nat): Frames
    requires id < |f.refs|
  {
    if f.refs[id] <= 0 then f
    else if f.refs[id] == 1 then f.(refs := f.refs[id := 0], freed := f.freed + [id])
    else f.(refs := f.refs[id := f.refs[id] - 1])
  }

  /** video_frame_addref. */
  function AddRef(f: Frames, id: nat): Frames
    requires id < |f.refs|
  {
    if f.refs[id] <= 0 then f else f.(refs := f.refs[id := f.refs[id] + 1])
  }

  function Allocate(f: Frames, image: Image): Frames { f.(images := f.images + [image], refs := f.refs + [1]) }

  function Draw(f: Frames, id: nat, image: Image): Frames
    requires id < |f.images|
  {
    f.(images := f.images[id := image])
  }

  predicate ByCapture(e: Step) { e.CapCheck? || e.CapLock? || e.CapSignal? || e.CapUnlock? }

  predicate ByWorker(e: Step) {
    e.WkAcquire? || e.WkTake? || e.WkAnswer? || e.WkAddRef? || e.WkQueue? || e.WkUnref? || e.WkClearBusy? || e.WkLoop?
  }

  /** on_new_frame */
  function CaptureDo(s: State, e: Step): State
    requires Enabled(s, e) && ByCapture(e)
  {
    match e
    case CapCheck(image) =>
      if s.busy then s
      else s.(frames := Allocate(s.frames, image), cap := CapAllocated(|s.frames.images|))
    case CapLock =>
      s.(mutex := Capture, busy := true, slot := s.cap.id, pending := true,
         log := s.log.(published := s.log.published + [s.cap.id]), cap := CapSignalling)
    case CapSignal =>
      if s.wk.WkWaiting? then s.(wk := WkWoken, cap := CapUnlocking)
      else s.(lostSignals := s.lostSignals + 1, cap := CapUnlocking)
    case CapUnlock => s.(mutex := Free, cap := CapIdle)
  }

  /** stream_process and app_update_device_stream */
  function WorkerDo(s: State, e: Step): State
    requires Enabled(s, e) && ByWorker(e)
  {
    match e
    case WkAcquire => s.(mutex := Worker, wk := WkResumed)
    case WkTake =>
      if !s.running then s.(wk := WkExited)
      else s.(pending := false, log := s.log.(processed := s.log.processed + [s.slot]), wk := WkRequest(s.slot))
    case WkAnswer(ok, drawn) =>
      var drew := if ok && drawn.Some? then s.(frames := Draw(s.frames, s.wk.id, drawn.value)) else s;
      drew.(wk := if ok then WkUpdate(s.wk.id) else WkRelease(s.wk.id))
    case WkAddRef => s.(frames := AddRef(s.frames, s.wk.id), wk := WkQueueing(s.wk.id))
    case WkQueue => s.(idles := s.idles + [(s.wk.id, s.frames.images[s.wk.id])], wk := WkRelease(s.wk.id))
    case WkUnref => s.(frames := Unref(s.frames, s.wk.id), wk := WkClear)
    case WkClearBusy => s.(busy := false, wk := WkLooping)
    case WkLoop => if s.running then s.(mutex := Free, wk := WkWaiting) else s.(wk := WkExited)
  }

  /** on_app_idle, on_video_eos, restart_stream, the end of the video and device_stream_free */
  function OtherDo(s: State, e: Step): State
    requires Enabled(s, e) && !ByCapture(e) && !ByWorker(e)
  {
    match e
    case UiDispatch =>
      var id := s.idles[0].0;
      s.(idles := s.idles[1..], log := s.log.(shown := s.log.shown + [(id, s.frames.images[id])]), ui := UiUsing(id))
    case UiRelease => s.(frames := Unref(s.frames, s.ui.id), ui := UiIdle)
    case EndOfStream => s.(source := RestartQueued)
    case Restart => s.(source := Playing)
    case CaptureEnds => s.(source := Ended)
    case Stop => s.(running := false)
    case Broadcast => s.(stopSignalled := true, wk := if s.wk.WkWaiting? then WkWoken else s.wk)
  }

  function Do(s: State, e: Step): State
    requires Enabled(s, e)
  {
    if ByCapture(e) then CaptureDo(s, e) else if ByWorker(e) then WorkerDo(s, e) else OtherDo(s, e)
  }

  predicate Initial(s: State) {
    && s.running && s.source.Playing? && !s.busy && s.mutex.Free? && !s.stopSignalled
    && s.cap.CapIdle? && s.wk.WkWaiting? && s.ui.UiIdle? && !s.pending
    && s.frames.images == [] && s.frames.refs == [] && s.frames.freed == [] && s.idles == []
    && s.log.published == [] && s.log.processed == [] && s.log.shown == [] && s.lostSignals == 0
  }

  function One(b: bool): nat { if b then 1 else 0 }

  predicate WorkerOwns(s: State, id: nat) {
    match s.wk
    case WkRequest(w) => w == id
    case WkUpdate(w) => w == id
    case WkQueueing(w) => w == id
    case WkRelease(w) => w == id
    case _ => false
  }

  predicate InHand(s: State) {
    s.wk.WkRequest? || s.wk.WkUpdate? || s.wk.WkQueueing? || s.wk.WkRelease?
  }

  function Queued(idles: seq<(nat, Image)>, id: nat): nat {
    if idles == [] then 0 else One(idles[0].0 == id) + Queued(idles[1..], id)
  }

  /** Everyone who still has to release frame `id`. */
  function Holders(s: State, id: nat): nat {
    One(s.cap.CapAllocated? && s.cap.id == id) + One(s.pending && s.slot == id) + One(WorkerOwns(s, id))
    + One(s.wk.WkQueueing? && s.wk.id == id) + Queued(s.idles, id) + One(s.ui.UiUsing? && s.ui.id == id)
  }

  ghost predicate MutexInv(s: State) {
    && (s.mutex.Capture? <==> s.cap.CapSignalling? || s.cap.CapUnlocking?)
    && (s.mutex.Worker? <==> !s.wk.WkWaiting? && !s.wk.WkWoken?)
    && (s.stopSignalled ==> !s.running)
    && (s.wk.WkExited? ==> !s.running)
    && (s.stopSignalled ==> s.wk.WkWoken? || s.wk.WkResumed? || s.wk.WkExited?)
  }

  /** Where the current frame is, and that busy covers it from publication to release. */
  ghost predicate PhaseInv(s: State) {
    && |s.frames.images| == |s.frames.refs|
    && (s.cap.CapAllocated? ==> !s.busy)
    && (s.wk.WkLooping? ==> !s.busy)
    && (s.busy && s.wk.WkWaiting? ==> s.cap.CapSignalling?)
    && (!s.busy ==> !s.pending && !InHand(s) && !s.wk.WkClear?)
    && (s.cap.CapSignalling? ==> s.pending && s.busy && (s.running ==> s.wk.WkWaiting?))
    && (s.running ==> (s.wk.WkWoken? || s.wk.WkResumed? ==> s.pending))
    && (s.running && s.pending ==> s.cap.CapSignalling? || s.wk.WkWoken? || s.wk.WkResumed?)
    && (s.pending ==> !InHand(s) && !s.wk.WkClear?)
    && (s.running ==> s.lostSignals == 0)
    && (if s.pending then s.log.published == s.log.processed + [s.slot] else s.log.published == s.log.processed)
  }

  /** Frame numbers in use are allocated, and publication follows allocation order. */
  ghost predicate OrderInv(s: State) {
    && (s.cap.CapAllocated? ==> s.cap.id + 1 == |s.frames.images|)
    && (forall i :: 0 <= i < |s.log.published| ==> s.log.published[i] == i)
    && |s.log.published| + One(s.cap.CapAllocated?) == |s.frames.images|
  }

  /** Every reference is accounted for, and frames die exactly when nobody holds them. */
  ghost predicate RefInv(s: State) {
    && (forall id :: 0 <= id < |s.frames.refs| ==> s.frames.refs[id] == Holders(s, id))
    && (forall id :: id in s.frames.freed <==> 0 <= id < |s.frames.refs| && s.frames.refs[id] == 0)
    && (forall i, j :: 0 <= i < j < |s.frames.freed| ==> s.frames.freed[i] != s.frames.freed[j])
  }

  /** The worker may still draw on the frame it processes. */
  predicate StillDrawing(s: State) { s.wk.WkRequest? || s.wk.WkUpdate? || s.wk.WkQueueing? }

  /** Queued records, and the one being shown, concern the `finished` frames the worker no longer draws on. */
  ghost predicate Finished(finished: int, idles: seq<(nat, Image)>, images: seq<Image>, ui: UiPc) {
    && finished <= |images|
    && (forall i :: 0 <= i < |idles| ==> idles[i].0 < finished && images[idles[i].0] == idles[i].1)
    && (ui.UiUsing? ==> ui.id < finished)
  }

  ghost predicate IdleInv(s: State) {
    && |s.log.processed| <= |s.frames.images|
    && Finished(|s.log.processed| - One(StillDrawing(s)), s.idles, s.frames.images, s.ui)
    && (InHand(s) ==> s.log.processed != [] && WorkerOwns(s, |s.log.processed| - 1))
  }

  ghost predicate Inv(s: State) {
    MutexInv(s) && PhaseInv(s) && OrderInv(s) && RefInv(s) && IdleInv(s)
  }

  lemma InitInv(s: State)
    requires Initial(s)
    ensures Inv(s)
  {
  }

  /** Counting a reference changes nothing but the counts. */
  lemma CountsOnly(f: Frames, id: nat)
    requires id < |f.refs|
    ensures Unref(f, id).images == AddRef(f, id).images == f.images
    ensures |Unref(f, id).refs| == |AddRef(f, id).refs| == |f.refs|
  {
  }

  /** The frame whose count a step changes, if it changes one. */
  function Counted(s: State, e: Step): nat {
    if e.WkAddRef? && s.wk.WkUpdate? then s.wk.id
    else if e.WkUnref? && s.wk.WkRelease? then s.wk.id
    else if e.UiRelease? && s.ui.UiUsing? then s.ui.id
    else 0
  }

  lemma MutexPreserved(s: State, e: Step)
    requires Inv(s) && Enabled(s, e)
    ensures MutexInv(Do(s, e))
  {
    hide RefInv, IdleInv, OrderInv, Unref, AddRef;
    if Counted(s, e) < |s.frames.refs| { CountsOnly(s.frames, Counted(s, e)); }
  }

  lemma PhaseKeptByCapture(s: State, e: Step)
    requires MutexInv(s) && PhaseInv(s) && Enabled(s, e) && ByCapture(e)
    ensures PhaseInv(CaptureDo(s, e))
  {
  }

  lemma PhaseKeptByWorker(s: State, e: Step)
    requires MutexInv(s) && PhaseInv(s) && Enabled(s, e) && ByWorker(e)
    ensures PhaseInv(WorkerDo(s, e))
  {
    hide Unref, AddRef;
    if Counted(s, e) < |s.frames.refs| { CountsOnly(s.frames, Counted(s, e)); }
  }

  lemma PhasePreserved(s: State, e: Step)
    requires Inv(s) && Enabled(s, e)
    ensures PhaseInv(Do(s, e))
  {
    hide RefInv, IdleInv, OrderInv, Unref, AddRef, CaptureDo, WorkerDo;
    if ByCapture(e) {
      PhaseKeptByCapture(s, e);
    } else if ByWorker(e) {
      PhaseKeptByWorker(s, e);
    } else if Counted(s, e) < |s.frames.refs| {
      CountsOnly(s.frames, Counted(s, e));
    }
  }

  lemma OrderKeptByCapture(s: State, e: Step)
    requires PhaseInv(s) && OrderInv(s) && Enabled(s, e) && ByCapture(e)
    ensures OrderInv(CaptureDo(s, e))
  {
  }

  lemma OrderKeptByWorker(s: State, e: Step)
    requires PhaseInv(s) && OrderInv(s) && Enabled(s, e) && ByWorker(e)
    ensures OrderInv(WorkerDo(s, e))
  {
    hide Unref, AddRef, PhaseInv;
    if Counted(s, e) < |s.frames.refs| { CountsOnly(s.frames, Counted(s, e)); }
    OrderFollows(s, WorkerDo(s, e));
  }

  lemma OrderFollows(s: State, t: State)
    requires OrderInv(s) && t.cap == s.cap && t.log.published == s.log.published
    requires |t.frames.images| == |s.frames.images|
    ensures OrderInv(t)
  {
  }

  lemma OrderPreserved(s: State, e: Step)
    requires Inv(s) && Enabled(s, e)
    ensures OrderInv(Do(s, e))
  {
    hide RefInv, IdleInv, MutexInv, Unref, AddRef, CaptureDo, WorkerDo;
    if ByCapture(e) {
      OrderKeptByCapture(s, e);
    } else if ByWorker(e) {
      OrderKeptByWorker(s, e);
    } else if Counted(s, e) < |s.frames.refs| {
      CountsOnly(s.frames, Counted(s, e));
    }
  }

  lemma QueuedAppend(a: seq<(nat, Image)>, last: (nat, Image), id: nat)
    ensures Queued(a + [last], id) == Queued(a, id) + One(last.0 == id)
  {
    if a != [] {
      assert (a + [last])[1..] == a[1..] + [last];
      QueuedAppend(a[1..], last, id);
    }
  }

  lemma QueuedMember(a: seq<(nat, Image)>, i: nat)
    requires i < |a|
    ensures Queued(a, a[i].0) >= 1
  {
    if i > 0 {
      QueuedMember(a[1..], i - 1);
    }
  }

  lemma QueuedNone(a: seq<(nat, Image)>, id: nat)
    requires forall i :: 0 <= i < |a| ==> a[i].0 != id
    ensures Queued(a, id) == 0
  {
  }

  lemma IdlePreservedByTake(s: State)
    requires Inv(s) && Enabled(s, WkTake)
    ensures IdleInv(Do(s, WkTake))
  {
    hide RefInv, MutexInv;
    assert s.running ==> s.log.published[|s.log.processed|] == s.slot == |s.log.processed|;
  }

  lemma IdlePreservedByAnswer(s: State, e: Step)
    requires Inv(s) && Enabled(s, e) && e.WkAnswer?
    ensures IdleInv(Do(s, e))
  {
    hide RefInv, MutexInv, OrderInv;
  }

  lemma IdlePreservedByLists(s: State, e: Step)
    requires Inv(s) && Enabled(s, e) && (e.WkQueue? || e.UiDispatch? || e.CapCheck?)
    ensures IdleInv(Do(s, e))
  {
    hide RefInv, MutexInv, OrderInv, PhaseInv;
  }

  predicate KeepsIdle(e: Step) { e.WkAcquire? || e.WkAddRef? || e.WkUnref? || e.WkClearBusy? || e.WkLoop? }

  lemma IdleKeptByWorker(s: State, e: Step)
    requires Inv(s) && Enabled(s, e) && KeepsIdle(e)
    ensures IdleInv(Do(s, e))
  {
    hide RefInv, MutexInv, OrderInv, PhaseInv, Unref, AddRef, Holders, Queued, Finished;
    if Counted(s, e) < |s.frames.refs| { CountsOnly(s.frames, Counted(s, e)); }
  }

  lemma IdleKeptByCapture(s: State, e: Step)
    requires IdleInv(s) && Enabled(s, e) && ByCapture(e) && !e.CapCheck?
    ensures IdleInv(CaptureDo(s, e))
  {
    hide Finished;
  }

  lemma IdleKept(s: State, e: Step)
    requires IdleInv(s) && Enabled(s, e) && (e.EndOfStream? || e.Restart? || e.CaptureEnds? || e.Stop? || e.Broadcast?)
    ensures IdleInv(OtherDo(s, e))
  {
    hide Finished;
  }

  lemma IdleKeptByRelease(s: State)
    requires IdleInv(s) && Enabled(s, UiRelease)
    ensures IdleInv(Do(s, UiRelease))
  {
    hide Unref;
    CountsOnly(s.frames, s.ui.id);
  }

  lemma IdlePreserved(s: State, e: Step)
    requires Inv(s) && Enabled(s, e)
    ensures IdleInv(Do(s, e))
  {
    hide MutexInv, PhaseInv, OrderInv, RefInv, IdleInv, CaptureDo, WorkerDo, OtherDo;
    if e.WkQueue? || e.UiDispatch? || e.CapCheck? {
      IdlePreservedByLists(s, e);
    } else if e.WkTake? {
      IdlePreservedByTake(s);
    } else if e.WkAnswer? {
      IdlePreservedByAnswer(s, e);
    } else if KeepsIdle(e) {
      IdleKeptByWorker(s, e);
    } else if e.UiRelease? {
      IdleKeptByRelease(s);
    } else if ByCapture(e) {
      IdleKeptByCapture(s, e);
    } else {
      IdleKept(s, e);
    }
  }

  /** Steps that hand a reference over or do not touch any. */
  predicate Transfers(e: Step) {
    !e.CapCheck? && !e.WkAddRef? && !e.WkUnref? && !e.UiRelease?
  }

  /** The references and their holders stay as they are. */
  ghost predicate SameHolding(s: State, t: State, id: nat) {
    t.frames.refs == s.frames.refs && t.frames.freed == s.frames.freed && Holders(t, id) == Holders(s, id)
  }

  lemma CaptureKeepsHolders(s: State, e: Step, id: nat)
    requires PhaseInv(s) && Enabled(s, e) && ByCapture(e) && Transfers(e)
    ensures SameHolding(s, CaptureDo(s, e), id)
  {
    hide Queued;
    assert e.CapLock? ==> !s.pending;
  }

  lemma QueueKeepsHolders(s: State, id: nat)
    requires Enabled(s, WkQueue)
    ensures SameHolding(s, WorkerDo(s, WkQueue), id)
  {
    QueuedAppend(s.idles, (s.wk.id, s.frames.images[s.wk.id]), id);
    hide Queued;
  }

  lemma WorkerKeepsHolders(s: State, e: Step, id: nat)
    requires PhaseInv(s) && Enabled(s, e) && ByWorker(e) && Transfers(e) && !e.WkQueue?
    ensures SameHolding(s, WorkerDo(s, e), id)
  {
    hide Queued;
    assert e.WkTake? && s.running ==> s.pending && !InHand(s);
  }

  lemma OtherKeepsHolders(s: State, e: Step, id: nat)
    requires Enabled(s, e) && !ByCapture(e) && !ByWorker(e) && Transfers(e)
    ensures SameHolding(s, OtherDo(s, e), id)
  {
  }

  lemma TransferKeepsHolders(s: State, e: Step, id: nat)
    requires PhaseInv(s) && Enabled(s, e) && Transfers(e)
    ensures SameHolding(s, Do(s, e), id)
  {
    hide CaptureDo, WorkerDo, OtherDo, SameHolding, PhaseInv, Enabled;
    if ByCapture(e) {
      CaptureKeepsHolders(s, e, id);
    } else if e.WkQueue? {
      QueueKeepsHolders(s, id);
    } else if ByWorker(e) {
      WorkerKeepsHolders(s, e, id);
    } else {
      OtherKeepsHolders(s, e, id);
    }
  }

  /** A step that adds `more` holders of frame `at`, and as many references. */
  ghost predicate Shifts(s: State, t: State, at: nat, more: int) {
    && at < |s.frames.refs| && t.frames.refs == s.frames.refs[at := s.frames.refs[at] + more]
    && forall id :: 0 <= id < |s.frames.refs| ==> Holders(t, id) == Holders(s, id) + (if id == at then more else 0)
  }

  lemma AddRefKeeps(s: State, t: State, at: nat)
    requires RefInv(s) && Shifts(s, t, at, 1) && Holders(s, at) > 0 && t.frames.freed == s.frames.freed
    ensures RefInv(t)
  {
    hide Holders;
  }

  lemma UnrefKeeps(s: State, t: State, at: nat)
    requires RefInv(s) && Shifts(s, t, at, -1)
    requires t.frames.freed == if s.frames.refs[at] == 1 then s.frames.freed + [at] else s.frames.freed
    ensures RefInv(t)
  {
    hide Holders;
    assert Holders(t, at) >= 0;
    if s.frames.refs[at] == 1 {
      assert at !in s.frames.freed;
      forall id ensures id in t.frames.freed <==> id in s.frames.freed || id == at {
      }
    }
  }

  lemma AllocateKeeps(s: State, t: State)
    requires RefInv(s) && t.frames.refs == s.frames.refs + [1] && t.frames.freed == s.frames.freed
    requires forall id :: 0 <= id < |s.frames.refs| ==> Holders(t, id) == Holders(s, id)
    requires Holders(t, |s.frames.refs|) == 1
    ensures RefInv(t)
  {
    hide Holders;
  }

  lemma SameHoldersKeep(s: State, t: State)
    requires RefInv(s) && t.frames.refs == s.frames.refs && t.frames.freed == s.frames.freed
    requires forall id :: 0 <= id < |s.frames.refs| ==> Holders(t, id) == Holders(s, id)
    ensures RefInv(t)
  {
    hide Holders;
  }

  lemma RefPreserved(s: State, e: Step)
    requires Inv(s) && Enabled(s, e)
    ensures RefInv(Do(s, e))
  {
    hide MutexInv, RefInv;
    var t := Do(s, e);
    if Transfers(e) {
      forall id | 0 <= id < |s.frames.refs| ensures Holders(t, id) == Holders(s, id) {
        TransferKeepsHolders(s, e, id);
      }
      TransferKeepsHolders(s, e, 0);
      SameHoldersKeep(s, t);
    } else {
      CountingStepKeeps(s, e);
    }
  }

  lemma CountingStepKeeps(s: State, e: Step)
    requires Inv(s) && Enabled(s, e) && !Transfers(e)
    ensures RefInv(Do(s, e))
  {
    if e.CapCheck? {
      AllocationKeeps(s, e);
    } else if e.WkAddRef? {
      WorkerAddRefKeeps(s);
    } else if e.WkUnref? {
      WorkerUnrefKeeps(s);
    } else {
      UiUnrefKeeps(s);
    }
  }

  lemma AllocationKeeps(s: State, e: Step)
    requires Inv(s) && Enabled(s, e) && e.CapCheck?
    ensures RefInv(Do(s, e))
  {
    if !s.busy {
      QueuedNone(s.idles, |s.frames.refs|);
      AllocateKeeps(s, Do(s, e));
    }
  }

  lemma WorkerAddRefKeeps(s: State)
    requires Inv(s) && Enabled(s, WkAddRef)
    ensures RefInv(Do(s, WkAddRef))
  {
    assert s.frames.refs[s.wk.id] == Holders(s, s.wk.id) > 0;
    AddRefKeeps(s, Do(s, WkAddRef), s.wk.id);
  }

  lemma WorkerUnrefKeeps(s: State)
    requires Inv(s) && Enabled(s, WkUnref)
    ensures RefInv(Do(s, WkUnref))
  {
    assert s.frames.refs[s.wk.id] == Holders(s, s.wk.id) > 0;
    UnrefKeeps(s, Do(s, WkUnref), s.wk.id);
  }

  lemma UiUnrefKeeps(s: State)
    requires Inv(s) && Enabled(s, UiRelease)
    ensures RefInv(Do(s, UiRelease))
  {
    assert s.frames.refs[s.ui.id] == Holders(s, s.ui.id) > 0;
    UnrefKeeps(s, Do(s, UiRelease), s.ui.id);
  }

  lemma StepInv(s: State, e: Step)
    requires Inv(s) && Enabled(s, e)
    ensures Inv(Do(s, e))
  {
    RefPreserved(s, e);
    MutexPreserved(s, e);
    PhasePreserved(s, e);
    OrderPreserved(s, e);
    IdlePreserved(s, e);
    hide MutexInv, PhaseInv, OrderInv, IdleInv, RefInv, Do;
  }

  /** `t` is reached from `s` by an interleaving of capture, worker, main loop and shutdown. */
  predicate IsRun(s: State, steps: seq<Step>, t: State)
    decreases |steps|
  {
    if steps == [] then s == t
    else Enabled(s, steps[0]) && IsRun(Do(s, steps[0]), steps[1..], t)
  }

  lemma {:induction false} RunInv(s: State, steps: seq<Step>, t: State)
    requires Inv(s) && IsRun(s, steps, t)
    ensures Inv(t)
    decreases |steps|
  {
    hide Inv, Do, Enabled;
    if steps != [] {
      StepInv(s, steps[0]);
      RunInv(Do(s, steps[0]), steps[1..], t);
    }
  }

  /** While the stream runs, accepted frames are processed once each, in order of acceptance, and the
      next one can only be published when the worker is done with all before it. No signal is lost. */
  lemma ProcessedExactlyOnce(s: State, steps: seq<Step>, t: State)
    requires Initial(s) && IsRun(s, steps, t)
    ensures forall i :: 0 <= i < |t.log.published| ==> t.log.published[i] == i
    ensures t.log.processed <= t.log.published && |t.log.published| <= |t.log.processed| + 1
    ensures t.running ==> t.lostSignals == 0
    ensures t.running && Enabled(t, CapLock) ==> t.log.processed == t.log.published && !InHand(t) && !t.wk.WkClear?
    ensures t.running && !t.busy ==> t.log.processed == t.log.published
  {
    InitInv(s);
    RunInv(s, steps, t);
    hide RefInv, IdleInv;
  }

  /** In every reachable state, also during shutdown, a frame has been freed exactly when neither the
      capture thread, the slot, the worker, a queued record nor the main loop holds it, and no frame is
      freed twice. The order in which the last two release it does not matter. */
  lemma FreedExactlyWhenUnheld(s: State, steps: seq<Step>, t: State, id: nat)
    requires Initial(s) && IsRun(s, steps, t) && id < |t.frames.images|
    ensures id in t.frames.freed <==> Holders(t, id) == 0
    ensures forall i, j :: 0 <= i < j < |t.frames.freed| ==> t.frames.freed[i] != t.frames.freed[j]
  {
    InitInv(s);
    RunInv(s, steps, t);
    hide Holders, Queued, OrderInv, IdleInv, MutexInv;
  }

  /** Nobody ever touches a freed frame, and the worker draws on a frame only while it is its sole holder. */
  lemma LiveWhileUsed(s: State, steps: seq<Step>, t: State, id: nat)
    requires Initial(s) && IsRun(s, steps, t) && id < |t.frames.images|
    ensures WorkerOwns(t, id) || (t.ui.UiUsing? && t.ui.id == id) || (t.pending && t.slot == id) ==>
      id !in t.frames.freed
    ensures (exists i :: 0 <= i < |t.idles| && t.idles[i].0 == id) ==> id !in t.frames.freed
    ensures t.wk == WkRequest(id) ==> |t.frames.refs| == |t.frames.images| && t.frames.refs[id] == 1
  {
    FreedExactlyWhenUnheld(s, steps, t, id);
    InitInv(s);
    RunInv(s, steps, t);
    forall i | 0 <= i < |t.idles| && t.idles[i].0 == id ensures Queued(t.idles, id) >= 1 {
      QueuedMember(t.idles, i);
    }
    if t.wk == WkRequest(id) {
      QueuedNone(t.idles, id);
      hide OrderInv, Queued;
      assert t.frames.refs[id] == Holders(t, id);
    }
  }

  /** The image handed to the channel is the one the worker queued: nothing alters it in between. */
  lemma ShownAsQueued(s: State, steps: seq<Step>, t: State)
    requires Initial(s) && IsRun(s, steps, t) && Enabled(t, UiDispatch)
    ensures var u := Do(t, UiDispatch); u.log.shown == t.log.shown + [t.idles[0]] && u.idles == t.idles[1..]
  {
    InitInv(s);
    RunInv(s, steps, t);
    hide RefInv, OrderInv, PhaseInv, MutexInv;
  }

  // Which frames reach the channel, and with what image.

  /** What the worker found out about a frame: whether ai_request succeeded, and the image it drew, if any. */
  datatype Answer = Answer(ok: bool, drawn: Option<Image>)

  /** The answers given in a run, one for each frame processed. */
  function Answers(steps: seq<Step>): seq<Answer>
    decreases |steps|
  {
    if steps == [] then []
    else (if steps[0].WkAnswer? then [Answer(steps[0].ok, steps[0].drawn)] else []) + Answers(steps[1..])
  }

  /** The images captured in a run from `s` while no frame was under way. */
  function Captured(s: State, steps: seq<Step>): seq<Image>
    decreases |steps|
  {
    if steps == [] || !Enabled(s, steps[0]) then []
    else
      (if steps[0].CapCheck? && !s.busy then [steps[0].image] else []) + Captured(Do(s, steps[0]), steps[1..])
  }

  /** The frames whose answer was ok, each with the image drawn, or else with the one captured. */
  function Passed(answers: seq<Answer>, captured: seq<Image>): (p: seq<(nat, Image)>)
    requires |answers| <= |captured|
    decreases |answers|
  {
    if answers == [] then []
    else
      var n := |answers| - 1;
      var a, before := answers[n], Passed(answers[..n], captured);
      if !a.ok then before else before + [(n, if a.drawn.Some? then a.drawn.value else captured[n])]
  }

  /** The frame the worker is about to queue. */
  function InPassing(s: State): seq<(nat, Image)> {
    if (s.wk.WkUpdate? || s.wk.WkQueueing?) && s.wk.id < |s.frames.images| then [(s.wk.id, s.frames.images[s.wk.id])]
    else []
  }

  /** The image of frame `id` by now. */
  function ImageOf(answers: seq<Answer>, captured: seq<Image>, id: nat): Image
    requires id < |captured|
  {
    if id < |answers| && answers[id].ok && answers[id].drawn.Some? then answers[id].drawn.value else captured[id]
  }

  ghost predicate PassInv(s: State, answers: seq<Answer>, captured: seq<Image>) {
    && |captured| == |s.frames.images| && |answers| + One(s.wk.WkRequest?) == |s.log.processed| <= |captured|
    && (forall id :: 0 <= id < |captured| ==> s.frames.images[id] == ImageOf(answers, captured, id))
    && s.log.shown + s.idles + InPassing(s) == Passed(answers, captured)
  }

  function Answered(answers: seq<Answer>, e: Step): seq<Answer> {
    if e.WkAnswer? then answers + [Answer(e.ok, e.drawn)] else answers
  }

  function Taken(s: State, captured: seq<Image>, e: Step): seq<Image> {
    if e.CapCheck? && !s.busy then captured + [e.image] else captured
  }

  lemma PassedSnoc(answers: seq<Answer>, a: Answer, captured: seq<Image>)
    requires |answers| < |captured|
    ensures Passed(answers + [a], captured) ==
      if a.ok then Passed(answers, captured)
        + [(|answers|, if a.drawn.Some? then a.drawn.value else captured[|answers|])]
      else Passed(answers, captured)
  {
    assert (answers + [a])[..|answers|] == answers;
  }

  lemma {:induction false} PassedLonger(answers: seq<Answer>, captured: seq<Image>, image: Image)
    requires |answers| <= |captured|
    ensures Passed(answers, captured + [image]) == Passed(answers, captured)
    decreases |answers|
  {
    if answers != [] {
      PassedLonger(answers[..|answers| - 1], captured, image);
    }
  }

  lemma PassKeptByCapture(s: State, e: Step, answers: seq<Answer>, captured: seq<Image>)
    requires PassInv(s, answers, captured) && IdleInv(s) && Enabled(s, e) && e.CapCheck?
    ensures PassInv(Do(s, e), answers, Taken(s, captured, e))
  {
    hide Passed;
    PassedLonger(answers, captured, e.image);
    assert InPassing(Do(s, e)) == InPassing(s);
  }

  /** The worker has its answer for the frame it processes. */
  lemma PassKeptByAnswer(s: State, e: Step, answers: seq<Answer>, captured: seq<Image>)
    requires PassInv(s, answers, captured) && Enabled(s, e) && e.WkAnswer? && s.wk.id == |s.log.processed| - 1
    ensures PassInv(Do(s, e), Answered(answers, e), captured)
  {
    hide Passed;
    var n := |answers|;
    PassedSnoc(answers, Answer(e.ok, e.drawn), captured);
    assert s.wk.id == n && InPassing(s) == [];
    assert s.log.shown + s.idles + [] == s.log.shown + s.idles;
    var t, after := Do(s, e), Answered(answers, e);
    assert forall id :: 0 <= id < n ==> after[id] == answers[id];
    assert t.frames.images[n] == ImageOf(after, captured, n);
    assert InPassing(t) == if e.ok then [(n, t.frames.images[n])] else [];
  }

  lemma PassKeptByQueue(s: State, answers: seq<Answer>, captured: seq<Image>)
    requires PassInv(s, answers, captured) && Enabled(s, WkQueue)
    ensures PassInv(Do(s, WkQueue), answers, captured)
  {
    hide Passed;
    var t := Do(s, WkQueue);
    assert InPassing(t) == [] && t.idles == s.idles + InPassing(s);
    assert t.log.shown + t.idles + InPassing(t) == s.log.shown + s.idles + InPassing(s);
  }

  lemma PassKeptByDispatch(s: State, answers: seq<Answer>, captured: seq<Image>)
    requires PassInv(s, answers, captured) && IdleInv(s) && Enabled(s, UiDispatch)
    ensures PassInv(Do(s, UiDispatch), answers, captured)
  {
    hide Passed;
    var t := Do(s, UiDispatch);
    assert t.log.shown == s.log.shown + [s.idles[0]] && InPassing(t) == InPassing(s);
    assert t.log.shown + t.idles == s.log.shown + s.idles;
  }

  /** What PassInv speaks of stays as it is. */
  ghost predicate PassSame(s: State, t: State) {
    && t.frames.images == s.frames.images && t.log.shown == s.log.shown && t.idles == s.idles
    && InPassing(t) == InPassing(s)
    && |t.log.processed| - One(t.wk.WkRequest?) == |s.log.processed| - One(s.wk.WkRequest?)
  }

  lemma PassSameByWorker(s: State, e: Step)
    requires Enabled(s, e) && ByWorker(e) && !e.WkAnswer? && !e.WkQueue?
    requires s.wk.WkUpdate? ==> |s.frames.refs| == |s.frames.images|
    ensures PassSame(s, WorkerDo(s, e))
  {
    hide Unref, AddRef;
    if Counted(s, e) < |s.frames.refs| { CountsOnly(s.frames, Counted(s, e)); }
  }

  lemma PassSameByCapture(s: State, e: Step)
    requires Enabled(s, e) && ByCapture(e) && !e.CapCheck?
    ensures PassSame(s, CaptureDo(s, e))
  {
  }

  lemma PassSameByOthers(s: State, e: Step)
    requires Enabled(s, e) && !ByWorker(e) && !ByCapture(e) && !e.UiDispatch?
    ensures PassSame(s, OtherDo(s, e))
  {
    hide Unref, AddRef;
    if Counted(s, e) < |s.frames.refs| { CountsOnly(s.frames, Counted(s, e)); }
  }

  lemma PassKeptByOthers(s: State, e: Step, answers: seq<Answer>, captured: seq<Image>)
    requires PassInv(s, answers, captured) && Inv(s) && Enabled(s, e)
    requires !e.CapCheck? && !e.WkAnswer? && !e.WkQueue? && !e.UiDispatch?
    ensures PassInv(Do(s, e), answers, captured)
  {
    hide RefInv, OrderInv, MutexInv, PassInv, PassSame, WorkerDo, CaptureDo, OtherDo;
    StepInv(s, e);
    if ByWorker(e) {
      PassSameByWorker(s, e);
    } else if ByCapture(e) {
      PassSameByCapture(s, e);
    } else {
      PassSameByOthers(s, e);
    }
    PassFollows(s, Do(s, e), answers, captured);
  }

  lemma PassFollows(s: State, t: State, answers: seq<Answer>, captured: seq<Image>)
    requires PassInv(s, answers, captured) && PassSame(s, t) && |t.log.processed| <= |t.frames.images|
    ensures PassInv(t, answers, captured)
  {
    hide Passed, ImageOf, InPassing;
  }

  lemma PassStep(s: State, e: Step, answers: seq<Answer>, captured: seq<Image>)
    requires PassInv(s, answers, captured) && Inv(s) && Enabled(s, e)
    ensures PassInv(Do(s, e), Answered(answers, e), Taken(s, captured, e))
  {
    hide PassInv, RefInv, OrderInv, MutexInv, PhaseInv, Do;
    if e.CapCheck? {
      PassKeptByCapture(s, e, answers, captured);
    } else if e.WkAnswer? {
      PassKeptByAnswer(s, e, answers, captured);
    } else if e.WkQueue? {
      PassKeptByQueue(s, answers, captured);
    } else if e.UiDispatch? {
      PassKeptByDispatch(s, answers, captured);
    } else {
      PassKeptByOthers(s, e, answers, captured);
    }
  }

  lemma FirstAnswer(steps: seq<Step>, answers: seq<Answer>)
    requires steps != []
    ensures Answered(answers, steps[0]) + Answers(steps[1..]) == answers + Answers(steps)
  {
    hide Answers;
    AnswersOf(steps);
  }

  lemma AnswersOf(steps: seq<Step>)
    requires steps != []
    ensures Answers(steps) ==
      (if steps[0].WkAnswer? then [Answer(steps[0].ok, steps[0].drawn)] else []) + Answers(steps[1..])
  {
  }

  lemma FirstCapture(s: State, steps: seq<Step>, captured: seq<Image>)
    requires steps != [] && Enabled(s, steps[0])
    ensures Taken(s, captured, steps[0]) + Captured(Do(s, steps[0]), steps[1..]) == captured + Captured(s, steps)
  {
    hide Captured, Do, Enabled;
    CapturedOf(s, steps);
  }

  lemma CapturedOf(s: State, steps: seq<Step>)
    requires steps != [] && Enabled(s, steps[0])
    ensures Captured(s, steps) ==
      (if steps[0].CapCheck? && !s.busy then [steps[0].image] else []) + Captured(Do(s, steps[0]), steps[1..])
  {
    hide Do, Enabled;
  }

  lemma NothingYet(s: State)
    ensures Answers([]) == [] && Captured(s, []) == []
  {
  }

  lemma {:induction false} PassRun(s: State, steps: seq<Step>, t: State, answers: seq<Answer>, captured: seq<Image>)
    requires PassInv(s, answers, captured) && Inv(s) && IsRun(s, steps, t)
    ensures PassInv(t, answers + Answers(steps), captured + Captured(s, steps))
    decreases |steps|
  {
    hide PassInv, Inv, Do, Enabled, Answers, Captured, Answered, Taken;
    if steps == [] {
      NothingYet(s);
      assert answers + [] == answers && captured + [] == captured;
    } else {
      var e, rest := steps[0], steps[1..];
      StepInv(s, e);
      PassStep(s, e, answers, captured);
      PassRun(Do(s, e), rest, t, Answered(answers, e), Taken(s, captured, e));
      FirstAnswer(steps, answers);
      FirstCapture(s, steps, captured);
    }
  }

  /** In every run: the frames shown, then those queued, then the one being queued are exactly the processed frames
      whose request succeeded, each once and in order, with the image drawn for them or else the captured one. */
  lemma PassedExactly(s: State, steps: seq<Step>, t: State)
    requires Initial(s) && IsRun(s, steps, t)
    ensures |Answers(steps)| == |t.log.processed| - One(t.wk.WkRequest?) <= |Captured(s, steps)|
    ensures t.log.shown + t.idles + InPassing(t) == Passed(Answers(steps), Captured(s, steps))
  {
    hide Inv, IsRun;
    InitInv(s);
    PassRun(s, steps, t, [], []);
    assert [] + Answers(steps) == Answers(steps) && [] + Captured(s, steps) == Captured(s, steps);
  }

  /** Once the stream is told to stop while the worker holds cond_mutex, the worker exits without ever
      releasing it. */
  lemma {:induction false} WorkerKeepsMutex(s: State, steps: seq<Step>, t: State)
    requires Inv(s) && !s.running && !s.stopSignalled && s.mutex.Worker? && IsRun(s, steps, t)
    ensures !t.stopSignalled && t.mutex.Worker?
    decreases |steps|
  {
    if steps != [] {
      StepInv(s, steps[0]);
      KeepsMutexStep(s, steps[0]);
      hide Inv, Do, Enabled;
      WorkerKeepsMutex(Do(s, steps[0]), steps[1..], t);
    }
  }

  lemma KeepsMutexStep(s: State, e: Step)
    requires Inv(s) && !s.running && !s.stopSignalled && s.mutex.Worker? && Enabled(s, e)
    ensures var t := Do(s, e); !t.running && !t.stopSignalled && t.mutex.Worker?
  {
    hide RefInv, OrderInv, PhaseInv, IdleInv;
  }

  /** device_stream_free has taken cond_mutex, woken the worker and joined it. */
  predicate StopReturns(s: State) { s.stopSignalled && s.wk.WkExited? }

  ghost predicate StopCanReturn(s: State) {
    exists steps, t :: IsRun(s, steps, t) && StopReturns(t)
  }

  lemma ReturnsNow(s: State)
    requires StopReturns(s)
    ensures StopCanReturn(s)
  {
    assert IsRun(s, [], s);
  }

  lemma ReturnsBy(s: State, e: Step)
    requires Enabled(s, e) && StopCanReturn(Do(s, e))
    ensures StopCanReturn(s)
  {
    var steps, t :| IsRun(Do(s, e), steps, t) && StopReturns(t);
    RunStep(s, e, steps, t);
  }

  /** Once the broadcast is out, the worker can always get the lock, find the stream stopped, and exit. */
  lemma BroadcastSuffices(s: State)
    requires Inv(s) && s.stopSignalled
    ensures StopCanReturn(s)
    decreases match s.wk
      case WkExited => 0
      case WkResumed => 1
      case _ => match s.cap case CapSignalling => 4 case CapUnlocking => 3 case _ => 2
  {
    hide RefInv, OrderInv, IdleInv, PhaseInv, StopCanReturn;
    if s.wk.WkExited? {
      ReturnsNow(s);
    } else {
      var e := if s.wk.WkResumed? then WkTake
               else if s.cap.CapSignalling? then CapSignal
               else if s.cap.CapUnlocking? then CapUnlock
               else WkAcquire;
      StepInv(s, e);
      BroadcastSuffices(Do(s, e));
      ReturnsBy(s, e);
    }
  }

  /** Once the stream is told to stop, some run lets device_stream_free return exactly when the worker does not
      hold cond_mutex already. */
  lemma StopCanReturnExactly(s: State)
    requires Inv(s) && !s.running && !s.stopSignalled
    ensures StopCanReturn(s) <==> !s.mutex.Worker?
  {
    hide RefInv, OrderInv, IdleInv, PhaseInv, StopCanReturn;
    if s.mutex.Worker? {
      CannotReturn(s);
    } else if s.mutex.Free? {
      StepInv(s, Broadcast);
      BroadcastSuffices(Do(s, Broadcast));
      ReturnsBy(s, Broadcast);
    } else {
      var e := if s.cap.CapSignalling? then CapSignal else CapUnlock;
      StepInv(s, e);
      UnlocksSoon(Do(s, e));
      ReturnsBy(s, e);
    }
  }

  lemma UnlocksSoon(s: State)
    requires Inv(s) && !s.running && !s.stopSignalled && (s.mutex.Free? || s.cap.CapUnlocking?)
    ensures StopCanReturn(s)
  {
    hide RefInv, OrderInv, IdleInv, PhaseInv, StopCanReturn;
    if s.mutex.Free? {
      StepInv(s, Broadcast);
      BroadcastSuffices(Do(s, Broadcast));
      ReturnsBy(s, Broadcast);
    } else {
      var t := Do(s, CapUnlock);
      StepInv(s, CapUnlock);
      StepInv(t, Broadcast);
      BroadcastSuffices(Do(t, Broadcast));
      ReturnsBy(t, Broadcast);
      ReturnsBy(s, CapUnlock);
    }
  }

  lemma CannotReturn(s: State)
    requires Inv(s) && !s.running && !s.stopSignalled && s.mutex.Worker?
    ensures !StopCanReturn(s)
  {
    hide Inv;
    forall steps, t | IsRun(s, steps, t) ensures !StopReturns(t) {
      WorkerKeepsMutex(s, steps, t);
    }
  }

  /** Whatever the threads do, device_stream_free has returned or still can. */
  ghost predicate StopAlwaysReturns(s: State) {
    forall steps, t :: IsRun(s, steps, t) ==> StopCanReturn(t)
  }

  /** The worker waits, the source has ended for good, and no frame is on its way. */
  predicate NothingComing(s: State) {
    s.wk.WkWaiting? && s.source.Ended? && (s.cap.CapIdle? || s.cap.CapUnlocking?)
  }

  /** Exact condition: stopping is sure to return only when the worker is waiting and capture has ended with
      nothing under way. Every frame still delivered can wake the worker, which then keeps the lock. */
  lemma StopAlwaysReturnsExactly(s: State)
    requires Inv(s) && !s.running && !s.stopSignalled
    ensures StopAlwaysReturns(s) <==> NothingComing(s)
  {
    if NothingComing(s) {
      forall steps, t | IsRun(s, steps, t) ensures StopCanReturn(t) {
        NothingComes(s, steps, t);
        RunInv(s, steps, t);
        if t.stopSignalled {
          BroadcastSuffices(t);
        } else {
          StopCanReturnExactly(t);
        }
      }
    } else {
      StopCanHang(s);
    }
  }

  /** While the source plays or a restart of it is queued, no state is safe to stop in. */
  lemma StopUnsafeWhileCapturing(s: State)
    requires Inv(s) && !s.running && !s.stopSignalled && !s.source.Ended?
    ensures !StopAlwaysReturns(s)
  {
    StopAlwaysReturnsExactly(s);
  }

  /** The end of the stream does not make it any safer: a restart of the source follows. */
  lemma StopUnsafeAfterEnd(s: State)
    requires Inv(s) && !s.running && !s.stopSignalled && Enabled(s, EndOfStream)
    ensures !StopAlwaysReturns(Do(s, EndOfStream))
  {
    hide StopAlwaysReturns, Inv;
    StepInv(s, EndOfStream);
    StopUnsafeWhileCapturing(Do(s, EndOfStream));
  }

  lemma {:induction false} NothingComes(s: State, steps: seq<Step>, t: State)
    requires Inv(s) && !s.running && (s.stopSignalled || NothingComing(s)) && IsRun(s, steps, t)
    ensures !t.running && (t.stopSignalled || NothingComing(t))
    decreases |steps|
  {
    if steps != [] {
      StepInv(s, steps[0]);
      NothingComesStep(s, steps[0]);
      hide Inv, Do, Enabled, NothingComing;
      NothingComes(Do(s, steps[0]), steps[1..], t);
    }
  }

  lemma NothingComesStep(s: State, e: Step)
    requires !s.running && (s.stopSignalled || NothingComing(s)) && Enabled(s, e)
    ensures var t := Do(s, e); !t.running && (t.stopSignalled || NothingComing(t))
  {
    hide Unref, AddRef, Allocate, Draw;
  }

  /** How far the worker is from holding the lock. */
  function Distance(s: State): nat {
    if s.wk.WkWoken? then
      (match s.cap case CapSignalling => 3 case CapUnlocking => 2 case _ => 1)
    else if s.wk.WkWaiting? then
      (match s.cap
       case CapSignalling => 3
       case CapAllocated(_) => 4
       case CapIdle => if s.source.RestartQueued? then 6 else 5
       case CapUnlocking => 7)
    else 0
  }

  /** A step that takes the worker there. */
  function Approach(s: State): Step {
    match s.cap
    case CapSignalling => CapSignal
    case CapUnlocking => CapUnlock
    case CapAllocated(_) => if s.wk.WkWoken? then WkAcquire else CapLock
    case CapIdle => if s.wk.WkWoken? then WkAcquire else if s.source.RestartQueued? then Restart else CapCheck([])
  }

  lemma Approaches(s: State)
    requires MutexInv(s) && PhaseInv(s) && !s.running && !s.stopSignalled && !NothingComing(s) && Distance(s) > 0
    ensures Enabled(s, Approach(s))
    ensures var t := Do(s, Approach(s));
      !t.running && !t.stopSignalled && !NothingComing(t) && Distance(t) < Distance(s)
  {
    hide Unref, AddRef, Allocate, Draw;
  }

  lemma {:induction false} StopCanHang(s: State)
    requires Inv(s) && !s.running && !s.stopSignalled && !NothingComing(s)
    ensures !StopAlwaysReturns(s)
    decreases Distance(s)
  {
    if Distance(s) == 0 {
      StopCanReturnExactly(s);
      assert IsRun(s, [], s);
    } else {
      Approaches(s);
      var e := Approach(s);
      StepInv(s, e);
      hide Inv, Do, Enabled, NothingComing, Distance, Approach;
      StopCanHang(Do(s, e));
      HangsBy(s, e);
    }
  }

  lemma HangsBy(s: State, e: Step)
    requires Enabled(s, e) && !StopAlwaysReturns(Do(s, e))
    ensures !StopAlwaysReturns(s)
  {
    var steps, t :| IsRun(Do(s, e), steps, t) && !StopCanReturn(t);
    RunStep(s, e, steps, t);
  }

  lemma RunStep(s: State, e: Step, steps: seq<Step>, t: State)
    requires Enabled(s, e) && IsRun(Do(s, e), steps, t)
    ensures IsRun(s, [e] + steps, t)
  {
    assert ([e] + steps)[1..] == steps;
  }

  /** The first frame is published. */
  function Published(s: State, image: Image): State
    requires Initial(s)
  {
    Do(Do(s, CapCheck(image)), CapLock)
  }

  lemma FirstSteps(s: State, image: Image, steps: seq<Step>, t: State)
    requires Initial(s) && IsRun(Published(s, image), steps, t)
    ensures IsRun(s, [CapCheck(image)] + ([CapLock] + steps), t)
  {
    hide IsRun;
    RunStep(Do(s, CapCheck(image)), CapLock, steps, t);
    RunStep(s, CapCheck(image), [CapLock] + steps, t);
  }

  /** The worker takes it up, and the stream is stopped. */
  lemma StoppedWhileHolding(s: State) returns (steps: seq<Step>, t: State)
    requires s.cap.CapSignalling? && s.wk.WkWaiting? && s.running && !s.stopSignalled
    ensures IsRun(s, steps, t) && !t.running && !t.stopSignalled && t.mutex.Worker?
  {
    hide IsRun;
    var s1 := Do(s, CapSignal);
    var s2 := Do(s1, CapUnlock);
    var s3 := Do(s2, WkAcquire);
    t := Do(s3, Stop);
    NoSteps(t);
    RunStep(s3, Stop, [], t);
    RunStep(s2, WkAcquire, [Stop] + [], t);
    RunStep(s1, CapUnlock, [WkAcquire] + ([Stop] + []), t);
    RunStep(s, CapSignal, [CapUnlock] + ([WkAcquire] + ([Stop] + [])), t);
    steps := [CapSignal] + ([CapUnlock] + ([WkAcquire] + ([Stop] + [])));
  }

  /** Such a run: one frame is accepted, the worker takes it up, the stream is stopped. */
  lemma StopWhileProcessingHangs(s: State, image: Image) returns (steps: seq<Step>, t: State)
    requires Initial(s)
    ensures IsRun(s, steps, t) && !t.running && !t.stopSignalled && !StopCanReturn(t)
  {
    hide Inv, IsRun, StopCanReturn;
    var signalled := Published(s, image);
    steps, t := StoppedWhileHolding(signalled);
    FirstSteps(s, image, steps, t);
    steps := [CapCheck(image)] + ([CapLock] + steps);
    InitInv(s);
    RunInv(s, steps, t);
    StopCanReturnExactly(t);
  }

  lemma NoSteps(s: State)
    ensures IsRun(s, [], s)
  {
  }
}

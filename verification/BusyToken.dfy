/** The hand-off of camera frames in demo/demo-01.c between three threads: the capture callback
    on_new_frame, the worker ai_thread and the user-interface callback on_idle. The user-interface thread is
    also the one that shuts down.

    Every action of a thread between two scheduling points is one step. Lock and unlock of shell->mutex
    are explicit, the frame is copied byte by byte under the lock, and it is read byte by byte by
    ai_request without the lock. A failed assertion, or the exit of the JPEG encoder on an empty image, ends
    all threads. Assumed: the worker is waiting when capture starts, a wait only ends by a signal or broadcast,
    and pthread calls do not fail. */
module BusyToken {
  import opened Text

  /** How input_frame_copy takes a frame: it copies a picture, leaves its target alone, or only clears the
      target's type. `large` says width and height exceed 1, which draw_frame asserts. */
  datatype Frame = Picture(bytes: seq<int>, large: bool) | Refused | Unparsable

  datatype Owner = Free | Capture | Worker | Ui

  datatype CapturePc = CapIdle | CapLocked(frame: Frame) | CapCopying(source: Frame) | CapSignalling | CapUnlocking
  datatype WorkerPc =
    | WkWaiting | WkWoken | WkHolding    // pthread_cond_wait, then the test of quit behind it
    | WkReading(read: seq<int>) | WkDone | WkLocked
    | WkLooping | WkEntering             // the test of quit in the loop head, and past it
    | WkExited
  /** `copy` is what on_idle copied out, None when draw_frame will not accept it. */
  datatype UiPc = UiIdle | UiStarted | UiLocked | UiDrawing(copy: Option<seq<int>>)

  /** shell->frame: its bytes, None while its data pointer is null, whether width and height exceed 1, and
      whether its type names an image format. */
  datatype Shared = Shared(image: Option<seq<int>>, large: bool, typed: bool)

  /** The frames that found is_busy clear, what each finished ai_request read, and what each on_idle displayed. */
  datatype Log = Log(accepted: seq<Frame>, sent: seq<seq<int>>, shown: seq<seq<int>>)

  datatype State = State(
    quit: bool, woken: bool, aborted: bool, busy: bool, mutex: Owner,
    shared: Shared, cap: CapturePc, wk: WorkerPc, ui: UiPc,
    idles: nat,          // on_idle callbacks queued by g_idle_add
    lostSignals: nat,    // signals sent while nobody waited
    log: Log)

  datatype CaptureStep = CapLock(frame: Frame) | CapTest | CapCopy | CapSignal | CapUnlock
  datatype WorkerStep = WkAcquire | WkStart | WkRead | WkFinish | WkLock | WkQueue | WkLoop | WkWait
  datatype MainStep = UiDispatch | UiLock | UiShow | UiDraw | Quit | Broadcast
  datatype Step = OfCapture(c: CaptureStep) | OfWorker(w: WorkerStep) | OfMain(m: MainStep)

  predicate CaptureEnabled(s: State, c: CaptureStep) {
    match c
    case CapLock(_) => s.cap.CapIdle? && s.mutex.Free?
    case CapTest => s.cap.CapLocked?
    case CapCopy => s.cap.CapCopying? && s.cap.source.Picture? && s.shared.image.Some?
    case CapSignal => s.cap.CapSignalling?
    case CapUnlock => s.cap.CapUnlocking?
  }

  predicate WorkerEnabled(s: State, w: WorkerStep) {
    match w
    case WkAcquire => s.wk.WkWoken? && s.mutex.Free?
    case WkStart => s.wk.WkHolding?
    case WkRead => s.wk.WkReading? && s.shared.image.Some? && |s.wk.read| < |s.shared.image.value|
    case WkFinish => s.wk.WkReading? && (s.shared.image.Some? ==> |s.shared.image.value| <= |s.wk.read|)
    case WkLock => s.wk.WkDone? && s.mutex.Free?
    case WkQueue => s.wk.WkLocked?
    case WkLoop => s.wk.WkLooping?
    case WkWait => s.wk.WkEntering?
  }

  predicate MainEnabled(s: State, m: MainStep) {
    match m
    case UiDispatch => s.ui.UiIdle? && s.idles > 0
    case UiLock => s.ui.UiStarted? && s.mutex.Free?
    case UiShow => s.ui.UiLocked?
    case UiDraw => s.ui.UiDrawing?
    case Quit => !s.quit && s.ui.UiIdle?
    case Broadcast => s.quit && !s.woken
  }

  predicate Enabled(s: State, e: Step) {
    !s.aborted &&
    match e
    case OfCapture(c) => CaptureEnabled(s, c)
    case OfWorker(w) => WorkerEnabled(s, w)
    case OfMain(m) => MainEnabled(s, m)
  }

  function Snoc<T>(s: seq<T>, x: T): (r: seq<T>)
    ensures |r| == |s| + 1 && s <= r
  {
    s + [x]
  }

  /** on_new_frame */
  function CaptureDo(s: State, c: CaptureStep): State
    requires CaptureEnabled(s, c)
  {
    match c
    case CapLock(frame) => s.(mutex := Capture, cap := CapLocked(frame))
    case CapTest => if s.busy then s.(cap := CapUnlocking) else Accept(s)
    case CapCopy =>
      var n := |s.shared.image.value|;
      if n < |s.cap.source.bytes| then
        s.(shared := s.shared.(image := Some(Snoc(s.shared.image.value, s.cap.source.bytes[n]))))
      else s.(cap := CapSignalling)
    case CapSignal =>
      if s.wk.WkWaiting? then s.(wk := WkWoken, cap := CapUnlocking)
      else s.(lostSignals := s.lostSignals + 1, cap := CapUnlocking)
    case CapUnlock => s.(mutex := Free, cap := CapIdle)
  }

  /** The frame is taken, and input_frame_copy begins. */
  function Accept(s: State): State
    requires s.cap.CapLocked?
  {
    var t := s.(busy := true, log := s.log.(accepted := Snoc(s.log.accepted, s.cap.frame)));
    match s.cap.frame
    case Picture(_, large) => t.(shared := Shared(Some([]), large, true), cap := CapCopying(s.cap.frame))
    case Refused => t.(cap := CapSignalling)
    case Unparsable => t.(shared := s.shared.(typed := false), cap := CapSignalling)
  }

  /** ai_thread */
  function WorkerDo(s: State, w: WorkerStep): State
    requires WorkerEnabled(s, w)
  {
    match w
    case WkAcquire => s.(mutex := Worker, wk := WkHolding)
    case WkStart =>
      if s.quit then s.(mutex := Free, wk := WkExited)
      else s.(busy := true, mutex := Free, wk := WkReading([]))
    case WkRead => s.(wk := WkReading(Snoc(s.wk.read, s.shared.image.value[|s.wk.read|])))
    case WkFinish =>
      if s.shared.image.None? then s.(aborted := true)
      else s.(log := s.log.(sent := Snoc(s.log.sent, s.wk.read)), wk := WkDone)
    case WkLock => s.(mutex := Worker, wk := WkLocked)
    case WkQueue => s.(idles := s.idles + 1, wk := WkLooping)
    case WkLoop => if s.quit then s.(mutex := Free, wk := WkExited) else s.(wk := WkEntering)
    case WkWait => s.(mutex := Free, wk := WkWaiting)
  }

  /** on_idle, and at the end of main shell_context_cleanup. */
  function MainDo(s: State, m: MainStep): State
    requires MainEnabled(s, m)
  {
    match m
    case UiDispatch => s.(idles := s.idles - 1, ui := if s.quit then UiIdle else UiStarted)
    case UiLock => s.(mutex := Ui, ui := UiLocked)
    case UiShow =>
      if s.shared.image.None? then s.(mutex := Free, ui := UiIdle)
      else
        var copy := if s.shared.typed && s.shared.large then s.shared.image else None;
        s.(busy := false, mutex := Free, ui := UiDrawing(copy))
    case UiDraw =>
      if s.ui.copy.None? then s.(aborted := true)
      else s.(log := s.log.(shown := Snoc(s.log.shown, s.ui.copy.value)), ui := UiIdle)
    case Quit => s.(quit := true)
    case Broadcast => s.(woken := true, wk := if s.wk.WkWaiting? then WkWoken else s.wk)
  }

  function Do(s: State, e: Step): State
    requires Enabled(s, e)
  {
    match e
    case OfCapture(c) => CaptureDo(s, c)
    case OfWorker(w) => WorkerDo(s, w)
    case OfMain(m) => MainDo(s, m)
  }

  /** What shell->frame holds after the copies of `frames`: the last picture. */
  function Kept(frames: seq<Frame>): Option<Frame>
    ensures Kept(frames).Some? ==> Kept(frames).value.Picture?
  {
    if frames == [] then None
    else
      var last := frames[|frames| - 1];
      if last.Picture? then Some(last) else Kept(frames[..|frames| - 1])
  }

  function KeptBytes(frames: seq<Frame>): Option<seq<int>> {
    match Kept(frames) case None => None case Some(f) => Some(f.bytes)
  }

  /** Whether its type names an image format then. */
  predicate KeptTyped(frames: seq<Frame>) {
    frames != [] &&
    var last := frames[|frames| - 1];
    last.Picture? || (last.Refused? && KeptTyped(frames[..|frames| - 1]))
  }

  /** Frames the program survives: the first is a picture, none is unparsable, none is too small to draw. */
  predicate Good(frames: seq<Frame>) {
    && (frames != [] ==> frames[0].Picture?)
    && forall i :: 0 <= i < |frames| ==> !frames[i].Unparsable? && (frames[i].Picture? ==> frames[i].large)
  }

  function One(b: bool): nat { if b then 1 else 0 }

  predicate CaptureHasToken(s: State) { s.cap.CapCopying? || s.cap.CapSignalling? }

  predicate WakeupPending(s: State) { s.wk.WkWoken? || s.wk.WkHolding? }

  predicate RequestRunning(s: State) { s.wk.WkReading? }

  predicate ResultPending(s: State) { s.wk.WkDone? || s.wk.WkLocked? }

  predicate UiHasToken(s: State) { s.ui.UiStarted? || s.ui.UiLocked? }

  /** Number of places where the hand-off is in progress. */
  function Tokens(s: State): nat {
    One(CaptureHasToken(s)) + One(WakeupPending(s)) + One(RequestRunning(s)) + One(ResultPending(s)) + s.idles
    + One(UiHasToken(s))
  }

  /** Frames copied out by on_idle: displayed ones and the one being drawn. */
  function Taken(s: State): nat { |s.log.shown| + One(s.ui.UiDrawing?) }

  ghost predicate MutexInv(s: State) {
    && (s.mutex.Capture? <==> !s.cap.CapIdle?)
    && (s.mutex.Worker? <==> s.wk.WkHolding? || s.wk.WkLocked? || s.wk.WkLooping? || s.wk.WkEntering?)
    && (s.mutex.Ui? <==> s.ui.UiLocked?)
    && (s.quit ==> s.ui.UiIdle?)
    && (s.woken ==> s.quit)
  }

  ghost predicate TokenInv(s: State) {
    && (!s.quit ==> Tokens(s) == One(s.busy))
    && (!s.quit ==> s.lostSignals == 0 && !s.wk.WkExited?)
    // what stays true while shutting down
    && Tokens(s) - One(WakeupPending(s)) <= One(s.busy)
    && (s.wk.WkLooping? || s.wk.WkEntering? ==> s.busy)
    && (s.wk.WkLooping? || s.wk.WkEntering? ==> s.quit || s.idles + One(s.ui.UiStarted?) == 1)
    && (s.woken && s.wk.WkWaiting? ==> s.busy && !CaptureHasToken(s))
  }

  ghost predicate FrameInv(s: State) {
    && (match s.cap
        case CapCopying(f) =>
          && s.log.accepted != [] && s.log.accepted[|s.log.accepted| - 1] == f && f.Picture?
          && s.shared.image.Some? && s.shared.image.value <= f.bytes && s.shared.large == f.large && s.shared.typed
        case _ => s.shared.image == KeptBytes(s.log.accepted) && s.shared.typed == KeptTyped(s.log.accepted)
                  && (Kept(s.log.accepted).Some? ==> s.shared.large == Kept(s.log.accepted).value.large))
    && (RequestRunning(s) ==> match s.shared.image case None => s.wk.read == [] case Some(v) => s.wk.read <= v)
  }

  /** What was sent and shown. */
  ghost predicate SentInv(s: State) {
    && Taken(s) <= |s.log.sent| <= |s.log.accepted|
    && (forall i :: 0 <= i < |s.log.sent| ==> KeptBytes(s.log.accepted[..i + 1]) == Some(s.log.sent[i]))
    && (forall i :: 0 <= i < |s.log.shown| ==> s.log.sent[i] == s.log.shown[i])
    && (s.ui.UiDrawing? && s.ui.copy.Some? ==> s.log.sent[|s.log.shown|] == s.ui.copy.value)
  }

  /** How far each frame is, by where the token is. */
  ghost predicate CountInv(s: State) {
    && (s.log.sent != [] ==> s.shared.image.Some?)
    && (RequestRunning(s) ==> |s.log.sent| + 1 == |s.log.accepted|)
    && (ResultPending(s) || UiHasToken(s) ==> |s.log.sent| == |s.log.accepted|)
    && (UiHasToken(s) ==> Taken(s) + 1 == |s.log.sent|)
    && (!s.quit && s.idles > 0 ==> |s.log.sent| == |s.log.accepted|)
    && (!s.quit && (s.idles > 0 || ResultPending(s)) ==> Taken(s) + 1 == |s.log.sent|)
    && (!s.quit && Tokens(s) == 0 ==> Taken(s) == |s.log.sent| == |s.log.accepted|)
    && (!s.quit && (CaptureHasToken(s) || WakeupPending(s)) ==> |s.log.sent| + 1 == |s.log.accepted|)
    && (!s.quit && (CaptureHasToken(s) || WakeupPending(s) || RequestRunning(s)) ==> Taken(s) == |s.log.sent|)
  }

  /** What was displayed could be, and what could not be ends the program. */
  ghost predicate GoodInv(s: State) {
    && |s.log.shown| <= |s.log.accepted| && Good(s.log.accepted[..|s.log.shown|])
    && (s.ui.UiDrawing? ==>
          |s.log.shown| < |s.log.accepted| && (s.ui.copy.Some? <==> Good(s.log.accepted[..|s.log.shown| + 1])))
    && (s.aborted ==> !Good(s.log.accepted))
  }

  ghost predicate Inv(s: State) {
    MutexInv(s) && TokenInv(s) && FrameInv(s) && CountInv(s) && SentInv(s) && GoodInv(s)
  }

  lemma KeptSnoc(frames: seq<Frame>, f: Frame)
    ensures Kept(frames + [f]) == if f.Picture? then Some(f) else Kept(frames)
    ensures KeptTyped(frames + [f]) == (f.Picture? || (f.Refused? && KeptTyped(frames)))
  {
    assert (frames + [f])[..|frames|] == frames;
  }

  lemma GoodPrefix(frames: seq<Frame>, n: nat)
    requires n <= |frames|
    ensures Good(frames) ==> Good(frames[..n])
  {
  }

  /** Good frames are exactly those after which there is a picture, of a known type and large enough. */
  lemma {:induction false} GoodShows(frames: seq<Frame>)
    requires frames != []
    ensures Good(frames) ==> Kept(frames).Some? && KeptTyped(frames) && Kept(frames).value.large
    ensures Good(frames[..|frames| - 1]) && Kept(frames).Some? && KeptTyped(frames) && Kept(frames).value.large ==>
      Good(frames)
    decreases |frames|
  {
    var front, last := frames[..|frames| - 1], frames[|frames| - 1];
    assert frames == front + [last];
    KeptSnoc(front, last);
    GoodPrefix(frames, |front|);
    if front != [] {
      GoodShows(front);
    } else {
      assert Kept(front).None?;
    }
  }

  predicate Initial(s: State) {
    && !s.quit && !s.woken && !s.aborted && !s.busy && s.mutex.Free? && s.shared.image.None? && !s.shared.typed
    && s.cap.CapIdle? && s.wk.WkWaiting? && s.ui.UiIdle? && s.idles == 0 && s.lostSignals == 0
    && s.log.accepted == [] && s.log.sent == [] && s.log.shown == []
  }

  lemma InitInv(s: State)
    requires Initial(s)
    ensures Inv(s)
  {
  }

  // What each thread's steps keep.

  lemma CaptureKeeps(s: State, c: CaptureStep)
    requires MutexInv(s) && TokenInv(s) && CountInv(s) && CaptureEnabled(s, c)
    ensures MutexInv(CaptureDo(s, c)) && TokenInv(CaptureDo(s, c)) && CountInv(CaptureDo(s, c))
  {
    hide Snoc;
    if c.CapTest? {
      assert !s.busy ==> Tokens(s) - One(WakeupPending(s)) == 0;
    }
  }

  lemma CaptureKeepsFrame(s: State, c: CaptureStep)
    requires TokenInv(s) && FrameInv(s) && CaptureEnabled(s, c)
    ensures FrameInv(CaptureDo(s, c))
  {
    if c.CapTest? {
      if !s.busy {
        assert Tokens(s) - One(WakeupPending(s)) == 0 && !RequestRunning(s);
        KeptSnoc(s.log.accepted, s.cap.frame);
      }
    } else if c.CapCopy? {
      var f := s.cap.source;
      assert f.bytes[..|f.bytes|] == f.bytes;
      assert s.shared.image.value == f.bytes[..|s.shared.image.value|];
      assert Kept(s.log.accepted) == Some(f) && !RequestRunning(s);
    }
  }

  lemma AcceptKeepsRecords(s: State)
    requires SentInv(s) && GoodInv(s) && s.cap.CapLocked? && !s.aborted
    ensures SentInv(Accept(s)) && GoodInv(Accept(s))
  {
    hide KeptBytes, Good;
    var n, more := |s.log.shown|, s.log.accepted + [s.cap.frame];
    PrefixesKept(s.log.accepted, s.cap.frame, s.log.sent);
    assert more[..n] == s.log.accepted[..n];
    assert n < |s.log.accepted| ==> more[..n + 1] == s.log.accepted[..n + 1];
  }

  lemma CaptureKeepsRecords(s: State, c: CaptureStep)
    requires SentInv(s) && GoodInv(s) && CaptureEnabled(s, c) && !s.aborted
    ensures SentInv(CaptureDo(s, c)) && GoodInv(CaptureDo(s, c))
  {
    hide KeptBytes, Good, Accept, Snoc;
    if c.CapTest? {
      AcceptKeepsRecords(s);
    }
  }

  lemma PrefixesKept(accepted: seq<Frame>, f: Frame, sent: seq<seq<int>>)
    requires |sent| <= |accepted| && forall i :: 0 <= i < |sent| ==> KeptBytes(accepted[..i + 1]) == Some(sent[i])
    ensures forall i :: 0 <= i < |sent| ==> KeptBytes((accepted + [f])[..i + 1]) == Some(sent[i])
  {
    forall i | 0 <= i < |sent| ensures KeptBytes((accepted + [f])[..i + 1]) == Some(sent[i]) {
      assert (accepted + [f])[..i + 1] == accepted[..i + 1];
    }
  }

  lemma WorkerKeeps(s: State, w: WorkerStep)
    requires MutexInv(s) && TokenInv(s) && CountInv(s) && WorkerEnabled(s, w)
    ensures MutexInv(WorkerDo(s, w)) && TokenInv(WorkerDo(s, w)) && CountInv(WorkerDo(s, w))
  {
    hide Snoc;
  }

  lemma WorkerKeepsFrame(s: State, w: WorkerStep)
    requires MutexInv(s) && FrameInv(s) && WorkerEnabled(s, w)
    ensures FrameInv(WorkerDo(s, w))
  {
    hide KeptBytes, KeptTyped;
  }

  lemma WorkerKeepsRecords(s: State, w: WorkerStep)
    requires TokenInv(s) && FrameInv(s) && CountInv(s) && SentInv(s) && GoodInv(s) && WorkerEnabled(s, w)
    ensures SentInv(WorkerDo(s, w)) && GoodInv(WorkerDo(s, w))
  {
    hide Good, Kept, KeptTyped;
    if w.WkFinish? {
      GoodShows(s.log.accepted);
      assert s.log.accepted[..|s.log.sent| + 1] == s.log.accepted;
      assert s.shared.image.Some? ==> s.wk.read == s.shared.image.value;
    }
  }

  lemma MainKeeps(s: State, m: MainStep)
    requires MutexInv(s) && TokenInv(s) && CountInv(s) && MainEnabled(s, m)
    ensures MutexInv(MainDo(s, m)) && TokenInv(MainDo(s, m)) && CountInv(MainDo(s, m))
  {
    hide Snoc;
  }

  lemma MainKeepsFrame(s: State, m: MainStep)
    requires FrameInv(s) && MainEnabled(s, m)
    ensures FrameInv(MainDo(s, m))
  {
    hide Snoc;
    hide KeptBytes, KeptTyped;
  }

  lemma MainKeepsRecords(s: State, m: MainStep)
    requires MutexInv(s) && FrameInv(s) && CountInv(s) && SentInv(s) && GoodInv(s) && MainEnabled(s, m)
    ensures SentInv(MainDo(s, m)) && GoodInv(MainDo(s, m))
  {
    hide Good, Kept, KeptTyped;
    var n := |s.log.shown|;
    if m.UiShow? {
      assert s.log.accepted[..n + 1] == s.log.accepted && s.log.accepted[..|s.log.accepted| - 1] == s.log.accepted[..n];
      GoodShows(s.log.accepted);
    } else if m.UiDraw? {
      GoodPrefix(s.log.accepted, n + 1);
    }
  }

  lemma StepInv(s: State, e: Step)
    requires Inv(s) && Enabled(s, e)
    ensures Inv(Do(s, e))
  {
    hide MutexInv, TokenInv, FrameInv, CountInv, SentInv, GoodInv, CaptureDo, WorkerDo, MainDo;
    hide CaptureEnabled, WorkerEnabled, MainEnabled;
    match e
    case OfCapture(c) =>
      CaptureKeeps(s, c);
      CaptureKeepsFrame(s, c);
      CaptureKeepsRecords(s, c);
    case OfWorker(w) =>
      WorkerKeeps(s, w);
      WorkerKeepsFrame(s, w);
      WorkerKeepsRecords(s, w);
    case OfMain(m) =>
      MainKeeps(s, m);
      MainKeepsFrame(s, m);
      MainKeepsRecords(s, m);
  }

  /** `t` is reached from `s` by an interleaving of the three threads. */
  predicate IsRun(s: State, steps: seq<Step>, t: State)
    decreases |steps|
  {
    if steps == [] then s == t
    else Enabled(s, steps[0]) && IsRun(Do(s, steps[0]), steps[1..], t)
  }

  lemma {:induction false} RunInv(s: State, steps: seq<Step>, t: State)
    requires Inv(s) && IsRun(s, steps, t)
    ensures Inv(t)
    decreases |steps|
  {
    hide Inv, Do, Enabled;
    if steps != [] {
      StepInv(s, steps[0]);
      RunInv(Do(s, steps[0]), steps[1..], t);
    }
  }

  /** In every interleaving before shutdown there is at most one token, and is_busy is set exactly when there
      is one. */
  lemma BusyExactlyWhenToken(s: State, steps: seq<Step>, t: State)
    requires Initial(s) && IsRun(s, steps, t) && !t.quit
    ensures Tokens(t) <= 1 && (t.busy <==> Tokens(t) == 1)
  {
    InitInv(s);
    RunInv(s, steps, t);
    hide FrameInv, CountInv, SentInv, GoodInv;
  }

  /** While ai_request reads the shared frame without the lock, no step of any thread changes it, also
      during shutdown. */
  lemma FrameStableDuringRequest(s: State, steps: seq<Step>, t: State, e: Step)
    requires Initial(s) && IsRun(s, steps, t) && RequestRunning(t) && Enabled(t, e)
    ensures Do(t, e).shared == t.shared && t.shared.image == KeptBytes(t.log.accepted)
  {
    InitInv(s);
    RunInv(s, steps, t);
    hide Kept, KeptTyped, CountInv, SentInv, GoodInv;
    assert Tokens(t) - One(WakeupPending(t)) <= 1;
    assert !CaptureHasToken(t);
    if e == OfCapture(CapTest) {
      assert t.busy;
    }
  }

  /** Every request that finishes has read one whole frame: the i-th request read what copying the first
      i+1 accepted frames left. What is displayed is what was requested, in order. */
  lemma RequestsReadWholeFrames(s: State, steps: seq<Step>, t: State)
    requires Initial(s) && IsRun(s, steps, t)
    ensures |t.log.shown| <= |t.log.sent| <= |t.log.accepted|
    ensures forall i :: 0 <= i < |t.log.sent| ==> KeptBytes(t.log.accepted[..i + 1]) == Some(t.log.sent[i])
    ensures forall i :: 0 <= i < |t.log.shown| ==> t.log.sent[i] == t.log.shown[i]
    ensures !t.quit ==> |t.log.accepted| <= |t.log.sent| + 1 && |t.log.sent| <= |t.log.shown| + 2 && t.lostSignals == 0
  {
    InitInv(s);
    RunInv(s, steps, t);
    hide Kept, FrameInv, GoodInv;
  }

  /** Nothing is in progress. */
  predicate Quiet(s: State) {
    s.mutex.Free? && Tokens(s) == 0 && !s.ui.UiDrawing?
  }

  /** A run whose hand-offs are over has been ended by a failed assertion exactly when some accepted frame could
      not be handled: the first was no picture, one could not be parsed, or one was too small to draw. Only
      frames that could be handled are ever displayed. */
  lemma AbortsExactly(s: State, steps: seq<Step>, t: State)
    requires Initial(s) && IsRun(s, steps, t)
    ensures |t.log.shown| <= |t.log.accepted| && Good(t.log.accepted[..|t.log.shown|])
    ensures t.aborted ==> !Good(t.log.accepted)
    ensures !t.quit && (t.aborted || Quiet(t)) ==> (t.aborted <==> !Good(t.log.accepted))
  {
    InitInv(s);
    RunInv(s, steps, t);
    hide Kept, FrameInv, Good;
    assert |t.log.shown| == |t.log.accepted| ==> t.log.accepted[..|t.log.shown|] == t.log.accepted;
  }

  /** Bounds on the steps each thread can take without a new frame, when the image has n bytes. */
  function CapRank(cap: CapturePc, n: nat): nat {
    match cap
    case CapIdle => 0
    case CapUnlocking => 1
    case CapSignalling => 13 + n
    case CapCopying(f) => if f.Picture? then 14 + |f.bytes| + 3 * (if n <= |f.bytes| then |f.bytes| - n else 0) else 0
    case CapLocked(f) => if f.Picture? then 16 + 4 * |f.bytes| + n else 16 + n
  }

  function WkRank(wk: WorkerPc, n: nat): nat {
    match wk
    case WkWaiting => 0
    case WkExited => 0
    case WkEntering => 1
    case WkLooping => 2
    case WkLocked => 7
    case WkDone => 8
    case WkReading(read) => 9 + (if |read| <= n then n - |read| else 0)
    case WkHolding => 10 + n
    case WkWoken => 11 + n
  }

  function UiRank(ui: UiPc): nat {
    match ui
    case UiIdle => 0
    case UiDrawing(_) => 1
    case UiLocked => 2
    case UiStarted => 3
  }

  function Size(image: Option<seq<int>>): nat { if image.None? then 0 else |image.value| }

  ghost function Rank(s: State): nat {
    var n := Size(s.shared.image);
    CapRank(s.cap, n) + WkRank(s.wk, n) + 4 * s.idles + UiRank(s.ui) + (if s.quit && !s.woken then 12 + n else 0)
  }

  /** A step that is enabled whenever the hand-off is not over: the lock holder's, or the token's. */
  function NextStep(s: State): Step {
    match s.mutex
    case Capture => OfCapture(HolderStep(s.cap))
    case Worker => OfWorker(WorkerHolderStep(s.wk))
    case Ui => OfMain(UiShow)
    case Free =>
      if s.wk.WkWoken? then OfWorker(WkAcquire)
      else if s.wk.WkReading? then OfWorker(ReadStep(s))
      else if s.wk.WkDone? then OfWorker(WkLock)
      else if s.ui.UiStarted? then OfMain(UiLock)
      else if s.ui.UiDrawing? then OfMain(UiDraw)
      else OfMain(UiDispatch)
  }

  function HolderStep(cap: CapturePc): CaptureStep {
    match cap
    case CapLocked(_) => CapTest
    case CapCopying(_) => CapCopy
    case CapSignalling => CapSignal
    case _ => CapUnlock
  }

  function WorkerHolderStep(wk: WorkerPc): WorkerStep {
    match wk
    case WkHolding => WkStart
    case WkLocked => WkQueue
    case WkLooping => WkLoop
    case _ => WkWait
  }

  function ReadStep(s: State): WorkerStep
    requires s.wk.WkReading?
  {
    if s.shared.image.Some? && |s.wk.read| < |s.shared.image.value| then WkRead else WkFinish
  }

  /** The holder of the mutex can go on, before and during shutdown. */
  lemma CaptureAdvances(s: State)
    requires MutexInv(s) && TokenInv(s) && FrameInv(s) && s.mutex.Capture?
    ensures var c := HolderStep(s.cap);
      && CaptureEnabled(s, c) && Rank(CaptureDo(s, c)) < Rank(s)
      && s.log.accepted <= CaptureDo(s, c).log.accepted && CaptureDo(s, c).quit == s.quit
  {
    hide KeptBytes, KeptTyped, UiRank, Snoc;
  }

  lemma WorkerAdvances(s: State)
    requires MutexInv(s) && s.mutex.Worker?
    ensures var w := WorkerHolderStep(s.wk);
      && WorkerEnabled(s, w) && Rank(WorkerDo(s, w)) < Rank(s)
      && s.log.accepted == WorkerDo(s, w).log.accepted && WorkerDo(s, w).quit == s.quit
  {
    hide CapRank, UiRank, Size;
  }

  /** A request can go on. */
  lemma RequestAdvances(s: State)
    requires FrameInv(s) && s.wk.WkReading?
    ensures var w := ReadStep(s);
      && WorkerEnabled(s, w) && (WorkerDo(s, w).aborted || Rank(WorkerDo(s, w)) < Rank(s))
      && s.log.accepted == WorkerDo(s, w).log.accepted && WorkerDo(s, w).quit == s.quit
  {
    hide KeptBytes, KeptTyped, CapRank, UiRank, Snoc;
  }

  lemma NextStepAdvances(s: State)
    requires Inv(s) && !s.quit && !s.aborted && !Quiet(s)
    ensures Enabled(s, NextStep(s)) && !Do(s, NextStep(s)).quit && s.log.accepted <= Do(s, NextStep(s)).log.accepted
    ensures Do(s, NextStep(s)).aborted || Rank(Do(s, NextStep(s))) < Rank(s)
  {
    if s.mutex.Capture? {
      CaptureAdvances(s);
    } else if s.mutex.Worker? {
      WorkerAdvances(s);
    }
    if s.wk.WkReading? {
      RequestAdvances(s);
    }
    hide CaptureDo, FrameInv, SentInv, CountInv, GoodInv, HolderStep, WorkerHolderStep, ReadStep;
  }

  /** No hand-off blocks: from every reachable state the threads can finish what is in progress without
      another frame arriving, and then every accepted frame has been displayed or the program has ended. */
  lemma {:induction false} HandOffCompletes(s: State) returns (steps: seq<Step>, t: State)
    requires Inv(s) && !s.quit
    ensures IsRun(s, steps, t) && !t.quit && Inv(t) && s.log.accepted <= t.log.accepted
    ensures t.aborted || (Quiet(t) && !t.busy && |t.log.shown| == |t.log.accepted|)
    decreases if s.aborted then 0 else 1, Rank(s)
  {
    hide FrameInv, SentInv, GoodInv, Rank, NextStep;
    if s.aborted || Quiet(s) {
      steps, t := [], s;
    } else {
      NextStepAdvances(s);
      var e := NextStep(s);
      StepInv(s, e);
      hide Inv;
      steps, t := HandOffCompletes(Do(s, e));
      steps := [e] + steps;
    }
  }

  lemma {:induction false} RunsJoin(s: State, a: seq<Step>, t: State, b: seq<Step>, u: State)
    requires IsRun(s, a, t) && IsRun(t, b, u)
    ensures IsRun(s, a + b, u)
    decreases |a|
  {
    hide Do, Enabled;
    if a == [] {
      assert a + b == b;
    } else {
      assert (a + b)[1..] == a[1..] + b;
      RunsJoin(Do(s, a[0]), a[1..], t, b, u);
    }
  }

  lemma AcceptsFirst(s: State, f: Frame) returns (steps: seq<Step>, t: State)
    requires Initial(s)
    ensures IsRun(s, steps, t) && !t.quit && t.log.accepted == [f]
  {
    var s1 := Do(s, OfCapture(CapLock(f)));
    t := Do(s1, OfCapture(CapTest));
    assert IsRun(t, [], t);
    RunStep(s1, OfCapture(CapTest), [], t);
    RunStep(s, OfCapture(CapLock(f)), [OfCapture(CapTest)] + [], t);
    steps := [OfCapture(CapLock(f))] + ([OfCapture(CapTest)] + []);
  }

  /** Every first frame that cannot be handled has a run that ends the program. */
  lemma BadFirstFrameAborts(s: State, f: Frame) returns (steps: seq<Step>, t: State)
    requires Initial(s) && !Good([f])
    ensures IsRun(s, steps, t) && t.aborted && t.log.accepted != [] && t.log.accepted[0] == f
  {
    InitInv(s);
    hide Inv, IsRun, Good, Initial;
    var first, accepted := AcceptsFirst(s, f);
    RunInv(s, first, accepted);
    var more;
    more, t := HandOffCompletes(accepted);
    RunsJoin(s, first, accepted, more, t);
    steps := first + more;
    AbortsExactly(s, steps, t);
    GoodPrefix(t.log.accepted, 1);
    assert t.log.accepted[..1] == [f];
  }

  lemma RunStep(s: State, e: Step, steps: seq<Step>, t: State)
    requires Enabled(s, e) && IsRun(Do(s, e), steps, t)
    ensures IsRun(s, [e] + steps, t)
  {
    assert ([e] + steps)[1..] == steps;
  }

  // Shutting down.

  /** pthread_join returns, or the program has ended anyway. */
  predicate Ended(s: State) { s.wk.WkExited? || s.aborted }

  ghost predicate CanEnd(s: State) {
    exists steps, t :: IsRun(s, steps, t) && Ended(t)
  }

  /** The worker has missed the broadcast, and nothing will wake it any more. */
  predicate Hung(s: State) {
    s.woken && (s.wk.WkEntering? || s.wk.WkWaiting?)
  }

  lemma {:induction false} HungForever(s: State, steps: seq<Step>, t: State)
    requires Inv(s) && Hung(s) && !s.aborted && IsRun(s, steps, t)
    ensures Hung(t) && !Ended(t)
    decreases |steps|
  {
    if steps != [] {
      StepInv(s, steps[0]);
      HungStep(s, steps[0]);
      hide Inv, Do, Enabled, Hung;
      HungForever(Do(s, steps[0]), steps[1..], t);
    }
  }

  lemma HungStep(s: State, e: Step)
    requires MutexInv(s) && TokenInv(s) && Hung(s) && Enabled(s, e)
    ensures Hung(Do(s, e)) && !Do(s, e).aborted
  {
    hide Snoc;
  }

  lemma EndsBy(s: State, e: Step)
    requires Enabled(s, e) && CanEnd(Do(s, e))
    ensures CanEnd(s)
  {
    var steps, t :| IsRun(Do(s, e), steps, t) && Ended(t);
    assert ([e] + steps)[1..] == steps;
    assert IsRun(s, [e] + steps, t);
  }

  lemma EndedCanEnd(s: State)
    requires Ended(s)
    ensures CanEnd(s)
  {
    assert IsRun(s, [], s);
  }

  /** While shutting down, a step that brings the worker closer to its exit. */
  function ClosingStep(s: State): Step {
    if s.mutex.Capture? then OfCapture(HolderStep(s.cap))
    else if s.mutex.Worker? then OfWorker(WorkerHolderStep(s.wk))
    else if s.wk.WkWaiting? then OfMain(Broadcast)
    else if s.wk.WkWoken? then OfWorker(WkAcquire)
    else if s.wk.WkReading? then OfWorker(ReadStep(s))
    else OfWorker(WkLock)
  }

  lemma ClosingStepAdvances(s: State)
    requires Inv(s) && s.quit && !Ended(s) && !Hung(s)
    ensures var e := ClosingStep(s); Enabled(s, e) && Do(s, e).quit && (Ended(Do(s, e)) || Rank(Do(s, e)) < Rank(s))
    ensures !Hung(Do(s, ClosingStep(s)))
  {
    if s.mutex.Capture? {
      CaptureAdvances(s);
    } else if s.mutex.Worker? {
      WorkerAdvances(s);
    }
    if s.wk.WkReading? {
      RequestAdvances(s);
    }
    hide FrameInv, SentInv, CountInv, GoodInv;
  }

  lemma {:induction false} ClosingEnds(s: State)
    requires Inv(s) && s.quit && !Hung(s)
    ensures CanEnd(s)
    decreases if Ended(s) then 0 else 1, Rank(s)
  {
    hide Rank, ClosingStep, FrameInv, SentInv, CountInv, GoodInv, TokenInv;
    if Ended(s) {
      EndedCanEnd(s);
    } else {
      ClosingStepAdvances(s);
      StepInv(s, ClosingStep(s));
      hide Inv;
      ClosingEnds(Do(s, ClosingStep(s)));
      EndsBy(s, ClosingStep(s));
    }
  }

  /** Shutdown completes from every state reachable from `s`. */
  ghost predicate AlwaysCompletes(s: State) {
    forall steps, t :: IsRun(s, steps, t) ==> CanEnd(t)
  }

  /** Once shutdown has begun it is sure to complete exactly when the worker is not between the test of quit
      in its loop head and its wait: there it can miss the broadcast, which is sent without the lock. */
  lemma ShutdownCompletesExactly(s: State)
    requires Inv(s) && s.quit && !s.woken && !s.aborted
    ensures AlwaysCompletes(s) <==> !s.wk.WkEntering?
  {
    if s.wk.WkEntering? {
      var t := Do(s, OfMain(Broadcast));
      StepInv(s, OfMain(Broadcast));
      assert IsRun(t, [], t) && [OfMain(Broadcast)][1..] == [];
      assert IsRun(s, [OfMain(Broadcast)], t);
      forall steps, u | IsRun(t, steps, u) ensures !Ended(u) {
        HungForever(t, steps, u);
      }
      assert !CanEnd(t);
    } else {
      forall steps, t | IsRun(s, steps, t) ensures CanEnd(t) {
        ClosingRun(s, steps, t);
        RunInv(s, steps, t);
        ClosingEnds(t);
      }
    }
  }

  lemma {:induction false} ClosingRun(s: State, steps: seq<Step>, t: State)
    requires Inv(s) && s.quit && !s.wk.WkEntering? && !Hung(s) && IsRun(s, steps, t)
    ensures t.quit && !t.wk.WkEntering? && !Hung(t)
    decreases |steps|
  {
    if steps != [] {
      StepInv(s, steps[0]);
      ClosingRunStep(s, steps[0]);
      hide Inv, Do, Enabled, Hung;
      ClosingRun(Do(s, steps[0]), steps[1..], t);
    }
  }

  lemma ClosingRunStep(s: State, e: Step)
    requires s.quit && !s.wk.WkEntering? && !Hung(s) && Enabled(s, e)
    ensures var t := Do(s, e); t.quit && !t.wk.WkEntering? && !Hung(t)
  {
    hide Snoc;
  }

  lemma RunFrom(s: State, steps: seq<Step>, t: State, e: Step)
    requires IsRun(s, steps, t) && Enabled(t, e)
    ensures IsRun(s, steps + [e], Do(t, e))
    decreases |steps|
  {
    if steps == [] {
      assert [e][1..] == [] && steps + [e] == [e];
    } else {
      assert (steps + [e])[1..] == steps[1..] + [e];
      RunFrom(Do(s, steps[0]), steps[1..], t, e);
    }
  }

  /** Such a run: the program is closed just as the worker has finished its first request. */
  lemma ShutdownHangs(s: State) returns (steps: seq<Step>, t: State)
    requires Initial(s)
    ensures IsRun(s, steps, t) && Hung(t) && !CanEnd(t)
  {
    var captured, captureSteps := FirstCapture(s);
    var looping, requestSteps := FirstRequest(captured);
    var quit := Do(looping, OfMain(Quit));
    t := Do(quit, OfMain(Broadcast));
    hide IsRun;
    RunsJoin(s, captureSteps, captured, requestSteps, looping);
    RunFrom(s, captureSteps + requestSteps, looping, OfMain(Quit));
    RunFrom(s, captureSteps + requestSteps + [OfMain(Quit)], quit, OfMain(Broadcast));
    steps := captureSteps + requestSteps + [OfMain(Quit)] + [OfMain(Broadcast)];
    InitInv(s);
    RunInv(s, steps, t);
    forall more, u | IsRun(t, more, u) ensures !Ended(u) {
      HungForever(t, more, u);
    }
  }

  /** One empty but large picture is captured and the worker woken. */
  lemma FirstCapture(s: State) returns (t: State, steps: seq<Step>)
    requires Initial(s)
    ensures IsRun(s, steps, t) && t.wk.WkWoken? && t.mutex.Free? && t.ui.UiIdle? && t.shared.image == Some([])
    ensures !t.quit && !t.woken && !t.aborted
  {
    var f := OfCapture(CapLock(Picture([], true)));
    var s1 := Do(s, f);
    var s2 := Do(s1, OfCapture(CapTest));
    var s3 := Do(s2, OfCapture(CapCopy));
    var s4 := Do(s3, OfCapture(CapSignal));
    t := Do(s4, OfCapture(CapUnlock));
    assert IsRun(t, [], t);
    hide IsRun;
    RunStep(s4, OfCapture(CapUnlock), [], t);
    RunStep(s3, OfCapture(CapSignal), [OfCapture(CapUnlock)] + [], t);
    RunStep(s2, OfCapture(CapCopy), [OfCapture(CapSignal)] + ([OfCapture(CapUnlock)] + []), t);
    steps := [OfCapture(CapCopy)] + ([OfCapture(CapSignal)] + ([OfCapture(CapUnlock)] + []));
    RunStep(s1, OfCapture(CapTest), steps, t);
    steps := [OfCapture(CapTest)] + steps;
    RunStep(s, f, steps, t);
    steps := [f] + steps;
  }

  /** The worker answers it and has passed the test of its loop head. */
  lemma FirstRequest(s: State) returns (t: State, steps: seq<Step>)
    requires s.wk.WkWoken? && s.mutex.Free? && s.ui.UiIdle? && s.shared.image == Some([])
    requires !s.quit && !s.woken && !s.aborted
    ensures IsRun(s, steps, t) && t.wk.WkEntering? && t.ui.UiIdle? && !t.quit && !t.woken && !t.aborted
  {
    var s1 := Do(s, OfWorker(WkAcquire));
    var s2 := Do(s1, OfWorker(WkStart));
    var s3 := Do(s2, OfWorker(WkFinish));
    var s4 := Do(s3, OfWorker(WkLock));
    var s5 := Do(s4, OfWorker(WkQueue));
    t := Do(s5, OfWorker(WkLoop));
    steps := [];
    assert IsRun(t, steps, t);
    hide IsRun;
    RunStep(s5, OfWorker(WkLoop), steps, t);
    steps := [OfWorker(WkLoop)] + steps;
    RunStep(s4, OfWorker(WkQueue), steps, t);
    steps := [OfWorker(WkQueue)] + steps;
    RunStep(s3, OfWorker(WkLock), steps, t);
    steps := [OfWorker(WkLock)] + steps;
    RunStep(s2, OfWorker(WkFinish), steps, t);
    steps := [OfWorker(WkFinish)] + steps;
    RunStep(s1, OfWorker(WkStart), steps, t);
    steps := [OfWorker(WkStart)] + steps;
    RunStep(s, OfWorker(WkAcquire), steps, t);
    steps := [OfWorker(WkAcquire)] + steps;
  }
}

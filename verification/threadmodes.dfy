/** Thread modes: the suffix of a handler's name selects one, and the mode
    together with the posting thread decides how a matched subscription is
    delivered. */
module ThreadModes {
  import opened BusErrors

  datatype ThreadMode = PostThread | MainThread | BackgroundThread | Async

  /** What `postToSubscription` does with one subscription. */
  datatype Delivery = InvokeNow | EnqueueMain | EnqueueBackground | EnqueueAsync

  /** The thread a delivered handler ends up running on. */
  datatype Runner = PostingThread | MainLooper | BackgroundWorker | PoolWorker

  /** The name suffix after `onEvent` that selects each mode. */
  function Suffix(mode: ThreadMode): string {
    match mode
    case PostThread => ""
    case MainThread => "MainThread"
    case BackgroundThread => "BackgroundThread"
    case Async => "Async"
  }

  /** The suffix-to-mode table of `getThreadMode`; None for an unknown
      suffix (the caller decides whether that is an error). */
  function ModeOfSuffix(suffix: string): (r: Option<ThreadMode>)
    ensures r.Some? ==> Suffix(r.value) == suffix
    ensures forall m: ThreadMode :: Suffix(m) == suffix ==> r == Some(m)
  {
    if |suffix| == 0 then Some(PostThread)
    else if suffix == "MainThread" then Some(MainThread)
    else if suffix == "BackgroundThread" then Some(BackgroundThread)
    else if suffix == "Async" then Some(Async)
    else None
  }

  /** Where a delivery runs the handler. */
  function RunsOn(d: Delivery): Runner {
    match d
    case InvokeNow => PostingThread
    case EnqueueMain => MainLooper
    case EnqueueBackground => BackgroundWorker
    case EnqueueAsync => PoolWorker
  }

  /** The handler of a delivery made from a thread that is (or is not) the
      main thread runs on the main thread. */
  predicate OnMainThread(d: Delivery, isMainThread: bool) {
    RunsOn(d) == MainLooper || (RunsOn(d) == PostingThread && isMainThread)
  }

  /** `postToSubscription`: the dispatch table over (mode, posting thread is
      the main thread). It keeps each mode's affinity promise — PostThread
      handlers run on the posting thread, MainThread handlers always on the
      main thread, BackgroundThread handlers never on it and never on the
      pool, Async handlers always on the pool — and defers only when running
      inline would break that promise. */
  function Route(mode: ThreadMode, isMainThread: bool): (d: Delivery)
    ensures mode == PostThread ==> RunsOn(d) == PostingThread
    ensures mode == MainThread ==> OnMainThread(d, isMainThread)
    ensures mode == BackgroundThread ==> !OnMainThread(d, isMainThread) && RunsOn(d) != PoolWorker
    ensures mode == Async ==> RunsOn(d) == PoolWorker
    ensures d != InvokeNow ==>
      mode == Async || (mode == MainThread && !isMainThread) || (mode == BackgroundThread && isMainThread)
  {
    match mode
    case PostThread => InvokeNow
    case MainThread => if isMainThread then InvokeNow else EnqueueMain
    case BackgroundThread => if isMainThread then EnqueueBackground else InvokeNow
    case Async => EnqueueAsync
  }
}

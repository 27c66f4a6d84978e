/**
 * The request slot: WebCachedImageView (the view, holding a reference to
 * its current BitmapWorkerTask) and BitmapWorkerTask (the asynchronous
 * lookup, holding a reference back to its view). The two classes refer to
 * each other, so they share this module.
 */
module ImageView {
  import opened Wrappers
  import JavaInt
  import opened Images
  import Sampling
  import Cache

  /** A java.lang.String object: urls are compared by reference in cancelPotentialWork. */
  class JString {
    const value: string

    constructor(value: string)
      ensures this.value == value
    {
      this.value := value;
    }
  }

  /** The arguments execute passes to doInBackground: url, cache manager, width, height. */
  datatype Arguments = Arguments(url: JString, cacheMgr: Cache.CacheManager, width: int, height: int)

  /** Where doInBackground found its bitmap. */
  datatype Origin = Memory | Disk | Network

  /** The network and storage outcomes a run of doInBackground meets. */
  datatype Environment = Environment(
    codec: Codec,
    init: Cache.InitOutcome,       // how the disk initialiser ends, should the lookup wait for it
    lookupFails: bool,             // IOException reading the disk record
    boundsFetch: Response,         // first GET of decodeSampledBitmapFromUrl
    imageFetch: Response,          // second GET
    faults: Cache.DiskFaults)      // IOExceptions while writing the disk record

  /** What a run of doInBackground returns, where it found it, and the tiers it leaves. */
  datatype Outcome = Outcome(bitmap: Option<Bitmap>, origin: Origin, tiers: Cache.Tiers)

  /** The bitmap decodeSampledBitmapFromUrl gives, null when it throws an IOException. */
  function Download(width: int, height: int, env: Environment): (b: Option<Bitmap>)
    ensures env.boundsFetch.IOFailure? || env.imageFetch.IOFailure? ==> b == None
    ensures env.boundsFetch.Body? && env.imageFetch.Body? ==>
      var (outWidth, outHeight) := env.codec.bounds(env.boundsFetch.bytes);
      b == env.codec.decode(env.imageFetch.bytes, Sampling.CalculateInSampleSize(outWidth, outHeight, width, height))
  {
    var fetched := Sampling.DecodeSampledBitmapFromUrl(width, height, env.codec, env.boundsFetch, env.imageFetch);
    if fetched.Success? then fetched.value else None
  }

  /**
   * doInBackground on tiers `t`: memory first; the disk, after waiting for
   * its initialiser, only on a memory miss; the network only when both
   * miss. A hit writes nothing (a disk hit is not copied into memory); a
   * downloaded bitmap is written to both tiers; a failed or empty download
   * writes nothing.
   */
  function Work(t: Cache.Tiers, url: string, width: int, height: int, env: Environment): (o: Outcome)
    ensures var key := Cache.GetFileName(url, width, height);
      o.origin == Memory <==> Cache.HasMode(t.mode, Cache.MODE_MEMORY) && key in t.memory
    ensures var key := Cache.GetFileName(url, width, height);
      o.origin == Memory ==> o.bitmap == Some(t.memory[key]) && o.tiers == t
    ensures var key := Cache.GetFileName(url, width, height); var waited := Cache.AfterWait(t, env.init);
      o.origin == Disk ==>
        && Cache.HasMode(t.mode, Cache.MODE_DISK) && waited.diskState == Cache.Ready && key in waited.disk
        && !env.lookupFails && o.bitmap.Some? && o.bitmap == env.codec.decode(waited.disk[key], 1) && o.tiers == waited
    ensures var key := Cache.GetFileName(url, width, height); var waited := Cache.AfterWait(t, env.init);
      && !(Cache.HasMode(t.mode, Cache.MODE_MEMORY) && key in t.memory)
      && Cache.HasMode(t.mode, Cache.MODE_DISK) && waited.diskState == Cache.Ready && !env.lookupFails
      && key in waited.disk && env.codec.decode(waited.disk[key], 1).Some? ==>
        o.origin == Disk
    ensures o.origin == Network ==> o.bitmap == Download(width, height, env)
    ensures o.bitmap.None? ==> o.origin == Network && o.tiers == Cache.AfterWait(t, env.init)
    ensures o.origin != Memory ==> !(Cache.HasMode(o.tiers.mode, Cache.MODE_DISK) && o.tiers.diskState == Cache.Starting)
    ensures var key := Cache.GetFileName(url, width, height);
      o.origin == Network && o.bitmap.Some? && Cache.HasMode(t.mode, Cache.MODE_MEMORY) ==>
        key in o.tiers.memory && o.tiers.memory[key] == o.bitmap.value
    ensures var key := Cache.GetFileName(url, width, height);
      o.origin == Network && o.bitmap.Some? ==>
        o.tiers == Cache.Store(Cache.AfterWait(t, env.init), key, o.bitmap.value, env.codec, env.faults)
  {
    var key := Cache.GetFileName(url, width, height);
    if Cache.HasMode(t.mode, Cache.MODE_MEMORY) && key in t.memory then
      Outcome(Some(t.memory[key]), Memory, t)
    else
      var waited := Cache.AfterWait(t, env.init);
      var stored := if Cache.HasMode(t.mode, Cache.MODE_DISK) && waited.diskState == Cache.Ready
                       && !env.lookupFails && key in waited.disk
                    then env.codec.decode(waited.disk[key], 1) else None;
      if stored.Some? then
        Outcome(stored, Disk, waited)
      else
        var bitmap := Download(width, height, env);
        if bitmap.None? then Outcome(None, Network, waited)
        else Outcome(bitmap, Network, Cache.Store(waited, key, bitmap.value, env.codec, env.faults))
  }

  /** Every run leaves coherent tiers coherent. */
  lemma WorkKeepsCoherent(t: Cache.Tiers, url: string, width: int, height: int, env: Environment)
    requires Cache.Coherent(t)
    ensures Cache.Coherent(Work(t, url, width, height, env).tiers)
  {
  }

  /**
   * With MODE_MEMORY on, a downloaded bitmap answers the same request next
   * time from memory, whatever the network and disk would do then.
   */
  lemma DownloadServedFromMemoryNext(t: Cache.Tiers, url: string, width: int, height: int, env: Environment, later: Environment)
    requires Cache.HasMode(t.mode, Cache.MODE_MEMORY)
    requires Work(t, url, width, height, env).origin == Network && Work(t, url, width, height, env).bitmap.Some?
    ensures var o := Work(t, url, width, height, env);
      Work(o.tiers, url, width, height, later) == Outcome(o.bitmap, Memory, o.tiers)
  {
  }

  /**
   * A disk hit is not copied into memory: the same request again misses
   * memory, reads the disk again, and gets the same bitmap.
   */
  lemma DiskHitRepeats(t: Cache.Tiers, url: string, width: int, height: int, env: Environment)
    requires Work(t, url, width, height, env).origin == Disk
    ensures var o := Work(t, url, width, height, env);
      Work(o.tiers, url, width, height, env) == o
  {
  }

  /** Caching one size of a url does not answer a request for another size from memory. */
  lemma OtherSizeStillMisses(t: Cache.Tiers, url: string, width1: int, height1: int, width2: int, height2: int,
                             env: Environment, later: Environment)
    requires width1 != width2 || height1 != height2
    requires Work(t, url, width2, height2, later).origin != Memory
    ensures Work(Work(t, url, width1, height1, env).tiers, url, width2, height2, later).origin != Memory
  {
    Cache.SizesGiveDistinctNames(url, width1, height1, width2, height2);
  }

  class BitmapWorkerTask {
    /** The view mImageViewReference was made with. */
    const view: WebCachedImageView
    /** The public `url` field: null until doInBackground starts. */
    var url: JString?
    var cancelled: bool
    var arguments: Option<Arguments>

    constructor(view: WebCachedImageView)
      ensures this.view == view && url == null && !cancelled && arguments == None
    {
      this.view := view;
      url := null;
      cancelled := false;
      arguments := None;
    }

    /** AsyncTask.execute: hands over the arguments; doInBackground runs later. */
    method Execute(args: Arguments)
      modifies this
      ensures arguments == Some(args) && url == old(url) && cancelled == old(cancelled)
    {
      arguments := Some(args);
    }

    /** AsyncTask.cancel(true): advisory; the task may still run to completion. */
    method Cancel()
      modifies this
      ensures cancelled && url == old(url) && arguments == old(arguments)
    {
      cancelled := true;
    }

    /** doInBackground: the lookup Work specifies, on the tiers of the manager it was given. */
    method DoInBackground(a: Arguments, env: Environment) returns (bitmap: Option<Bitmap>, ghost origin: Origin)
      requires arguments == Some(a) && a.cacheMgr.Valid()
      modifies this, a.cacheMgr
      ensures arguments == old(arguments) && cancelled == old(cancelled) && url == a.url
      ensures a.cacheMgr.Valid()
      ensures var o := Work(old(a.cacheMgr.Contents()), a.url.value, a.width, a.height, env);
        bitmap == o.bitmap && origin == o.origin && a.cacheMgr.Contents() == o.tiers
    {
      url := a.url;
      var mgr := a.cacheMgr;
      // First, check in memory
      bitmap := mgr.GetCachedOnMemory(a.url.value, a.width, a.height);
      origin := Memory;
      if bitmap.None? {
        // Then, check in disk
        bitmap := mgr.GetCachedOnDisk(a.url.value, a.width, a.height, env.codec, env.init, env.lookupFails);
        origin := Disk;
        if bitmap.None? {
          // No cached versions: download it
          origin := Network;
          var fetched := Sampling.DecodeSampledBitmapFromUrl(a.width, a.height, env.codec, env.boundsFetch, env.imageFetch);
          bitmap := if fetched.Success? then fetched.value else None;  // an IOException leaves it null
          // And cache it
          if bitmap.Some? {
            mgr.CacheOnMemory(a.url.value, bitmap.value, a.width, a.height);
            mgr.CacheOnDisk(a.url.value, bitmap.value, a.width, a.height, env.codec, env.faults);
          }
        }
      }
    }

    /**
     * onPostExecute: shows the bitmap iff the task was not cancelled, the
     * bitmap is non-null, the view is still reachable through the weak
     * reference, and the view's current task is this very task.
     */
    method OnPostExecute(bitmap: Option<Bitmap>, viewReachable: bool)
      requires view.Valid()
      modifies view
      ensures view.Valid()
      ensures view.displayed == if !cancelled && bitmap.Some? && viewReachable && old(view.workerRef) == this
                                then bitmap else old(view.displayed)
      ensures view.workerRef == old(view.workerRef) && view.width == old(view.width) && view.height == old(view.height)
    {
      var result := if cancelled then None else bitmap;
      if result.Some? && viewReachable {
        var current := view.GetBitmapWorkerTask();
        if current == this {
          view.SetImageBitmap(result.value);
        }
      }
    }
  }

  const DEFAULT_MODE: int := Cache.MODE_MEMORY + Cache.MODE_DISK
  const DEFAULT_MEMORY_PERCENT: real := 12.5

  /**
   * What the XML attributes give: the cache mode and memory percent (None
   * when absent), and layout_width / layout_height in pixels (None when
   * absent or not a dimension, e.g. match_parent or wrap_content).
   */
  datatype Attributes = Attributes(mode: Option<int>, memoryPercentToUse: Option<real>,
                                   layoutWidth: Option<int>, layoutHeight: Option<int>)

  function PixelSize(dimension: Option<int>): int {
    if dimension.Some? then dimension.value else -1
  }

  /**
   * The request size init settles on: none without attributes (0 x 0);
   * the layout size when both dimensions are positive; the screen size
   * otherwise.
   */
  function LayoutDimensions(attrs: Option<Attributes>, screen: (int, int)): (d: (int, int))
    ensures attrs.None? ==> d == (0, 0)
    ensures attrs.Some? ==> d == screen || (d.0 > 0 && d.1 > 0)
    ensures attrs.Some? && screen.0 > 0 && screen.1 > 0 ==> d.0 > 0 && d.1 > 0
    ensures attrs.Some? && PixelSize(attrs.value.layoutWidth) > 0 && PixelSize(attrs.value.layoutHeight) > 0 ==>
      d == (attrs.value.layoutWidth.value, attrs.value.layoutHeight.value)
    ensures attrs.Some? && (PixelSize(attrs.value.layoutWidth) <= 0 || PixelSize(attrs.value.layoutHeight) <= 0) ==>
      d == screen
  {
    match attrs
    case None => (0, 0)
    case Some(a) =>
      var width, height := PixelSize(a.layoutWidth), PixelSize(a.layoutHeight);
      if width <= 0 || height <= 0 then screen else (width, height)
  }

  /**
   * A view made without attributes requests 0 x 0: every ratio is a float
   * division by zero, and any image wider and taller than 0 gets the
   * largest int as its sample size.
   */
  lemma NoAttributesSampleMaximally(outWidth: int, outHeight: int)
    requires outWidth > 0 && outHeight > 0
    ensures var (reqWidth, reqHeight) := LayoutDimensions(None, (0, 0));
      Sampling.CalculateInSampleSize(outWidth, outHeight, reqWidth, reqHeight) == JavaInt.MAX_VALUE
  {
  }

  class WebCachedImageView {
    const cacheMgr: Cache.CacheManager
    /** mBitmapWorkerRef.get(): the current task, or null. */
    var workerRef: BitmapWorkerTask?
    var width: int
    var height: int
    /** The bitmap last passed to setImageBitmap. */
    var displayed: Option<Bitmap>

    ghost predicate Valid()
      reads this, workerRef
    {
      workerRef != null ==> workerRef.view == this
    }

    /** The constructors' common init, outside edit mode, once getInstance has given the manager. */
    constructor(cacheMgr: Cache.CacheManager, attrs: Option<Attributes>, screen: (int, int))
      ensures Valid() && this.cacheMgr == cacheMgr && workerRef == null && displayed == None
      ensures (width, height) == LayoutDimensions(attrs, screen)
    {
      this.cacheMgr := cacheMgr;
      workerRef := null;
      displayed := None;
      width, height := 0, 0;
      new;
      if attrs.Some? {
        width := PixelSize(attrs.value.layoutWidth);
        height := PixelSize(attrs.value.layoutHeight);
        // Use the screen dimensions if the view's dimensions are not set.
        if width <= 0 || height <= 0 {
          width, height := screen.0, screen.1;
        }
      }
    }

    /**
     * Both public constructors: the mode and percent come from the
     * attributes, defaulting to MODE_MEMORY | MODE_DISK and 12.5; the
     * manager comes from getInstance, whose exception propagates.
     */
    static method Create(registry: Cache.CacheRegistry, attrs: Option<Attributes>, screen: (int, int), maxMemory: nat)
      returns (r: Result<WebCachedImageView, Cache.ConfigError>)
      requires registry.Valid()
      modifies registry
      ensures registry.Valid()
      ensures var mode := if attrs.Some? && attrs.value.mode.Some? then attrs.value.mode.value else DEFAULT_MODE;
        var percent := if attrs.Some? && attrs.value.memoryPercentToUse.Some? then attrs.value.memoryPercentToUse.value
                       else DEFAULT_MEMORY_PERCENT;
        && (r.Failure? <==> !old(registry.Reuses(mode, percent)) && Cache.MemoryConfig(mode, percent, maxMemory).Failure?)
        && (r.Success? ==>
              && fresh(r.value) && r.value.Valid() && r.value.cacheMgr == registry.instance
              && r.value.cacheMgr.Valid() && r.value.workerRef == null
              && r.value.cacheMgr.mode == mode && r.value.cacheMgr.memoryPercentToUse == percent
              && (r.value.width, r.value.height) == LayoutDimensions(attrs, screen))
    {
      var mode := if attrs.Some? && attrs.value.mode.Some? then attrs.value.mode.value else DEFAULT_MODE;
      var percent := if attrs.Some? && attrs.value.memoryPercentToUse.Some? then attrs.value.memoryPercentToUse.value
                     else DEFAULT_MEMORY_PERCENT;
      var mgr := registry.GetInstance(mode, percent, maxMemory);
      match mgr
      case Failure(e) => r := Failure(e);
      case Success(m) =>
        var view := new WebCachedImageView(m, attrs, screen);
        r := Success(view);
    }

    function GetBitmapWorkerTask(): (task: BitmapWorkerTask?)
      reads this, workerRef
      requires Valid()
      ensures task != null ==> task.view == this
    {
      workerRef
    }

    method SetImageBitmap(bitmap: Bitmap)
      modifies this
      ensures displayed == Some(bitmap) && workerRef == old(workerRef) && width == old(width) && height == old(height)
    {
      displayed := Some(bitmap);
    }

    /**
     * cancelPotentialWork: true when there is no current task, or when the
     * current task's url is a different reference (that task is cancelled);
     * false, cancelling nothing, when it is the same reference.
     */
    method CancelPotentialWork(url: JString) returns (proceed: bool)
      requires Valid()
      modifies workerRef
      ensures proceed <==> workerRef == null || old(workerRef.url) != url
      ensures workerRef != null ==> workerRef.cancelled == (old(workerRef.cancelled) || old(workerRef.url) != url)
      ensures workerRef != null ==> workerRef.url == old(workerRef.url) && workerRef.arguments == old(workerRef.arguments)
    {
      var task := GetBitmapWorkerTask();
      if task != null {
        if url != task.url {
          task.Cancel();  // cancel the previous task
        } else {
          return false;   // the same work is already in progress
        }
      }
      return true;
    }

    /**
     * setImageUrl: for a non-null url that cancelPotentialWork lets through,
     * a new task becomes the current one and is executed with the url, the
     * manager and the view's size; otherwise the current task stays.
     */
    method SetImageUrl(url: JString?) returns (task: BitmapWorkerTask?)
      requires Valid()
      modifies this, workerRef
      ensures Valid() && displayed == old(displayed) && width == old(width) && height == old(height)
      ensures var supersedes := url != null && (old(workerRef) == null || old(workerRef.url) != url);
        && (supersedes ==>
              && task != null && fresh(task) && workerRef == task
              && task.url == null && !task.cancelled
              && task.arguments == Some(Arguments(url, cacheMgr, width, height)))
        && (!supersedes ==> task == null && workerRef == old(workerRef))
        && (old(workerRef) != null ==>
              old(workerRef).cancelled == (old(workerRef.cancelled) || supersedes)
              && old(workerRef).url == old(workerRef.url))
    {
      task := null;
      if url != null {
        var proceed := CancelPotentialWork(url);
        if proceed {
          task := new BitmapWorkerTask(this);
          workerRef := task;
          task.Execute(Arguments(url, cacheMgr, width, height));
        }
      }
    }
  }

  /**
   * Request A, then request B on the same view before A delivers: A's
   * result is dropped and only B's is shown, whichever of the two finishes
   * last.
   */
  method SupersededTaskNeverDelivers(view: WebCachedImageView, a: JString, b: JString,
                                     bitmapA: Bitmap, bitmapB: Bitmap, aFinishesFirst: bool)
    returns (ghost beforeA: Option<Bitmap>, ghost afterA: Option<Bitmap>)
    requires view.Valid() && view.workerRef == null
    modifies view
    ensures afterA == beforeA
    ensures view.displayed == Some(bitmapB)
  {
    var taskA := view.SetImageUrl(a);
    var taskB := view.SetImageUrl(b);
    assert taskA.cancelled && view.workerRef == taskB;
    if aFinishesFirst {
      beforeA := view.displayed;
      taskA.OnPostExecute(Some(bitmapA), true);
      afterA := view.displayed;
      taskB.OnPostExecute(Some(bitmapB), true);
    } else {
      taskB.OnPostExecute(Some(bitmapB), true);
      beforeA := view.displayed;
      taskA.OnPostExecute(Some(bitmapA), true);
      afterA := view.displayed;
    }
  }

  /**
   * Once a task has started on url `a`, asking again with the same `a`
   * reference is a no-op; asking with another String object of equal
   * content cancels and replaces the task.
   */
  method SameReferenceJoinsEqualStringReplaces(view: WebCachedImageView, env: Environment)
    returns (first: BitmapWorkerTask, again: BitmapWorkerTask?, replacement: BitmapWorkerTask?)
    requires view.Valid() && view.workerRef == null && view.cacheMgr.Valid()
    modifies view, view.cacheMgr
    ensures again == null && replacement != null && replacement != first
    ensures first.cancelled && view.workerRef == replacement
  {
    var a := new JString("http://example.com/cat.png");
    var t := view.SetImageUrl(a);
    first := t;
    var _, _ := first.DoInBackground(first.arguments.value, env);
    again := view.SetImageUrl(a);
    assert !first.cancelled && view.workerRef == first;
    var sameText := new JString("http://example.com/cat.png");
    replacement := view.SetImageUrl(sameText);
  }

  /** A task that has not started yet has a null url, so any request replaces it, even with the same reference. */
  method UnstartedTaskIsAlwaysReplaced(view: WebCachedImageView, a: JString)
    returns (first: BitmapWorkerTask?, second: BitmapWorkerTask?)
    requires view.Valid() && view.workerRef == null
    modifies view
    ensures first != null && second != null && first != second && first.cancelled && view.workerRef == second
  {
    first := view.SetImageUrl(a);
    second := view.SetImageUrl(a);
  }
}

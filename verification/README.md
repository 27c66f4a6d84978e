# WebCachedImageView in Dafny

A model of the cache-and-fetch engine of WebCachedImageView, an Android
`ImageView` that loads an image from a url and keeps it in two cache
tiers. The model covers:

- **CacheManager** (the main tree). It is a singleton per (mode, memory
  percent). A memory tier (an `LruCache`) holds decoded bitmaps, and a disk
  tier (a `DiskLruCache`) holds compressed records. Each tier is switched
  on by one bit of `mode`. The disk tier is opened by a background
  initialiser that readers wait for. Entries are keyed by
  `getFileName(url, width, height)`.
- **BitmapWorkerTask**. Its `doInBackground` tries memory first, then disk,
  then the network; a downloaded bitmap is written to both tiers. Its
  `onPostExecute` shows the result only if the task is still the view's
  current task. It also holds the two-pass `decodeSampledBitmapFromUrl` and
  the `calculateInSampleSize` rounding.
- **WebCachedImageView**. Its constructors settle the request size and
  obtain the manager. `setImageUrl` and `cancelPotentialWork` make sure only
  the newest request for a view can deliver.
- **The older CacheManager** (the `src/` tree). Its mode and fraction fields
  are never assigned, so it never caches anything and never reuses an
  instance, except for mode 0 and fraction 0.

## Modules

- `Wrappers` (wrappers.dfy): `Option` and `Result`.
- `JavaInt` (java_int.dfy): Java `int` semantics written out on unbounded
  integers: wrap-around, truncating division, and the saturating cast.
- `JavaText` (java_text.dfy): `String.valueOf(int)`, `String.hashCode()`,
  splitting and decimal parsing. The parsing is used to prove that keys
  are injective.
- `Images` (images.dfy): bitmaps, byte arrays, HTTP responses, and the
  platform codec. Bounds decoding, decoding and JPEG compression are
  uninterpreted functions.
- `Cache` (cache.dfy): the main tree's `CacheManager` as a class with
  `modifies`/`reads` frames, and the `INSTANCE` registry. `Tiers` is a
  value snapshot of both tiers. `AfterWait` and `Store` are the value-level
  meaning of waiting for the initialiser and of the two cache writes.
- `Sampling` (sampling.dfy): `calculateInSampleSize` and
  `decodeSampledBitmapFromUrl`, as pure functions.
- `ImageView` (image_view.dfy):
  - `Work` is the specification of `doInBackground` on a `Tiers` value;
  - `BitmapWorkerTask` and `WebCachedImageView` are classes that refer to
    each other;
  - urls are `JString` objects, because `cancelPotentialWork` compares
    them by reference;
  - a few scenario methods compose the operations.
- `LegacyCache` (legacy_cache.dfy): the `src/` tree's `CacheManager`.

### Modelling choices

- **Mode and bit tests.** `mode` is an `int`. `HasMode(mode, bit)` is
  Java's `(mode & bit) == bit` for a one-bit flag. Dafny's floor division
  by a positive divisor is the arithmetic shift, so negative modes read
  their bits as in Java. `mMode -= MODE_DISK` only runs when that bit is
  set, so it cannot wrap.
- **Disk initialiser.** The background initialiser is the explicit step
  `FinishInit(outcome)`. `getCachedOnDisk`'s wait loop is a `while` loop
  that performs that step. The outcome, `DiskLruCache.open` succeeding with
  its journal or throwing, is a parameter.
- **Environment.** Network responses, codec results and disk I/O faults
  are parameters (`Environment`, `DiskFaults`).
- **Math.round.** `Math.round((float) a / (float) b)` is computed exactly
  as floor((2a + b) / 2b), then saturated. A zero divisor follows float
  semantics: +Infinity gives `MAX_VALUE`, -Infinity gives `MIN_VALUE`,
  NaN gives 0.
- **Behaviour worth knowing.** The model keeps these points of the code
  as they are:
  - the main tree takes a memory *percent*, failing at 100 or more, not a
    fraction below 1;
  - the sample size can round *below* the ratio that keeps the image at
    least as large as the request, and can be 0 (`SampleSizeCanUndershoot`,
    `SampleSizeCanBeZero`);
  - a failed download or an undecodable image is not surfaced as an error:
    `doInBackground` catches the `IOException`, and the result is null;
  - reading a record back yields `decode(compress(b))`. That is a JPEG
    re-decode at quality 80, not `b` itself;
  - a disk hit is not copied into memory (`DiskHitRepeats`).

## Model

| member | source | states |
|---|---|---|
| JavaInt.Wrap | code/WebCachedImageView/src/main/java/io/leocad/webcachedimageview/CacheManager.java:69 | the `(int)` narrowing of a long: an int congruent to the input modulo 2^32, equal to it when it already fits |
| JavaInt.FromReal | code/WebCachedImageView/src/main/java/io/leocad/webcachedimageview/CacheManager.java:70 | the `(int)` cast of a float is an int, and for a value in [0, 2^31) it is the floor |
| JavaInt.Div | code/WebCachedImageView/src/main/java/io/leocad/webcachedimageview/CacheManager.java:75 | int `/` truncates toward zero: the quotient's magnitude is the largest whose multiple of the divisor stays within the dividend, its sign is the XOR of the operands' signs, and MIN_VALUE / -1 overflows to MIN_VALUE |
| JavaInt.Saturate | code/WebCachedImageView/src/main/java/io/leocad/webcachedimageview/BitmapWorkerTask.java:124-125 | Math.round's result is clamped into the int range and leaves in-range values alone |
| JavaText.Decimal | code/WebCachedImageView/src/main/java/io/leocad/webcachedimageview/CacheManager.java:238-244 | an appended int renders as a non-empty string of digits, with at most a leading minus sign |
| JavaText.DecimalRoundTrip | code/WebCachedImageView/src/main/java/io/leocad/webcachedimageview/CacheManager.java:238-244 | parsing the decimal rendering of any int gives that int back |
| JavaText.HashCode | code/WebCachedImageView/src/main/java/io/leocad/webcachedimageview/CacheManager.java:239 | `String.hashCode()` is an int congruent modulo 2^32 to the unbounded polynomial s[0]·31^(n-1) + … + s[n-1] |
| Cache.HasModeIsBitTest | code/WebCachedImageView/src/main/java/io/leocad/webcachedimageview/CacheManager.java:133 | the mode test `(mMode & bit) == bit`, used at lines 61, 80, 133, 142, 176 and 183, holds iff that bit is set in the 32-bit two's-complement pattern of the mode, with `&` defined bit by bit |
| Cache.GetFileName | code/WebCachedImageView/src/main/java/io/leocad/webcachedimageview/CacheManager.java:236-245 | the key splits at '_' into exactly three fields: the decimal url hash, width and height |
| Cache.FileNameRoundTrip | code/WebCachedImageView/src/main/java/io/leocad/webcachedimageview/CacheManager.java:236-245 | splitting a file name at '_' and parsing the three fields gives back exactly the url hash, width and height it was built from |
| Cache.FileNameInjective | code/WebCachedImageView/src/main/java/io/leocad/webcachedimageview/CacheManager.java:236-245 | equal file names imply equal url hashes, widths and heights |
| Cache.SizesGiveDistinctNames | code/WebCachedImageView/src/main/java/io/leocad/webcachedimageview/CacheManager.java:236-245 | one url requested at two different sizes is cached under two different keys |
| Cache.MemoryBudgetKB | code/WebCachedImageView/src/main/java/io/leocad/webcachedimageview/CacheManager.java:67-70 | for a percent in [0, 100) and a maxMemory whose KB fit an int, the LruCache size lies between 0 and the available KB, and is the floor of KB × percent / 100 |
| Cache.MemoryConfig | code/WebCachedImageView/src/main/java/io/leocad/webcachedimageview/CacheManager.java:61-78 | the constructor throws iff MODE_MEMORY is set and the percent is at least 100; otherwise a memory tier exists iff MODE_MEMORY is set, sized by MemoryBudgetKB |
| Cache.EntryWeightKB | code/WebCachedImageView/src/main/java/io/leocad/webcachedimageview/CacheManager.java:72-76 | an entry's weight is its byte count divided by 1024, rounded down, whenever that count fits an int |
| Cache.AfterWait | code/WebCachedImageView/src/main/java/io/leocad/webcachedimageview/CacheManager.java:86-104 | after waiting, the disk tier is no longer pending, and memory and the MODE_MEMORY bit are untouched; an opened tier has the journal's records; a failed open clears the MODE_DISK bit, disables the tier and leaves it empty; with nothing pending, nothing changes |
| Cache.Store | code/WebCachedImageView/src/main/java/io/leocad/webcachedimageview/CacheManager.java:174-222 | the memory entry is written iff MODE_MEMORY is set; an existing disk record is never overwritten; the only disk change possible is a new record holding the complete compressed bitmap, on an open tier; a lookup, edit or write fault, a present record or a failed compress leaves the disk unchanged, and the record is committed whenever the tier is on and open, the key is absent, compress succeeds and no disk fault occurs |
| Cache.WaitAndStoreKeepCoherent | code/WebCachedImageView/src/main/java/io/leocad/webcachedimageview/CacheManager.java:80-222 | waiting for the initialiser and storing a bitmap both keep the tier invariant: no memory entries without MODE_MEMORY, no records unless open, and an open tier implies MODE_DISK |
| Cache.CacheManager.constructor | code/WebCachedImageView/src/main/java/io/leocad/webcachedimageview/CacheManager.java:56-106 | a new manager keeps its mode and percent, has the budget MemoryConfig gives, starts with empty tiers, and has the initialiser pending iff MODE_DISK is set |
| Cache.CacheManager.FinishInit | code/WebCachedImageView/src/main/java/io/leocad/webcachedimageview/CacheManager.java:86-104 | the initialiser leaves Starting exactly once; on success the tier holds the journal; on an IOException MODE_DISK is subtracted from the mode; memory is untouched |
| Cache.CacheManager.GetCachedOnMemory | code/WebCachedImageView/src/main/java/io/leocad/webcachedimageview/CacheManager.java:131-138 | null without MODE_MEMORY; otherwise the entry under the file name, present iff the key is in the tier |
| Cache.CacheManager.GetCachedOnDisk | code/WebCachedImageView/src/main/java/io/leocad/webcachedimageview/CacheManager.java:140-172 | waits until the initialiser is done, so the tiers become AfterWait of the old ones; returns the decoded record iff MODE_DISK was set, the tier opened, the lookup did not throw and the key is present |
| Cache.CacheManager.CacheOnMemory | code/WebCachedImageView/src/main/java/io/leocad/webcachedimageview/CacheManager.java:174-179 | with MODE_MEMORY the bitmap is put under its file name, and otherwise nothing changes; mode and disk are untouched |
| Cache.CacheManager.CacheOnDisk | code/WebCachedImageView/src/main/java/io/leocad/webcachedimageview/CacheManager.java:181-222 | a record is committed iff the tier is on and open, no lookup, edit or write fault occurs, no record exists, and compress succeeds; an existing record is left alone |
| Cache.CacheRegistry.GetInstance | code/WebCachedImageView/src/main/java/io/leocad/webcachedimageview/CacheManager.java:40-47 | the instance is reused iff it exists with the same current mode and percent; otherwise a fresh instance with that mode, percent and MemoryConfig budget replaces it; if construction throws, INSTANCE keeps its old value |
| Cache.FailedDiskInitRebuilds | code/WebCachedImageView/src/main/java/io/leocad/webcachedimageview/CacheManager.java:40-106 | after a failed disk open, the instance's mode lacks MODE_DISK, so the next getInstance with the original mode builds a different instance |
| Sampling.RoundedRatio | code/WebCachedImageView/src/main/java/io/leocad/webcachedimageview/BitmapWorkerTask.java:124-125 | Math.round of a float ratio is an int within half a step of the exact ratio (halves round up), and follows float semantics when dividing by zero |
| Sampling.CalculateInSampleSize | code/WebCachedImageView/src/main/java/io/leocad/webcachedimageview/BitmapWorkerTask.java:115-134 | 1 when the image already fits the request; otherwise the smaller of the two rounded ratios |
| Sampling.SampleSizeNearestRatio | code/WebCachedImageView/src/main/java/io/leocad/webcachedimageview/BitmapWorkerTask.java:115-134 | for positive requests, the factor is at most half a step above each exact ratio, and within half a step of one of them |
| Sampling.SampleSizeCanBeZero | code/WebCachedImageView/src/main/java/io/leocad/webcachedimageview/BitmapWorkerTask.java:124-130 | an image taller than requested but less than half the requested width gets sample size 0 |
| Sampling.SampleSizeCanBeZeroWide | code/WebCachedImageView/src/main/java/io/leocad/webcachedimageview/BitmapWorkerTask.java:124-130 | the mirror case: an image wider than requested but less than half the requested height gets sample size 0 |
| Sampling.SampleSizeCanUndershoot | code/WebCachedImageView/src/main/java/io/leocad/webcachedimageview/BitmapWorkerTask.java:124-130 | rounding can pick 2 when halving leaves the height below the request, contrary to the comment at line 127 |
| Sampling.SampleSizeExamples | code/WebCachedImageView/src/main/java/io/leocad/webcachedimageview/BitmapWorkerTask.java:115-134 | 800×600 into 100×100 gives 6; 50×50 gives 1; 150×150 gives 2 |
| Sampling.DecodeSampledBitmapFromUrl | code/WebCachedImageView/src/main/java/io/leocad/webcachedimageview/BitmapWorkerTask.java:85-105 | throws iff either GET fails; otherwise it decodes the second body with the sample size computed from the first body's bounds |
| Sampling.BoundsPassOnlyGivesDimensions | code/WebCachedImageView/src/main/java/io/leocad/webcachedimageview/BitmapWorkerTask.java:85-105 | the first response affects the result only through the dimensions it reports |
| ImageView.Download | code/WebCachedImageView/src/main/java/io/leocad/webcachedimageview/BitmapWorkerTask.java:49-54 | an IOException from either GET leaves the bitmap null; otherwise it is the second body decoded with the sample size of the first body's bounds |
| ImageView.Work | code/WebCachedImageView/src/main/java/io/leocad/webcachedimageview/BitmapWorkerTask.java:28-63 | memory is hit iff MODE_MEMORY is set and the key is present, and a hit changes nothing; a disk hit needs MODE_DISK, an opened tier holding the key and no lookup fault, and writes nothing to memory; on a memory miss, a decodable record on an opened tier with no lookup fault is always served from disk, so the network is used only when both miss; a null result caches nothing; a downloaded bitmap leaves exactly the tiers Store gives after the wait, so it is in memory afterwards when MODE_MEMORY is set |
| ImageView.WorkKeepsCoherent | code/WebCachedImageView/src/main/java/io/leocad/webcachedimageview/BitmapWorkerTask.java:28-63 | a run of doInBackground keeps the tier invariant |
| ImageView.DownloadServedFromMemoryNext | code/WebCachedImageView/src/main/java/io/leocad/webcachedimageview/BitmapWorkerTask.java:37-60 | with MODE_MEMORY set, after a successful download the same request is answered from memory, with no writes, whatever the network would do |
| ImageView.DiskHitRepeats | code/WebCachedImageView/src/main/java/io/leocad/webcachedimageview/BitmapWorkerTask.java:37-46 | a disk hit is not promoted to memory: the same request again reads the disk again and gets the same bitmap |
| ImageView.OtherSizeStillMisses | code/WebCachedImageView/src/main/java/io/leocad/webcachedimageview/BitmapWorkerTask.java:37-60 | caching one size of a url never answers a memory lookup for another size |
| ImageView.BitmapWorkerTask.constructor | code/WebCachedImageView/src/main/java/io/leocad/webcachedimageview/BitmapWorkerTask.java:24-26 | a new task refers to its view, has a null url, and is neither cancelled nor executed |
| ImageView.BitmapWorkerTask.Execute | code/src/android/view/WebCachedImageView.java:115 | execute hands the url, manager, width and height to the task and changes nothing else |
| ImageView.BitmapWorkerTask.Cancel | code/src/android/view/WebCachedImageView.java:161 | cancel(true) marks the task cancelled; its url and arguments stay |
| ImageView.BitmapWorkerTask.DoInBackground | code/WebCachedImageView/src/main/java/io/leocad/webcachedimageview/BitmapWorkerTask.java:28-63 | sets the public url field; the returned bitmap, its origin and the manager's new tiers are exactly Work of the old tiers; the manager stays valid |
| ImageView.BitmapWorkerTask.OnPostExecute | code/WebCachedImageView/src/main/java/io/leocad/webcachedimageview/BitmapWorkerTask.java:65-83 | the view shows the bitmap iff the task is not cancelled, the bitmap is non-null, the view is still reachable and the view's current task is this task; otherwise the display is unchanged |
| ImageView.LayoutDimensions | code/src/android/view/WebCachedImageView.java:51-82 | without attributes the request is 0×0; with attributes it is the layout size when both dimensions are positive, and the screen size otherwise |
| ImageView.NoAttributesSampleMaximally | code/src/android/view/WebCachedImageView.java:35-38 | a view built without attributes requests 0×0, so any non-empty image gets sample size MAX_VALUE |
| ImageView.WebCachedImageView.constructor | code/src/android/view/WebCachedImageView.java:51-106 | the view keeps the manager, has no task and nothing displayed, and its size is LayoutDimensions |
| ImageView.WebCachedImageView.Create | code/src/android/view/WebCachedImageView.java:35-49 | mode and percent default to both mode bits (MODE_MEMORY plus MODE_DISK) and 12.5; construction fails iff getInstance throws; otherwise the view holds the registry's instance, whose mode and percent are exactly the chosen ones (the defaults when the attributes give none) |
| ImageView.WebCachedImageView.GetBitmapWorkerTask | code/src/android/view/WebCachedImageView.java:171-174 | the current task, if any, belongs to this view |
| ImageView.WebCachedImageView.SetImageBitmap | code/src/android/view/WebCachedImageView.java:176-180 | the bitmap becomes the displayed one; the task and size are unchanged |
| ImageView.WebCachedImageView.CancelPotentialWork | code/src/android/view/WebCachedImageView.java:154-169 | returns true iff there is no current task or its url is a different String object; in that case the old task is cancelled; with the same reference nothing is cancelled |
| ImageView.WebCachedImageView.SetImageUrl | code/src/android/view/WebCachedImageView.java:108-117 | a non-null url that supersedes the current task makes a fresh task current and executes it with (url, manager, width, height), cancelling the old one; otherwise the current task stays |
| ImageView.SupersededTaskNeverDelivers | code/src/android/view/WebCachedImageView.java:108-117 | of two requests on one view, the superseded task's delivery leaves the display unchanged in either finishing order, and the later request's bitmap is what is shown at the end |
| ImageView.SameReferenceJoinsEqualStringReplaces | code/src/android/view/WebCachedImageView.java:154-169 | asking again with the same url reference joins the running task; an equal but distinct String cancels and replaces it |
| ImageView.UnstartedTaskIsAlwaysReplaced | code/src/android/view/WebCachedImageView.java:154-169 | a task whose doInBackground has not started has a null url, so even the same reference replaces it |
| LegacyCache.LegacyFileName | code/src/io/leocad/webcachedimageview/CacheManager.java:116-118 | the legacy file name parses back to the url's hash |
| LegacyCache.LegacyKeyIsMainKeyPrefix | code/src/io/leocad/webcachedimageview/CacheManager.java:116-118 | the legacy file name is the first '_' field of the main tree's file name for any size |
| LegacyCache.LegacyConfig | code/src/io/leocad/webcachedimageview/CacheManager.java:38-53 | throws iff the requested mode has MODE_MEMORY and the fraction is at least 1; the LruCache exists iff MODE_MEMORY is requested, and is sized between 0 and the available KB, at the floor of KB × fraction |
| LegacyCache.LegacyCacheManager.constructor | code/src/io/leocad/webcachedimageview/CacheManager.java:36-58 | mode and fraction stay 0 whatever was requested; the memory tier is as LegacyConfig says and starts empty |
| LegacyCache.LegacyCacheManager.GetCachedOnMemory | code/src/io/leocad/webcachedimageview/CacheManager.java:87-94 | null unless the instance's own mode has MODE_MEMORY; then the entry under the url itself |
| LegacyCache.LegacyCacheManager.GetCachedOnDisk | code/src/io/leocad/webcachedimageview/CacheManager.java:96-114 | always null, whatever the mode and whatever is on disk |
| LegacyCache.LegacyCacheManager.CacheonMemory | code/src/io/leocad/webcachedimageview/CacheManager.java:120-125 | stores under the url only when the instance's own mode has MODE_MEMORY |
| LegacyCache.LegacyRegistry.GetInstance | code/src/io/leocad/webcachedimageview/CacheManager.java:22-29 | reuses INSTANCE iff it exists and the arguments are mode 0 and fraction 0, since its fields are never assigned; otherwise a fresh instance, unless construction throws |
| LegacyCache.LegacyNeverReusesNorCaches | code/src/io/leocad/webcachedimageview/CacheManager.java:22-125 | with the default mode, two getInstance calls give two instances, and a bitmap just cached is not found |

## Left out

- Threads and locking are not modelled. `synchronized`, `wait`/`notifyAll`
  and the AsyncTask thread pool become sequential steps. The initialiser's
  completion is the explicit step `FinishInit`. Interleavings of several
  workers on one manager are not modelled.
- `LruCache` and `DiskLruCache` eviction is not modelled. The tiers are
  maps that only grow, so the 10 MB disk budget, LRU order and the effect
  of a zero or negative `LruCache` size are left out. `EntryWeightKB` is
  stated, but no eviction consumes it.
- Float precision is not modelled. The memory percent and fraction are
  `real`, so float rounding in `percent / 100` and in `maxKB * percent`
  is left out, and so are NaN percents (NaN `!=` NaN would make getInstance
  always rebuild). Rounded ratios are computed exactly, not in float.
- Dafny `char` is a Unicode scalar value, not a Java UTF-16 code unit. A
  url with a character outside the Basic Multilingual Plane, which Java
  stores as two surrogate code units and `String.hashCode` counts
  separately, cannot be represented; `HashCode` is stated on strings whose
  characters are each one code unit.
  Decoding of url strings is not modelled.
- `Cache.CacheManager.CacheOnDisk` requires that the initialiser is not
  pending. The code reads `mDiskCache` before its null test, which throws a
  NullPointerException while the tier is starting. The worker only calls it
  after `getCachedOnDisk` has waited.
- Edit mode (`isInEditMode()`) is not modelled: a view in the layout
  editor gets no manager. Also left out: `getCacheDir` and
  `getScreenDimensions`, which become parameters; and the fade-in
  animation and `setAlphaCompat`, which have no effect on the cache.
- The weak reference from a task to its view is not modelled as an object.
  Its clearing by the garbage collector is the `viewReachable` parameter of
  `OnPostExecute`. The view's weak reference to its task is a plain field.
- Unclosed snapshots are not modelled: the snapshot in `cacheOnDisk` is
  never closed, and the model does not track open snapshots.
- `code/src/io/leocad/cachedimagefetcher/CachedImageFetcher.java` and the
  `src/` tree's `BitmapWorkerTask` are not part of this model. That
  `BitmapWorkerTask` calls `cacheOnMemory` and `cacheOnDisk`, which the
  `src/` tree's `CacheManager` does not define.
- Unchecked exceptions escaping `doInBackground` are not modelled.
  `fetchStream` declares `IllegalStateException`, and `HttpGet` and
  `DefaultHttpClient` throw unchecked exceptions for a malformed or
  host-less url. `doInBackground` catches only `IOException`, so such a url
  ends the task with an exception. `Response` has only an I/O failure and a
  body, so `Work` always returns a result.
- `Cache.EntryWeightKB` is stated only when `rowBytes * height` fits an
  int. Beyond that, the wrapped product is computed but no property of it
  is claimed.

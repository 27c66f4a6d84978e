/**
 * The two-tier cache of the main tree's CacheManager: a memory tier of
 * decoded bitmaps and a disk tier of compressed records, each switched on
 * by a bit of the mode, the disk tier opened by a background initialiser.
 * The LruCache and DiskLruCache behind the tiers are abstract maps.
 */
module Cache {
  import opened Wrappers
  import JavaInt
  import JavaText
  import opened Images

  const MODE_NO_CACHE: int := 0
  const MODE_MEMORY: int := 1
  const MODE_DISK: int := 2

  /**
   * `(mode & bit) == bit` for a one-bit flag: the bit of the two's-complement
   * int. Dafny's `/` floors for a positive divisor, which is the arithmetic
   * shift, so negative modes read their bits as Java does.
   */
  predicate HasMode(mode: int, bit: int)
    requires bit == MODE_MEMORY || bit == MODE_DISK
  {
    (mode / bit) % 2 == 1
  }

  /** `x & y` on the bit patterns of two non-negative integers, bit by bit from the lowest. */
  function BitAnd(x: nat, y: nat): nat {
    if x == 0 || y == 0 then 0
    else 2 * BitAnd(x / 2, y / 2) + (if x % 2 == 1 && y % 2 == 1 then 1 else 0)
  }

  lemma BitAndOne(x: nat)
    ensures BitAnd(x, 1) == x % 2
  {
    if x != 0 {
      assert BitAnd(x / 2, 0) == 0;
    }
  }

  /** Halving a multiple of 2^32 plus a residue halves each part. */
  lemma HalveSplit(k: int, u: int)
    requires 0 <= u < JavaInt.MODULUS
    ensures (JavaInt.MODULUS * k + u) / 2 == 0x8000_0000 * k + u / 2
    ensures (JavaInt.MODULUS * k + u) % 2 == u % 2
  {
    assert JavaInt.MODULUS * k + u == 2 * (0x8000_0000 * k + u / 2) + u % 2;
  }

  lemma EvenShift(j: int, v: int)
    ensures (2 * j + v) % 2 == v % 2
  {
    assert 2 * j + v == 2 * (j + v / 2) + v % 2;
  }

  /**
   * HasMode is Java's `(mode & bit) == bit` on the 32-bit two's-complement
   * pattern of the mode (its residue modulo 2^32), for both flags.
   */
  lemma HasModeIsBitTest(mode: int, bit: int)
    requires bit == MODE_MEMORY || bit == MODE_DISK
    ensures HasMode(mode, bit) <==> BitAnd(mode % JavaInt.MODULUS, bit) == bit
  {
    var m := JavaInt.MODULUS;
    var u := mode % m;
    var k := mode / m;
    assert mode == m * k + u;
    HalveSplit(k, u);
    assert (mode / 2) % 2 == (u / 2) % 2 by {
      assert mode / 2 == 0x8000_0000 * k + u / 2;
      assert 0x8000_0000 * k == 2 * (0x4000_0000 * k);
      EvenShift(0x4000_0000 * k, u / 2);
    }
    BitAndOne(u);
    BitAndOne(u / 2);
    if u != 0 {
      assert BitAnd(u, 2) == 2 * BitAnd(u / 2, 1);
    }
  }

  // ---------------------------------------------------------------- keys

  /** getFileName: the hash of the url, the width and the height, in decimal, joined by '_'. */
  function GetFileName(url: string, width: int, height: int): (name: string)
    ensures JavaText.Split(name, '_') ==
      [JavaText.Decimal(JavaText.HashCode(url)), JavaText.Decimal(width), JavaText.Decimal(height)]
  {
    var h, w, t := JavaText.Decimal(JavaText.HashCode(url)), JavaText.Decimal(width), JavaText.Decimal(height);
    NoSeparatorInDecimal(JavaText.HashCode(url));
    NoSeparatorInDecimal(width);
    NoSeparatorInDecimal(height);
    JavaText.SplitAfterField(h, '_', w + ['_'] + t);
    JavaText.SplitAfterField(w, '_', t);
    JavaText.SplitWithoutSeparator(t, '_');
    assert h + "_" + w + "_" + t == h + ['_'] + (w + ['_'] + t);
    h + "_" + w + "_" + t
  }

  /** Reads back the (hash, width, height) a file name was built from. */
  function ParseFileName(name: string): Option<(int, int, int)> {
    var fields := JavaText.Split(name, '_');
    if |fields| != 3 then None
    else
      match (JavaText.ParseDecimal(fields[0]), JavaText.ParseDecimal(fields[1]), JavaText.ParseDecimal(fields[2]))
      case (Some(hash), Some(width), Some(height)) => Some((hash, width, height))
      case _ => None
  }

  lemma NoSeparatorInDecimal(i: int)
    ensures '_' !in JavaText.Decimal(i)
  {
  }

  /** A file name gives back exactly the url hash, width and height it was made from. */
  lemma FileNameRoundTrip(url: string, width: int, height: int)
    ensures ParseFileName(GetFileName(url, width, height)) == Some((JavaText.HashCode(url), width, height))
  {
    JavaText.DecimalRoundTrip(JavaText.HashCode(url));
    JavaText.DecimalRoundTrip(width);
    JavaText.DecimalRoundTrip(height);
  }

  /** Equal file names come from equal (url hash, width, height) triples. */
  lemma FileNameInjective(url1: string, width1: int, height1: int, url2: string, width2: int, height2: int)
    requires GetFileName(url1, width1, height1) == GetFileName(url2, width2, height2)
    ensures JavaText.HashCode(url1) == JavaText.HashCode(url2) && width1 == width2 && height1 == height2
  {
    FileNameRoundTrip(url1, width1, height1);
    FileNameRoundTrip(url2, width2, height2);
  }

  /** For one url, two different sizes are filed under two different names. */
  lemma SizesGiveDistinctNames(url: string, width1: int, height1: int, width2: int, height2: int)
    requires width1 != width2 || height1 != height2
    ensures GetFileName(url, width1, height1) != GetFileName(url, width2, height2)
  {
    if GetFileName(url, width1, height1) == GetFileName(url, width2, height2) {
      FileNameInjective(url, width1, height1, url, width2, height2);
    }
  }

  // -------------------------------------------------------- configuration

  /**
   * The RuntimeException a constructor throws when the memory share is too
   * large: a percent of 100 or more here, a fraction of 1 or more in the
   * older manager.
   */
  datatype ConfigError = PercentTooLarge(percent: real) | FractionTooLarge(fraction: real)

  /**
   * The LruCache capacity in KB: maxMemory / 1024 narrowed to an int, times
   * percent / 100, cast back to an int.
   */
  function MemoryBudgetKB(maxMemory: nat, percent: real): (kb: int)
    ensures JavaInt.IsInt(kb)
    ensures maxMemory / 1024 <= JavaInt.MAX_VALUE && 0.0 <= percent < 100.0 ==>
      var maxKB := maxMemory / 1024;
      && 0 <= kb <= maxKB
      && kb as real <= maxKB as real * percent / 100.0 < kb as real + 1.0
  {
    var maxKB := JavaInt.Wrap(maxMemory / 1024);
    var budget := maxKB as real * (percent / 100.0);
    BudgetBelowMax(maxKB, percent);
    JavaInt.FromReal(budget)
  }

  lemma BudgetBelowMax(maxKB: int, percent: real)
    ensures 0 <= maxKB && 0.0 <= percent < 100.0 ==>
      var budget := maxKB as real * (percent / 100.0);
      0.0 <= budget <= maxKB as real && 0 <= budget.Floor <= maxKB
  {
    if 0 <= maxKB && 0.0 <= percent < 100.0 {
      var f := percent / 100.0;
      assert 0.0 <= f < 1.0;
      assert maxKB as real * f <= maxKB as real * 1.0;
      var budget := maxKB as real * f;
      assert budget.Floor as real <= budget;
    }
  }

  /**
   * The constructor's memory check: with the MODE_MEMORY bit set, a percent
   * of 100 or more throws; with it set otherwise, a memory tier of
   * MemoryBudgetKB is made; without it, no check and no memory tier.
   */
  function MemoryConfig(mode: int, percent: real, maxMemory: nat): (r: Result<Option<int>, ConfigError>)
    ensures r.Failure? <==> HasMode(mode, MODE_MEMORY) && percent >= 100.0
    ensures r.Success? ==> (r.value.Some? <==> HasMode(mode, MODE_MEMORY))
    ensures r.Success? && r.value.Some? ==> r.value.value == MemoryBudgetKB(maxMemory, percent)
  {
    if HasMode(mode, MODE_MEMORY) then
      if percent >= 100.0 then Failure(PercentTooLarge(percent))
      else Success(Some(MemoryBudgetKB(maxMemory, percent)))
    else
      Success(None)
  }

  /** sizeOf: an entry weighs rowBytes * height / 1024 KB, in int arithmetic. */
  function EntryWeightKB(bitmap: Bitmap): (kb: int)
    ensures var bytes := bitmap.rowBytes * bitmap.height;
      0 <= bytes <= JavaInt.MAX_VALUE ==> 0 <= kb && kb * 1024 <= bytes < kb * 1024 + 1024
  {
    JavaInt.Div(JavaInt.Wrap(bitmap.rowBytes * bitmap.height), 1024)
  }

  // ------------------------------------------------------------ the tiers

  /** The disk tier's lifecycle: mDiskCacheStarting, then mDiskCache open or left null. */
  datatype DiskState = Starting | Ready | Disabled

  /** What DiskLruCache.open gives the initialiser: the records already on disk, or an IOException. */
  datatype InitOutcome = Opened(journal: map<string, Bytes>) | OpenFailed

  /** IOExceptions the disk write can meet: in the lookup, in edit, or while writing and committing. */
  datatype DiskFaults = DiskFaults(lookupFails: bool, editFails: bool, writeFails: bool)

  /** Both tiers of a CacheManager as one value: the mode, the memory entries, the disk tier's state and records. */
  datatype Tiers = Tiers(mode: int, memory: map<string, Bitmap>, diskState: DiskState, disk: map<string, Bytes>)

  /**
   * The tiers once a disk reader has waited for a pending initialiser that
   * ends with `init`; with nothing pending, the tiers as they were.
   */
  function AfterWait(t: Tiers, init: InitOutcome): (u: Tiers)
    ensures u.memory == t.memory && HasMode(u.mode, MODE_MEMORY) == HasMode(t.mode, MODE_MEMORY)
    ensures !(HasMode(u.mode, MODE_DISK) && u.diskState == Starting)
    ensures !(HasMode(t.mode, MODE_DISK) && t.diskState == Starting) ==> u == t
    ensures HasMode(t.mode, MODE_DISK) && t.diskState == Starting ==>
      if init.Opened? then u.diskState == Ready && u.disk == init.journal && u.mode == t.mode
      else u.diskState == Disabled && u.disk == map[] && u.mode == t.mode - MODE_DISK && !HasMode(u.mode, MODE_DISK)
  {
    if HasMode(t.mode, MODE_DISK) && t.diskState == Starting then
      match init
      case Opened(journal) => t.(diskState := Ready, disk := journal)
      case OpenFailed => t.(mode := t.mode - MODE_DISK, diskState := Disabled, disk := map[])
    else
      t
  }

  /**
   * Whether cacheOnDisk commits a record: the tier is on and open, the
   * lookup succeeded and found no record (the first writer wins), edit and
   * the write succeeded, and compress returned true.
   */
  predicate CommitsRecord(tierOpen: bool, hadRecord: bool, compressed: Option<Bytes>, faults: DiskFaults) {
    && tierOpen && !faults.lookupFails && !hadRecord
    && !faults.editFails && !faults.writeFails && compressed.Some?
  }

  /**
   * What holds of the tiers between operations: no memory entries without
   * MODE_MEMORY, no disk records while the tier starts or once it is
   * disabled, and the MODE_DISK bit set exactly while it may open.
   */
  predicate Coherent(t: Tiers) {
    && (!HasMode(t.mode, MODE_MEMORY) ==> t.memory == map[])
    && (t.diskState == Starting ==> t.disk == map[])
    && (t.diskState == Ready ==> HasMode(t.mode, MODE_DISK))
    && (t.diskState == Disabled ==> t.disk == map[] && !HasMode(t.mode, MODE_DISK))
  }

  /** Waiting for the initialiser and storing a bitmap both keep the tiers coherent. */
  lemma WaitAndStoreKeepCoherent(t: Tiers, init: InitOutcome, key: string, bitmap: Bitmap, codec: Codec, faults: DiskFaults)
    requires Coherent(t)
    ensures Coherent(AfterWait(t, init))
    ensures Coherent(Store(t, key, bitmap, codec, faults))
  {
  }

  /**
   * cacheOnMemory then cacheOnDisk on tiers `t`: the memory entry when
   * MODE_MEMORY is set, and the disk record when CommitsRecord says the
   * write goes through; mode and disk state untouched.
   */
  function Store(t: Tiers, key: string, bitmap: Bitmap, codec: Codec, faults: DiskFaults): (u: Tiers)
    ensures u.mode == t.mode && u.diskState == t.diskState
    ensures HasMode(t.mode, MODE_MEMORY) ==> u.memory == t.memory[key := bitmap]
    ensures !HasMode(t.mode, MODE_MEMORY) ==> u.memory == t.memory
    ensures key in t.disk ==> u.disk == t.disk
    ensures u.disk == t.disk || (
      && HasMode(t.mode, MODE_DISK) && t.diskState == Ready && key !in t.disk
      && codec.compress(bitmap).Some? && u.disk == t.disk[key := codec.compress(bitmap).value])
    ensures CommitsRecord(HasMode(t.mode, MODE_DISK) && t.diskState == Ready, key in t.disk, codec.compress(bitmap), faults) ==>
      u.disk == t.disk[key := codec.compress(bitmap).value]
    ensures !CommitsRecord(HasMode(t.mode, MODE_DISK) && t.diskState == Ready, key in t.disk, codec.compress(bitmap), faults) ==>
      u.disk == t.disk
  {
    var compressed := codec.compress(bitmap);
    var memory := if HasMode(t.mode, MODE_MEMORY) then t.memory[key := bitmap] else t.memory;
    var disk := if CommitsRecord(HasMode(t.mode, MODE_DISK) && t.diskState == Ready, key in t.disk, compressed, faults)
                then t.disk[key := compressed.value] else t.disk;
    t.(memory := memory, disk := disk)
  }

  class CacheManager {
    var mode: int
    const memoryPercentToUse: real
    /** The LruCache capacity in KB; None when mMemoryCache is null. */
    const memoryBudget: Option<int>
    var memory: map<string, Bitmap>
    var diskState: DiskState
    var disk: map<string, Bytes>

    ghost predicate Valid()
      reads this
    {
      (memoryBudget.Some? <==> HasMode(mode, MODE_MEMORY)) && Coherent(Contents())
    }

    function Contents(): Tiers
      reads this
    {
      Tiers(mode, memory, diskState, disk)
    }

    /** The background initialiser was started and has not finished: disk readers would wait. */
    predicate DiskInitPending()
      reads this
    {
      HasMode(mode, MODE_DISK) && diskState == Starting
    }

    /**
     * The private constructor, after its memory check passed (the check that
     * throws is MemoryConfig, applied by getInstance). The disk initialiser
     * is started when the MODE_DISK bit is set; it finishes in FinishInit.
     */
    constructor(mode: int, memoryPercentToUse: real, maxMemory: nat)
      requires MemoryConfig(mode, memoryPercentToUse, maxMemory).Success?
      ensures Valid()
      ensures this.mode == mode && this.memoryPercentToUse == memoryPercentToUse
      ensures memoryBudget == MemoryConfig(mode, memoryPercentToUse, maxMemory).value
      ensures memory == map[] && diskState == Starting && disk == map[]
      ensures DiskInitPending() <==> HasMode(mode, MODE_DISK)
    {
      this.mode := mode;
      this.memoryPercentToUse := memoryPercentToUse;
      memoryBudget := if HasMode(mode, MODE_MEMORY) then Some(MemoryBudgetKB(maxMemory, memoryPercentToUse)) else None;
      memory := map[];
      diskState := Starting;
      disk := map[];
    }

    /**
     * The background initialiser's step: DiskLruCache.open either gives the
     * tier its existing records, or fails and MODE_DISK is subtracted from
     * the mode. Either way the tier leaves Starting, once.
     */
    method FinishInit(outcome: InitOutcome)
      requires Valid() && DiskInitPending()
      modifies this
      ensures Valid() && !DiskInitPending() && diskState != Starting
      ensures outcome.Opened? ==> diskState == Ready && disk == outcome.journal && mode == old(mode)
      ensures outcome.OpenFailed? ==> diskState == Disabled && disk == map[] && mode == old(mode) - MODE_DISK
      ensures HasMode(mode, MODE_DISK) <==> outcome.Opened?
      ensures HasMode(mode, MODE_MEMORY) == old(HasMode(mode, MODE_MEMORY))
      ensures memory == old(memory)
    {
      match outcome
      case Opened(journal) =>
        disk := journal;
        diskState := Ready;
      case OpenFailed =>
        mode := mode - MODE_DISK;
        diskState := Disabled;
    }

    /** getCachedOnMemory: the memory tier's entry for the file name, null when MODE_MEMORY is off. */
    method GetCachedOnMemory(url: string, width: int, height: int) returns (r: Option<Bitmap>)
      requires Valid()
      ensures var key := GetFileName(url, width, height);
        && (!HasMode(mode, MODE_MEMORY) ==> r == None)
        && (HasMode(mode, MODE_MEMORY) ==> (r.Some? <==> key in memory) && (r.Some? ==> r.value == memory[key]))
    {
      r := None;
      if HasMode(mode, MODE_MEMORY) {
        var key := GetFileName(url, width, height);
        if key in memory {
          r := Some(memory[key]);
        }
      }
    }

    /**
     * getCachedOnDisk: with MODE_DISK set, first waits while the initialiser
     * runs (its outcome is `init`), then decodes the stored record if the
     * tier opened and holds one; null otherwise, and null when the lookup
     * throws an IOException.
     */
    method GetCachedOnDisk(url: string, width: int, height: int, codec: Codec, init: InitOutcome, lookupFails: bool)
      returns (r: Option<Bitmap>)
      requires Valid()
      modifies this
      ensures Valid() && Contents() == AfterWait(old(Contents()), init)
      ensures var key := GetFileName(url, width, height);
        r == if old(HasMode(mode, MODE_DISK)) && diskState == Ready && !lookupFails && key in disk
             then codec.decode(disk[key], 1) else None
    {
      r := None;
      if HasMode(mode, MODE_DISK) {
        // Wait while the disk cache is started from the background thread.
        while diskState == Starting
          invariant Valid() && HasMode(old(mode), MODE_DISK)
          invariant diskState == Starting ==> Contents() == old(Contents())
          invariant diskState != Starting ==> Contents() == AfterWait(old(Contents()), init)
          decreases if diskState == Starting then 1 else 0
        {
          FinishInit(init);
        }
        if diskState == Ready && !lookupFails {
          var key := GetFileName(url, width, height);
          if key in disk {
            r := codec.decode(disk[key], 1);
          }
        }
      }
    }

    /** cacheOnMemory: with MODE_MEMORY set, puts the bitmap under its file name. */
    method CacheOnMemory(url: string, bitmap: Bitmap, width: int, height: int)
      requires Valid()
      modifies this
      ensures Valid()
      ensures memory == if HasMode(mode, MODE_MEMORY) then old(memory)[GetFileName(url, width, height) := bitmap] else old(memory)
      ensures mode == old(mode) && diskState == old(diskState) && disk == old(disk)
    {
      if HasMode(mode, MODE_MEMORY) {
        memory := memory[GetFileName(url, width, height) := bitmap];
      }
    }

    /**
     * cacheOnDisk. It reads mDiskCache before checking it for null, so it
     * must not run while the initialiser is pending; the worker only calls
     * it after getCachedOnDisk has waited. Every failure aborts the edit, so
     * the only record it can leave is the complete compressed bitmap.
     */
    method CacheOnDisk(url: string, bitmap: Bitmap, width: int, height: int, codec: Codec, faults: DiskFaults)
      requires Valid() && !DiskInitPending()
      modifies this
      ensures Valid()
      ensures var key, compressed := GetFileName(url, width, height), codec.compress(bitmap);
        disk == if CommitsRecord(HasMode(mode, MODE_DISK) && diskState == Ready, key in old(disk), compressed, faults)
                then old(disk)[key := compressed.value] else old(disk)
      ensures GetFileName(url, width, height) in old(disk) ==> disk == old(disk)
      ensures mode == old(mode) && diskState == old(diskState) && memory == old(memory)
    {
      if HasMode(mode, MODE_DISK) {
        var key := GetFileName(url, width, height);
        if faults.lookupFails {
          return;
        }
        var hasRecord := key in disk;
        if diskState == Ready && !hasRecord {
          if faults.editFails {
            return;
          }
          var written := codec.compress(bitmap);
          if written.Some? && !faults.writeFails {
            disk := disk[key := written.value];  // flush and commit
          }
          // otherwise the editor is aborted and no record appears
        }
      }
    }
  }

  /** The static INSTANCE field and getInstance. */
  class CacheRegistry {
    var instance: CacheManager?

    ghost predicate Valid()
      reads this, instance
    {
      instance != null ==> instance.Valid()
    }

    constructor()
      ensures Valid() && instance == null
    {
      instance := null;
    }

    predicate Reuses(mode: int, memoryPercentToUse: real)
      reads this, instance
    {
      instance != null && instance.mode == mode && instance.memoryPercentToUse == memoryPercentToUse
    }

    /**
     * getInstance: the existing instance iff it exists and its current mode
     * and percent equal the arguments; otherwise a new instance, unless its
     * constructor throws, in which case INSTANCE keeps its old value.
     */
    method GetInstance(mode: int, memoryPercentToUse: real, maxMemory: nat)
      returns (r: Result<CacheManager, ConfigError>)
      requires Valid()
      modifies this
      ensures Valid()
      ensures old(Reuses(mode, memoryPercentToUse)) ==> r == Success(old(instance)) && instance == old(instance)
      ensures !old(Reuses(mode, memoryPercentToUse)) && MemoryConfig(mode, memoryPercentToUse, maxMemory).Failure? ==>
        r == Failure(PercentTooLarge(memoryPercentToUse)) && instance == old(instance)
      ensures !old(Reuses(mode, memoryPercentToUse)) && MemoryConfig(mode, memoryPercentToUse, maxMemory).Success? ==>
        && r.Success? && fresh(r.value) && instance == r.value
        && r.value.mode == mode && r.value.memoryPercentToUse == memoryPercentToUse
        && r.value.memoryBudget == MemoryConfig(mode, memoryPercentToUse, maxMemory).value
        && r.value.diskState == Starting && r.value.memory == map[] && r.value.disk == map[]
      ensures r.Success? ==> r.value.Valid()
    {
      if instance == null || instance.mode != mode || instance.memoryPercentToUse != memoryPercentToUse {
        if MemoryConfig(mode, memoryPercentToUse, maxMemory).Failure? {
          return Failure(PercentTooLarge(memoryPercentToUse));
        }
        instance := new CacheManager(mode, memoryPercentToUse, maxMemory);
      }
      r := Success(instance);
    }
  }

  /**
   * A failed disk initialisation subtracts MODE_DISK from the instance's
   * mode, so the next getInstance with the original mode builds a new one.
   */
  method FailedDiskInitRebuilds(registry: CacheRegistry, memoryPercentToUse: real, maxMemory: nat)
    returns (first: CacheManager, second: CacheManager)
    requires registry.Valid() && registry.instance == null && memoryPercentToUse < 100.0
    modifies registry
    ensures first != second && fresh(second) && registry.instance == second
    ensures first.mode == MODE_MEMORY && second.mode == MODE_MEMORY + MODE_DISK
  {
    var r := registry.GetInstance(MODE_MEMORY + MODE_DISK, memoryPercentToUse, maxMemory);
    first := r.value;
    if first.DiskInitPending() {
      first.FinishInit(OpenFailed);
    }
    var r2 := registry.GetInstance(MODE_MEMORY + MODE_DISK, memoryPercentToUse, maxMemory);
    second := r2.value;
  }
}

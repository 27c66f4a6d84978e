/**
 * The older CacheManager (the src/ tree): a memory tier keyed by the url
 * itself, a disk tier that never reads anything back, and a file name that
 * is the url hash alone. Its private constructor assigns neither mMode nor
 * mMemoryFractionToUse, so both keep Java's default of 0: every mode test
 * of the instance fails, and getInstance only reuses an instance for
 * mode 0 and fraction 0.
 */
module LegacyCache {
  import opened Wrappers
  import JavaInt
  import JavaText
  import opened Images
  import Cache

  /** getFileName: the url's hash in decimal, which reads back as that hash. */
  function LegacyFileName(url: string): (name: string)
    ensures JavaText.ParseDecimal(name) == Some(JavaText.HashCode(url))
  {
    JavaText.DecimalRoundTrip(JavaText.HashCode(url));
    JavaText.Decimal(JavaText.HashCode(url))
  }

  /** The legacy file name is the first '_'-separated field of the main tree's file name. */
  lemma LegacyKeyIsMainKeyPrefix(url: string, width: int, height: int)
    ensures JavaText.Split(Cache.GetFileName(url, width, height), '_')[0] == LegacyFileName(url)
  {
  }

  /**
   * The constructor's memory check: with the MODE_MEMORY bit of the
   * argument set, a fraction of 1 or more throws; otherwise the LruCache
   * gets (int) (maxKB * fraction) KB, maxKB being maxMemory / 1024 narrowed
   * to an int; without the bit there is no memory tier.
   */
  function LegacyConfig(mode: int, fraction: real, maxMemory: nat): (r: Result<Option<int>, Cache.ConfigError>)
    ensures r.Failure? <==> Cache.HasMode(mode, Cache.MODE_MEMORY) && fraction >= 1.0
    ensures r.Success? ==> (r.value.Some? <==> Cache.HasMode(mode, Cache.MODE_MEMORY))
    ensures r.Success? && r.value.Some? ==> JavaInt.IsInt(r.value.value)
    ensures r.Success? && r.value.Some? && maxMemory / 1024 <= JavaInt.MAX_VALUE && 0.0 <= fraction ==>
      var maxKB := maxMemory / 1024;
      0 <= r.value.value <= maxKB && r.value.value as real <= maxKB as real * fraction < r.value.value as real + 1.0
  {
    if Cache.HasMode(mode, Cache.MODE_MEMORY) then
      if fraction >= 1.0 then Failure(Cache.FractionTooLarge(fraction))
      else
        var maxKB := JavaInt.Wrap(maxMemory / 1024);
        FractionBudgetBelowMax(maxKB, fraction);
        Success(Some(JavaInt.FromReal(maxKB as real * fraction)))
    else
      Success(None)
  }

  lemma FractionBudgetBelowMax(maxKB: int, fraction: real)
    ensures 0 <= maxKB && 0.0 <= fraction < 1.0 ==>
      var budget := maxKB as real * fraction;
      0.0 <= budget <= maxKB as real && 0 <= budget.Floor <= maxKB
  {
    if 0 <= maxKB && 0.0 <= fraction < 1.0 {
      assert maxKB as real * fraction <= maxKB as real * 1.0;
    }
  }

  class LegacyCacheManager {
    /** mMode: the constructor never assigns it, so it keeps Java's default of 0. */
    const mode: int
    /** mMemoryFractionToUse: never assigned either, so 0 too. */
    const fraction: real
    /** The LruCache capacity in KB; None when mMemoryCache is null. */
    const memoryBudget: Option<int>
    /** mMemoryCache, keyed by the url. */
    var memory: map<string, Bitmap>

    /** The private constructor, after its memory check passed (LegacyConfig, applied by getInstance). */
    constructor(mode: int, fraction: real, maxMemory: nat)
      requires LegacyConfig(mode, fraction, maxMemory).Success?
      ensures this.mode == 0 && this.fraction == 0.0
      ensures memoryBudget == LegacyConfig(mode, fraction, maxMemory).value && memory == map[]
    {
      this.mode := 0;
      this.fraction := 0.0;
      memoryBudget := LegacyConfig(mode, fraction, maxMemory).value;
      memory := map[];
    }

    /** getCachedOnMemory: the entry for the url when the instance's mode has MODE_MEMORY, null otherwise. */
    method GetCachedOnMemory(url: string) returns (r: Option<Bitmap>)
      ensures !Cache.HasMode(mode, Cache.MODE_MEMORY) ==> r == None
      ensures Cache.HasMode(mode, Cache.MODE_MEMORY) ==> (r.Some? <==> url in memory) && (r.Some? ==> r.value == memory[url])
    {
      r := None;
      if Cache.HasMode(mode, Cache.MODE_MEMORY) {
        if url in memory {
          r := Some(memory[url]);
        }
      }
    }

    /**
     * getCachedOnDisk: null on every path. The branch that would open and
     * close the file named LegacyFileName(url) needs MODE_DISK in the
     * instance's mode, which stays 0, so it never runs.
     */
    method GetCachedOnDisk(url: string) returns (r: Option<Bitmap>)
      ensures r == None
    {
      // The MODE_DISK branch is unreachable: mode is always 0.
      r := None;
    }

    /** cacheonMemory: with MODE_MEMORY in the instance's mode, puts the bitmap under the url. */
    method CacheonMemory(url: string, bitmap: Bitmap)
      modifies this
      ensures memory == if Cache.HasMode(mode, Cache.MODE_MEMORY) then old(memory)[url := bitmap] else old(memory)
    {
      if Cache.HasMode(mode, Cache.MODE_MEMORY) {
        memory := memory[url := bitmap];
      }
    }
  }

  /** The static INSTANCE field and getInstance. */
  class LegacyRegistry {
    var instance: LegacyCacheManager?

    /** Every instance the constructor makes has mode 0 and fraction 0. */
    ghost predicate Valid()
      reads this, instance
    {
      instance != null ==> instance.mode == 0 && instance.fraction == 0.0
    }

    constructor()
      ensures Valid() && instance == null
    {
      instance := null;
    }

    /**
     * getInstance: reuses INSTANCE iff it exists and its mode and fraction,
     * both 0, equal the arguments; otherwise a new instance, unless its
     * constructor throws, in which case INSTANCE keeps its old value.
     */
    method GetInstance(mode: int, fraction: real, maxMemory: nat) returns (r: Result<LegacyCacheManager, Cache.ConfigError>)
      requires Valid()
      modifies this
      ensures Valid()
      ensures old(instance) != null && mode == 0 && fraction == 0.0 ==> r == Success(old(instance)) && instance == old(instance)
      ensures !(old(instance) != null && mode == 0 && fraction == 0.0) ==>
        if LegacyConfig(mode, fraction, maxMemory).Failure? then
          r.Failure? && instance == old(instance)
        else
          && r.Success? && fresh(r.value) && instance == r.value
          && r.value.memoryBudget == LegacyConfig(mode, fraction, maxMemory).value
    {
      if instance == null || instance.mode != mode || instance.fraction != fraction {
        if LegacyConfig(mode, fraction, maxMemory).Failure? {
          return Failure(Cache.FractionTooLarge(fraction));
        }
        instance := new LegacyCacheManager(mode, fraction, maxMemory);
      }
      r := Success(instance);
    }
  }

  /**
   * With any mode but 0, two getInstance calls with the same arguments make
   * two instances, and a bitmap stored through one is not found again.
   */
  method LegacyNeverReusesNorCaches(registry: LegacyRegistry, fraction: real, maxMemory: nat, url: string, bitmap: Bitmap)
    returns (first: LegacyCacheManager, second: LegacyCacheManager, found: Option<Bitmap>)
    requires registry.Valid() && 0.0 <= fraction < 1.0
    modifies registry
    ensures first != second && registry.instance == second
    ensures found == None
  {
    var mode := Cache.MODE_MEMORY + Cache.MODE_DISK;
    var r := registry.GetInstance(mode, fraction, maxMemory);
    first := r.value;
    var r2 := registry.GetInstance(mode, fraction, maxMemory);
    second := r2.value;
    second.CacheonMemory(url, bitmap);
    found := second.GetCachedOnMemory(url);
  }
}

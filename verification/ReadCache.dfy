/** The read cache: entries with a time to live, evicted least recently used first, and a byte counter. */
module ReadCache {
  import opened Wrappers
  import opened Bytes
  import opened Counting

  datatype FileInfo = FileInfo(path: string, isDir: bool, size: nat, modified: Option<int>)

  datatype Hit = Hit(data: seq<byte>, info: FileInfo)

  datatype Entry = Entry(info: FileInfo, data: seq<byte>, size: nat, lastAccessedAt: int, expiresAt: int)

  type Entries = map<string, Entry>

  datatype Config = Config(
    enabled: bool, onDisk: bool, capacity: nat, maxFileSize: nat, ttl: nat, allows: string -> bool)

  /** A quarter of the time to live, from one second to sixty. */
  function CleanupInterval(config: Config): nat {
    var quarter := config.ttl / 4;
    if quarter < 1 then 1 else if quarter > 60 then 60 else quarter
  }

  /** The interval is the whole part of a quarter of the time to live, kept between one second and sixty. */
  lemma CleanupIntervalClamps(config: Config)
    ensures var i := CleanupInterval(config);
            && 1 <= i <= 60
            && (4 <= config.ttl < 244 ==> 4 * i <= config.ttl < 4 * i + 4)
            && (config.ttl < 8 ==> i == 1) && (config.ttl >= 240 ==> i == 60)
  {}

  // ---- 64-bit counters ----

  function WrapAdd(a: nat, b: nat): nat {
    (a + b) % (U64_MAX + 1)
  }

  function WrapSub(a: nat, b: nat): nat {
    (a - b) % (U64_MAX + 1)
  }

  function SaturatingAdd(a: nat, b: nat): nat {
    if a + b > U64_MAX then U64_MAX else a + b
  }

  lemma WrapsBack(total: nat, size: nat)
    ensures WrapSub((total + size) % (U64_MAX + 1), size) == total % (U64_MAX + 1)
    ensures WrapAdd(total % (U64_MAX + 1), size) == (total + size) % (U64_MAX + 1)
  {}

  /** The saturating test admits what does not fit exactly when the capacity is the largest number. */
  lemma AdmitsExactly(used: nat, required: nat, capacity: nat)
    requires capacity <= U64_MAX
    ensures SaturatingAdd(used, required) <= capacity <==> used + required <= capacity || capacity == U64_MAX
  {}

  // ---- what the entries add up to ----

  ghost function Sizes(entries: Entries): map<string, nat> {
    map k | k in entries :: entries[k].size
  }

  ghost function HeldBytes(entries: Entries): nat {
    Total(Sizes(entries))
  }

  lemma HeldWithout(entries: Entries, key: string)
    ensures HeldBytes(entries) == HeldBytes(entries - {key}) + if key in entries then entries[key].size else 0
  {
    TotalUpdate(Sizes(entries), key, 0);
    assert Sizes(entries) - {key} == Sizes(entries - {key});
  }

  lemma HeldWith(entries: Entries, key: string, e: Entry)
    ensures HeldBytes(entries[key := e]) == HeldBytes(entries - {key}) + e.size
  {
    TotalUpdate(Sizes(entries), key, e.size);
    assert Sizes(entries[key := e]) == Sizes(entries)[key := e.size];
    assert Sizes(entries) - {key} == Sizes(entries - {key});
  }

  ghost predicate PartOf(part: Entries, entries: Entries) {
    part.Keys <= entries.Keys && forall k :: k in part ==> part[k] == entries[k]
  }

  lemma HeldByPart(part: Entries, entries: Entries)
    requires PartOf(part, entries)
    ensures HeldBytes(part) <= HeldBytes(entries)
  {
    TotalOfSubmap(Sizes(part), Sizes(entries));
  }

  // ---- what eviction is for ----

  /** The entries that have not expired at `now`. */
  ghost function Unexpired(entries: Entries, now: int): Entries {
    map k | k in entries && entries[k].expiresAt > now :: entries[k]
  }

  /** The entries after a cleanup at `now`, if one was due. */
  ghost function Cleaned(entries: Entries, due: bool, now: int): Entries {
    if due then Unexpired(entries, now) else entries
  }

  predicate CleanupDue(config: Config, lastCleanup: int, now: int) {
    now - lastCleanup >= CleanupInterval(config)
  }

  /** No evicted entry was accessed after a survivor. */
  ghost predicate OldestEvicted(before: Entries, after: Entries) {
    && PartOf(after, before)
    && forall k, l :: k in before && k !in after && l in after ==> before[k].lastAccessedAt <= after[l].lastAccessedAt
  }

  /** `last` was evicted, no evicted entry was accessed after it, and with it the required bytes did not fit. */
  ghost predicate NeededLast(before: Entries, after: Entries, last: string, required: nat, capacity: nat) {
    && last in before && last !in after
    && (forall k :: k in before && k !in after ==> before[k].lastAccessedAt <= before[last].lastAccessedAt)
    && HeldBytes(after[last := before[last]]) + required > capacity
  }

  /**
   * The survivors of making room: least recently used entries went, and no more than needed; with the
   * largest capacity none goes.
   */
  ghost predicate MadeRoom(before: Entries, after: Entries, required: nat, capacity: nat) {
    if capacity == U64_MAX then after == before
    else
      && OldestEvicted(before, after)
      && HeldBytes(after) + required <= capacity
      && (after != before ==> exists last :: NeededLast(before, after, last, required, capacity))
  }

  /** With the largest capacity a put may leave more bytes in the cache than the capacity. */
  lemma LargestCapacityOverflows(e: Entry)
    requires e.size == U64_MAX
    ensures var held := map["k" := e];
            MadeRoom(held, held, 1, U64_MAX) && HeldBytes(held) + 1 > U64_MAX
  {
    HeldWith(map[], "k", e);
    assert Sizes(map[] - {"k"}) == map[];
  }

  /** One more eviction, of an entry no survivor was accessed before. */
  lemma EvictOldest(before: Entries, after: Entries, key: string, required: nat, capacity: nat)
    requires OldestEvicted(before, after) && key in after
    requires forall k :: k in after ==> after[key].lastAccessedAt <= after[k].lastAccessedAt
    requires HeldBytes(after) + required > capacity
    ensures OldestEvicted(before, after - {key})
    ensures NeededLast(before, after - {key}, key, required, capacity)
  {
    assert (after - {key})[key := before[key]] == after;
  }

  /**
   * The number of bytes a fitting test leaves is determined by the sizes alone: with equal access
   * times ruled out, two ways of making room keep the same entries.
   */
  lemma RoomIsUnique(before: Entries, a: Entries, b: Entries, required: nat, capacity: nat)
    requires MadeRoom(before, a, required, capacity) && MadeRoom(before, b, required, capacity)
    requires forall k, l :: k in before && l in before && k != l ==>
              before[k].lastAccessedAt != before[l].lastAccessedAt
    ensures a == b
  {
    RoomIsNested(before, a, b, required, capacity);
    RoomIsNested(before, b, a, required, capacity);
    assert a.Keys == b.Keys;
  }

  lemma RoomIsNested(before: Entries, a: Entries, b: Entries, required: nat, capacity: nat)
    requires MadeRoom(before, a, required, capacity) && MadeRoom(before, b, required, capacity)
    requires forall k, l :: k in before && l in before && k != l ==>
              before[k].lastAccessedAt != before[l].lastAccessedAt
    ensures a.Keys <= b.Keys
  {
    hide HeldBytes, Sizes;
    if k :| k in a && k !in b {
      var last :| NeededLast(before, b, last, required, capacity);
      forall l | l in b[last := before[last]]
        ensures l in a
      {
        if l !in a {
          assert false;
        }
      }
      HeldByPart(b[last := before[last]], a);
      assert false;
    }
  }

  /** The readings of the clock during a put: at the cleanup, at the eviction and when the entry is made. */
  datatype PutTimes = PutTimes(cleanup: int, eviction: int, created: int)

  /** The other entries that neither cleanup of a put dropped. */
  ghost function LiveOthers(config: Config, entries: Entries, lastCleanup: int, key: string, times: PutTimes): Entries {
    var others := entries - {key};
    Unexpired(Cleaned(others, CleanupDue(config, lastCleanup, times.cleanup), times.cleanup), times.eviction)
  }

  class Cache {
    const config: Config
    var entries: Entries
    var accounted: nat
    var lastCleanup: int

    /** The counter is the sum of the sizes held, which fits the capacity. */
    ghost predicate Valid()
      reads this
    {
      && config.capacity <= U64_MAX
      && accounted == HeldBytes(entries) % (U64_MAX + 1)
      && (config.capacity < U64_MAX ==> HeldBytes(entries) <= config.capacity)
      && forall k :: k in entries ==> GoodEntry(config, k, entries[k])
    }

    constructor (config: Config)
      requires config.capacity <= U64_MAX
      ensures Valid() && entries == map[] && this.config == config
    {
      this.config := config;
      entries := map[];
      accounted := 0;
      lastCleanup := 0;
    }

    predicate ShouldCache(key: string, size: nat)
      reads this
    {
      config.enabled && config.allows(key) && 0 < size <= config.maxFileSize && size <= config.capacity
    }

    method Remove(key: string)
      requires Valid()
      modifies this`entries, this`accounted
      ensures Valid() && entries == old(entries) - {key}
    {
      if key in entries {
        HeldWithout(entries, key);
        WrapsBack(HeldBytes(entries - {key}), entries[key].size);
        accounted := WrapSub(accounted, entries[key].size);
        entries := entries - {key};
      } else {
        assert entries - {key} == entries;
      }
    }

    /** A hit unless caching is off for the key, or there is no entry, or it has expired, or the disk fails. */
    method Get(key: string, now: int) returns (r: Option<Hit>)
      requires Valid()
      modifies this`entries, this`accounted
      ensures Valid()
      ensures r.Some? ==>
                && config.enabled && config.allows(key)
                && key in old(entries) && r == Some(Hit(old(entries)[key].data, old(entries)[key].info))
                && now < old(entries)[key].expiresAt
                && entries == old(entries)[key := old(entries)[key].(lastAccessedAt := now)]
      ensures r.None? ==>
                || (entries == old(entries) && (!config.enabled || !config.allows(key) || key !in old(entries)))
                || (entries == old(entries) - {key} && key in old(entries)
                    && (old(entries)[key].expiresAt <= now || config.onDisk))
    {
      hide HeldBytes, Sizes;
      if !config.enabled || !config.allows(key) || key !in entries {
        return None;
      }
      if entries[key].expiresAt <= now {
        Remove(key);
        return None;
      }
      Touch(key, now);
      var hit := Hit(entries[key].data, entries[key].info);
      var readable: bool := *;
      if config.onDisk && !readable {
        Remove(key);
        assert entries == old(entries) - {key};
        return None;
      }
      r := Some(hit);
    }

    method Touch(key: string, now: int)
      requires Valid() && key in entries
      modifies this`entries
      ensures Valid() && entries == old(entries)[key := old(entries)[key].(lastAccessedAt := now)]
    {
      hide HeldBytes, Sizes;
      var entry := entries[key].(lastAccessedAt := now);
      HeldWith(entries, key, entry);
      HeldWithout(entries, key);
      entries := entries[key := entry];
    }

    /** Drops exactly the expired entries, if the interval since the last cleanup is over or it is forced. */
    method CleanupExpiredIfDue(force: bool, now: int)
      requires Valid()
      modifies this`entries, this`accounted, this`lastCleanup
      ensures Valid()
      ensures var due := force || now - old(lastCleanup) >= CleanupInterval(config);
              && entries == Cleaned(old(entries), due, now)
              && lastCleanup == if due then now else old(lastCleanup)
    {
      hide HeldBytes, Sizes;
      if !force && !CleanupDue(config, lastCleanup, now) {
        return;
      }
      lastCleanup := now;
      assert Valid();
      hide Valid;
      var expired := set k | k in entries.Keys && entries[k].expiresAt <= now;
      while expired != {}
        invariant Valid() && PartOf(entries, old(entries)) && lastCleanup == now
        invariant expired == set k | k in entries.Keys && entries[k].expiresAt <= now
        invariant forall k :: k in old(entries) && old(entries)[k].expiresAt > now ==> k in entries
        decreases expired
      {
        var key :| key in expired;
        Remove(key);
        expired := expired - {key};
      }
      forall k | k in entries
        ensures entries[k].expiresAt > now
      {
        assert k !in expired;
      }
    }

    /** An entry that no other entry was accessed before. */
    method OldestKey() returns (oldest: Option<string>)
      ensures oldest.None? <==> entries == map[]
      ensures oldest.Some? ==> oldest.value in entries && forall k :: k in entries ==>
                entries[oldest.value].lastAccessedAt <= entries[k].lastAccessedAt
    {
      oldest := None;
      var left := entries.Keys;
      while left != {}
        invariant left <= entries.Keys
        invariant oldest.None? <==> left == entries.Keys
        invariant oldest.Some? ==> oldest.value in entries && forall k :: k in entries && k !in left ==>
                    entries[oldest.value].lastAccessedAt <= entries[k].lastAccessedAt
        decreases left
      {
        var key :| key in left;
        if oldest.None? || entries[key].lastAccessedAt < entries[oldest.value].lastAccessedAt {
          oldest := Some(key);
        }
        left := left - {key};
      }
    }

    /** Drops what has expired and then makes room; never gives up on a size that fits the capacity. */
    method EnsureCapacity(required: nat, now: int) returns (ok: bool)
      requires Valid() && required <= config.capacity
      modifies this`entries, this`accounted, this`lastCleanup
      ensures Valid() && ok && lastCleanup == now
      ensures MadeRoom(Unexpired(old(entries), now), entries, required, config.capacity)
    {
      hide HeldBytes, Sizes;
      CleanupExpiredIfDue(true, now);
      ghost var live := entries;
      ok := true;
      while ok && SaturatingAdd(accounted, required) > config.capacity
        invariant Valid() && ok && Evicted(live, required) && lastCleanup == now
        decreases |entries|
      {
        ok := EvictOne(live, required);
      }
      AccountedIsHeld();
    }

    /** Every eviction so far took the least recently used entry, and none came after it fitted. */
    ghost predicate Evicted(live: Entries, required: nat)
      reads this
    {
      && OldestEvicted(live, entries)
      && (entries != live ==> exists last :: NeededLast(live, entries, last, required, config.capacity))
      && (config.capacity == U64_MAX ==> entries == live)
    }

    method EvictOne(ghost live: Entries, ghost required: nat) returns (ok: bool)
      requires Valid() && required <= config.capacity && Evicted(live, required)
      requires SaturatingAdd(accounted, required) > config.capacity
      modifies this`entries, this`accounted
      ensures Valid() && ok && Evicted(live, required) && |entries| < |old(entries)|
    {
      hide HeldBytes, Sizes;
      AccountedIsHeld();
      var oldest := OldestKey();
      if oldest.None? {
        ok := false;
        NothingHeld();
      } else {
        EvictOldest(live, entries, oldest.value, required, config.capacity);
        assert |entries - {oldest.value}| < |entries| by {
          assert (entries - {oldest.value}).Keys == entries.Keys - {oldest.value};
        }
        Remove(oldest.value);
        ok := true;
      }
    }

    lemma NothingHeld()
      requires Valid() && entries == map[]
      ensures accounted == 0
    {
      assert Sizes(entries) == map[];
    }

    lemma AccountedIsHeld()
      requires Valid()
      ensures config.capacity < U64_MAX ==> accounted == HeldBytes(entries)
    {}

    /**
     * Stores a copy, unless it is not to be cached or the disk fails, after making room for it among
     * the other entries that have not expired.
     */
    method Put(key: string, data: seq<byte>, info: FileInfo, times: PutTimes) returns (stored: bool)
      requires Valid()
      modifies this`entries, this`accounted, this`lastCleanup
      ensures Valid()
      ensures !ShouldCache(key, |data|) ==> !stored && entries == old(entries) && lastCleanup == old(lastCleanup)
      ensures ShouldCache(key, |data|) ==>
                && MadeRoom(LiveOthers(config, old(entries), old(lastCleanup), key, times), entries - {key}, |data|,
                            config.capacity)
                && lastCleanup == times.eviction
                && (stored <==> key in entries)
      ensures config.enabled && config.allows(key) && 0 < |data| <= config.maxFileSize && |data| <= config.capacity ==>
                stored || config.onDisk
      ensures stored ==>
                config.enabled && config.allows(key) && 0 < |data| <= config.maxFileSize && |data| <= config.capacity
      ensures stored ==>
                entries[key] == Entry(info, data, |data|, times.created, times.created + config.ttl)
      ensures PartOf(entries - {key}, old(entries))
    {
      hide HeldBytes, Sizes;
      if !ShouldCache(key, |data|) {
        return false;
      }
      Remove(key);
      CleanupExpiredIfDue(false, times.cleanup);
      var ok := EnsureCapacity(|data|, times.eviction);
      assert ok;
      assert key !in entries && entries - {key} == entries;
      var written: bool := *;
      if config.onDisk && !written {
        return false;
      }
      Insert(key, data, info, times.created);
      stored := true;
    }

    method Insert(key: string, data: seq<byte>, info: FileInfo, createdAt: int)
      requires Valid() && key !in entries && ShouldCache(key, |data|)
      requires HeldBytes(entries) + |data| <= config.capacity || config.capacity == U64_MAX
      modifies this`entries, this`accounted
      ensures Valid() && key in entries && entries - {key} == old(entries)
      ensures entries[key] == Entry(info, data, |data|, createdAt, createdAt + config.ttl)
    {
      hide HeldBytes, Sizes;
      var entry := Entry(info, data, |data|, createdAt, createdAt + config.ttl);
      assert entries - {key} == entries;
      HeldWith(entries, key, entry);
      WrapsBack(HeldBytes(entries), |data|);
      accounted := WrapAdd(accounted, entry.size);
      entries := entries[key := entry];
    }
  }

  /** A held entry carries its own size and was worth caching. */
  ghost predicate GoodEntry(config: Config, key: string, e: Entry) {
    e.size == |e.data| && config.allows(key) && 0 < e.size <= config.maxFileSize && e.size <= config.capacity
  }
}

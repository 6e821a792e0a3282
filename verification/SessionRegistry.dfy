/**
 * The registry of video transcoding sessions: two indexes over one set of records, whose workers may
 * finish between any two steps of a call.
 */
module SessionRegistry {
  import opened Wrappers
  import opened Counting
  import Text

  datatype State = Pending | Ready | Failed(message: string)

  datatype Snapshot = Snapshot(sessionId: string, state: State)

  datatype SessionError = Busy | InvalidAsset

  /** A file of a session's directory. */
  datatype Asset = Asset(sessionId: string, name: string, contentType: string)

  /** A name that stays inside the directory it is joined to. */
  predicate IsAssetName(name: string) {
    && name != "" && '/' !in name && '\\' !in name
    && forall i :: 0 < i < |name| ==> !(name[i - 1] == '.' && name[i] == '.')
  }

  /** The part after the last dot, if something stands before that dot. */
  function Extension(name: string): (r: Option<string>)
    ensures r.Some? ==> '.' !in r.value && |name| > |r.value| + 1 && name[|name| - |r.value| - 1..] == "." + r.value
  {
    if name == "" then None
    else if name[|name| - 1] == '.' then if |name| == 1 then None else Some("")
    else
      var init := name[..|name| - 1];
      match Extension(init)
      case None => None
      case Some(e) => Some(e + [name[|name| - 1]])
  }

  function ContentType(name: string): string {
    match Extension(name)
    case Some("m3u8") => "application/vnd.apple.mpegurl"
    case Some("ts") => "video/mp2t"
    case Some("m4s") => "video/iso.segment"
    case _ => "application/octet-stream"
  }

  lemma ExtensionStep(name: string, c: char)
    requires c != '.'
    ensures Extension(name + [c]) == match Extension(name) case None => None case Some(e) => Some(e + [c])
  {
    assert (name + [c])[..|name|] == name;
  }

  /** The extension is what follows the last dot, if something stands before it. */
  lemma {:induction false} ExtensionOf(stem: string, ext: string)
    requires '.' !in ext
    ensures Extension(stem + "." + ext) == if stem == "" then None else Some(ext)
    ensures Extension(ext) == None
    decreases |ext|
  {
    if ext == "" {
      assert (stem + "." + ext)[|stem|] == '.' && |stem + "." + ext| == |stem| + 1;
    } else {
      hide Extension;
      var front, last := ext[..|ext| - 1], ext[|ext| - 1];
      assert ext == front + [last];
      ExtensionOf(stem, front);
      ExtensionStep(front, last);
      ExtensionStep(stem + "." + front, last);
      assert stem + "." + front + [last] == stem + "." + ext;
    }
  }

  /** Playlists and the two kinds of segments have their types; every other name has the general one. */
  lemma TypesByEnding(stem: string, ext: string)
    requires '.' !in ext
    ensures ContentType(stem + "." + ext) ==
            if stem == "" then "application/octet-stream"
            else if ext == "m3u8" then "application/vnd.apple.mpegurl"
            else if ext == "ts" then "video/mp2t"
            else if ext == "m4s" then "video/iso.segment"
            else "application/octet-stream"
    ensures ContentType(ext) == "application/octet-stream"
  {
    ExtensionOf(stem, ext);
  }

  class Record {
    const key: string
    const sessionId: string
    var state: State
    var expiresAt: int

    constructor (key: string, sessionId: string, expiresAt: int)
      ensures this.key == key && this.sessionId == sessionId && state == Pending && this.expiresAt == expiresAt
    {
      this.key := key;
      this.sessionId := sessionId;
      this.state := Pending;
      this.expiresAt := expiresAt;
    }
  }

  /** A finished session stays as it finished. */
  twostate predicate DoneStays(records: set<Record>)
    reads records
  {
    forall r :: r in records && old(r.state) != Pending ==> r.state == old(r.state)
  }

  /** Nor does it expire at another time. */
  twostate predicate DoneKept(records: set<Record>)
    reads records
  {
    forall r :: r in records && old(r.state) != Pending ==> r.state == old(r.state) && r.expiresAt == old(r.expiresAt)
  }

  /**
   * The readings of the clock during a call: for each session when cleanup comes to it, and when one is
   * touched or made.
   */
  datatype Clock = Clock(cleanup: string -> int, touch: int, start: int)

  /** Both indexes hold the same records, each under its own identifier and its own key. */
  ghost predicate Paired(byId: map<string, Record>, byKey: map<string, Record>) {
    && (forall id :: id in byId ==>
          byId[id].sessionId == id && byId[id].key in byKey && byKey[byId[id].key] == byId[id])
    && (forall k :: k in byKey ==>
          byKey[k].key == k && byKey[k].sessionId in byId && byId[byKey[k].sessionId] == byKey[k])
  }

  lemma PairedWith(byId: map<string, Record>, byKey: map<string, Record>, record: Record)
    requires Paired(byId, byKey) && record.sessionId !in byId && record.key !in byKey
    ensures Paired(byId[record.sessionId := record], byKey[record.key := record])
    ensures byId[record.sessionId := record].Values == byId.Values + {record}
  {
    var after := byId[record.sessionId := record];
    assert after[record.sessionId] == record;
    forall r | r in byId.Values
      ensures r in after.Values
    {
      assert after[r.sessionId] == r;
    }
  }

  /** When sessions went, a key still has its session exactly if that is still there. */
  lemma PairedSubset(byId0: map<string, Record>, byKey0: map<string, Record>,
                     byId1: map<string, Record>, byKey1: map<string, Record>)
    requires Paired(byId0, byKey0) && Paired(byId1, byKey1)
    requires forall id :: id in byId1 ==> id in byId0 && byId1[id] == byId0[id]
    ensures forall k :: k in byKey1 ==> k in byKey0 && byKey1[k] == byKey0[k]
    ensures forall k :: k in byKey0 ==> byKey0[k].sessionId in byId0 && byId0[byKey0[k].sessionId] == byKey0[k]
    ensures forall k :: k in byKey0 ==> (k in byKey1 <==> byKey0[k].sessionId in byId1)
    ensures forall k :: k in byKey0 && byKey0[k] in byId1.Values ==> k in byKey1
  {}

  class Registry {
    const limit: nat
    const ttl: nat
    var byId: map<string, Record>
    var byKey: map<string, Record>
    /** Every record ever removed. */
    ghost var removed: set<Record>

    ghost predicate SameRecords()
      reads this
    {
      Paired(byId, byKey)
    }

    ghost function PendingIds(): set<string>
      reads this, byId.Values
    {
      set id | id in byId && byId[id].state == Pending
    }

    /** The pending sessions keep to the limit, and no removed session is pending. */
    ghost predicate Valid()
      reads this, byId.Values, removed
    {
      && SameRecords()
      && |PendingIds()| <= limit
      && removed !! byId.Values
      && forall r :: r in removed ==> r.state != Pending
    }

    constructor (limit: nat, ttl: nat)
      ensures Valid() && byId == map[] && removed == {} && this.limit == limit && this.ttl == ttl
    {
      this.limit := limit;
      this.ttl := ttl;
      byId := map[];
      byKey := map[];
      removed := {};
    }

    method Now() returns (now: int) {
      now := *;
    }

    /** Any pending sessions may finish, in success or failure. */
    method Workers()
      requires Valid()
      modifies byId.Values
      ensures Valid() && DoneStays(byId.Values) && DoneKept(byId.Values) && PendingIds() <= old(PendingIds())
      ensures |PendingIds()| <= old(|PendingIds()|)
    {
      var left := byId.Keys;
      while left != {}
        invariant left <= byId.Keys
        invariant DoneStays(byId.Values) && DoneKept(byId.Values)
        invariant PendingIds() <= old(PendingIds())
        decreases left
      {
        var id :| id in left;
        left := left - {id};
        var finishes: bool := *;
        if finishes && byId[id].state == Pending {
          var success: bool, message: string := *, *;
          if success {
            var now := Now();
            byId[id].expiresAt := now + ttl;
            byId[id].state := Ready;
          } else {
            byId[id].state := Failed(message);
          }
        }
      }
      SubsetSize(PendingIds(), old(PendingIds()));
    }

    method Touch(record: Record, now: int)
      requires Valid() && record in byId.Values
      modifies record`expiresAt
      ensures Valid() && PendingIds() == old(PendingIds()) && record.expiresAt == now + ttl
    {
      record.expiresAt := now + ttl;
      assert PendingIds() == old(PendingIds());
    }

    /** Removes a session that has finished. */
    method RemoveRecord(record: Record)
      requires Valid() && record in byId.Values && record.state != Pending
      modifies this
      ensures Valid()
      ensures byId == old(byId) - {record.sessionId} && byKey == old(byKey) - {record.key}
      ensures removed == old(removed) + {record} && PendingIds() == old(PendingIds())
      ensures byId.Values == old(byId.Values) - {record}
    {
      byId := byId - {record.sessionId};
      byKey := byKey - {record.key};
      removed := removed + {record};
      forall r | r in old(byId.Values) && r != record
        ensures r in byId.Values
      {
        assert byId[r.sessionId] == r;
      }
      assert PendingIds() == old(PendingIds());
    }

    /**
     * What cleanup leaves: of the sessions finished at the start exactly those not expired at the clock's
     * reading; one that was pending goes only if it had expired and has finished meanwhile.
     */
    twostate predicate CleanedUp(was: map<string, Record>, done: set<string>, clock: string -> int)
      reads this, was.Values
    {
      && (forall id :: id in byId ==> id in was && byId[id] == was[id])
      && (forall id :: id in done && id in was && old(was[id].state) != Pending ==>
            (id in byId <==> old(was[id].expiresAt) > clock(id)))
      && (forall id :: id in was && id !in done ==> id in byId)
    }

    /** Removes the finished sessions found expired. */
    method CleanupExpired(clock: string -> int)
      requires Valid()
      modifies this, byId.Values
      ensures Valid() && DoneStays(old(byId.Values)) && PendingIds() <= old(PendingIds())
      ensures byId.Keys <= old(byId.Keys)
      ensures byId.Values <= old(byId.Values) && removed == old(removed) + (old(byId.Values) - byId.Values)
      ensures DoneKept(old(byId.Values)) && CleanedUp(old(byId), old(byId).Keys, clock)
    {
      hide Valid, SameRecords, PendingIds;
      var left := byId.Keys;
      while left != {}
        invariant Valid() && left <= byId.Keys <= old(byId.Keys)
        invariant DoneStays(old(byId.Values)) && PendingIds() <= old(PendingIds())
        invariant byId.Values <= old(byId.Values) && removed == old(removed) + (old(byId.Values) - byId.Values)
        invariant DoneKept(old(byId.Values)) && CleanedUp(old(byId), old(byId).Keys - left, clock)
        decreases left
      {
        var id :| id in left;
        left := left - {id};
        CleanupOne(id, clock(id));
      }
    }

    method CleanupOne(id: string, now: int)
      requires Valid() && id in byId
      modifies this, byId.Values
      ensures Valid() && DoneStays(old(byId.Values)) && PendingIds() <= old(PendingIds())
      ensures byId == old(byId) || byId == old(byId) - {id}
      ensures byId.Values <= old(byId.Values) && removed == old(removed) + (old(byId.Values) - byId.Values)
      ensures DoneKept(old(byId.Values))
      ensures old(byId[id].state) != Pending ==> (id in byId <==> old(byId[id].expiresAt) > now)
      ensures id !in byId ==> old(byId[id].expiresAt) <= now
    {
      var record := byId[id];
      if record.expiresAt > now {
        return;
      }
      Workers();
      if record.state == Pending {
        return;
      }
      Workers();
      RemoveRecord(record);
    }

    /** Counts the pending sessions, some of which may finish meanwhile. */
    method CountPending() returns (count: nat)
      requires Valid()
      modifies byId.Values
      ensures Valid() && DoneStays(byId.Values) && DoneKept(byId.Values) && PendingIds() <= old(PendingIds())
      ensures |PendingIds()| <= count <= old(|PendingIds()|)
    {
      hide Paired;
      ghost var counted: set<string> := {};
      var left := byId.Keys;
      count := 0;
      while left != {}
        invariant Valid() && left <= byId.Keys
        invariant DoneStays(byId.Values) && DoneKept(byId.Values) && PendingIds() <= old(PendingIds())
        invariant count == |counted| && counted !! left && counted <= old(PendingIds())
        invariant PendingIds() <= counted + left
        decreases left
      {
        var id :| id in left;
        left := left - {id};
        if byId[id].state == Pending {
          count := count + 1;
          counted := counted + {id};
        }
        Workers();
      }
      SubsetSize(PendingIds(), counted);
      SubsetSize(counted, old(PendingIds()));
    }

    /** The snapshot is of a registered session, unless that has finished since it was taken. */
    ghost predicate Shows(snapshot: Snapshot, key: string)
      reads this, byId.Values
    {
      && key in byKey && byKey[key].sessionId == snapshot.sessionId && byKey[key] in byId.Values
      && (snapshot.state == Pending || snapshot.state == byKey[key].state)
    }

    /** The key's session, if it is pending or is ready and its manifest exists; it is removed otherwise. */
    method Existing(key: string, touch: int, manifestExists: bool) returns (found: Option<Snapshot>)
      requires Valid() && key in byKey
      modifies this, byId.Values
      ensures Valid() && DoneStays(old(byId.Values)) && PendingIds() <= old(PendingIds())
      ensures byId.Values <= old(byId.Values) && removed == old(removed) + (old(byId.Values) - byId.Values)
      ensures byId.Keys <= old(byId.Keys)
      ensures found.Some? ==>
                && Shows(found.value, key) && byKey == old(byKey) && byId == old(byId)
                && (found.value.state == Pending || (found.value.state == Ready && manifestExists))
      ensures found.None? ==>
                && key !in byKey && old(byKey)[key].state != Pending && !(old(byKey)[key].state == Ready
                   && manifestExists)
                && byId == old(byId) - {old(byKey)[key].sessionId}
      ensures forall id :: id in old(byId) && old(byId)[id].key != key ==> id in byId && byId[id] == old(byId)[id]
      ensures found.Some? && byKey[key].state == Pending ==> found.value.state == Pending
      ensures old(byKey[key].state) == Ready && manifestExists ==>
                found == Some(Snapshot(old(byKey)[key].sessionId, Ready)) && byKey[key].expiresAt == touch + ttl
      ensures old(byKey[key].state).Failed? || (old(byKey[key].state) == Ready && !manifestExists) ==> found.None?
    {
      var record := byKey[key];
      Touch(record, touch);
      Workers();
      var snapshot := Snapshot(record.sessionId, record.state);
      Workers();
      if (snapshot.state == Ready && manifestExists) || snapshot.state == Pending {
        return Some(snapshot);
      }
      RemoveRecord(record);
      found := None;
    }

    /** Starts a session, or refuses it when at some moment of the call as many as the limit were pending. */
    method StartIfFree(key: string, freshId: string, start: int) returns (r: Result<Snapshot, SessionError>)
      requires Valid() && freshId !in byId && key !in byKey
      modifies this, byId.Values
      ensures Valid() && DoneStays(old(byId.Values)) && removed == old(removed)
      ensures r.Ok? ==> && key in byKey && fresh(byKey[key]) && byId.Values == old(byId.Values) + {byKey[key]}
                        && byKey[key].state == Pending && r.value == Snapshot(freshId, Pending)
                        && byKey[key].sessionId == freshId && Shows(r.value, key)
                        && byKey[key].expiresAt == start + ttl && byId == old(byId)[freshId := byKey[key]]
      ensures r.Err? ==> byId == old(byId) && byKey == old(byKey) && old(|PendingIds()|) == limit
    {
      var activeJobs := CountPending();
      if activeJobs >= limit {
        return Err(Busy);
      }
      Workers();
      var record := new Record(key, freshId, start + ttl);
      Insert(record);
      r := Ok(Snapshot(freshId, Pending));
    }

    /** Enters a new pending session in both indexes. */
    method Insert(record: Record)
      requires Valid() && record.sessionId !in byId && record.key !in byKey
      requires record.state == Pending && record !in removed && |PendingIds()| < limit
      modifies this
      ensures Valid() && removed == old(removed)
      ensures byId == old(byId)[record.sessionId := record] && byKey == old(byKey)[record.key := record]
      ensures byId.Values == old(byId.Values) + {record}
    {
      hide Paired;
      PairedWith(byId, byKey, record);
      byId := byId[record.sessionId := record];
      byKey := byKey[record.key := record];
      assert PendingIds() == old(PendingIds()) + {record.sessionId};
    }

    /** What the caller gets is a session started now under the fresh identifier, or a refusal. */
    ghost predicate StartedOrBusy(r: Result<Snapshot, SessionError>, key: string, freshId: string, start: int)
      reads this, byId.Values, byKey.Values
    {
      r.Err? || (r == Ok(Snapshot(freshId, Pending)) && key in byKey && byKey[key].sessionId == freshId
                 && byKey[key].state == Pending && byKey[key].expiresAt == start + ttl)
    }

    /** The cleaned registry gives the key's session, or starts a new one. */
    method FindOrStart(key: string, freshId: string, clock: Clock, manifestExists: bool)
      returns (r: Result<Snapshot, SessionError>)
      requires Valid() && freshId !in byId
      modifies this, byId.Values
      ensures Valid() && DoneStays(old(byId.Values))
      ensures fresh(byId.Values - old(byId.Values)) && old(removed) <= removed <= old(removed) + old(byId.Values)
      ensures old(byId.Values) <= byId.Values + removed
      ensures r.Ok? ==> Shows(r.value, key) && !r.value.state.Failed?
      ensures r.Err? ==> old(|PendingIds()|) == limit
      ensures key in old(byKey) && old(byKey)[key].state == Pending ==>
                r == Ok(Snapshot(old(byKey)[key].sessionId, Pending)) && key in byKey && byKey[key] == old(byKey)[key]
      ensures key in old(byKey) && old(byKey[key].state) == Ready && manifestExists ==>
                && r == Ok(Snapshot(old(byKey)[key].sessionId, Ready)) && key in byKey && byKey[key] == old(byKey)[key]
                && byKey[key].expiresAt == clock.touch + ttl
      ensures key !in old(byKey) || old(byKey[key].state).Failed?
                || (old(byKey[key].state) == Ready && !manifestExists) ==>
                StartedOrBusy(r, key, freshId, clock.start)
      ensures forall id :: id in old(byId) && old(byId)[id].key != key ==> id in byId && byId[id] == old(byId)[id]
      ensures byId.Keys <= old(byId.Keys) + {freshId}
    {
      hide Shows, Paired;
      if key in byKey {
        var found := Existing(key, clock.touch, manifestExists);
        if found.Some? {
          return Ok(found.value);
        }
        SubsetSize(PendingIds(), old(PendingIds()));
      }
      r := StartIfFree(key, freshId, clock.start);
    }

    /**
     * Gives the key's session if it is pending or is ready, not expired and its manifest exists, or else
     * starts a new one; refused only when the limit was reached at the start. Finished sessions of other
     * keys stay exactly if they have not expired.
     */
    method Ensure(key: string, freshId: string, clock: Clock, manifestExists: bool)
      returns (r: Result<Snapshot, SessionError>)
      requires Valid() && freshId !in byId
      modifies this, byId.Values
      ensures Valid() && DoneStays(old(byId.Values))
      ensures fresh(byId.Values - old(byId.Values)) && old(removed) <= removed <= old(removed) + old(byId.Values)
      ensures old(byId.Values) <= byId.Values + removed
      ensures r.Ok? ==> Shows(r.value, key) && !r.value.state.Failed?
      ensures r.Err? ==> old(|PendingIds()|) == limit
      ensures key in old(byKey) && old(byKey)[key].state == Pending ==>
                r == Ok(Snapshot(old(byKey)[key].sessionId, Pending)) && key in byKey && byKey[key] == old(byKey)[key]
      ensures Usable(old(byKey), key, clock, manifestExists) ==>
                && r == Ok(Snapshot(old(byKey)[key].sessionId, Ready)) && key in byKey && byKey[key] == old(byKey)[key]
                && byKey[key].expiresAt == clock.touch + ttl
      ensures (key in old(byKey) ==>
                old(byKey[key].state) != Pending) && !Usable(old(byKey), key, clock, manifestExists) ==>
                StartedOrBusy(r, key, freshId, clock.start)
      ensures forall id :: id in old(byId) && old(byId)[id].key != key && old(byId[id].state) != Pending ==>
                             (id in byId <==> old(byId[id].expiresAt) > clock.cleanup(id))
    {
      hide Shows, PendingIds, StartedOrBusy, Paired;
      CleanupExpired(clock.cleanup);
      SubsetSize(PendingIds(), old(PendingIds()));
      PairedSubset(old(byId), old(byKey), byId, byKey);
      r := FindOrStart(key, freshId, clock, manifestExists);
    }

    /** At the start of the call the key had a ready session that was not expired and has its manifest. */
    twostate predicate Usable(was: map<string, Record>, key: string, clock: Clock, manifestExists: bool)
      reads was.Values
    {
      key in was && old(was[key].state) == Ready && old(was[key].expiresAt) > clock.cleanup(was[key].sessionId)
      && manifestExists
    }

    /** A file of a ready session. A name that might lead out of the session's directory is an error. */
    method Resolve(sessionId: string, asset: string, clock: Clock, fileExists: bool)
      returns (r: Result<Option<Asset>, SessionError>)
      requires Valid()
      modifies this, byId.Values
      ensures Valid() && DoneStays(old(byId.Values)) && PendingIds() <= old(PendingIds())
      ensures byId.Values <= old(byId.Values) && removed == old(removed) + (old(byId.Values) - byId.Values)
      ensures var name := Text.Trim(asset);
              r.Err? <==> name == "" || '/' in name || '\\' in name
                          || exists i :: 0 < i < |name| && name[i - 1] == '.' && name[i] == '.'
      ensures r.Ok? && r.value.Some? ==>
                && sessionId in byId && byId[sessionId].state == Ready
                && r.value.value == Asset(sessionId, Text.Trim(asset), ContentType(Text.Trim(asset))) && fileExists
      ensures sessionId in old(byId) && old(byId[sessionId].state) == Ready ==>
                old(byId[sessionId].expiresAt) > clock.cleanup(sessionId) && fileExists && r.Ok? ==> r.value.Some?
    {
      CleanupExpired(clock.cleanup);
      var name := Text.Trim(asset);
      if !IsAssetName(name) {
        return Err(InvalidAsset);
      }
      if sessionId !in byId {
        return Ok(None);
      }
      var record := byId[sessionId];
      Touch(record, clock.touch);
      Workers();
      r := Ok(if record.state == Ready && fileExists then Some(Asset(sessionId, name, ContentType(name))) else None);
    }
  }

  datatype Command =
    | EnsureSession(key: string, freshId: string, clock: Clock, manifestExists: bool)
    | ResolveAsset(sessionId: string, asset: string, clock: Clock, fileExists: bool)
    | Cleanup(clock: Clock)
    | Work

  method Execute(registry: Registry, c: Command)
    requires registry.Valid()
    modifies registry, registry.byId.Values
    ensures registry.Valid() && DoneStays(old(registry.byId.Values))
    ensures fresh(registry.byId.Values - old(registry.byId.Values)) && old(registry.removed) <= registry.removed
    ensures old(registry.byId.Values) <= registry.byId.Values + registry.removed
  {
    match c {
      case EnsureSession(key, freshId, clock, manifestExists) =>
        if freshId !in registry.byId {
          var _ := registry.Ensure(key, freshId, clock, manifestExists);
        }
      case ResolveAsset(sessionId, asset, clock, fileExists) =>
        var _ := registry.Resolve(sessionId, asset, clock, fileExists);
      case Cleanup(clock) =>
        registry.CleanupExpired(clock.cleanup);
      case Work =>
        registry.Workers();
    }
  }

  /**
   * Any run of calls, with workers finishing in between: both indexes agree and the limit holds (as
   * Valid says), finished sessions stay as they finished, and no pending session is gone.
   */
  method Run(registry: Registry, commands: seq<Command>)
    requires registry.Valid()
    modifies registry, registry.byId.Values
    ensures registry.Valid() && DoneStays(old(registry.byId.Values + registry.removed))
    ensures forall r :: r in old(registry.byId.Values) && r.state == Pending ==> r in registry.byId.Values
  {
    for i := 0 to |commands|
      invariant registry.Valid() && DoneStays(old(registry.byId.Values + registry.removed))
      invariant fresh(registry.byId.Values - old(registry.byId.Values))
      invariant old(registry.byId.Values) <= registry.byId.Values + registry.removed
      invariant old(registry.removed) <= registry.removed
    {
      Execute(registry, commands[i]);
    }
  }
}

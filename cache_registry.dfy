/**
 * The process-wide registry of cache handles that both backup helpers keep
 * in a private static `$stores`: one handle per (backupid, itemname),
 * created on first use, listed by `get_stores` and dropped by `reset`.
 *
 * A handle is what `\cache::make('core', 'backup', ...)` returns. The cache
 * store behind it is outside this model: a handle is a mutable map that
 * starts empty, with `get`, `set`, `set_many` and `purge`.
 */
module CacheRegistry {
  import opened Common

  /** True iff no pair after position `i` of `kvs` has the key of pair `i`. */
  ghost predicate LastFor<K, V>(kvs: seq<(K, V)>, i: int)
    requires 0 <= i < |kvs|
  {
    forall j | i < j < |kvs| :: kvs[j].0 != kvs[i].0
  }

  /** The keys that occur in a batch of key/value pairs. */
  ghost function BatchKeys<K, V>(kvs: seq<(K, V)>): set<K> {
    set i | 0 <= i < |kvs| :: kvs[i].0
  }

  /** The keys of a non-empty batch are those of all but its last pair, plus the last key. */
  lemma BatchKeysLast<K, V>(kvs: seq<(K, V)>)
    requires kvs != []
    ensures BatchKeys(kvs) == BatchKeys(kvs[..|kvs| - 1]) + {kvs[|kvs| - 1].0}
  {
    var init := kvs[..|kvs| - 1];
    assert forall i | 0 <= i < |init| :: init[i] == kvs[i];
    assert kvs[|kvs| - 1].0 in BatchKeys(kvs);
  }

  /** A pair that is last for its key in a batch is also last in the batch without its final pair. */
  lemma LastForInit<K, V>(kvs: seq<(K, V)>)
    requires kvs != []
    ensures forall i | 0 <= i < |kvs| - 1 && LastFor(kvs, i) :: LastFor(kvs[..|kvs| - 1], i)
  {
    var init := kvs[..|kvs| - 1];
    forall i | 0 <= i < |init| && LastFor(kvs, i) ensures LastFor(init, i) {
      assert forall j | i < j < |init| :: init[j] == kvs[j];
    }
  }

  /**
   * `m` after writing the pairs of `kvs` one after the other, which is what a
   * cache's `set_many` does with an associative array of pairs.
   */
  function ApplyPairs<K, V>(m: map<K, V>, kvs: seq<(K, V)>): (r: map<K, V>)
    ensures r.Keys == m.Keys + BatchKeys(kvs)
    ensures forall i | 0 <= i < |kvs| && LastFor(kvs, i) :: r[kvs[i].0] == kvs[i].1
    ensures forall k | k in m && k !in BatchKeys(kvs) :: r[k] == m[k]
  {
    if kvs == [] then m
    else
      var init, last := kvs[..|kvs| - 1], kvs[|kvs| - 1];
      BatchKeysLast(kvs);
      LastForInit(kvs);
      ApplyPairs(m, init)[last.0 := last.1]
  }

  /** A cache handle: the object `\cache::make` returns, a map that starts empty. */
  class Cache<K(==), V> {
    var entries: map<K, V>

    constructor ()
      ensures entries == map[]
    {
      entries := map[];
    }

    method Get(key: K) returns (r: Option<V>)
      ensures r == Lookup(entries, key)
    {
      r := Lookup(entries, key);
    }

    method Set(key: K, value: V)
      modifies this
      ensures entries == old(entries)[key := value]
    {
      entries := entries[key := value];
    }

    method SetMany(kvs: seq<(K, V)>)
      modifies this
      ensures entries == ApplyPairs(old(entries), kvs)
    {
      entries := ApplyPairs(entries, kvs);
    }

    method Purge()
      modifies this
      ensures entries == map[]
    {
      entries := map[];
    }
  }

  /** What `get_stores` answers: the whole registry, or the handles of one backup id. */
  datatype StoresView<K(==), V> =
    | AllStores(byBackup: map<string, map<string, Cache<K, V>>>)
    | BackupStores(byName: map<string, Cache<K, V>>)

  /**
   * The registry after `self::$stores[$backupid][$itemname] = h` guarded by
   * `!isset(...)`: an existing entry is kept, a missing one is added.
   */
  function Register<X>(stores: map<string, map<string, X>>, backupid: string, itemname: string, h: X)
    : (r: map<string, map<string, X>>)
    ensures backupid in r && itemname in r[backupid]
    ensures r.Keys == stores.Keys + {backupid}
    ensures backupid in stores && itemname in stores[backupid] ==> r == stores
    ensures !(backupid in stores && itemname in stores[backupid]) ==> r[backupid][itemname] == h
    ensures forall b, n | b in stores && n in stores[b] :: b in r && n in r[b] && r[b][n] == stores[b][n]
    ensures forall b, n | b in r && n in r[b] :: (b == backupid && n == itemname) || (b in stores && n in stores[b])
  {
    if backupid in stores && itemname in stores[backupid] then stores
    else
      var inner := if backupid in stores then stores[backupid] else map[];
      stores[backupid := inner[itemname := h]]
  }

  /**
   * The registry after `reset($backupid)` AS WRITTEN: "0" forgets everything;
   * any other id is tested against an undefined local `$stores`, so nothing
   * is forgotten.
   */
  function ResetStores<X>(stores: map<string, X>, backupid: string): (r: map<string, X>)
    ensures backupid == "0" ==> r == map[]
    ensures backupid != "0" ==> r == stores
  {
    if backupid == "0" then map[] else stores
  }

  /** The registry after `reset($backupid)` as documented: forget that backup id's handles. */
  function ResetStoresIntended<X>(stores: map<string, X>, backupid: string): (r: map<string, X>)
    ensures backupid == "0" ==> r == map[]
    ensures backupid != "0" ==> r.Keys == stores.Keys - {backupid}
    ensures forall b | b in r :: r[b] == stores[b]
  {
    if backupid == "0" then map[] else stores - {backupid}
  }

  /** A second `reset` with the same id changes nothing more. */
  lemma ResetIdempotent<X>(stores: map<string, X>, backupid: string)
    ensures ResetStores(ResetStores(stores, backupid), backupid) == ResetStores(stores, backupid)
    ensures ResetStoresIntended(ResetStoresIntended(stores, backupid), backupid) == ResetStoresIntended(stores, backupid)
  {
  }

  /** Counterexample: as written, resetting a registered backup id leaves it registered. */
  lemma ResetAsWrittenKeepsBackup()
    ensures var stores := map["42" := 7]; "42" in ResetStores(stores, "42") && ResetStores(stores, "42") == stores
  {
  }

  /** As intended, resetting a backup id forgets exactly that id. */
  lemma ResetIntendedForgetsBackup<X>(stores: map<string, X>, backupid: string)
    requires backupid != "0"
    ensures backupid !in ResetStoresIntended(stores, backupid)
    ensures forall b | b in stores && b != backupid :: b in ResetStoresIntended(stores, backupid)
  {
  }

  /** The static `$stores` of one helper class, with the handles it owns. */
  class Registry<K(==), V> {
    var stores: map<string, map<string, Cache<K, V>>>
    ghost var Handles: set<Cache<K, V>>
    ghost var Slot: map<Cache<K, V>, (string, string)>  // the (backupid, itemname) a handle serves

    ghost predicate Registered(backupid: string, itemname: string)
      reads this
    {
      backupid in stores && itemname in stores[backupid]
    }

    /** Every registered handle is owned, and no handle serves two (backupid, itemname) slots. */
    ghost predicate Valid()
      reads this, Handles
    {
      forall b, n | Registered(b, n) :: stores[b][n] in Handles && stores[b][n] in Slot && Slot[stores[b][n]] == (b, n)
    }

    /** The contents of the partition (backupid, itemname); an unregistered one reads as empty. */
    ghost function Entries(backupid: string, itemname: string): map<K, V>
      reads this, Handles
    {
      if Registered(backupid, itemname) && stores[backupid][itemname] in Handles
      then stores[backupid][itemname].entries else map[]
    }

    constructor ()
      ensures Valid() && Handles == {}
      ensures stores == map[]
    {
      stores := map[];
      Handles, Slot := {}, map[];
    }

    /** `get_cache` / `get`: the memoised handle of (backupid, itemname). */
    method Get(backupid: string, itemname: string) returns (h: Cache<K, V>)
      requires Valid()
      modifies this
      ensures Valid() && fresh(Handles - old(Handles))
      ensures stores == Register(old(stores), backupid, itemname, h)
      ensures Registered(backupid, itemname) && stores[backupid][itemname] == h && h in Handles
      ensures !old(Registered(backupid, itemname)) ==> fresh(h)
      ensures forall b, n :: Entries(b, n) == old(Entries(b, n))
    {
      if !(backupid in stores && itemname in stores[backupid]) {
        h := Make(backupid, itemname);
      } else {
        h := stores[backupid][itemname];
      }
    }

    /** The first-use branch of `get_cache`: `\cache::make` and registration of the new handle. */
    method Make(backupid: string, itemname: string) returns (c: Cache<K, V>)
      requires Valid() && !Registered(backupid, itemname)
      modifies this
      ensures Valid() && Handles == old(Handles) + {c} && fresh(c)
      ensures stores == Register(old(stores), backupid, itemname, c)
      ensures Registered(backupid, itemname) && stores[backupid][itemname] == c
      ensures forall b, n :: Entries(b, n) == old(Entries(b, n))
    {
      c := new Cache<K, V>();
      var inner: map<string, Cache<K, V>> := if backupid in stores then stores[backupid] else map[];
      ghost var before: map<string, map<string, Cache<K, V>>> := stores;
      stores := stores[backupid := inner[itemname := c]];
      Handles, Slot := Handles + {c}, Slot[c := (backupid, itemname)];
      assert stores == Register(before, backupid, itemname, c);
      forall b, n | Registered(b, n)
        ensures stores[b][n] in Handles && stores[b][n] in Slot && Slot[stores[b][n]] == (b, n)
      {
        if b != backupid || n != itemname {
          assert stores[b][n] == before[b][n] != c;
        }
      }
      forall b, n ensures Entries(b, n) == old(Entries(b, n)) {
        if b == backupid && n == itemname {
          assert Entries(b, n) == c.entries == map[];
        } else if b in before && n in before[b] {
          var d := before[b][n];
          assert stores[b][n] == d && d in Handles;
          assert Entries(b, n) == d.entries;
        } else {
          assert !Registered(b, n);
        }
      }
    }

    /** A registered handle serves exactly one partition. */
    lemma HandleOwnsSlot(h: Cache<K, V>, backupid: string, itemname: string)
      requires Valid() && Registered(backupid, itemname) && stores[backupid][itemname] == h
      ensures forall b, n | Registered(b, n) && (b != backupid || n != itemname) :: stores[b][n] != h
    {
    }

    /** `get_stores`: a truthy id selects that id's handles, "0" and "" select everything. */
    function GetStores(backupid: string): (r: StoresView<K, V>)
      reads this
      ensures r.AllStores? <==> !Truthy(backupid)
      ensures r.AllStores? ==> r.byBackup == stores
      ensures r.BackupStores? ==> forall n :: n in r.byName <==> Registered(backupid, n)
      ensures r.BackupStores? ==> forall n | n in r.byName
                :: backupid in stores && n in stores[backupid] && r.byName[n] == stores[backupid][n]
    {
      if Truthy(backupid) then
        BackupStores(if backupid in stores then stores[backupid] else map[])
      else
        AllStores(stores)
    }

    /** Purges every handle registered under `backupid`; the registry itself is not changed. */
    method PurgeBackup(backupid: string)
      requires Valid() && backupid in stores
      modifies this, Handles
      ensures Valid() && stores == old(stores) && Handles == old(Handles) && Slot == old(Slot)
      ensures forall n | Registered(backupid, n) :: stores[backupid][n].entries == map[]
      ensures forall b, n | Registered(b, n) && b != backupid :: stores[b][n].entries == old(stores[b][n].entries)
    {
      var pending := stores[backupid].Keys;
      while pending != {}
        invariant Valid() && stores == old(stores) && Handles == old(Handles) && Slot == old(Slot)
        invariant pending <= stores[backupid].Keys
        invariant forall n | Registered(backupid, n) && n !in pending :: stores[backupid][n].entries == map[]
        invariant forall b, n | Registered(b, n) && (b != backupid || n in pending)
                    :: stores[b][n].entries == old(stores[b][n].entries)
        decreases pending
      {
        var n :| n in pending;
        stores[backupid][n].Purge();
        pending := pending - {n};
      }
    }

    /**
     * `reset` as written: "0" purges every handle and empties the registry;
     * any other id changes nothing.
     */
    method Reset(backupid: string)
      requires Valid()
      modifies this, Handles
      ensures Valid() && fresh(Handles - old(Handles))
      ensures stores == ResetStores(old(stores), backupid)
      ensures backupid == "0" ==> forall b, n | old(Registered(b, n)) :: old(stores[b][n]).entries == map[]
      ensures backupid != "0" ==> Handles == old(Handles) && unchanged(this, Handles)
    {
      if backupid == "0" {
        var pending := stores.Keys;
        while pending != {}
          invariant Valid() && stores == old(stores) && Handles == old(Handles) && Slot == old(Slot)
          invariant pending <= stores.Keys
          invariant forall b, n | Registered(b, n) && b !in pending :: stores[b][n].entries == map[]
          invariant forall b, n | Registered(b, n) && b in pending :: stores[b][n].entries == old(stores[b][n].entries)
          decreases pending
        {
          var b :| b in pending;
          PurgeBackup(b);
          pending := pending - {b};
        }
        stores := map[];
        Handles, Slot := {}, map[];
      }
    }

    /**
     * `reset` as its documentation describes it: "0" behaves as above; any
     * other id purges and forgets exactly that id's handles.
     */
    method ResetCorrected(backupid: string)
      requires Valid()
      modifies this, Handles
      ensures Valid() && fresh(Handles - old(Handles))
      ensures stores == ResetStoresIntended(old(stores), backupid)
      ensures Truthy(backupid) ==> GetStores(backupid) == BackupStores(map[])
      ensures forall b, n | old(Registered(b, n)) && (backupid == "0" || b == backupid)
                :: old(stores[b][n]).entries == map[]
      ensures forall b, n | old(Registered(b, n)) && backupid != "0" && b != backupid
                :: old(stores[b][n]).entries == old(stores[b][n].entries)
    {
      if backupid == "0" {
        Reset(backupid);
      } else if backupid in stores {
        PurgeBackup(backupid);
        stores := stores - {backupid};
      }
    }
  }
}

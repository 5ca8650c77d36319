/**
 * The backup MUC manager: per-request caches, one per (backupid, itemname),
 * each of which keeps, beside the data written to it, a shadow index stored
 * under the reserved key "keys" that remembers every key ever written, in
 * first-write order, so that all keys of a partition can be listed.
 */
module BackupMucManager {
  import opened Common
  import opened CacheRegistry

  /** The reserved key under which a partition keeps its list of data keys. */
  const IndexKey: string := "keys"

  /** What a partition stores: caller data, or (under IndexKey) the key index. */
  datatype Entry<D> = Data(value: D) | KeyIndex(keys: seq<string>)

  type Partition<D> = map<string, Entry<D>>

  predicate Distinct(s: seq<string>) {
    forall i, j | 0 <= i < j < |s| :: s[i] != s[j]
  }

  /** No pair of the batch writes the reserved index key. */
  predicate NoIndexKey<D>(kvs: seq<(string, D)>) {
    forall i | 0 <= i < |kvs| :: kvs[i].0 != IndexKey
  }

  /**
   * The key list read back from a `get('keys')` answer: a miss (PHP `false`)
   * reads as the empty list.
   */
  function IndexOfEntry<D>(e: Option<Entry<D>>): (r: seq<string>)
    ensures e.Some? && e.value.KeyIndex? ==> r == e.value.keys
    ensures e.None? ==> r == []
  {
    if e.Some? && e.value.KeyIndex? then e.value.keys else []
  }

  /** The key list a partition currently holds. */
  function IndexOf<D>(m: Partition<D>): seq<string> {
    IndexOfEntry(Lookup(m, IndexKey))
  }

  /**
   * `$storekeys[$key] = true` on the associative array of keys: a new key goes
   * to the end, a key already present keeps its place.
   */
  function AddKey(index: seq<string>, key: string): (r: seq<string>)
    ensures forall k :: k in r <==> k in index || k == key
    ensures |index| <= |r| && r[..|index|] == index
    ensures key in index ==> r == index
    ensures Distinct(index) ==> Distinct(r)
  {
    if key in index then index else index + [key]
  }

  /** The key list after the `foreach` over a batch marks every key of it. */
  function AddBatchKeys<D>(index: seq<string>, kvs: seq<(string, D)>): (r: seq<string>)
    ensures forall k :: k in r <==> k in index || k in BatchKeys(kvs)
    ensures |index| <= |r| && r[..|index|] == index
    ensures Distinct(index) ==> Distinct(r)
  {
    if kvs == [] then index
    else
      var mid := AddBatchKeys(index, kvs[..|kvs| - 1]);
      BatchKeysLast(kvs);
      var r := AddKey(mid, kvs[|kvs| - 1].0);
      assert r[..|index|] == r[..|mid|][..|index|];
      r
  }

  /** The data entries of a batch, as handed to the cache's `set_many`. */
  function AsData<D>(kvs: seq<(string, D)>): (r: seq<(string, Entry<D>)>)
    ensures |r| == |kvs|
    ensures forall i | 0 <= i < |kvs| :: r[i] == (kvs[i].0, Data(kvs[i].1))
  {
    if kvs == [] then [] else [(kvs[0].0, Data(kvs[0].1))] + AsData(kvs[1..])
  }

  /** The batch handed to the cache writes exactly the caller's keys. */
  lemma AsDataKeys<D>(kvs: seq<(string, D)>)
    ensures BatchKeys(AsData(kvs)) == BatchKeys(kvs)
  {
  }

  /**
   * The partition after `set($key, $data)`: the data is written, then the
   * key list is read back from the updated partition, marked and stored.
   */
  function AfterSet<D>(m: Partition<D>, key: string, data: D): (r: Partition<D>)
    requires key != IndexKey
    ensures r.Keys == m.Keys + {key, IndexKey}
    ensures r[key] == Data(data)
    ensures forall k | k in m && k != key && k != IndexKey :: r[k] == m[k]
    ensures r[IndexKey].KeyIndex? && IndexOf(r) == AddKey(IndexOf(m), key)
  {
    var written := m[key := Data(data)];
    assert Lookup(written, IndexKey) == Lookup(m, IndexKey);
    written[IndexKey := KeyIndex(AddKey(IndexOf(written), key))]
  }

  /**
   * The partition after `set_many($keyvaluearray)`: the batch is written, then
   * every key of it is marked in the key list read back from the partition.
   */
  function AfterSetMany<D>(m: Partition<D>, kvs: seq<(string, D)>): (r: Partition<D>)
    requires NoIndexKey(kvs)
    ensures r.Keys == m.Keys + BatchKeys(kvs) + {IndexKey}
    ensures forall i | 0 <= i < |kvs| && LastFor(kvs, i) :: r[kvs[i].0] == Data(kvs[i].1)
    ensures forall k | k in m && k !in BatchKeys(kvs) && k != IndexKey :: r[k] == m[k]
    ensures r[IndexKey].KeyIndex? && IndexOf(r) == AddBatchKeys(IndexOf(m), kvs)
  {
    var data := AsData(kvs);
    AsDataKeys(kvs);
    var written := ApplyPairs(m, data);
    assert IndexKey !in BatchKeys(kvs);
    assert Lookup(written, IndexKey) == Lookup(m, IndexKey);
    assert forall i | 0 <= i < |kvs| && LastFor(kvs, i) :: LastFor(data, i) by {
      forall i | 0 <= i < |kvs| && LastFor(kvs, i) ensures LastFor(data, i) {
        assert forall j | i < j < |kvs| :: data[j].0 == kvs[j].0;
      }
    }
    written[IndexKey := KeyIndex(AddBatchKeys(IndexOf(written), kvs))]
  }

  /**
   * What the helper keeps true of every partition: the reserved key, when
   * present, holds the index; the index lists no key twice; and a key is
   * listed exactly when it is a data key of the partition.
   */
  ghost predicate IndexConsistent<D>(m: Partition<D>) {
    && (IndexKey in m ==> m[IndexKey].KeyIndex?)
    && Distinct(IndexOf(m))
    && forall k :: k in IndexOf(m) <==> k in m && k != IndexKey
  }

  lemma EmptyIndexConsistent<D>(m: Partition<D>)
    requires m == map[]
    ensures IndexConsistent(m)
  {
  }

  /** `set` keeps the index consistent. */
  lemma SetKeepsIndexConsistent<D>(m: Partition<D>, key: string, data: D)
    requires IndexConsistent(m) && key != IndexKey
    ensures IndexConsistent(AfterSet(m, key, data))
  {
  }

  /** `set_many` keeps the index consistent. */
  lemma SetManyKeepsIndexConsistent<D>(m: Partition<D>, kvs: seq<(string, D)>)
    requires IndexConsistent(m) && NoIndexKey(kvs)
    ensures IndexConsistent(AfterSetMany(m, kvs))
  {
  }

  /** Every registered partition of the helper has a consistent index. */
  ghost predicate MucValid<D>(reg: Registry<string, Entry<D>>)
    reads reg, reg.Handles
  {
    reg.Valid() && forall b, n :: IndexConsistent(reg.Entries(b, n))
  }

  /** `get`: the memoised cache handle of one partition. */
  method Get<D>(reg: Registry<string, Entry<D>>, backupid: string, itemname: string)
    returns (h: Cache<string, Entry<D>>)
    requires MucValid(reg)
    modifies reg
    ensures MucValid(reg) && fresh(reg.Handles - old(reg.Handles))
    ensures reg.stores == Register(old(reg.stores), backupid, itemname, h)
    ensures reg.Registered(backupid, itemname) && reg.stores[backupid][itemname] == h && h in reg.Handles
    ensures !old(reg.Registered(backupid, itemname)) ==> fresh(h)
    ensures forall b, n :: reg.Entries(b, n) == old(reg.Entries(b, n))
  {
    h := reg.Get(backupid, itemname);
  }

  /** `get_allkeys`: every data key of a partition, in first-write order. */
  method GetAllKeys<D>(reg: Registry<string, Entry<D>>, backupid: string, itemname: string)
    returns (keys: seq<string>)
    requires MucValid(reg)
    modifies reg
    ensures MucValid(reg) && fresh(reg.Handles - old(reg.Handles))
    ensures reg.Registered(backupid, itemname)
    ensures reg.stores == Register(old(reg.stores), backupid, itemname, reg.stores[backupid][itemname])
    ensures forall b, n :: reg.Entries(b, n) == old(reg.Entries(b, n))
    ensures keys == IndexOf(reg.Entries(backupid, itemname))
    ensures Distinct(keys)
    ensures forall k :: k in keys <==> k in reg.Entries(backupid, itemname) && k != IndexKey
    ensures old(reg.Entries(backupid, itemname)) == map[] ==> keys == []
  {
    var store := Get(reg, backupid, itemname);
    var storekeys := store.Get(IndexKey);
    keys := IndexOfEntry(storekeys);
  }

  /** The body of `set` once the partition's handle is at hand. */
  method WriteAndMark<D>(reg: Registry<string, Entry<D>>, store: Cache<string, Entry<D>>,
                         backupid: string, itemname: string, key: string, data: D)
    requires reg.Valid() && reg.Registered(backupid, itemname) && reg.stores[backupid][itemname] == store
    requires key != IndexKey
    modifies store
    ensures reg.Valid()
    ensures reg.Entries(backupid, itemname) == AfterSet(old(reg.Entries(backupid, itemname)), key, data)
    ensures forall b, n | b != backupid || n != itemname :: reg.Entries(b, n) == old(reg.Entries(b, n))
  {
    reg.HandleOwnsSlot(store, backupid, itemname);
    store.Set(key, Data(data));
    var storekeys := store.Get(IndexKey);
    store.Set(IndexKey, KeyIndex(AddKey(IndexOfEntry(storekeys), key)));
  }

  /**
   * The `foreach` of `set_many`: marks the key of every pair of the batch,
   * in batch order, in the key list read back from the cache.
   */
  method MarkBatch<D>(index: seq<string>, kvs: seq<(string, D)>) returns (r: seq<string>)
    ensures r == AddBatchKeys(index, kvs)
    ensures forall k :: k in r <==> k in index || k in BatchKeys(kvs)
    ensures |index| <= |r| && r[..|index|] == index
  {
    r := index;
    var i := 0;
    while i < |kvs|
      invariant 0 <= i <= |kvs|
      invariant r == AddBatchKeys(index, kvs[..i])
    {
      assert kvs[..i + 1][..i] == kvs[..i];
      r := AddKey(r, kvs[i].0);
      i := i + 1;
    }
    assert kvs[..|kvs|] == kvs;
  }

  /** The body of `set_many` once the partition's handle is at hand. */
  method WriteAndMarkMany<D>(reg: Registry<string, Entry<D>>, store: Cache<string, Entry<D>>,
                             backupid: string, itemname: string, kvs: seq<(string, D)>)
    requires reg.Valid() && reg.Registered(backupid, itemname) && reg.stores[backupid][itemname] == store
    requires NoIndexKey(kvs)
    modifies store
    ensures reg.Valid()
    ensures reg.Entries(backupid, itemname) == AfterSetMany(old(reg.Entries(backupid, itemname)), kvs)
    ensures forall b, n | b != backupid || n != itemname :: reg.Entries(b, n) == old(reg.Entries(b, n))
  {
    reg.HandleOwnsSlot(store, backupid, itemname);
    store.SetMany(AsData(kvs));
    var storekeys := store.Get(IndexKey);
    var index := MarkBatch(IndexOfEntry(storekeys), kvs);
    store.Set(IndexKey, KeyIndex(index));
  }

  /** `set`: writes one data entry and marks its key in the index. */
  method Set<D>(reg: Registry<string, Entry<D>>, backupid: string, itemname: string, key: string, data: D)
    requires MucValid(reg) && key != IndexKey
    modifies reg, reg.Handles
    ensures MucValid(reg) && fresh(reg.Handles - old(reg.Handles))
    ensures reg.Registered(backupid, itemname)
    ensures reg.stores == Register(old(reg.stores), backupid, itemname, reg.stores[backupid][itemname])
    ensures reg.Entries(backupid, itemname) == AfterSet(old(reg.Entries(backupid, itemname)), key, data)
    ensures forall b, n | b != backupid || n != itemname :: reg.Entries(b, n) == old(reg.Entries(b, n))
  {
    var store := Get(reg, backupid, itemname);
    ghost var m := store.entries;
    WriteAndMark(reg, store, backupid, itemname, key, data);
    forall b, n ensures IndexConsistent(reg.Entries(b, n)) {
      if b == backupid && n == itemname {
        SetKeepsIndexConsistent(m, key, data);
      } else {
        assert reg.Entries(b, n) == old(reg.Entries(b, n));
      }
    }
  }

  /** `set_many`: writes a batch of data entries and marks each key of it. */
  method SetMany<D>(reg: Registry<string, Entry<D>>, backupid: string, itemname: string, kvs: seq<(string, D)>)
    requires MucValid(reg) && NoIndexKey(kvs)
    modifies reg, reg.Handles
    ensures MucValid(reg) && fresh(reg.Handles - old(reg.Handles))
    ensures reg.Registered(backupid, itemname)
    ensures reg.stores == Register(old(reg.stores), backupid, itemname, reg.stores[backupid][itemname])
    ensures reg.Entries(backupid, itemname) == AfterSetMany(old(reg.Entries(backupid, itemname)), kvs)
    ensures forall b, n | b != backupid || n != itemname :: reg.Entries(b, n) == old(reg.Entries(b, n))
  {
    var store := Get(reg, backupid, itemname);
    ghost var m := store.entries;
    WriteAndMarkMany(reg, store, backupid, itemname, kvs);
    forall b, n ensures IndexConsistent(reg.Entries(b, n)) {
      if b == backupid && n == itemname {
        SetManyKeepsIndexConsistent(m, kvs);
      } else {
        assert reg.Entries(b, n) == old(reg.Entries(b, n));
      }
    }
  }

  /** `purge`: empties one partition, its index included. */
  method Purge<D>(reg: Registry<string, Entry<D>>, backupid: string, itemname: string)
    requires MucValid(reg)
    modifies reg, reg.Handles
    ensures MucValid(reg) && fresh(reg.Handles - old(reg.Handles))
    ensures reg.Registered(backupid, itemname)
    ensures reg.stores == Register(old(reg.stores), backupid, itemname, reg.stores[backupid][itemname])
    ensures reg.Entries(backupid, itemname) == map[]
    ensures forall b, n | b != backupid || n != itemname :: reg.Entries(b, n) == old(reg.Entries(b, n))
  {
    var store := Get(reg, backupid, itemname);
    store.Purge();
    forall b, n ensures IndexConsistent(reg.Entries(b, n)) {
      if b == backupid && n == itemname {
        EmptyIndexConsistent(reg.Entries(b, n));
      } else {
        assert reg.Entries(b, n) == old(reg.Entries(b, n));
      }
    }
  }

  /**
   * `reset`: with "0" every partition is purged and forgotten; with any other
   * id the code as written changes nothing (see `Registry.Reset`).
   */
  method Reset<D>(reg: Registry<string, Entry<D>>, backupid: string)
    requires MucValid(reg)
    modifies reg, reg.Handles
    ensures MucValid(reg) && fresh(reg.Handles - old(reg.Handles))
    ensures reg.stores == ResetStores(old(reg.stores), backupid)
    ensures backupid == "0" ==> forall b, n | old(reg.Registered(b, n)) :: old(reg.stores[b][n]).entries == map[]
    ensures backupid == "0" ==> reg.GetStores(backupid) == AllStores(map[])
    ensures backupid != "0" ==> forall b, n :: reg.Entries(b, n) == old(reg.Entries(b, n))
  {
    reg.Reset(backupid);
    forall b, n ensures IndexConsistent(reg.Entries(b, n)) {
      if backupid == "0" {
        EmptyIndexConsistent(reg.Entries(b, n));
      } else {
        assert reg.Entries(b, n) == old(reg.Entries(b, n));
      }
    }
  }

  /** After a `set`, the key is listed and its data is what a `get` returns. */
  lemma SetThenListed<D>(m: Partition<D>, key: string, data: D)
    requires IndexConsistent(m) && key != IndexKey
    ensures key in IndexOf(AfterSet(m, key, data))
    ensures Lookup(AfterSet(m, key, data), key) == Some(Data(data))
    ensures key in m ==> IndexOf(AfterSet(m, key, data)) == IndexOf(m)
  {
    assert key in m ==> key in IndexOf(m);
  }
}

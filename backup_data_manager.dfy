/**
 * The id-translation store of backup/restore (`backup_data_manager`): staged
 * item records keyed by (backupid, itemname, itemid), written through to a
 * per-(backupid, itemname) cache and to the durable table `backup_ids_temp`,
 * read cache first, and wrapped in an object that decodes the `info`
 * payload on first access.
 *
 * The static methods of the PHP class become module-level methods that take
 * the registry of cache handles (the class's `$stores`) and the table (the
 * global `$DB`) as parameters.
 */
module BackupDataManager {
  import opened Common
  import opened CacheRegistry

  /** A PHP scalar held in one field of a staged record. */
  datatype Value = Null | Bool(b: bool) | Int(i: int) | Str(s: string)

  /** A staged record: a PHP associative array (or stdClass) keyed by field name. */
  type Record = map<string, Value>

  /** The unique key (backupid, itemname, itemid) of a row of `backup_ids_temp`. */
  type RowKey = (string, string, int)

  /** Reading a property: a field the record lacks reads as null. */
  function Field(r: Record, name: string): Value {
    if name in r then r[name] else Null
  }

  /** The fields a record gets when an item is staged for the first time. */
  function Defaults(): Record {
    map["newitemid" := Int(0), "parentitemid" := Null, "info" := Null]
  }

  /**
   * PHP truthiness of what a cache `get` answers: false for a missing entry,
   * and also for an entry that is an empty array.
   */
  predicate Hit(e: Option<Record>) {
    e.Some? && e.value != map[]
  }

  /** The caller's fields do not rename the row they are written to. */
  predicate NoKeyColumns(f: Record) {
    "backupid" !in f && "itemname" !in f && "itemid" !in f
  }

  /**
   * The cache entry after `set_backup_cached_record(.., f)` when the cache
   * held `e`: `info` is dropped from `f`; an existing entry gets `f` merged
   * over it, a new one is `f` merged over the defaults.
   */
  function CacheMerge(e: Option<Record>, f: Record): (r: Record)
    ensures r != map[]
    ensures forall k | k in f && k != "info" :: k in r && r[k] == f[k]
    ensures Hit(e) ==> r.Keys == e.value.Keys + (f.Keys - {"info"})
    ensures Hit(e) ==> forall k | k in e.value && (k !in f || k == "info") :: r[k] == e.value[k]
    ensures !Hit(e) ==> r.Keys == Defaults().Keys + f.Keys
    ensures !Hit(e) ==> forall k | k in Defaults() && (k !in f || k == "info") :: r[k] == Defaults()[k]
    ensures Field(r, "info") == if Hit(e) then Field(e.value, "info") else Null
  {
    var fields := f - {"info"};
    if Hit(e) then e.value + fields else Defaults() + fields
  }

  /**
   * What `get_backup_cached_record` makes of a cache entry: the entry with
   * its lookup key filled in and `info` forced to null.
   */
  function CachedView(e: Record, backupid: string, itemname: string, itemid: int): (r: Record)
    ensures r.Keys == e.Keys + {"restoreid", "itemname", "itemid", "info"}
    ensures r["restoreid"] == Str(backupid) && r["itemname"] == Str(itemname) && r["itemid"] == Int(itemid)
    ensures r["info"] == Null
    ensures forall k | k in e && k != "restoreid" && k != "itemname" && k != "itemid" && k != "info" :: r[k] == e[k]
  {
    e["restoreid" := Str(backupid)]["itemname" := Str(itemname)]["itemid" := Int(itemid)]["info" := Null]
  }

  /**
   * The row of `backup_ids_temp` after `set_backup_db_record(.., f)` when the
   * row was `row`: an existing row gets `f` merged over it (and only when `f`
   * is not empty), a new row is the key columns, then the defaults, then `f`,
   * with the id the table assigns.
   */
  function DbMerge(row: Option<Record>, backupid: string, itemname: string, itemid: int, f: Record, nextId: int)
    : (r: Record)
    ensures forall k | k in f && k != "id" :: k in r && r[k] == f[k]
    ensures row.Some? ==> r.Keys == row.value.Keys + f.Keys + (if f == map[] then {} else {"id"})
    ensures row.Some? ==> forall k | k in row.value && (k !in f || k == "id") :: r[k] == row.value[k]
    ensures row.None? ==> r.Keys == {"backupid", "itemname", "itemid", "id"} + Defaults().Keys + f.Keys
    ensures row.None? ==> forall k | k in Defaults() && k !in f :: r[k] == Defaults()[k]
    ensures row.None? ==> r["id"] == Int(nextId)
    ensures row.None? && NoKeyColumns(f) ==>
              r["backupid"] == Str(backupid) && r["itemname"] == Str(itemname) && r["itemid"] == Int(itemid)
  {
    if row.Some? then
      if f == map[] then row.value else row.value + f["id" := Field(row.value, "id")]
    else
      var keyColumns := map["backupid" := Str(backupid), "itemname" := Str(itemname), "itemid" := Int(itemid)];
      (keyColumns + Defaults() + f)["id" := Int(nextId)]
  }

  /**
   * The durable table `backup_ids_temp`, reduced to what `$DB->get_record`,
   * `update_record` and `insert_record` do with it.
   */
  class Table {
    var rows: map<RowKey, Record>
    var nextId: int

    constructor ()
      ensures rows == map[] && nextId == 1
    {
      rows := map[];
      nextId := 1;
    }

    method GetRecord(key: RowKey) returns (r: Option<Record>)
      ensures r == Lookup(rows, key)
    {
      r := Lookup(rows, key);
    }

    /** Overwrites the named columns of an existing row. */
    method UpdateRecord(key: RowKey, fields: Record)
      requires key in rows
      modifies this
      ensures rows == old(rows)[key := old(rows)[key] + fields] && nextId == old(nextId)
    {
      rows := rows[key := rows[key] + fields];
    }

    /** Inserts a row under a fresh id. */
    method InsertRecord(key: RowKey, fields: Record)
      modifies this
      ensures rows == old(rows)[key := fields["id" := Int(old(nextId))]] && nextId == old(nextId) + 1
    {
      rows := rows[key := fields["id" := Int(nextId)]];
      nextId := nextId + 1;
    }
  }

  /** The three values of the wrapper's `infodecoded` flag: null, false and true. */
  datatype InfoState =
    | MustFetch  // null: `info` is not loaded and must be read from the table
    | Encoded    // false: `info` holds the encoded payload
    | Decoded    // true: `info` holds the decoded payload

  /** The `infodecoded` flag as the PHP value a property read returns. */
  function FlagValue(s: InfoState): Value {
    match s
    case MustFetch => Null
    case Encoded => Bool(false)
    case Decoded => Bool(true)
  }

  /**
   * What `__get($name)` returns for a wrapper in state `s` holding `data`,
   * when the table row of its key is `row`, `decode` is the payload decoder
   * and `dbFails` says whether reading the table throws.
   */
  function Property(name: string, s: InfoState, data: Record, row: Option<Record>,
                    decode: Value -> Value, dbFails: bool): Value
  {
    if name == "info" then
      match s
      case Decoded => Field(data, "info")
      case Encoded => decode(Field(data, "info"))
      case MustFetch =>
        // a missing row reads as false, and its property `info` as null
        if dbFails then Null else decode(if row.Some? then Field(row.value, "info") else Null)
    else if name == "infodecoded" then FlagValue(s)
    else Field(data, name)
  }

  /**
   * Once `info` has been read, reading it again returns the same value,
   * whatever the table, the decoder and the failure flag are by then.
   */
  lemma InfoDecodedOnce(s: InfoState, data: Record, row: Option<Record>, decode: Value -> Value, dbFails: bool,
                        row': Option<Record>, decode': Value -> Value, dbFails': bool)
    ensures var v := Property("info", s, data, row, decode, dbFails);
            var data' := if s == Decoded then data else data["info" := v];
            Property("info", Decoded, data', row', decode', dbFails') == v
  {
  }

  /** The object `get_backup_record` returns: a record plus its `infodecoded` flag. */
  class BackupRecord {
    const backupid: string
    const itemname: string
    const itemid: int
    var data: Record
    var infoState: InfoState

    constructor (backupid: string, itemname: string, itemid: int, data: Record, infoState: InfoState)
      ensures this.backupid == backupid && this.itemname == itemname && this.itemid == itemid
      ensures this.data == data && this.infoState == infoState
    {
      this.backupid := backupid;
      this.itemname := itemname;
      this.itemid := itemid;
      this.data := data;
      this.infoState := infoState;
    }

    /**
     * `__get($name)`. For `info` it loads or decodes the payload the first
     * time (a failing table read gives null) and afterwards returns what it
     * stored; every other name is a plain property read.
     */
    method Get(name: string, db: Table, decode: Value -> Value, dbFails: bool) returns (v: Value)
      modifies this
      ensures v == Property(name, old(infoState), old(data), Lookup(db.rows, (backupid, itemname, itemid)), decode, dbFails)
      ensures name != "info" ==> data == old(data) && infoState == old(infoState)
      ensures name == "info" ==> infoState == Decoded
      ensures name == "info" && old(infoState) == Decoded ==> v == old(Field(data, "info")) && data == old(data)
      ensures name == "info" && old(infoState) != Decoded ==> data == old(data)["info" := v]
      ensures name == "info" && old(infoState) == MustFetch && dbFails ==> v == Null
    {
      if name == "info" {
        if infoState == MustFetch {
          if dbFails {
            data := data["info" := Null];
          } else {
            var dbrec := GetBackupDbRecord(db, backupid, itemname, itemid);
            data := data["info" := decode(if dbrec.Some? then Field(dbrec.value, "info") else Null)];
          }
          infoState := Decoded;
        } else if infoState == Encoded {
          data := data["info" := decode(Field(data, "info"))];
          infoState := Decoded;
        }
        v := Field(data, "info");
      } else if name == "infodecoded" {
        v := FlagValue(infoState);
      } else {
        v := Field(data, name);
      }
    }

    /** `__isset($key)`: whether `__get($key)` is not null, with the same effect on the record. */
    method IsSet(name: string, db: Table, decode: Value -> Value, dbFails: bool) returns (b: bool)
      modifies this
      ensures b <==> Property(name, old(infoState), old(data), Lookup(db.rows, (backupid, itemname, itemid)),
                              decode, dbFails) != Null
      ensures name != "info" ==> data == old(data) && infoState == old(infoState)
      ensures name == "info" ==> infoState == Decoded
      ensures name == "info" && old(infoState) == Decoded ==> data == old(data)
      ensures name == "info" && old(infoState) != Decoded ==>
                data == old(data)["info" := Property(name, old(infoState), old(data),
                                                      Lookup(db.rows, (backupid, itemname, itemid)), decode, dbFails)]
    {
      var v := Get(name, db, decode, dbFails);
      b := v != Null;
    }
  }

  /** `set_data`: stores `data` under `key` in the (backupid, itemname) cache. */
  method SetData(reg: Registry<int, Record>, backupid: string, itemname: string, key: int, data: Record)
    requires reg.Valid()
    modifies reg, reg.Handles
    ensures reg.Valid() && fresh(reg.Handles - old(reg.Handles))
    ensures reg.Registered(backupid, itemname)
    ensures reg.stores == Register(old(reg.stores), backupid, itemname, reg.stores[backupid][itemname])
    ensures reg.Entries(backupid, itemname) == old(reg.Entries(backupid, itemname))[key := data]
    ensures forall b, n | b != backupid || n != itemname :: reg.Entries(b, n) == old(reg.Entries(b, n))
  {
    var store := reg.Get(backupid, itemname);
    store.Set(key, data);
  }

  /** `set_many`: stores a batch of pairs in the (backupid, itemname) cache. */
  method SetMany(reg: Registry<int, Record>, backupid: string, itemname: string, kvs: seq<(int, Record)>)
    requires reg.Valid()
    modifies reg, reg.Handles
    ensures reg.Valid() && fresh(reg.Handles - old(reg.Handles))
    ensures reg.Registered(backupid, itemname)
    ensures reg.stores == Register(old(reg.stores), backupid, itemname, reg.stores[backupid][itemname])
    ensures reg.Entries(backupid, itemname) == ApplyPairs(old(reg.Entries(backupid, itemname)), kvs)
    ensures forall b, n | b != backupid || n != itemname :: reg.Entries(b, n) == old(reg.Entries(b, n))
  {
    var store := reg.Get(backupid, itemname);
    store.SetMany(kvs);
  }

  /** `purge`: empties the (backupid, itemname) cache and keeps its handle registered. */
  method Purge(reg: Registry<int, Record>, backupid: string, itemname: string)
    requires reg.Valid()
    modifies reg, reg.Handles
    ensures reg.Valid() && fresh(reg.Handles - old(reg.Handles))
    ensures reg.Registered(backupid, itemname)
    ensures reg.stores == Register(old(reg.stores), backupid, itemname, reg.stores[backupid][itemname])
    ensures reg.Entries(backupid, itemname) == map[]
    ensures forall b, n | b != backupid || n != itemname :: reg.Entries(b, n) == old(reg.Entries(b, n))
  {
    var store := reg.Get(backupid, itemname);
    store.Purge();
  }

  /** `get_backup_db_record`: the row of the table under (backupid, itemname, itemid). */
  method GetBackupDbRecord(db: Table, backupid: string, itemname: string, itemid: int) returns (r: Option<Record>)
    ensures r.Some? <==> (backupid, itemname, itemid) in db.rows
    ensures r.Some? ==> r.value == db.rows[(backupid, itemname, itemid)]
  {
    r := db.GetRecord((backupid, itemname, itemid));
  }

  /**
   * `get_backup_cached_record`: the cache entry of `itemid` seen through
   * CachedView, or None when the cache has nothing truthy for it. The
   * handle of (backupid, itemname) is registered on the way.
   */
  method GetBackupCachedRecord(reg: Registry<int, Record>, backupid: string, itemname: string, itemid: int)
    returns (r: Option<Record>)
    requires reg.Valid()
    modifies reg
    ensures reg.Valid() && fresh(reg.Handles - old(reg.Handles))
    ensures reg.Registered(backupid, itemname)
    ensures reg.stores == Register(old(reg.stores), backupid, itemname, reg.stores[backupid][itemname])
    ensures forall b, n :: reg.Entries(b, n) == old(reg.Entries(b, n))
    ensures var e := Lookup(old(reg.Entries(backupid, itemname)), itemid);
            (r.Some? <==> Hit(e)) && (r.Some? ==> r.value == CachedView(e.value, backupid, itemname, itemid))
    ensures r.Some? ==> r.value["info"] == Null
  {
    var cache := reg.Get(backupid, itemname);
    var result := cache.Get(itemid);
    if Hit(result) {
      r := Some(CachedView(result.value, backupid, itemname, itemid));
    } else {
      r := None;
    }
  }

  /**
   * `get_backup_record`: false for a null itemid; else the cached record
   * (flag null, so `info` is fetched on access); else the table row (flag
   * false), which is copied into the cache; else false.
   */
  method GetBackupRecord(reg: Registry<int, Record>, db: Table, backupid: string, itemname: string,
                         itemid: Option<int>)
    returns (r: Option<BackupRecord>)
    requires reg.Valid()
    modifies reg, reg.Handles
    ensures reg.Valid() && fresh(reg.Handles - old(reg.Handles))
    ensures itemid.None? ==> r.None? && reg.stores == old(reg.stores) && reg.Handles == old(reg.Handles) && unchanged(reg, reg.Handles)
    ensures itemid.Some? ==> reg.Registered(backupid, itemname)
                              && reg.stores == Register(old(reg.stores), backupid, itemname, reg.stores[backupid][itemname])
    ensures forall b, n | b != backupid || n != itemname :: reg.Entries(b, n) == old(reg.Entries(b, n))
    ensures r.Some? ==> fresh(r.value) && itemid.Some?
                        && r.value.backupid == backupid && r.value.itemname == itemname && r.value.itemid == itemid.value
    ensures itemid.Some? ==>
              var id := itemid.value;
              var e := Lookup(old(reg.Entries(backupid, itemname)), id);
              var row := Lookup(db.rows, (backupid, itemname, id));
              && (Hit(e) ==>
                    && r.Some? && r.value.data == CachedView(e.value, backupid, itemname, id)
                    && r.value.infoState == MustFetch
                    && reg.Entries(backupid, itemname) == old(reg.Entries(backupid, itemname)))
              && (!Hit(e) && row.Some? ==>
                    && r.Some? && r.value.data == row.value && r.value.infoState == Encoded
                    && reg.Entries(backupid, itemname)
                       == old(reg.Entries(backupid, itemname))[id := CacheMerge(e, row.value)])
              && (!Hit(e) && row.None? ==> r.None? && reg.Entries(backupid, itemname) == old(reg.Entries(backupid, itemname)))
    ensures r.Some? ==> Hit(Lookup(reg.Entries(backupid, itemname), itemid.value))
  {
    if itemid.None? {
      return None;
    }
    var id := itemid.value;
    var cached := GetBackupCachedRecord(reg, backupid, itemname, id);
    if cached.Some? {
      var rec := new BackupRecord(backupid, itemname, id, cached.value, MustFetch);
      return Some(rec);
    }
    r := GetBackupRecordFromDb(reg, db, backupid, itemname, id);
  }

  /**
   * The second half of `get_backup_record`, after a cache miss: the table
   * row (flag false), which is copied into the cache, or false.
   */
  method GetBackupRecordFromDb(reg: Registry<int, Record>, db: Table, backupid: string, itemname: string, itemid: int)
    returns (r: Option<BackupRecord>)
    requires reg.Valid() && reg.Registered(backupid, itemname)
    modifies reg, reg.Handles
    ensures reg.Valid() && fresh(reg.Handles - old(reg.Handles)) && reg.stores == old(reg.stores)
    ensures forall b, n | b != backupid || n != itemname :: reg.Entries(b, n) == old(reg.Entries(b, n))
    ensures r.Some? ==> fresh(r.value)
                        && r.value.backupid == backupid && r.value.itemname == itemname && r.value.itemid == itemid
    ensures var row := Lookup(db.rows, (backupid, itemname, itemid));
            && (row.Some? ==>
                  && r.Some? && r.value.data == row.value && r.value.infoState == Encoded
                  && reg.Entries(backupid, itemname)
                     == old(reg.Entries(backupid, itemname))[itemid :=
                          CacheMerge(Lookup(old(reg.Entries(backupid, itemname)), itemid), row.value)])
            && (row.None? ==> r.None? && reg.Entries(backupid, itemname) == old(reg.Entries(backupid, itemname)))
  {
    var dbrec := GetBackupDbRecord(db, backupid, itemname, itemid);
    if dbrec.Some? {
      SetBackupCachedRecord(reg, backupid, itemname, itemid, dbrec.value);
      var rec := new BackupRecord(backupid, itemname, itemid, dbrec.value, Encoded);
      return Some(rec);
    }
    return None;
  }

  /** `set_backup_record`: writes the caller's fields through to the cache and to the table. */
  method SetBackupRecord(reg: Registry<int, Record>, db: Table, backupid: string, itemname: string, itemid: int,
                         extrarecord: Record)
    requires reg.Valid()
    modifies reg, reg.Handles, db
    ensures reg.Valid() && fresh(reg.Handles - old(reg.Handles))
    ensures reg.Registered(backupid, itemname)
    ensures reg.stores == Register(old(reg.stores), backupid, itemname, reg.stores[backupid][itemname])
    ensures reg.Entries(backupid, itemname)
            == old(reg.Entries(backupid, itemname))[itemid :=
                 CacheMerge(Lookup(old(reg.Entries(backupid, itemname)), itemid), extrarecord)]
    ensures forall b, n | b != backupid || n != itemname :: reg.Entries(b, n) == old(reg.Entries(b, n))
    ensures db.rows == old(db.rows)[(backupid, itemname, itemid) :=
              DbMerge(Lookup(old(db.rows), (backupid, itemname, itemid)), backupid, itemname, itemid, extrarecord,
                      old(db.nextId))]
    ensures db.nextId == if old((backupid, itemname, itemid) in db.rows) then old(db.nextId) else old(db.nextId) + 1
  {
    SetBackupCachedRecord(reg, backupid, itemname, itemid, extrarecord);
    SetBackupDbRecord(db, backupid, itemname, itemid, extrarecord);
  }

  /** `set_backup_cached_record`: the cache entry of `itemid` becomes CacheMerge of the old one and the fields. */
  method SetBackupCachedRecord(reg: Registry<int, Record>, backupid: string, itemname: string, itemid: int,
                               extrarecord: Record)
    requires reg.Valid()
    modifies reg, reg.Handles
    ensures reg.Valid() && fresh(reg.Handles - old(reg.Handles))
    ensures reg.Registered(backupid, itemname)
    ensures reg.stores == Register(old(reg.stores), backupid, itemname, reg.stores[backupid][itemname])
    ensures reg.Entries(backupid, itemname)
            == old(reg.Entries(backupid, itemname))[itemid :=
                 CacheMerge(Lookup(old(reg.Entries(backupid, itemname)), itemid), extrarecord)]
    ensures forall b, n | b != backupid || n != itemname :: reg.Entries(b, n) == old(reg.Entries(b, n))
  {
    var cache := reg.Get(backupid, itemname);
    ghost var before := cache.entries;
    ghost var registered := reg.stores;
    assert before == old(reg.Entries(backupid, itemname));
    var fields := extrarecord - {"info"};
    var current := cache.Get(itemid);
    if Hit(current) && fields == map[] {
      // an existing entry is rewritten only when some field other than `info` is given
      assert CacheMerge(current, extrarecord) == current.value == before[itemid];
      assert before[itemid := current.value] == before;
    } else {
      // array_merge over the cached entry, or over the defaults for a new one
      var trecord := if Hit(current) then current.value + fields else Defaults() + fields;
      SetData(reg, backupid, itemname, itemid, trecord);
      assert reg.stores == registered;
    }
  }

  /** `set_backup_db_record`: the row of the key becomes DbMerge of the old one and the fields. */
  method SetBackupDbRecord(db: Table, backupid: string, itemname: string, itemid: int, extrarecord: Record)
    modifies db
    ensures db.rows == old(db.rows)[(backupid, itemname, itemid) :=
              DbMerge(Lookup(old(db.rows), (backupid, itemname, itemid)), backupid, itemname, itemid, extrarecord,
                      old(db.nextId))]
    ensures db.nextId == if old((backupid, itemname, itemid) in db.rows) then old(db.nextId) else old(db.nextId) + 1
  {
    var key := (backupid, itemname, itemid);
    var existing := GetBackupDbRecord(db, backupid, itemname, itemid);
    if existing.Some? {
      if extrarecord != map[] {
        db.UpdateRecord(key, extrarecord["id" := Field(existing.value, "id")]);
      } else {
        assert db.rows[key := existing.value] == db.rows;
      }
    } else {
      var record := map["backupid" := Str(backupid), "itemname" := Str(itemname), "itemid" := Int(itemid)];
      db.InsertRecord(key, record + Defaults() + extrarecord);
    }
  }

  /**
   * Read-your-writes on the cache side: after a record write, the next
   * lookup is a cache hit whose `newitemid` and `parentitemid` are the
   * caller's, else the previous ones, else the defaults, and whose `info`
   * is null.
   */
  lemma CachedReadAfterWrite(e: Option<Record>, f: Record, backupid: string, itemname: string, itemid: int)
    ensures Hit(Some(CacheMerge(e, f)))
    ensures var view := CachedView(CacheMerge(e, f), backupid, itemname, itemid);
            && Field(view, "newitemid")
               == (if "newitemid" in f then f["newitemid"] else if Hit(e) then Field(e.value, "newitemid") else Int(0))
            && Field(view, "parentitemid")
               == (if "parentitemid" in f then f["parentitemid"] else if Hit(e) then Field(e.value, "parentitemid") else Null)
            && view["info"] == Null
  {
  }

  /**
   * The first write of an item gives the cache entry and the inserted row the
   * same `newitemid` and `parentitemid`: the caller's, else 0 and null.
   */
  lemma FirstWriteDefaults(f: Record, backupid: string, itemname: string, itemid: int, nextId: int)
    ensures var c := CacheMerge(None, f);
            var d := DbMerge(None, backupid, itemname, itemid, f, nextId);
            && Field(c, "newitemid") == Field(d, "newitemid") == (if "newitemid" in f then f["newitemid"] else Int(0))
            && Field(c, "parentitemid") == Field(d, "parentitemid")
               == (if "parentitemid" in f then f["parentitemid"] else Null)
  {
  }

  /**
   * A write that misses the cache while the table already holds the row: the
   * cache copy is built over the defaults, the row keeps its stored values, so
   * a field the caller leaves out (here `newitemid`) can differ between them.
   */
  lemma CacheMissIgnoresTableRow(e: Option<Record>, row: Record, f: Record, backupid: string, itemname: string,
                                 itemid: int, nextId: int)
    requires !Hit(e) && "newitemid" !in f
    ensures Field(CacheMerge(e, f), "newitemid") == Int(0)
    ensures Field(DbMerge(Some(row), backupid, itemname, itemid, f, nextId), "newitemid") == Field(row, "newitemid")
    ensures Field(row, "newitemid") != Int(0) ==>
              Field(CacheMerge(e, f), "newitemid") != Field(DbMerge(Some(row), backupid, itemname, itemid, f, nextId), "newitemid")
  {
  }

  /**
   * Read-your-writes through the whole store: `set_backup_record` followed by
   * `get_backup_record` on the same key returns a record served from the
   * cache, with the written `newitemid` and `parentitemid`.
   */
  method ReadYourWrites(reg: Registry<int, Record>, db: Table, backupid: string, itemname: string, itemid: int,
                        extrarecord: Record)
    returns (r: Option<BackupRecord>)
    requires reg.Valid()
    modifies reg, reg.Handles, db
    ensures reg.Valid()
    ensures r.Some? && r.value.infoState == MustFetch && Field(r.value.data, "info") == Null
    ensures var e := Lookup(old(reg.Entries(backupid, itemname)), itemid);
            && Field(r.value.data, "newitemid")
               == (if "newitemid" in extrarecord then extrarecord["newitemid"]
                   else if Hit(e) then Field(e.value, "newitemid") else Int(0))
            && Field(r.value.data, "parentitemid")
               == (if "parentitemid" in extrarecord then extrarecord["parentitemid"]
                   else if Hit(e) then Field(e.value, "parentitemid") else Null)
  {
    ghost var e := Lookup(reg.Entries(backupid, itemname), itemid);
    SetBackupRecord(reg, db, backupid, itemname, itemid, extrarecord);
    CachedReadAfterWrite(e, extrarecord, backupid, itemname, itemid);
    r := GetBackupRecord(reg, db, backupid, itemname, Some(itemid));
  }
}

# Backup staging helpers: id-translation store and partitioned cache

This project models two helpers of the backup/restore staging layer and
proves properties of the model.

- `backup_data_manager` is the id-translation store. It stages one record per
  item, keyed by `(backupid, itemname, itemid)`. Every write goes to a
  per-`(backupid, itemname)` cache and is written through to the durable
  table `backup_ids_temp`. Reads try the cache first, then the table, and a
  table hit fills the cache. A new record is the caller's fields merged over
  the defaults `{newitemid: 0, parentitemid: null, info: null}`. An update of a
  cached entry merges them over the cache copy, and an update of an existing
  row merges them over the row. When the cache misses but the table holds the
  row, the cache copy starts from the defaults, not from the row. The two
  copies then disagree on any field the caller leaves out, and a later read
  answers from the cache. The cache copy never holds the `info`
  payload. The record handed back decodes `info` lazily, under the
  three-valued flag `infodecoded`.
- `backup_muc_manager` is the partitioned cache. Each partition keeps a shadow
  index of its keys under the reserved key `'keys'`, so that `get_allkeys`
  can list every key written to it.

Both classes keep a static registry `$stores` of cache handles. A handle is
made on first use of a `(backupid, itemname)` pair and reused afterwards.
`get_stores` lists the registry. `reset` purges handles and forgets them.

Files:

- `common.dfy` (`Common`): `Option`, map lookup, and PHP string truthiness.
- `cache_registry.dfy` (`CacheRegistry`):
  - the cache handle `Cache`, standing for what `\cache::make` returns;
  - the registry `Registry`, one per helper class, standing for its `$stores`;
  - the pure specifications of memoisation (`Register`) and reset
    (`ResetStores`).
- `backup_data_manager.dfy` (`BackupDataManager`):
  - the record store and its table `Table`, standing for `$DB`;
  - the record wrapper `BackupRecord`;
  - the merge functions `CacheMerge`, `CachedView` and `DbMerge`;
  - the read-your-writes properties.
- `muc_helper.dfy` (`BackupMucManager`): the partitioned cache, its index
  functions `AddKey`/`AddBatchKeys`, and the index invariant `MucValid`,
  which every operation of the helper keeps (writes made through the raw
  handle `get` returns are outside it).

Static PHP methods become module-level methods. They take the registry and,
where used, the table as parameters. Each registry has a ghost view
`Entries(backupid, itemname)`: the contents of that partition, empty when no
handle is registered for it. Every state-changing method states the new
`Entries` of its own partition and that all other partitions are unchanged.

## Model

| member | source | states |
|---|---|---|
| CacheRegistry.ApplyPairs | backup/util/helper/backup_data_manager.class.php:119-122 | a cache's `set_many`: the keys are the old keys plus the batch keys; at each batch key, the last pair for that key wins; every other entry is unchanged |
| CacheRegistry.Cache.constructor | backup/util/helper/backup_data_manager.class.php:94 | `\cache::make` gives a handle that holds no entries |
| CacheRegistry.Cache.Get | backup/util/helper/backup_data_manager.class.php:220 | a cache `get` answers the stored entry, or a miss when the key is absent |
| CacheRegistry.Cache.Set | backup/util/helper/backup_data_manager.class.php:109 | a cache `set` stores the value under the key and changes nothing else |
| CacheRegistry.Cache.SetMany | backup/util/helper/backup_data_manager.class.php:121 | a cache `set_many` leaves the entries as `ApplyPairs` describes |
| CacheRegistry.Cache.Purge | backup/util/helper/backup_data_manager.class.php:132 | a cache `purge` leaves the handle empty |
| CacheRegistry.Register | backup/util/helper/backup_data_manager.class.php:92-97 | memoisation: an existing handle is kept and the registry is unchanged; otherwise the new handle is added at its (backupid, itemname); no other slot is added, dropped or changed, and the only backup id it can add is the given one |
| CacheRegistry.Registry.constructor | backup/util/helper/backup_data_manager.class.php:35 | the registry starts empty |
| CacheRegistry.Registry.Get | backup/util/helper/backup_data_manager.class.php:92-97 | `get_cache` returns the registered handle of the pair; the handle is fresh only when none was registered; no partition's contents change |
| CacheRegistry.Registry.Make | backup/util/helper/backup_data_manager.class.php:93-95 | first use of a pair: a fresh, empty handle is registered at that pair and joins the owned handles; no other slot and no partition's contents change |
| CacheRegistry.Registry.HandleOwnsSlot | backup/util/helper/backup_data_manager.class.php:92-97 | a registered handle serves exactly one (backupid, itemname) pair, so a write through it touches only that partition |
| CacheRegistry.Registry.GetStores | backup/util/helper/backup_data_manager.class.php:142-148 | a PHP-falsy id (`"0"` or `""`) gives the whole registry; any other id gives exactly the handles registered under it, and nothing when the id is unknown. `backup_muc_manager::get_stores` (muc_helper.class.php:116-122) is the same code |
| CacheRegistry.Registry.PurgeBackup | backup/util/helper/backup_data_manager.class.php:159-161 | the inner `foreach` of `reset`: every handle registered under one backup id ends up empty; the registry and all other handles are unchanged |
| CacheRegistry.Registry.Reset | backup/util/helper/backup_data_manager.class.php:156-172 | with `"0"`, every handle registered before is purged and the registry is left empty; with any other id, nothing changes (the code as written) |
| CacheRegistry.ResetStores | backup/util/helper/backup_data_manager.class.php:156-172 | the registry after `reset` as written: empty for `"0"`, unchanged for any other id |
| CacheRegistry.ResetIdempotent | backup/util/helper/backup_data_manager.class.php:156-172 | a second `reset` with the same id changes nothing more, as written and as intended |
| CacheRegistry.ResetAsWrittenKeepsBackup | backup/util/helper/backup_data_manager.class.php:165 | counterexample: resetting registered backup id `"42"` leaves it registered |
| CacheRegistry.ResetStoresIntended | backup/util/helper/backup_data_manager.class.php:150-155 | the documented reset: `"0"` forgets everything; any other id forgets exactly that id and keeps all other entries |
| CacheRegistry.ResetIntendedForgetsBackup | backup/util/helper/backup_data_manager.class.php:150-155 | after the intended reset of any id other than `"0"`, that id is gone and every other id keeps its handles |
| CacheRegistry.Registry.ResetCorrected | backup/util/helper/backup_data_manager.class.php:156-172 | the corrected reset: for another id, that id's handles are purged and forgotten, so `get_stores(id)` is empty afterwards; all other backups are untouched |
| BackupDataManager.CacheMerge | backup/util/helper/backup_data_manager.class.php:271-291 | the new cache entry: caller fields other than `info` always win; an existing entry keeps the fields the caller did not mention; a new entry gets the defaults for the fields the caller omitted; `info` is never taken from the caller (null on a new entry) |
| BackupDataManager.CachedView | backup/util/helper/backup_data_manager.class.php:216-229 | a cache hit is returned with `restoreid`, `itemname` and `itemid` set to the lookup key and `info` forced to null; every other field is the cached one |
| BackupDataManager.DbMerge | backup/util/helper/backup_data_manager.class.php:301-321 | the new table row: caller fields other than `id` win; an existing row keeps its id and the fields the caller omitted, and gains no column besides the caller's (and `id`); a new row gets the key columns, the defaults for omitted fields, and the id the table assigns |
| BackupDataManager.Table.GetRecord | backup/util/helper/backup_data_manager.class.php:246 | `$DB->get_record` answers the row of the key, or a miss when there is none |
| BackupDataManager.Table.UpdateRecord | backup/util/helper/backup_data_manager.class.php:307 | `$DB->update_record` overwrites the given columns of an existing row only |
| BackupDataManager.Table.InsertRecord | backup/util/helper/backup_data_manager.class.php:319 | `$DB->insert_record` adds the row under the next id and advances that id |
| BackupDataManager.InfoDecodedOnce | backup/util/helper/backup_data_manager.class.php:49-67 | once `info` has been read, later reads return the same value, whatever the table, the decoder and the failure flag then are |
| BackupDataManager.BackupRecord.constructor | backup/util/helper/backup_data_manager.class.php:40-42 | the wrapper holds the record and its flag as given |
| BackupDataManager.BackupRecord.Get | backup/util/helper/backup_data_manager.class.php:49-71 | `__get` returns `Property`. For `info`, the flag becomes "decoded" and the record keeps the returned value. A failing table read gives null. Reads after the first do not change the record. Any other name changes nothing |
| BackupDataManager.BackupRecord.IsSet | backup/util/helper/backup_data_manager.class.php:78-83 | `__isset` holds exactly when `__get` would not return null, and it has the same effect on the record: the same flag afterwards, and `info` set to the value `__get` returns |
| BackupDataManager.SetData | backup/util/helper/backup_data_manager.class.php:107-110 | the partition maps the key to the data; every other partition is unchanged |
| BackupDataManager.SetMany | backup/util/helper/backup_data_manager.class.php:119-122 | the partition is updated as `ApplyPairs` says; every other partition is unchanged |
| BackupDataManager.Purge | backup/util/helper/backup_data_manager.class.php:130-133 | the partition is empty but stays registered; every other partition is unchanged |
| BackupDataManager.GetBackupDbRecord | backup/util/helper/backup_data_manager.class.php:239-247 | a row is found exactly when the table holds the key, and it is that row |
| BackupDataManager.GetBackupCachedRecord | backup/util/helper/backup_data_manager.class.php:216-229 | a record comes back exactly when the cache entry is PHP-truthy, and it is `CachedView` of that entry, with `info` null; no partition's contents change |
| BackupDataManager.GetBackupRecord | backup/util/helper/backup_data_manager.class.php:182-206 | a null itemid gives false and touches nothing. A cache hit gives the cached view with the flag null. Otherwise a table hit gives the row with the flag false and copies it into the cache. Otherwise false. Any record returned is afterwards a cache hit |
| BackupDataManager.GetBackupRecordFromDb | backup/util/helper/backup_data_manager.class.php:194-204 | after a cache miss: a table row gives that row with the flag false, and the cache entry becomes `CacheMerge` of the missed entry and the row; no row gives false and leaves the cache as it was; the registry and all other partitions are unchanged |
| BackupDataManager.SetBackupRecord | backup/util/helper/backup_data_manager.class.php:258-261 | the cache entry becomes `CacheMerge` of the old entry and the fields; the table row becomes `DbMerge` of the old row and the fields; the table's id counter advances only when the row was new |
| BackupDataManager.SetBackupCachedRecord | backup/util/helper/backup_data_manager.class.php:271-291 | the cache entry of the item becomes `CacheMerge` of the old entry and the fields; an existing entry with no fields left after dropping `info` is not rewritten |
| BackupDataManager.SetBackupDbRecord | backup/util/helper/backup_data_manager.class.php:301-321 | the row of the key becomes `DbMerge` of the old row and the fields; the next id advances only when a row is inserted |
| BackupDataManager.CachedReadAfterWrite | backup/util/helper/backup_data_manager.class.php:271-291 | after a record write, the cache entry is truthy. Its `newitemid` and `parentitemid` are the caller's, else the previous values, else 0 and null. Its view has `info` null |
| BackupDataManager.FirstWriteDefaults | backup/util/helper/backup_data_manager.class.php:284-319 | on an item's first write, the cache entry and the inserted row agree on `newitemid` and `parentitemid`: the caller's value, else 0 and null |
| BackupDataManager.CacheMissIgnoresTableRow | backup/util/helper/backup_data_manager.class.php:276-319 | a write that misses the cache while the table holds the row gives the cache copy the default `newitemid` 0 and leaves the row's own value in the table, so the two differ whenever the row's value is not 0 |
| BackupDataManager.ReadYourWrites | backup/util/helper/backup_data_manager.class.php:182-261 | `set_backup_record` then `get_backup_record` on the same key gives a record from the cache, with the flag null and `info` null, and with the written (else previous, else default) `newitemid` and `parentitemid` |
| BackupMucManager.IndexOfEntry | backup/util/helper/muc_helper.class.php:61-62 | the key list read from the `'keys'` entry; a miss reads as the empty list |
| BackupMucManager.AddKey | backup/util/helper/muc_helper.class.php:77 | marking a key: the list gains exactly that key; the old list stays a prefix; a key already listed leaves the list as it was; no duplicates arise |
| BackupMucManager.AddBatchKeys | backup/util/helper/muc_helper.class.php:92-94 | marking a batch: the list gains exactly the batch keys; the old list stays a prefix; no duplicates arise |
| BackupMucManager.AsData | backup/util/helper/muc_helper.class.php:90 | the batch as handed to the cache: the same keys, in the same order, with the data wrapped |
| BackupMucManager.AsDataKeys | backup/util/helper/muc_helper.class.php:90 | the batch handed to the cache writes exactly the caller's keys |
| BackupMucManager.AfterSet | backup/util/helper/muc_helper.class.php:73-79 | after `set`, the key maps to the data. The index is the old index with the key marked. Every other data entry is unchanged |
| BackupMucManager.AfterSetMany | backup/util/helper/muc_helper.class.php:88-96 | after `set_many`, every batch key maps to the data of its last pair. The index is the old index with every batch key marked. Every other data entry is unchanged |
| BackupMucManager.EmptyIndexConsistent | backup/util/helper/muc_helper.class.php:104-107 | an empty partition, as made or purged, satisfies the index invariant |
| BackupMucManager.SetKeepsIndexConsistent | backup/util/helper/muc_helper.class.php:73-79 | `set` keeps the index invariant: the `'keys'` entry holds the index; the index has no duplicates; it lists exactly the data keys |
| BackupMucManager.SetManyKeepsIndexConsistent | backup/util/helper/muc_helper.class.php:88-96 | `set_many` keeps the index invariant |
| BackupMucManager.Get | backup/util/helper/muc_helper.class.php:44-49 | `get` memoises: it returns the registered handle of the pair, fresh and empty only on first use; no partition's contents change |
| BackupMucManager.GetAllKeys | backup/util/helper/muc_helper.class.php:59-63 | while every write goes through `set`/`set_many` (the invariant `MucValid`), `get_allkeys` lists exactly the data keys of the partition, without duplicates, in first-write order; a partition that was never written, or was just purged, gives the empty list |
| BackupMucManager.MarkBatch | backup/util/helper/muc_helper.class.php:91-94 | the `foreach` of `set_many` computes `AddBatchKeys` of the key list read back |
| BackupMucManager.WriteAndMark | backup/util/helper/muc_helper.class.php:75-78 | the writes of `set` through a registered handle change only its partition, to `AfterSet` of the old contents |
| BackupMucManager.WriteAndMarkMany | backup/util/helper/muc_helper.class.php:90-95 | the writes of `set_many` through a registered handle change only its partition, to `AfterSetMany` of the old contents |
| BackupMucManager.Set | backup/util/helper/muc_helper.class.php:73-79 | the partition becomes `AfterSet` of its old contents; every other partition is unchanged; the index invariant holds afterwards |
| BackupMucManager.SetMany | backup/util/helper/muc_helper.class.php:88-96 | the partition becomes `AfterSetMany` of its old contents; every other partition is unchanged; the index invariant holds afterwards |
| BackupMucManager.Purge | backup/util/helper/muc_helper.class.php:104-107 | the partition is empty, its index included, and stays registered; every other partition is unchanged |
| BackupMucManager.Reset | backup/util/helper/muc_helper.class.php:130-146 | `"0"` purges every partition and empties the registry, so `get_stores()` is empty; any other id changes nothing (as written); the index invariant holds afterwards |
| BackupMucManager.SetThenListed | backup/util/helper/muc_helper.class.php:73-79 | after `set`, a `get` of the key answers the data and the key is listed; setting a key that is already present leaves the list unchanged |

## Left out

- The cache collaborator `\cache::make` is modelled as a fresh, empty,
  per-request map. Its store configuration, its definition name and any
  cross-request persistence are not modelled.
- The table collaborator `$DB` is modelled as a map from
  `(backupid, itemname, itemid)` to rows. It assigns consecutive ids from 1.
  SQL, exceptions from `update_record`/`insert_record`, and concurrent
  writers are not modelled.
- `backup_controller_dbops::decode_backup_temp_info` is an uninterpreted
  function parameter (`decode`). Whether the table read inside `__get`
  throws `dml_exception` is a boolean parameter (`dbFails`). The model does
  not include the decoder's format or the database's failure modes.
- The registry's iteration order is not modelled. `reset("0")` purges every
  handle, and the order of purges is not observable in the model.
- PHP array-key coercion is not modelled: in PHP a numeric-string key
  becomes an integer. Cache keys are `int` in the record store and `string`
  in the partitioned cache.
- BackupDataManager.DbMerge: the key columns of a new row are stated only
  when the caller's fields do not name `backupid`, `itemname` or `itemid`.
  Rows are stored under their lookup key. A caller that overwrites a key
  column moves the row in the real table, but not in this model.
- BackupDataManager.SetBackupDbRecord: an update is keyed by the lookup key
  rather than by the row's `id` column. The two agree because the row keeps
  its id.
- BackupDataManager.BackupRecord.Get: the table lookup in `__get` uses the
  key the wrapper was built with. The source uses the record's
  `restoreid`/`itemname`/`itemid` fields. They hold the same values on the
  only path that fetches, a cache hit (see `CachedView`).
- BackupMucManager.Set: requires that the data key is not `'keys'`, and
  BackupMucManager.SetMany requires that no batch key is `'keys'`. Such a
  key would collide with the index entry, and the data written under it
  would be overwritten.
- BackupMucManager.GetAllKeys: the index invariant `MucValid`, and so the
  promise that `get_allkeys` lists exactly the data keys, holds only while
  every write to a partition goes through `set`/`set_many`. `get` hands out
  the raw cache handle, and a write made through that handle is not added to
  the `'keys'` index. The model does not promise the invariant after such
  writes.
- BackupMucManager.AfterSetMany: when the index entry was missing and the
  batch is empty, the source stores PHP `false` under `'keys'`. The model
  stores an empty index. Both read back as no keys.
- Values of the partitioned cache are an uninterpreted type `D`. Records of
  the record store are maps from field names to PHP scalars (null, bool,
  int, string).
- files/classes/local/archive_writer/zip_writer.php, the admin and enrolment
  scripts and the test files of the repository are not part of this model.
  They are wrappers, user-interface pages or tests of code that is not
  modelled here.

## Findings

| source | as written | input that shows it | evidently intended | confidence | as-written member | corrected member |
|---|---|---|---|---|---|---|
| backup/util/helper/backup_data_manager.class.php:165-169 (and muc_helper.class.php:139-143) | the per-backup branch of `reset` tests and unsets the undefined local `$stores`, not `self::$stores`, so it never purges or forgets anything | `reset("42")` after `get_cache("42", "user")`: the handle stays registered and keeps its entries | purge the handles of that backup id and remove it from the registry, as the doc comment ("clear all stores and forget them") says | not executed | CacheRegistry.ResetAsWrittenKeepsBackup | CacheRegistry.Registry.ResetCorrected |

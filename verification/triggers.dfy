/** The triggers and the bootstrap of overlay_schema.sql at work on the tables they update in place. */
module Triggers {
  import opened Bytes
  import opened Tables

  class VersionTables {
    var versions: Versions     // file_versions
    var meta: Meta             // latest_files_meta

    /** The rest of the database plays no part here. */
    ghost function AsDb(): Db
      reads this
    {
      Db(map[], 0, versions, meta, map[])
    }

    ghost predicate Synced()
      reads this
    {
      meta == LatestView(versions)
    }

    constructor (versions: Versions, meta: Meta)
      ensures this.versions == versions && this.meta == meta
    {
      this.versions, this.meta := versions, meta;
    }

    /** INSERT INTO latest_files_meta ... ON CONFLICT(file_id) DO UPDATE ... WHERE the new version is not older */
    method Upsert(f: FileId, row: MetaRow)
      modifies this`meta
      ensures meta == UpsertIfNewer(old(meta), f, row)
    {
      if f !in meta {
        meta := meta[f := row];
      } else if row.version >= meta[f].version {
        meta := meta[f := row];
      }
    }

    /** INSERT INTO file_versions, then trg_file_versions_ai. */
    method Insert(k: Key, row: Row) returns (ok: bool)
      modifies this
      ensures ok == (k !in old(versions))
      ensures versions == if ok then old(versions)[k := row] else old(versions)
      ensures !ok ==> meta == old(meta)
      ensures ok ==> Some(AsDb()) == InsertVersion(old(AsDb()), k, row)
      ensures old(Synced()) ==> Synced()
    {
      hide LatestView, UpsertIfNewer;
      if k in versions {
        return false;
      }
      if Synced() {
        InsertKeepsCache(AsDb(), k, row);
      }
      versions := versions[k := row];
      Upsert(k.file, MetaRow(row.path, k.version, row.mtime, row.size));
      return true;
    }

    /** DELETE of one row of file_versions, then the two statements of trg_file_versions_ad. */
    method Delete(k: Key)
      modifies this
      ensures versions == old(versions) - {k}
      ensures AsDb() == DeleteVersion(old(AsDb()), k)
      ensures old(Synced()) ==> Synced()
    {
      hide LatestView, LatestRow, Files;
      if k !in versions {
        return;
      }
      if Synced() {
        DeleteKeepsCache(AsDb(), k);
      }
      versions := versions - {k};
      if k.file in Files(versions) {
        meta := meta[k.file := LatestRow(versions, k.file)];
      }
      if k.file !in Files(versions) {
        meta := meta - {k.file};
      }
    }

    /** The bootstrap statement, row by row in whatever order the engine joins them. */
    method BootstrapRows()
      modifies this`meta
      ensures AsDb() == Bootstrap(old(AsDb()))
      ensures Synced() <==> NotAhead(old(AsDb()))
    {
      hide LatestRow, Files, MaxVersion, NotAhead;
      var todo := Files(versions);
      ghost var done := {};
      while todo != {}
        invariant todo !! done && todo + done == Files(versions)
        invariant meta.Keys == old(meta).Keys + done
        invariant forall f :: f in meta ==>
                                meta[f] == if f in done then UpsertIfNewer(old(meta), f, LatestRow(versions, f))[f] else old(meta)[f]
        decreases todo
      {
        var f :| f in todo;
        Upsert(f, LatestRow(versions, f));
        todo := todo - {f};
        done := done + {f};
      }
      BootstrapRepairsIff(old(AsDb()));
      SameMap(meta, Bootstrap(old(AsDb())).meta);
    }
  }
}

/** The tables, views, triggers and keys of overlay_schema.sql, one atomic statement at a time. */
module Tables {
  import opened Bytes

  type Path = seq<byte>

  datatype FileId = FileId(n: int)

  datatype Key = Key(file: FileId, version: int)

  /** A row of file_versions beside its primary key. */
  datatype Row = Row(path: Path, mtime: int, size: int, data: seq<byte>)

  /** A row of latest_files_meta beside its primary key. */
  datatype MetaRow = MetaRow(path: Path, version: int, mtime: int, size: int)

  type Versions = map<Key, Row>
  type Meta = map<FileId, MetaRow>

  /** A database. Maps carry the PRIMARY KEY and UNIQUE constraints; seqNo is the AUTOINCREMENT counter. */
  datatype Db = Db(ids: map<Path, FileId>, seqNo: nat, versions: Versions, meta: Meta, migrations: map<string, int>)

  const EMPTY: Db := Db(map[], 0, map[], map[], map[])

  /** No row is lost or altered. */
  ghost predicate Extends(base: Versions, vs: Versions)
  {
    forall k :: k in base ==> k in vs && vs[k] == base[k]
  }

  // ----- queries -----

  /** The file_ids that own a row: the groups of GROUP BY file_id. */
  function Files(vs: Versions): (s: set<FileId>)
    ensures forall k :: k in vs ==> k.file in s
    ensures forall f :: f in s ==> exists k :: k in vs && k.file == f
  {
    set k | k in vs :: k.file
  }

  ghost predicate IsNewest(ks: set<Key>, k: Key)
  {
    k in ks && forall l :: l in ks ==> l.version <= k.version
  }

  lemma {:induction false} NewestExists(ks: set<Key>)
    requires ks != {}
    ensures exists k :: IsNewest(ks, k)
    decreases ks
  {
    var k :| k in ks;
    if ks == {k} {
      assert IsNewest(ks, k);
    } else {
      NewestExists(ks - {k});
      var l :| IsNewest(ks - {k}, l);
      assert IsNewest(ks, if k.version < l.version then l else k);
    }
  }

  /** MAX(version_number) for one group */
  function MaxVersion(vs: Versions, f: FileId): (v: int)
    requires f in Files(vs)
    ensures Key(f, v) in vs
    ensures forall u :: Key(f, u) in vs ==> u <= v
  {
    assert exists k :: k in vs && k.file == f && forall l :: l in vs && l.file == f ==> l.version <= k.version by {
      var ks := set k | k in vs && k.file == f;
      var k :| k in vs && k.file == f;
      assert k in ks;
      NewestExists(ks);
      var n :| IsNewest(ks, n);
      assert n in vs && n.file == f;
      assert forall l :: l in vs && l.file == f ==> l in ks;
    }
    var k :| k in vs && k.file == f && forall l :: l in vs && l.file == f ==> l.version <= k.version;
    assert k == Key(f, k.version);
    k.version
  }

  function MetaOf(vs: Versions, k: Key): MetaRow
    requires k in vs
  {
    MetaRow(vs[k].path, k.version, vs[k].mtime, vs[k].size)
  }

  /** The row of the view latest_files_metadata for one file_id. */
  function LatestRow(vs: Versions, f: FileId): MetaRow
    requires f in Files(vs)
  {
    MetaOf(vs, Key(f, MaxVersion(vs, f)))
  }

  /** The view latest_files_metadata; latest_files adds the data column. */
  function LatestView(vs: Versions): Meta
  {
    map f | f in Files(vs) :: LatestRow(vs, f)
  }

  /** What a listed row holds: the columns of the file's row with the highest version number. */
  lemma ViewRowIsNewest(vs: Versions, f: FileId)
    ensures f in LatestView(vs) <==> exists k :: k in vs && k.file == f
    ensures f in LatestView(vs) ==>
              var r := LatestView(vs)[f];
              var k := Key(f, r.version);
              && k in vs && (forall l :: l in vs && l.file == f ==> l.version <= k.version)
              && r.path == vs[k].path && r.mtime == vs[k].mtime && r.size == vs[k].size
  {
    forall l | l in vs && f in Files(vs) && l.file == f
      ensures l.version <= MaxVersion(vs, f)
    {
      assert l == Key(f, l.version);
    }
  }

  // ----- triggers and the bootstrap upsert -----

  /** INSERT ... ON CONFLICT(file_id) DO UPDATE ... WHERE excluded.version_number >= the stored one. */
  function UpsertIfNewer(meta: Meta, f: FileId, row: MetaRow): Meta
  {
    if f in meta && row.version < meta[f].version then meta else meta[f := row]
  }

  /** INSERT INTO file_versions with trg_file_versions_ai; None is a primary key violation. */
  function InsertVersion(db: Db, k: Key, row: Row): Option<Db>
  {
    if k in db.versions then None
    else
      var vs := db.versions[k := row];
      Some(db.(versions := vs, meta := UpsertIfNewer(db.meta, k.file, MetaOf(vs, k))))
  }

  /** trg_file_versions_ad: re-insert the maximum that is left, then drop the row if nothing is left. */
  function AfterDelete(vs: Versions, meta: Meta, f: FileId): Meta
  {
    var upserted := if f in Files(vs) then meta[f := LatestRow(vs, f)] else meta;
    if f in Files(vs) then upserted else upserted - {f}
  }

  /** DELETE of one row of file_versions with its trigger. */
  function DeleteVersion(db: Db, k: Key): Db
  {
    if k !in db.versions then db
    else
      var vs := db.versions - {k};
      db.(versions := vs, meta := AfterDelete(vs, db.meta, k.file))
  }

  /** The bootstrap statement: the upsert of every row of the view. */
  function Bootstrap(db: Db): Db
  {
    var vs := db.versions;
    db.(meta := map f | f in db.meta.Keys + Files(vs) ::
          if f in Files(vs) then UpsertIfNewer(db.meta, f, LatestRow(vs, f))[f] else db.meta[f])
  }

  // ----- the cache is the view -----

  /** latest_files_meta holds the view latest_files_metadata, row for row. */
  predicate CacheOk(db: Db) { db.meta == LatestView(db.versions) }

  lemma MaxIs(vs: Versions, f: FileId, v: int)
    requires Key(f, v) in vs && forall u :: Key(f, u) in vs ==> u <= v
    ensures f in Files(vs) && MaxVersion(vs, f) == v
  {
    assert Key(f, v).file in Files(vs);
  }

  /** The rows of one file decide its row of the view. */
  lemma SameLatest(vs: Versions, ws: Versions, f: FileId)
    requires forall v :: Key(f, v) in vs <==> Key(f, v) in ws
    requires forall v :: Key(f, v) in vs ==> vs[Key(f, v)] == ws[Key(f, v)]
    ensures f in Files(vs) <==> f in Files(ws)
    ensures f in Files(vs) ==> LatestRow(vs, f) == LatestRow(ws, f)
  {
    if f in Files(vs) {
      MaxIs(ws, f, MaxVersion(vs, f));
    }
    if f in Files(ws) {
      MaxIs(vs, f, MaxVersion(ws, f));
    }
  }

  lemma OthersUnchanged(vs: Versions, ws: Versions, f: FileId)
    requires forall k: Key :: k.file != f ==> (k in vs <==> k in ws)
    requires forall k: Key :: k.file != f && k in vs ==> vs[k] == ws[k]
    ensures forall g :: g != f ==> (g in Files(vs) <==> g in Files(ws))
    ensures forall g :: g != f && g in Files(vs) ==> LatestRow(vs, g) == LatestRow(ws, g)
  {
    forall g | g != f
      ensures g in Files(vs) <==> g in Files(ws)
      ensures g in Files(vs) ==> LatestRow(vs, g) == LatestRow(ws, g)
    {
      SameLatest(vs, ws, g);
    }
  }

  lemma InsertedLatest(vs: Versions, k: Key, row: Row)
    requires k !in vs
    ensures var ws := vs[k := row];
            && k.file in Files(ws)
            && LatestRow(ws, k.file) ==
               if k.file in Files(vs) && k.version < MaxVersion(vs, k.file) then LatestRow(vs, k.file) else MetaOf(ws, k)
  {
    var ws := vs[k := row];
    if k.file in Files(vs) && k.version < MaxVersion(vs, k.file) {
      MaxIs(ws, k.file, MaxVersion(vs, k.file));
    } else {
      assert forall u :: Key(k.file, u) in ws ==> u <= k.version;
      assert k == Key(k.file, k.version);
      MaxIs(ws, k.file, k.version);
    }
  }

  lemma InsertKeepsCache(db: Db, k: Key, row: Row)
    requires CacheOk(db)
    ensures InsertVersion(db, k, row).Some? ==> CacheOk(InsertVersion(db, k, row).value)
  {
    hide Files, MaxVersion, LatestRow;
    if k !in db.versions {
      var vs := db.versions[k := row];
      OthersUnchanged(db.versions, vs, k.file);
      InsertedLatest(db.versions, k, row);
      CachedVersion(db, k.file);
      SameMap(InsertVersion(db, k, row).value.meta, LatestView(vs));
    }
  }

  lemma CachedVersion(db: Db, f: FileId)
    requires CacheOk(db)
    ensures f in db.meta <==> f in Files(db.versions)
    ensures f in db.meta ==> db.meta[f].version == MaxVersion(db.versions, f)
  {}

  lemma SameMap(m: Meta, n: Meta)
    requires forall f :: f in m <==> f in n
    requires forall f :: f in m ==> m[f] == n[f]
    ensures m == n
  {}

  lemma DeleteKeepsCache(db: Db, k: Key)
    requires CacheOk(db)
    ensures CacheOk(DeleteVersion(db, k))
  {
    hide Files, MaxVersion, LatestRow;
    if k in db.versions {
      var vs := db.versions - {k};
      OthersUnchanged(db.versions, vs, k.file);
      SameMap(DeleteVersion(db, k).meta, LatestView(vs));
    }
  }

  datatype Change = Insert(key: Key, row: Row) | Delete(key: Key)

  /** Any sequence of inserts (a rejected one changes nothing) and deletes on file_versions. */
  function Replay(db: Db, changes: seq<Change>): Db
  {
    if changes == [] then db
    else
      var before := Replay(db, changes[..|changes| - 1]);
      match changes[|changes| - 1]
      case Insert(k, row) => (match InsertVersion(before, k, row) case None => before case Some(after) => after)
      case Delete(k) => DeleteVersion(before, k)
  }

  /** What the changes make of the row under one key: the first insert stands until a delete. */
  function RowUnder(k: Key, row: Option<Row>, changes: seq<Change>): Option<Row>
  {
    if changes == [] then row
    else
      var before := RowUnder(k, row, changes[..|changes| - 1]);
      match changes[|changes| - 1]
      case Insert(l, inserted) => if l == k && before.None? then Some(inserted) else before
      case Delete(l) => if l == k then None else before
  }

  function RowAt(vs: Versions, k: Key): Option<Row> { if k in vs then Some(vs[k]) else None }

  /** The rows after any changes, key by key; nothing outside the two tables changes. */
  lemma {:induction false} ReplayedRows(db: Db, changes: seq<Change>, k: Key)
    ensures var after := Replay(db, changes);
            && RowAt(after.versions, k) == RowUnder(k, RowAt(db.versions, k), changes)
            && after == db.(versions := after.versions, meta := after.meta)
  {
    hide UpsertIfNewer, AfterDelete;
    if changes != [] {
      ReplayedRows(db, changes[..|changes| - 1], k);
    }
  }

  lemma {:induction false} CacheIsTheView(db: Db, changes: seq<Change>)
    requires CacheOk(db)
    ensures CacheOk(Replay(db, changes))
  {
    if changes != [] {
      var rest := changes[..|changes| - 1];
      CacheIsTheView(db, rest);
      match changes[|changes| - 1]
      case Insert(k, row) => InsertKeepsCache(Replay(db, rest), k, row);
      case Delete(k) => DeleteKeepsCache(Replay(db, rest), k);
    }
  }

  /** No cached row belongs to a file without versions, or is ahead of the stored versions. */
  predicate NotAhead(db: Db)
  {
    forall f :: f in db.meta ==> f in Files(db.versions) && db.meta[f].version <= MaxVersion(db.versions, f)
  }

  /** The bootstrap repairs the cache exactly when it is not ahead. */
  lemma BootstrapRepairsIff(db: Db)
    ensures CacheOk(Bootstrap(db)) <==> NotAhead(db)
  {
    hide Files, MaxVersion;
    var vs := db.versions;
    var after := Bootstrap(db).meta;
    if NotAhead(db) {
      SameMap(after, LatestView(vs));
    } else {
      var f :| f in db.meta && !(f in Files(vs) && db.meta[f].version <= MaxVersion(vs, f));
      assert f in after;
      assert f in Files(vs) ==> after[f] == db.meta[f];
    }
  }

  /** On a consistent store the bootstrap changes nothing; on an empty cache it builds the view. */
  lemma BootstrapIsStable(db: Db)
    ensures CacheOk(db) ==> Bootstrap(db) == db
    ensures db.meta == map[] ==> CacheOk(Bootstrap(db))
    ensures Bootstrap(db) == db.(meta := Bootstrap(db).meta)
  {
    hide Files, MaxVersion, LatestRow;
    BootstrapRepairsIff(db);
    if CacheOk(db) {
      SameMap(Bootstrap(db).meta, db.meta);
    }
  }
}

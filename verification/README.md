# HBF content store: a verified model

HBF keeps every file of a site as numbered versions in one SQLite database, fills that database at start-up from an
asset bundle embedded in the binary, and does both without a lock of its own. This project models that store and the
pipeline that fills it, and proves what they promise:

- **Versioned writes** (`hbf/db/overlay_fs.c`, `hbf/db/overlay_schema.sql`). `overlay_fs_write` is three or four
  separate SQL statements with no enclosing transaction. Each is one atomic step of a state machine; each may fail to
  prepare or fail to run. Any number of calls interleave.
- **Cached listing.** `latest_files_meta` is kept by triggers and must equal the view `latest_files_metadata`.
- **Asset bundles** (`tools/asset_packer.c`, `overlay_fs_migrate_assets`). A length-prefixed format, written through a
  moving pointer, read back through a bounds-checked cursor and applied to the store while it is being read.
- **SHA-256** (the same code in `hbf/db/overlay_fs.c` and `hbf/shell/hash.c`), which names bundles, and the DNS-safe
  hash cut from it.
- **Start-up** (`hbf_db_init` in `hbf/db/db.c`), which re-applies the schema and re-runs the migration every time.

## How the model is built

A `Db` is the five tables as maps, so the primary keys and the unique path are built in. A SQL statement is a function on
`Db`; a call of `overlay_fs_write` is a program counter (`FileStore.Pc`) advanced by `FileStore.Step`. The class
`Connection` has the C control flow over that: every call of the SQLite interface consumes one entry of a schedule
(`World`) that says whether the call runs, fails to prepare or fails to step, so a theorem about a `Connection` holds for
every pattern of failures. `WriteProtocol` interleaves any number of calls, on any assignment of calls to connections;
`MigrationProtocol` adds migrators that hold the write lock between BEGIN IMMEDIATE and COMMIT or ROLLBACK.
`EndToEnd.PackAndMigrate` asks of zlib that it is lossless and that the compressed packings are messages SHA-256 is
defined on; `EndToEnd.StoringIsLossless` exhibits such a pair for every bundle of fewer than 2^61 packed bytes.

| file | content |
|---|---|
| `bytes.dfy`, `fips180.dfy`, `fips180_constants.dfy`, `known_answer.dfy`, `sha256.dfy`, `bundle_id.dfy`, `dns_hash.dfy` | byte strings, FIPS 180-4 and what its constants and layouts are, the buffered hash, its two uses |
| `bundle_codec.dfy`, `asset_packer.dfy` | the bundle format; sorting and packing |
| `tables.dfy`, `triggers.dfy` | tables, views, triggers, bootstrap upsert |
| `file_store.dfy`, `statements.dfy`, `migration.dfy`, `connection.dfy` | one write, one statement, one migration, and the code on one connection |
| `write_protocol.dfy`, `crossings.dfy`, `orderly_runs.dfy`, `write_outcomes.dfy`, `progress.dfy`, `sharing.dfy` | interleaved writers |
| `migration_protocol.dfy`, `exactly_once.dfy`, `mixed_runs.dfy`, `migration_progress.dfy` | interleaved migrators and writers |
| `boot.dfy`, `failed_commit.dfy`, `end_to_end.dfy` | start-up; a COMMIT that fails; packer to reader |

## Where the code and its documentation differ

- `hbf/db/overlay_fs.h:56` says bundle entries go in "as version 1". The code appends (`hbf/db/overlay_fs.c:411`), so an
  existing path gets its next version; the model appends.
- `hbf/db/overlay_fs.h:163` relies on SQLite's locking alone. Contiguous numbering survives that
  (`WriteProtocol.AnyRunIsSafe`), but `sqlite3_last_insert_rowid` is a separate call: on a connection shared by
  overlapping calls a successful write can land under another file's id. `Sharing.SharingMixesFiles` is such a run with
  no failing call. The exact condition is that a call is *crossed*: another call creates an id on its connection between
  its own creation and its reading of the rowid. The row of a successful write is on its path's id exactly if that call
  was not crossed (`Crossings.RowOnOwnIdIff`); ids and paths stay linked, and every path counts its successful writes,
  exactly if no successful write was crossed (`Crossings.LinkedIff`, `OrderlyRuns.CountsAreRightIff`), and then reads see
  the last write (`OrderlyRuns.ReadsSeeLastWrite`). One connection per call, or one call at a time, never crosses
  (`OrderlyRuns.UsualDisciplines`).
- `overlay_fs_exists` looks at ids, `overlay_fs_read` at versions. `WriteOutcomes.StrandedIff` says exactly when one call
  makes them disagree.
- Packing is called deterministic (`tools/asset_packer.c:186`), but `qsort` is not stable:
  `AssetPacker.PackingDeterministicIff` shows that it is deterministic exactly when equal paths carry equal data.
- The check for an applied bundle reads through the open connection, and a failed COMMIT is not rolled back
  (`hbf/db/overlay_fs.c:451-454`). A second attempt on that connection then answers ALREADY_APPLIED for a bundle the
  database does not hold: `FailedCommit.AskTwice` shows that this happens exactly if the first attempt's COMMIT was made
  and failed, `FailedCommit.RetryAfterFailedCommit` that it does happen for every new bundle, and that closing the
  connection, as `hbf_db_init` does, mends it.

## Model

| member | source | states |
|---|---|---|
| WriteProtocol.AnyRunIsSafe | hbf/db/overlay_fs.c:553-643 | for any number of interleaved writers, any failures and any values of last_insert_rowid: each file's versions stay contiguous from 1, no stored row changes, the cached table is the view, and the new rows are exactly those of the writes that returned 0, each carrying its request, no two the same row |
| WriteProtocol.EachSuccessAddsOneRow | hbf/db/overlay_fs.c:609-643 | over any run file_versions grows by exactly the number of calls that returned 0 |
| Progress.FourTurnsSuffice | hbf/db/overlay_fs.c:534-644 | whatever the others do and whatever fails, an interleaved call has returned after four statements of its own |
| Progress.ReturnsZeroOrOvertaken | hbf/db/overlay_fs.c:562-643 | after its four turns a call that was not crossed, and none of whose SQLite calls failed, has returned 0, or another call created the path's id or inserted into the file in between |
| Progress.AloneIsWriteRun | hbf/db/overlay_fs.c:534-644 | four turns of one call on its own, with any failures, end in the tables and the result of the run of overlay_fs_write |
| FileStore.VersionsAreOneToN | hbf/db/overlay_schema.sql:6-14 | the invariant kept by every run means: a file's stored versions are exactly 1..n, n in number, n the maximum |
| Crossings.RowOnOwnIdIff | hbf/db/overlay_fs.c:584-622 | over any run with faithful rowids, whatever the connections: the row of a call that returned 0 carries its request, and is under the id of its path if and only if the call was not crossed |
| Crossings.LinkedIff | hbf/db/overlay_fs.c:570-622 | after any such run ids and paths are linked, and the store consistent, if and only if no call that returned 0 was crossed |
| Crossings.SomeRowidIsFaithful | hbf/db/overlay_fs.c:589 | in every reachable state each event has a faithful rowid, so the runs above include every interleaving |
| OrderlyRuns.CountsAreRightIff | hbf/db/overlay_fs.c:688-712 | after any such run the version_count of every path has grown by the calls for it that returned 0 if and only if none of those that returned 0 was crossed |
| OrderlyRuns.ReadsSeeLastWrite | hbf/db/overlay_fs.c:476-485 | if no call that returned 0 was crossed, a read by file_id returns the bytes of the last successful write of the path, the latest_files route returns the same, and the version count grew by the number of successful writes, whatever else failed |
| OrderlyRuns.UsualDisciplines | hbf/db/overlay_fs.c:570-589 | in a run with a connection per call, or in which calls never overlap, no call is crossed |
| Sharing.SharingMixesFiles | hbf/db/overlay_fs.c:584-589 | a run of two overlapping calls on one connection, none failing, after which a write that returned 0 cannot be read back by its path |
| FileStore.RoutesAgree | hbf/db/overlay_schema.sql:37-53 | in a linked store the file_ids route and the latest_files route give the same answer, and latest_files has at most one row per path |
| FileStore.WriteAppendsOrFails | hbf/db/overlay_fs.c:534-644 | whatever calls fail, a write that returns 0 did exactly one append and one that returns -1 changed nothing but for at most one new id |
| FileStore.WriteSucceeds | hbf/db/overlay_fs.c:534-644 | if its three or four calls do not fail, a write into a consistent store makes exactly those and returns 0 |
| FileStore.AppendDoesItsJob | hbf/db/overlay_fs.h:92-103 | an append makes the path read back the data, adds one to its version count, leaves every other path and every stored row as it was |
| WriteOutcomes.AppendStoresRow | hbf/db/overlay_fs.c:609-631 | the row an append adds, column by column: path, clock reading, size and data, under the number after those the path has |
| WriteOutcomes.ReturnsZeroIff | hbf/db/overlay_fs.c:562-643 | for every pattern of failing calls, exactly when a write returns 0: a failed lookup step is fatal for a known path only, a failed MAX step is harmless only for a path without versions |
| FileStore.ExistsIff | hbf/db/overlay_fs.c:668-674 | the answer is 1 exactly if the path has an id, and 0 exactly if it has none |
| FileStore.NewIdIsInvisible | hbf/db/overlay_fs.c:570-587 | an id without versions changes no read and no version count |
| WriteOutcomes.LosingMeansOvertaken | hbf/db/overlay_fs.c:562-641 | a call that was not crossed and none of whose SQLite calls failed returns -1 only if another call created the path's id or inserted into the file after this call's read or creation |
| WriteOutcomes.ExistsIffVersions | hbf/db/overlay_fs.c:646-713 | after a run without failing or crossed calls, once all have returned, a path exists if and only if it has a version |
| WriteOutcomes.CountIsMaximum | hbf/db/overlay_fs.c:688-712 | version_count is the highest version number, and positive exactly when the file has rows |
| WriteOutcomes.StrandedIff | hbf/db/overlay_fs.c:570-641 | one call makes exists answer 1 while read fails if and only if it creates the id and then its insert fails |
| Tables.CacheIsTheView | hbf/db/overlay_schema.sql:102-135 | after any sequence of inserts and deletes, with any version numbers, latest_files_meta equals the view row for row |
| Tables.ViewRowIsNewest | hbf/db/overlay_schema.sql:56-71 | a file is listed exactly if it has a row, with the path, mtime and size of its row of the highest version number |
| Tables.ReplayedRows | hbf/db/overlay_schema.sql:6-14 | after any inserts and deletes, under each key stands the first insert since the last delete; nothing but the two tables changes |
| Tables.InsertKeepsCache | hbf/db/overlay_schema.sql:102-113 | the insert trigger keeps the cached table equal to the view |
| Tables.DeleteKeepsCache | hbf/db/overlay_schema.sql:116-135 | the delete trigger keeps the cached table equal to the view |
| Tables.BootstrapRepairsIff | hbf/db/overlay_schema.sql:86-99 | the bootstrap makes the cached table the view if and only if no cached row is orphaned or ahead |
| Tables.BootstrapIsStable | hbf/db/overlay_schema.sql:86-99 | it changes nothing in a consistent store, builds the view from an empty cache, and never touches another table |
| Triggers.VersionTables.Insert | hbf/db/overlay_schema.sql:102-113 | the insert and its trigger, in place: accepted exactly if the key is new, and the cache stays the view |
| Triggers.VersionTables.Delete | hbf/db/overlay_schema.sql:116-135 | the delete and the two statements of its trigger, in place: the cache stays the view |
| Triggers.VersionTables.BootstrapRows | hbf/db/overlay_schema.sql:86-99 | the upsert row by row in any order is the set-wise bootstrap, and ends with the view exactly if the cache was not ahead |
| Connections.Connection.Write | hbf/db/overlay_fs.c:534-644 | the C control flow is the run of the statement machine: same tables, same rowid, same return code |
| Connections.Connection.Read | hbf/db/overlay_fs.c:462-532 | returns the highest version of the path's id, or -1 |
| Connections.Connection.ReadFile | hbf/db/overlay_fs.c:732-805 | returns the first row of latest_files for the path, in whatever order, or -1 |
| Connections.Connection.FileExists | hbf/db/overlay_fs.c:646-675 | 1, 0 or -1 by the presence of the path's id |
| Connections.Connection.CountVersions | hbf/db/overlay_fs.c:677-713 | the number of rows joined through the path's id, or -1 |
| Connections.Connection.ProcessEntry | hbf/db/overlay_fs.c:353-422 | one turn of the loop: four bounds checks, then one append in the open transaction, or a rollback |
| Connections.Connection.ProcessEntries | hbf/db/overlay_fs.c:331-422 | the loop applies exactly the parsed entries, or reports CORRUPT only if the rest does not parse |
| Connections.Connection.MigrateAssets | hbf/db/overlay_fs.c:269-460 | streaming refines two phases: OK means the whole bundle parsed and every entry was applied and recorded in one commit; anything else leaves the committed database unchanged; a transaction is left open with the bundle recorded if and only if COMMIT was made and failed; without failing calls the status is determined, and if all calls before COMMIT run, but for a check that may fail to step, COMMIT decides |
| Connections.VerdictMeans | hbf/db/overlay_fs.c:285-343 | the determined status in terms of store, decompressor and format: CORRUPT exactly if no packing is a prefix of what a new bundle decompresses to |
| Migration.TwoPhaseApplies | hbf/db/overlay_fs.c:352-448 | a bundle that parses applies to a consistent store exactly if its id is new; then each path gains one version per entry and reads as its last entry |
| Migration.ApplyAllDoesItsJob | hbf/db/overlay_fs.c:353-422 | applying entries one by one always succeeds on a consistent store and has that effect |
| ExactlyOnce.EachBundleAtMostOnce | hbf/db/overlay_fs.c:294-309 | for migrators and writers on separate connections, any interleaving and failures, the check included: each bundle id is applied by at most one migration, never if it was there before, and migration rows are never lost or altered |
| ExactlyOnce.RowsAreConserved | hbf/db/overlay_fs.c:424-448 | over any run the rows of file_versions grow by the entries newly recorded in migrations plus the successful direct writes |
| MixedRuns.MixedReadsSeeLastStored | hbf/db/overlay_fs.c:269-460 | for migrators and writers on separate connections, any interleaving and failures: the store is consistent, every path reads back the bytes stored last by a direct write or a committed bundle, by both routes, and counts what they stored |
| MigrationProgress.EveryJobReturns | hbf/db/overlay_fs.c:346-460 | whatever the others do and whatever fails, a migration returns after at most six turns more than its bundle claims entries, and a direct write after four |
| MigrationProgress.StatusesAreTrue | hbf/db/overlay_fs.c:304-460 | for any interleaving and any failures, a status other than DB_ERROR is true: the bundle is recorded, does not decompress, or does not parse |
| MigrationProgress.DbErrorMeansBlocked | hbf/db/overlay_fs.c:346-454 | for any interleaving, a migration of whose calls at most the step of the check fails returns DB_ERROR if and only if it found the write lock taken, or found the bundle recorded when it came to record it |
| MigrationProgress.MigratorAlone | hbf/db/overlay_fs.c:269-460 | with the database to itself a migration returns the status that store and bundle determine, whether or not its check steps, and MIGRATE_OK means that the whole bundle is applied and recorded |
| MigrationProgress.FailureEndsMigration | hbf/db/overlay_fs.c:346-454 | a failing call ends a migration with the database unchanged; the lock is given back only by a ROLLBACK that runs, not by a failed COMMIT |
| MigrationProgress.DirectAlone | hbf/db/overlay_fs.c:534-644 | a direct write with the database to itself ends, with any failures, as the run of overlay_fs_write |
| MigrationProtocol.MigratorStep | hbf/db/overlay_fs.c:346-454 | only the holder of the write lock changes the database, only by COMMIT, and its private state is the committed state plus the entries read |
| MigrationProtocol.CommitEffect | hbf/db/overlay_schema.sql:138-142 | a commit adds the bundle's entries as rows and one row to migrations under a new id |
| BundleCodec.RoundTrip | tools/asset_packer.c:206-232 | parsing a packing, whatever follows it, gives the entries back with the cursor at its end |
| BundleCodec.EncodedLayout | tools/asset_packer.c:206-232 | where the count, the lengths, the name and the data of the first entry lie in a packing |
| BundleCodec.ParsedIsPacked | hbf/db/overlay_fs.c:331-397 | any byte string that parses begins with exactly the packing of the parsed entries |
| BundleCodec.CorruptIff | hbf/db/overlay_fs.c:336-395 | the parser reports corruption if and only if no packing is a prefix of the input |
| BundleCodec.PrefixFree | tools/asset_packer.c:206-232 | no packing is a proper prefix of another |
| BundleCodec.EncodeInjective | tools/asset_packer.c:206-232 | equal packings if and only if equal entries |
| BundleCodec.CompletedEntriesBound | hbf/db/overlay_fs.c:353-397 | whatever count is claimed, at most (L - 4) / 8 entries complete, and a larger claim is corrupt |
| BundleCodec.TruncationIsFinal | hbf/db/overlay_fs.c:353-397 | an entry that fails to parse stays failed for every larger claimed count |
| AssetPacker.Bundle.AddFile | tools/asset_packer.c:97-169 | appends the file, or rejects a full bundle, an unreadable file or one over 100 MB and changes nothing |
| AssetPacker.Bundle.AddAll | tools/asset_packer.c:402-414 | adds the arguments that are neither options nor .js.map files, in order; it stops with an error exactly if one cannot be loaded or there is no room, keeping those before it |
| AssetPacker.SkippedIff | tools/asset_packer.c:85-95 | an argument is passed over exactly if it begins with a dash or is some stem followed by ".js.map" |
| AssetPacker.LargeFilesAreRefused | tools/asset_packer.c:97-169 | a readable file is refused exactly if it has more than 104857600 bytes |
| AssetPacker.Bundle.Sort | tools/asset_packer.c:187 | some sorted rearrangement of the entries |
| AssetPacker.Bundle.TotalSize | tools/asset_packer.c:189-197 | the size pass computes the length of the packing |
| AssetPacker.Bundle.WriteEntries | tools/asset_packer.c:206-232 | the write pass stays inside the buffer and writes every byte of it |
| AssetPacker.Bundle.Pack | tools/asset_packer.c:179-237 | the bytes are the packing of a sorted rearrangement of the files |
| AssetPacker.PackTwice | tools/asset_packer.c:186-187 | two bundles of the same files in any order pack to the same bytes, if equal paths carry equal data |
| AssetPacker.StrcmpIsLexicographic | tools/asset_packer.c:172-177 | the comparison orders by proper prefix or first difference of unsigned bytes |
| AssetPacker.StrcmpTotal | tools/asset_packer.c:172-177 | it is antisymmetric, and zero exactly on equal paths |
| AssetPacker.StrcmpTransitive | tools/asset_packer.c:172-177 | it is transitive |
| AssetPacker.PackingDeterministicIff | tools/asset_packer.c:186-187 | every order qsort may choose packs to the same bytes if and only if equal paths carry equal data |
| Bytes.ReadPutU32 | hbf/db/overlay_fs.c:260-267 | reading a written length gives it back |
| Bytes.PutReadU32 | tools/asset_packer.c:210-226 | writing a length that was read gives the same four bytes |
| Bytes.U32IsLittleEndian | tools/asset_packer.c:210-226 | the low byte of a length comes first, and the rest follows as for the number shifted right by eight bits |
| Fips180.PadZerosIsSmallest | hbf/db/overlay_fs.c:205-218 | the padding rule of the specification is the smallest solution FIPS 180-4 section 5.1.1 asks for |
| Fips180Constants.RoundConstantsAreRoots | hbf/db/overlay_fs.c:105-117 | K[t] is the first 32 bits of the fractional part of the cube root of the t-th prime |
| Fips180Constants.InitialValueIsRoots | hbf/db/overlay_fs.c:170-182 | the initial values are the first 32 bits of the fractional parts of the square roots of the first eight primes |
| Fips180Constants.PrimesInOrder | hbf/db/overlay_fs.c:105-117 | the table behind them lists the primes in order from 2, none left out |
| KnownAnswer.FirstRound | hbf/db/overlay_fs.c:138-158 | the working variables after the first round of the published example for "abc" |
| KnownAnswer.ScheduleEquation | hbf/db/overlay_fs.c:130-136 | the finished schedule satisfies the equation of FIPS 180-4 section 6.2.2, step 1 |
| KnownAnswer.DigestIsHashValue | hbf/db/overlay_fs.c:230-239 | the digest read as eight big-endian words is the final hash value |
| KnownAnswer.PaddedParts | hbf/db/overlay_fs.c:205-228 | a padded message is the message, 0x80, zeros, and the bit length in eight bytes |
| KnownAnswer.LengthIsBigEndian | hbf/db/overlay_fs.c:220-227 | the last of those eight bytes is the lowest, and those before are of the number shifted right by eight bits |
| Sha256.Context.ExpandSchedule | hbf/db/overlay_fs.c:130-136 | m is the message schedule of FIPS 180-4 section 6.2.2 |
| Sha256.Context.RunRounds | hbf/db/overlay_fs.c:138-158 | shuffling eight variables in place computes the 64 rounds |
| Sha256.Context.Transform | hbf/db/overlay_fs.c:126-168 | one call is one block of the compression function |
| Sha256.Context.Update | hbf/db/overlay_fs.c:184-197 | the buffered context absorbs any byte string |
| Sha256.Context.Final | hbf/db/overlay_fs.c:199-240 | padding in place, in one or two blocks, gives the FIPS 180-4 digest |
| Sha256.HashMessage | hbf/shell/hash.c:85-155 | init, update, final compute SHA-256 of every message under 2^64 bits |
| Sha256.FinalBlocks | hbf/db/overlay_fs.c:205-228 | the two padding paths are the blocks of the padded message |
| BundleId.ComputeBundleId | hbf/db/overlay_fs.c:243-258 | the id is the 64-digit hexadecimal digest |
| BundleId.SameIdIff | hbf/db/overlay_fs.c:243-258 | ids are equal if and only if digests are |
| BundleId.IdIsHexDigest | hbf/db/overlay_fs.c:253-257 | an id is 64 digits of 0-9a-f, and reading them gives the digest back |
| DnsHash.DnsSafeHash | hbf/shell/hash.c:157-188 | eight characters of 0-9a-z whose base-36 value is the first eight digest bytes, big-endian, modulo 36^8, and a NUL |
| DnsHash.CollideIff | hbf/shell/hash.c:174-185 | two results coincide if and only if those 64-bit numbers agree modulo 36^8 |
| DnsHash.BigEndianConcat | hbf/shell/hash.c:168-172 | the bytes before count 256 times for each byte after, and one byte counts its value |
| DnsHash.DigitsInOrder | hbf/shell/hash.c:174-185 | the 36 digits stand for their rank in the order 0-9, a-z |
| Boot.DbInit | hbf/db/db.c:21-101 | no start commits a partial migration; a failing call outside the migration is fatal unless it sets the journal mode; one that succeeds has the bundle recorded; without failures a repairable store ends consistent |
| Boot.BootedIsConsistent | hbf/db/db.c:65-86 | whatever fails in a start, a consistent store stays consistent, changes only by applying the whole bundle, and not at all if the bundle is recorded |
| Boot.BootTwice | hbf/db/db.c:65-86 | whatever fails, after a successful start on a consistent store starting again changes nothing, and succeeds if its calls do not fail |
| Boot.BootRepeatedly | hbf/db/db.c:65-86 | after any number of starts, whatever fails, the store is consistent and the bundle was applied once or not at all, once if any start succeeded; without failing calls all starts succeed or all fail, by the first verdict |
| FailedCommit.AskTwice | hbf/db/overlay_fs.c:450-454 | whatever fails, a second attempt on the same connection reports ALREADY_APPLIED for a bundle the database lacks if and only if the first one's COMMIT failed and the second's check runs |
| FailedCommit.RetryAfterFailedCommit | hbf/db/overlay_fs.c:450-454 | for every new bundle, if COMMIT alone fails: an error, then ALREADY_APPLIED with the database unchanged, then success once the connection is closed |
| EndToEnd.PackAndMigrate | tools/asset_packer.c:416-425 | whatever fails, packing, compressing and migrating either leaves the store as it was or makes every packed path read back its bytes by both routes, leaves other paths alone and adds one version per packed file; without failures it applies exactly if the bundle is new and the packing at most ten times the compressed size |

## Left out

- zlib: an abstract pair of functions, where decompression gives back what was compressed exactly if the output buffer is large enough.
- SQLite itself: SQL parsing, WAL, fsync and busy time-outs; a refused lock is a failing call, and `UPDATE` or `INSERT OR REPLACE` on file_versions, for which the schema has no trigger, are not modelled.
- Rollback by SQLite itself: on an I/O or memory error SQLite may end a transaction on its own, even in a SELECT, after
  which `overlay_fs_write` would go on in autocommit mode. The model's transactions end only by COMMIT, ROLLBACK or
  closing the connection, so "whatever fails" above means calls that fail without ending the transaction.
- Identifiers, versions and sizes over 2^31-1, where the code narrows to `int`, and bundles whose name lengths overflow 32 bits when a terminator is added.
- NULL arguments, and allocation failure other than as a failing call; the packer's own allocation failures.
- `hbf_db_read_file` returns a NULL buffer for an empty file where `overlay_fs_read` returns an empty one; the model compares the bytes only.
- Host byte order: integers are taken as little-endian on both sides. `read_u32` is a sum of byte values, since the
  OR-ed bit ranges are disjoint. The big-endian words of the message schedule, the bytes of the bit length and the bytes
  of the digest are sums, quotients and remainders that the specification and the code share (`Fips180.BigEndianWord`,
  `LengthByte`, `WordByte`), so those shifts and masks of the code are equal to the standard's by construction;
  `KnownAnswer` shows which byte comes first.
- The round constants of SHA-256 are one table in the model, used by the specification and the code; `Fips180Constants` shows what they are.
- MigrationProtocol.FireMigrator: the statements of one file write inside a transaction are one step, because no other connection sees the transaction; a direct write that meets the lock fails at once.
- ExactlyOnce.EachBundleAtMostOnce: exactly once is per bundle id; that different bundles have different digests is not claimed.
- HTTP server, request handling, QuickJS modules, configuration, logging, C source generation, shell scripts: foreign calls or single-branch plumbing.

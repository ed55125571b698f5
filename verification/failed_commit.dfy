/** A COMMIT that fails is not rolled back: what the same connection answers next, and what closing it mends. */
module FailedCommit {
  import opened Bytes
  import opened BundleId
  import opened Tables
  import opened FileStore
  import opened Migration
  import opened Connections
  import opened Boot

  /**
   * Two attempts in a row, whatever fails: the second wrongly reports ALREADY_APPLIED, for a bundle the database
   * does not hold, if and only if the first got as far as COMMIT, that call failed, and the second's check (call
   * number `check`) runs.
   */
  method AskTwice(c: Connection, z: Zlib, blob: seq<byte>)
    returns (first: Status, second: Status, ghost commit: Option<nat>, ghost check: nat)
    requires c.Valid() && c.tx.None? && 8 * |blob| < TWO_TO_THE_64
    modifies c
    ensures second.AlreadyApplied? && IdOf(blob) !in c.disk.migrations <==>
            commit.Some? && !c.world(commit.value).outcome.Runs? && c.world(check).outcome.Runs?
    ensures commit.Some? && !c.world(commit.value).outcome.Runs? ==> !first.MigrateOk? && c.disk == old(c.disk)
  {
    hide IdOf, Applied, Verdict, Consistent, Contiguous;
    first, commit := c.MigrateAssets(z, blob);
    check := c.tick;
    ghost var last: Option<nat>;
    second, last := c.MigrateAssets(z, blob);
  }

  /**
   * Any new bundle that parses, on any consistent store, with COMMIT the only call that fails. The migration
   * reports an error and the database is as it was, but a second attempt on the same connection reports
   * ALREADY_APPLIED, for a bundle the database does not hold. After the connection is closed, a third applies it.
   */
  method RetryAfterFailedCommit(c: Connection, z: Zlib, blob: seq<byte>)
    returns (first: Status, second: Status, third: Status, ghost between: Db)
    requires c.Valid() && c.tx.None? && Consistent(c.disk)
    requires 8 * |blob| < TWO_TO_THE_64 && Verdict(z, c.disk, blob).MigrateOk?
    requires var commit := c.tick + CallsBeforeCommit(z, c.disk, blob);
             forall t :: c.tick <= t ==> (c.world(t).outcome.Runs? <==> t != commit)
    modifies c
    ensures first.DbError? && second.AlreadyApplied?
    ensures between == old(c.disk) && IdOf(blob) !in between.migrations
    ensures third.MigrateOk? && Applied(old(c.disk), c.disk, IdOf(blob), Decompress(z, blob).value)
  {
    hide IdOf, Applied, Verdict, Consistent, Contiguous;
    NewBundle(z, c.disk, blob);
    ghost var buf := Decompress(z, blob).value;
    ghost var commit: Option<nat>;
    first, commit := c.MigrateAssets(z, blob);
    AppliedOnce(c.disk, c.tx.value, IdOf(blob), buf);
    second, commit := c.MigrateAssets(z, blob);
    between := c.disk;
    Close(c);
    third, commit := c.MigrateAssets(z, blob);
  }

  lemma NewBundle(z: Zlib, db: Db, blob: seq<byte>)
    requires 8 * |blob| < TWO_TO_THE_64 && Verdict(z, db, blob).MigrateOk?
    ensures |blob| > 0 && Decompress(z, blob).Some? && IdOf(blob) !in db.migrations
  {}
}

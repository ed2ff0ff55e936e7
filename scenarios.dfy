/** Clients of the purge task: what a caller can conclude from its contract
    alone, for the configurations and tables an operator meets. */
module PurgeScenarios {
  import opened Wrappers
  import opened Purge

  /** No override and no soft-deleted cipher: nothing to purge. */
  method DefaultWithoutTrash(now: int) returns (result: Result<nat, StoreError>, left: seq<Record>)
    ensures result == Ok(0)
    ensures left == [Record("a", None)]
  {
    var table := new CipherTable([Record("a", None)]);
    result := PurgeDeletedCiphers(table, None, now, None);
    left := table.rows;
  }

  /** Thirty days' retention; a cipher trashed 45 days ago is purged. */
  method OldTrashIsPurged(now: int) returns (result: Result<nat, StoreError>, left: seq<Record>)
    ensures result == Ok(1)
    ensures left == []
  {
    var table := new CipherTable([Record("a", Some(now - 45 * MillisPerDay))]);
    result := PurgeDeletedCiphers(table, Some(30), now, None);
    left := table.rows;
  }

  /** Thirty days' retention; a cipher trashed 10 days ago is kept. */
  method RecentTrashIsKept(now: int) returns (result: Result<nat, StoreError>, left: seq<Record>)
    ensures result == Ok(0)
    ensures left == [Record("a", Some(now - 10 * MillisPerDay))]
  {
    var table := new CipherTable([Record("a", Some(now - 10 * MillisPerDay))]);
    result := PurgeDeletedCiphers(table, Some(30), now, None);
    left := table.rows;
  }

  /** A retention of zero or below disables the task even when every store
      request would fail. */
  method DisabledTouchesNothing(days: I64, now: int, trash: seq<Record>, failure: Option<StoreFault>)
    returns (result: Result<nat, StoreError>, left: seq<Record>)
    requires days <= 0
    ensures result == Ok(0)
    ensures left == trash
  {
    var table := new CipherTable(trash);
    result := PurgeDeletedCiphers(table, Some(days), now, failure);
    left := table.rows;
  }

  /** A store failure is reported as an error and purges nothing. */
  method CountFailureReportsError(now: int, trash: seq<Record>)
    returns (result: Result<nat, StoreError>, left: seq<Record>)
    ensures result == Err(StoreError(CountQuery))
    ensures left == trash
  {
    var table := new CipherTable(trash);
    result := PurgeDeletedCiphers(table, None, now, Some(CountFails));
    left := table.rows;
  }

  /** A delete that reports an error after it was applied: the error reaches
      the caller although the expired cipher is gone. */
  method DeleteErrorAfterCommit(now: int) returns (result: Result<nat, StoreError>, left: seq<Record>)
    ensures result == Err(StoreError(DeleteQuery))
    ensures left == []
  {
    var table := new CipherTable([Record("a", Some(now - 45 * MillisPerDay))]);
    result := PurgeDeletedCiphers(table, Some(30), now, Some(DeleteFails(true)));
    left := table.rows;
  }

  /** Two runs at the same instant: the second finds nothing, and both
      together remove exactly what the first one reported. */
  method PurgeTwice(table: CipherTable, setting: Option<I64>, now: int)
    returns (first: Result<nat, StoreError>, second: Result<nat, StoreError>)
    modifies table
    ensures second == Ok(0)
    ensures first.Ok? && first.value + |table.rows| == |old(table.rows)|
  {
    first := PurgeDeletedCiphers(table, setting, now, None);
    if PurgeEnabled(PurgeDays(setting)) {
      RetainedIdempotent(old(table.rows), Cutoff(now, PurgeDays(setting)), Cutoff(now, PurgeDays(setting)));
    }
    second := PurgeDeletedCiphers(table, setting, now, None);
  }
}

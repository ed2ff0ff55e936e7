/** The trash auto-purge task: permanently delete the ciphers that were
    soft-deleted (given a `deleted_at` timestamp) before now minus a
    configurable retention period.

    Timestamps are integers: milliseconds since the Unix epoch, UTC. The
    stored `deleted_at` values and the cutoff are compared as numbers. */
module Purge {
  import opened Wrappers

  /** A signed 64-bit integer, the type the retention setting is parsed into. */
  type I64 = x: int | -0x8000_0000_0000_0000 <= x <= 0x7fff_ffff_ffff_ffff

  /** Retention, in days, when TRASH_AUTO_DELETE_DAYS is missing or unparsable. */
  const DefaultPurgeDays: I64 := 30

  const MillisPerDay: int := 86_400_000

  // ---------------------------------------------------------------------
  // Configuration
  // ---------------------------------------------------------------------

  /** The retention period in days. `parsed` is the setting read from the
      environment and parsed as an i64, `None` when it is missing or does not
      parse. A parsed value is used as it is, zero and negatives included. */
  function PurgeDays(parsed: Option<I64>): (days: I64)
    ensures parsed.Some? ==> days == parsed.value
    ensures parsed.None? ==> days == DefaultPurgeDays
  {
    parsed.GetOr(DefaultPurgeDays)
  }

  /** Purging runs only for a positive retention; zero or below switches it off. */
  predicate PurgeEnabled(days: int) {
    days > 0
  }

  /** Only a parsed value of zero or below switches purging off; a missing or
      unparsable setting purges with the default retention. */
  lemma PurgeEnabledBySetting(parsed: Option<I64>)
    ensures PurgeEnabled(PurgeDays(parsed)) <==> parsed.None? || parsed.value > 0
  {
  }

  /** The instant `days` days before `now`. */
  function Cutoff(now: int, days: int): (cutoff: int)
    ensures days > 0 ==> cutoff <= now - MillisPerDay
    ensures days <= 0 ==> now <= cutoff
  {
    now - days * MillisPerDay
  }

  /** A longer retention gives an earlier (or the same) cutoff. */
  lemma CutoffAntitone(now: int, shorter: int, longer: int)
    requires shorter <= longer
    ensures Cutoff(now, longer) <= Cutoff(now, shorter)
    ensures Cutoff(now, shorter) - Cutoff(now, longer) == (longer - shorter) * MillisPerDay
  {
  }

  // ---------------------------------------------------------------------
  // The ciphers table and the SQL predicate
  // ---------------------------------------------------------------------

  /** A row of the `ciphers` table; `deletedAt` is `None` for an active
      cipher and the soft-deletion instant otherwise. */
  datatype Record = Record(id: string, deletedAt: Option<int>)

  /** `deleted_at IS NOT NULL AND deleted_at < cutoff` */
  predicate Expired(r: Record, cutoff: int) {
    r.deletedAt.Some? && r.deletedAt.value < cutoff
  }

  /** A row that matches a cutoff matches every later one. */
  lemma ExpiredMonotone(r: Record, earlier: int, later: int)
    requires earlier <= later && Expired(r, earlier)
    ensures Expired(r, later)
  {
  }

  /** `SELECT COUNT(*) FROM ciphers WHERE <Expired>` over `rows`. */
  function CountExpired(rows: seq<Record>, cutoff: int): (n: nat)
    ensures n <= |rows|
    ensures n == 0 <==> forall i :: 0 <= i < |rows| ==> !Expired(rows[i], cutoff)
    ensures n == |rows| <==> forall i :: 0 <= i < |rows| ==> Expired(rows[i], cutoff)
  {
    if rows == [] then 0
    else (if Expired(rows[0], cutoff) then 1 else 0) + CountExpired(rows[1..], cutoff)
  }

  /** The table left by `DELETE FROM ciphers WHERE <Expired>`: the rows that
      do not match, in their original order. */
  function Retained(rows: seq<Record>, cutoff: int): (kept: seq<Record>)
    ensures |kept| + CountExpired(rows, cutoff) == |rows|
    ensures forall r :: r in kept <==> r in rows && !Expired(r, cutoff)
  {
    if rows == [] then []
    else if Expired(rows[0], cutoff) then Retained(rows[1..], cutoff)
    else [rows[0]] + Retained(rows[1..], cutoff)
  }

  /** The delete acts row by row: on a concatenation it is the concatenation
      of the results, so the survivors keep their relative order. */
  lemma {:induction false} RetainedAppend(a: seq<Record>, b: seq<Record>, cutoff: int)
    ensures Retained(a + b, cutoff) == Retained(a, cutoff) + Retained(b, cutoff)
  {
    if a == [] {
      assert a + b == b;
    } else {
      assert (a + b)[0] == a[0];
      assert (a + b)[1..] == a[1..] + b;
      RetainedAppend(a[1..], b, cutoff);
    }
  }

  /** Every row that does not match the predicate survives with all its
      copies, and no matching row survives. */
  lemma {:induction false} RetainedMultiplicity(rows: seq<Record>, cutoff: int, r: Record)
    ensures multiset(Retained(rows, cutoff))[r] == if Expired(r, cutoff) then 0 else multiset(rows)[r]
  {
    if rows != [] {
      assert rows == [rows[0]] + rows[1..];
      RetainedMultiplicity(rows[1..], cutoff, r);
    }
  }

  /** When no row matches, the delete leaves the table as it is; skipping the
      delete on a zero count therefore loses nothing. */
  lemma {:induction false} RetainedNoneExpired(rows: seq<Record>, cutoff: int)
    requires CountExpired(rows, cutoff) == 0
    ensures Retained(rows, cutoff) == rows
  {
    if rows != [] {
      assert !Expired(rows[0], cutoff);
      RetainedNoneExpired(rows[1..], cutoff);
    }
  }

  /** Idempotence: after a purge, a purge with the same or an earlier cutoff
      finds nothing to count and removes nothing. */
  lemma RetainedIdempotent(rows: seq<Record>, cutoff: int, again: int)
    requires again <= cutoff
    ensures CountExpired(Retained(rows, cutoff), again) == 0
    ensures Retained(Retained(rows, cutoff), again) == Retained(rows, cutoff)
  {
    var kept := Retained(rows, cutoff);
    forall i | 0 <= i < |kept|
      ensures !Expired(kept[i], again)
    {
      assert kept[i] in kept;
    }
    RetainedNoneExpired(kept, again);
  }

  /** A purge with an earlier cutoff removes a subset of what a purge with a
      later cutoff removes: running the earlier one first changes nothing
      about what the later one leaves behind. */
  lemma {:induction false} RetainedEarlierThenLater(rows: seq<Record>, earlier: int, later: int)
    requires earlier <= later
    ensures Retained(Retained(rows, earlier), later) == Retained(rows, later)
  {
    if rows != [] {
      RetainedEarlierThenLater(rows[1..], earlier, later);
    }
  }

  // ---------------------------------------------------------------------
  // The store and the purge task
  // ---------------------------------------------------------------------

  /** The `ciphers` table, in storage order. */
  class CipherTable {
    var rows: seq<Record>

    constructor (rows: seq<Record>)
      ensures this.rows == rows
    {
      this.rows := rows;
    }

    /** The count query: the number of rows matching the predicate. */
    method CountExpiredRows(cutoff: int) returns (n: nat)
      ensures n == CountExpired(rows, cutoff)
      ensures n <= |rows|
    {
      n := CountExpired(rows, cutoff);
    }

    /** The delete statement: removes exactly the rows matching the predicate. */
    method DeleteExpiredRows(cutoff: int)
      modifies this
      ensures rows == Retained(old(rows), cutoff)
      ensures |old(rows)| - |rows| == CountExpired(old(rows), cutoff)
    {
      rows := Retained(rows, cutoff);
    }
  }

  /** The store request whose error the task returns. */
  datatype StoreStep = OpenDatabase | CountQuery | DeleteQuery

  /** An error from the store, passed through to the caller. */
  datatype StoreError = StoreError(step: StoreStep)

  /** The store request that reports an error in this run, when one does.
      Opening the database and the count change nothing; a delete may report
      an error after it has been applied (a lost response, say), which
      `applied` records. */
  datatype StoreFault = OpenFails | CountFails | DeleteFails(applied: bool) {
    function Step(): (step: StoreStep)
      ensures step == DeleteQuery <==> DeleteFails?
    {
      match this
      case OpenFails => OpenDatabase
      case CountFails => CountQuery
      case DeleteFails(_) => DeleteQuery
    }
  }

  /** One run of the purge task. `setting` is the parsed retention setting,
      `now` the current instant and `failure` the store request, if any, that
      reports an error in this run. */
  method PurgeDeletedCiphers(table: CipherTable, setting: Option<I64>, now: int, failure: Option<StoreFault>)
    returns (result: Result<nat, StoreError>)
    modifies table
    // Disabled: success with zero, whatever the store would do, and no change.
    ensures !PurgeEnabled(PurgeDays(setting)) ==> result == Ok(0) && table.rows == old(table.rows)
    // Enabled: the count reported is the count of matching rows and the
    // table keeps exactly the rows that do not match.
    ensures PurgeEnabled(PurgeDays(setting)) && result.Ok? ==>
      var cutoff := Cutoff(now, PurgeDays(setting));
      result.value == CountExpired(old(table.rows), cutoff) &&
      table.rows == Retained(old(table.rows), cutoff)
    // The number reported is the number of rows removed.
    ensures result.Ok? ==> result.value + |table.rows| == |old(table.rows)|
    // An error names the failing request; only a delete applied before its
    // error changes the table, and then exactly as a successful delete would.
    ensures result.Err? ==>
      failure.Some? && result.error.step == failure.value.Step() &&
      table.rows == (if failure.value == DeleteFails(true)
                     then Retained(old(table.rows), Cutoff(now, PurgeDays(setting)))
                     else old(table.rows))
    // Exactly when it fails: enabled, and a request that is issued fails;
    // the delete is issued only for a non-zero count.
    ensures result.Err? <==>
      PurgeEnabled(PurgeDays(setting)) && failure.Some? &&
      (failure.value.DeleteFails? ==> CountExpired(old(table.rows), Cutoff(now, PurgeDays(setting))) > 0)
  {
    var days := PurgeDays(setting);
    if !PurgeEnabled(days) {
      return Ok(0);
    }
    if failure == Some(OpenFails) {
      return Err(StoreError(OpenDatabase));
    }
    var cutoff := Cutoff(now, days);
    if failure == Some(CountFails) {
      return Err(StoreError(CountQuery));
    }
    var count := table.CountExpiredRows(cutoff);
    if count > 0 {
      if failure.Some? && failure.value.DeleteFails? {
        if failure.value.applied {
          table.DeleteExpiredRows(cutoff);
        }
        return Err(StoreError(DeleteQuery));
      }
      table.DeleteExpiredRows(cutoff);
    } else {
      RetainedNoneExpired(table.rows, cutoff);
    }
    return Ok(count);
  }
}

/**
 * Persistence of the GSync configuration in the `config` table: `get_config` reads the
 * first row (or yields the empty configuration when there is none) and `write` deletes
 * every row and inserts one. The table is a sequence of rows; the database itself is
 * reduced to the step, if any, at which it fails.
 */
module ConfigStore {
  import opened Wrappers
  import opened Config

  /** The outcome of a database operation; a database failure carries nothing we model. */
  datatype Result<T> = Ok(value: T) | DatabaseError

  /** The database interactions that `get_config` and `write` perform. */
  datatype Step =
    | Connect     // obtaining the connection
    | Prepare     // preparing the SELECT statement
    | Query       // running it
    | NextRow     // advancing the cursor to the first row
    | ReadColumn  // reading a column of that row
    | Delete      // DELETE FROM config
    | Insert      // INSERT INTO config

  /** The steps `get_config` performs on a table holding `rows`, in order. */
  function ReadSteps(rows: seq<Configuration>): seq<Step>
  {
    [Connect, Prepare, Query, NextRow] + (if rows == [] then [] else [ReadColumn])
  }

  /** The steps `write` performs, in order. */
  const WriteSteps: seq<Step> := [Connect, Delete, Insert]

  /** Whether a database that fails at `failAt` fails one of `steps`. */
  predicate FailsDuring(failAt: Option<Step>, steps: seq<Step>)
  {
    failAt.Some? && failAt.value in steps
  }

  /** What `get_config` returns on a table holding `rows` when the database fails at `failAt`. */
  function Load(rows: seq<Configuration>, failAt: Option<Step>): (r: Result<Configuration>)
    ensures r.DatabaseError? <==> FailsDuring(failAt, ReadSteps(rows))
    ensures r.Ok? ==> r.value == if rows == [] then Empty() else rows[0]
  {
    if failAt in {Some(Connect), Some(Prepare), Some(Query), Some(NextRow)} then DatabaseError
    else if rows == [] then Ok(Empty())
    else if failAt == Some(ReadColumn) then DatabaseError
    else Ok(rows[0])
  }

  /** The rows left by `write(c)` on a table holding `rows` when the database fails at `failAt`. */
  function AfterWrite(rows: seq<Configuration>, c: Configuration, failAt: Option<Step>): (r: seq<Configuration>)
    ensures !FailsDuring(failAt, WriteSteps) ==> r == [c]
    ensures failAt == Some(Connect) || failAt == Some(Delete) ==> r == rows
    ensures failAt == Some(Insert) ==> r == []
  {
    match failAt
    case Some(Connect) => rows
    case Some(Delete) => rows
    case Some(Insert) => []
    case _ => [c]
  }

  /** What `write` returns when the database fails at `failAt`. */
  function WriteResult(failAt: Option<Step>): (r: Result<()>)
    ensures r.DatabaseError? <==> FailsDuring(failAt, WriteSteps)
  {
    match failAt
    case Some(Connect) => DatabaseError
    case Some(Delete) => DatabaseError
    case Some(Insert) => DatabaseError
    case _ => Ok(())
  }

  /** The `config` table. */
  class ConfigTable {
    /** The rows of the table, in the order the cursor yields them. */
    var rows: seq<Configuration>

    /** A freshly created table holds no row. */
    constructor ()
      ensures rows == []
    {
      rows := [];
    }

    /** `get_config`: the first row, or the empty configuration when there is none. */
    method GetConfig(failAt: Option<Step>) returns (r: Result<Configuration>)
      ensures r == Load(rows, failAt)
    {
      if failAt == Some(Connect) || failAt == Some(Prepare) || failAt == Some(Query) {
        return DatabaseError;
      }
      if failAt == Some(NextRow) {
        return DatabaseError;
      }
      if rows == [] {
        return Ok(Empty());
      }
      var row := rows[0];
      if failAt == Some(ReadColumn) {
        return DatabaseError;
      }
      r := Ok(Configuration(row.client_id, row.client_secret, row.input_files, row.drive_id));
    }

    /**
     * `write`: delete every row, then insert `c`. The two statements are not one
     * transaction, so a failure of the insert leaves the table empty.
     */
    method Write(c: Configuration, failAt: Option<Step>) returns (r: Result<()>)
      modifies this
      ensures rows == AfterWrite(old(rows), c, failAt)
      ensures r == WriteResult(failAt)
    {
      if failAt == Some(Connect) {
        return DatabaseError;
      }
      if failAt == Some(Delete) {
        return DatabaseError;
      }
      rows := [];
      if failAt == Some(Insert) {
        return DatabaseError;
      }
      rows := rows + [c];
      r := Ok(());
    }
  }

  /** A successful write leaves exactly one row, and reading it back yields `c` field by field. */
  lemma ReadAfterWrite(rows: seq<Configuration>, c: Configuration)
    ensures |AfterWrite(rows, c, None)| == 1
    ensures Load(AfterWrite(rows, c, None), None) == Ok(c)
    ensures forall f :: Get(Load(AfterWrite(rows, c, None), None).value, f) == Get(c, f)
  {
  }

  /** Reading a table with no rows is not an error: it yields the empty configuration. */
  lemma LoadFromEmptyTable()
    ensures Load([], None) == Ok(Empty())
  {
  }

  /** After writing `c1` and then `c2`, only `c2` is stored and retrievable. */
  lemma SecondWriteWins(rows: seq<Configuration>, c1: Configuration, c2: Configuration)
    ensures AfterWrite(AfterWrite(rows, c1, None), c2, None) == [c2]
    ensures Load(AfterWrite(AfterWrite(rows, c1, None), c2, None), None) == Ok(c2)
  {
  }

  /**
   * A write whose insert fails after the delete succeeded loses the stored
   * configuration: the next read yields the empty configuration.
   */
  lemma FailedInsertLosesConfiguration(rows: seq<Configuration>, c: Configuration)
    ensures WriteResult(Some(Insert)).DatabaseError?
    ensures Load(AfterWrite(rows, c, Some(Insert)), None) == Ok(Empty())
  {
  }

  /** No write, failed or not, takes a table with at most one row to one with more. */
  lemma WriteKeepsAtMostOneRow(rows: seq<Configuration>, c: Configuration, failAt: Option<Step>)
    requires |rows| <= 1
    ensures |AfterWrite(rows, c, failAt)| <= 1
  {
  }

  /** The table after a session of writes, each a record and the step at which it fails, if any. */
  function Replay(rows: seq<Configuration>, writes: seq<(Configuration, Option<Step>)>): seq<Configuration>
    decreases |writes|
  {
    if writes == [] then rows
    else Replay(AfterWrite(rows, writes[0].0, writes[0].1), writes[1..])
  }

  /** However many writes run, and however they fail, a table of at most one row never gains a second. */
  lemma {:induction false} ReplayKeepsAtMostOneRow(rows: seq<Configuration>, writes: seq<(Configuration, Option<Step>)>)
    requires |rows| <= 1
    ensures |Replay(rows, writes)| <= 1
    decreases |writes|
  {
    if writes != [] {
      ReplayKeepsAtMostOneRow(AfterWrite(rows, writes[0].0, writes[0].1), writes[1..]);
    }
  }

  /** When the last write of a session succeeds, its record is the only row, whatever came before. */
  lemma {:induction false} ReplayLastWriteWins(rows: seq<Configuration>, writes: seq<(Configuration, Option<Step>)>)
    requires writes != [] && writes[|writes| - 1].1 == None
    ensures Replay(rows, writes) == [writes[|writes| - 1].0]
    ensures Load(Replay(rows, writes), None) == Ok(writes[|writes| - 1].0)
    decreases |writes|
  {
    if |writes| > 1 {
      var rest := writes[1..];
      assert rest[|rest| - 1] == writes[|writes| - 1];
      ReplayLastWriteWins(AfterWrite(rows, writes[0].0, writes[0].1), rest);
    }
  }

  /** Every row left by a session of writes was there before or was written during it. */
  lemma {:induction false} ReplayRowsWereWritten(rows: seq<Configuration>, writes: seq<(Configuration, Option<Step>)>)
    ensures forall x :: x in Replay(rows, writes) ==>
      x in rows || exists i :: 0 <= i < |writes| && writes[i].0 == x
    decreases |writes|
  {
    if writes != [] {
      var next := AfterWrite(rows, writes[0].0, writes[0].1);
      ReplayRowsWereWritten(next, writes[1..]);
      forall x | x in Replay(rows, writes)
        ensures x in rows || exists i :: 0 <= i < |writes| && writes[i].0 == x
      {
        if x in next {
          if x !in rows {
            assert writes[0].0 == x;
          }
        } else {
          var i :| 0 <= i < |writes[1..]| && writes[1..][i].0 == x;
          assert writes[i + 1].0 == x;
        }
      }
    }
  }
}

# GSync configuration, modelled in Dafny

GSync keeps its user settings in one `Configuration` record. The record has four optional
strings: the Google client ID, the client secret, the pattern of input files to sync, and
the ID of a shared drive. This project models that record and the logic in
`src/config.rs`:

- `is_empty` and `empty`;
- `is_complete`, which checks `client_id`, `client_secret` and `input_files` in that order
  and names the first absent field. `drive_id` is optional.
- `merge(a, b)`, which takes each field from `a` when `a` has it, and from `b` otherwise;
- `get_config` and `write`, which keep the configuration as one row of the `config` table.

Files:

- `wrappers.dfy`: module `Wrappers`, Rust's `Option`.
- `config.dfy`: module `Config`. It holds the record as a datatype and the pure operations
  as functions. A `Field` enumeration with `Get(c, f)` lets contracts say "every field".
  The completeness diagnostic has an independent reference definition, `Diagnose`. It walks
  the ordered list `Required` and builds the message from the field's name. The lemmas cover
  the merge algebra: identity, idempotence, associativity, and when the argument order
  matters.
- `config_store.dfy`: module `ConfigStore`. The table is a class, `ConfigTable`, holding a
  `seq<Configuration>` of rows. `GetConfig` and `Write` are methods proved against the
  specification functions `Load`, `AfterWrite` and `WriteResult`. `Replay` applies a
  session of writes, and lemmas about it prove last-write-wins and no duplication.

Database failures are a parameter, `failAt: Option<Step>`. It names the database step that
fails, if any. The steps are connecting, preparing, querying, advancing the cursor, reading
a column, deleting and inserting. A failure at a step the operation does not perform has no
effect. For example, a column read fails only when there is a row. Every failure gives the
opaque outcome `DatabaseError`.

The code (src/config.rs:112-119) runs the delete and the insert of `write` as two
statements with no transaction around them, so the replace is not atomic. A failed insert
leaves the table empty, and `FailedInsertLosesConfiguration` proves that the next read then
returns the empty configuration.

## Model

| member | source | states |
|---|---|---|
| Config.FieldsDetermineConfiguration | src/config.rs:9-21 | a configuration is exactly its four fields: two are equal iff they agree on every field |
| Config.IsEmpty | src/config.rs:25-28 | `is_empty` holds iff every one of the four fields is absent |
| Config.Empty | src/config.rs:30-38 | `empty()` is empty, and it is the only configuration that is |
| Config.IsComplete | src/config.rs:40-53 | the flag is true iff every required field (client_id, client_secret, input_files) is present; the reason is "" exactly when the flag is true |
| Config.FirstAbsentIndex | src/config.rs:44-50 | the position of the first absent field in an ordered field list: all earlier fields are present and that one is absent, or all are present |
| Config.MissingMessageLiterals | src/config.rs:45-49 | the three diagnostics are "'" + field name + "' is empty", verbatim |
| Config.IsCompleteIsDiagnose | src/config.rs:41-53 | `is_complete` equals the reference walk over the required fields in order, reporting the first absent one by name |
| Config.IsCompleteNamesFirstAbsent | src/config.rs:44-49 | when incomplete, the reason names a required field that is absent and all fields checked before it are present |
| Config.IsCompleteIgnoresDriveId | src/config.rs:42 | changing `drive_id` never changes the result of `is_complete` |
| Config.IsCompleteOnEmpty | src/config.rs:44-45 | on the empty configuration the result is (false, "'client_id' is empty") |
| Config.Merge | src/config.rs:55-79 | every field of the result is `a`'s value when present, else `b`'s; the result is empty iff both inputs are; it is complete iff each required field is present in `a` or in `b` |
| Config.MergeIdentity | src/config.rs:56-79 | `merge(c, empty()) == c` and `merge(empty(), c) == c` |
| Config.MergeIdempotent | src/config.rs:56-79 | `merge(c, c) == c` |
| Config.MergeAssociative | src/config.rs:56-79 | `merge(merge(a, b), c) == merge(a, merge(b, c))` |
| Config.MergePrimaryWins | src/config.rs:58-76 | a field set in `a` keeps `a`'s value in the merge, whatever `b` holds |
| Config.MergeCommutesIffConsistent | src/config.rs:56-79 | `merge(a, b) == merge(b, a)` iff `a` and `b` agree on every field that both set |
| ConfigStore.Load | src/config.rs:85-103 | `get_config` fails iff the database fails at a step it performs (the column reads only when there is a row); otherwise it yields the first row, or `empty()` when there are none |
| ConfigStore.ConfigTable.GetConfig | src/config.rs:85-103 | the method's result is exactly `Load` of the current rows |
| ConfigStore.AfterWrite | src/config.rs:109-122 | a write with no failed step leaves exactly the one row `c`; a failed connection or delete leaves the rows untouched; a failed insert leaves the table empty |
| ConfigStore.WriteResult | src/config.rs:109-122 | `write` fails iff the database fails at connecting, deleting or inserting |
| ConfigStore.ConfigTable.Write | src/config.rs:109-122 | the new rows are `AfterWrite` of the old rows, and the outcome is `WriteResult` |
| ConfigStore.ReadAfterWrite | src/config.rs:88-121 | after a successful write of `c` the table holds one row and reading returns `c` field by field, absent fields included |
| ConfigStore.LoadFromEmptyTable | src/config.rs:100 | reading a table with no rows returns `empty()`, not an error |
| ConfigStore.SecondWriteWins | src/config.rs:112-119 | writing `c1` then `c2` leaves only `c2` stored and retrievable |
| ConfigStore.FailedInsertLosesConfiguration | src/config.rs:112-119 | a write whose insert fails reports an error, and the next read returns `empty()`: the stored configuration is lost |
| ConfigStore.WriteKeepsAtMostOneRow | src/config.rs:112-119 | no write, failed or not, takes a table of at most one row to more than one |
| ConfigStore.ReplayKeepsAtMostOneRow | src/config.rs:109-122 | over any session of writes, however they fail, a table of at most one row never gains a second |
| ConfigStore.ReplayLastWriteWins | src/config.rs:109-122 | when the last write of a session succeeds, its record is the only row and is what a read returns, whatever came before |
| ConfigStore.ReplayRowsWereWritten | src/config.rs:109-122 | every row left after a session of writes was either there before or was written during it |

## Left out

- Connection handling, SQL text, statement preparation and row decoding are left out. They are calls into `rusqlite` and into `crate::env::Env`, and `Env` is not part of this model. Each is reduced to a `Step` at which the database may fail.
- ConfigStore.Load: a failure is the opaque `DatabaseError`. The source's error tuple also carries the rusqlite error, the line and the file, and the model does not record them.
- ConfigStore.WriteResult: same as `Load`; the error carries no rusqlite error and no call-site context.
- ConfigStore.Load: with several rows, SQL does not fix which row comes first. The model reads the head of the sequence.
- Creating the `config` table and its schema happens outside `src/config.rs`. The model starts from an empty table (`ConfigTable` constructor).
- String contents are opaque. Nothing in `src/config.rs` validates glob patterns or IDs.
- Rust ownership is not modelled. `merge` takes its arguments by value, and the model is a pure function.
- `#[derive(Debug)]` has no behaviour to model.
- Concurrent writers are not modelled. `write` takes no lock and opens no transaction, so interleaved sessions are outside the model.

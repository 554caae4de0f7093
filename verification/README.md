# Question aggregate and soft-delete store, modelled in Dafny

This project models the core of answer.io, a store of named key/value
records ("questions"). Each question keeps the full history of the changes
made to it:

- **Events** (`pkg/model/event.go`). Three immutable event variants:
  `QuestionAdded{ID, Key, Value}`, `QuestionUpdate{Key, NewValue}` and
  `QuestionDelete{Key}`. Each has a short name (`"add"`, `"update"`,
  `"delete"`) and a projected `Data{Key, Value}` record.
- **The `Question` aggregate** (`pkg/model/model.go`). `New` raises the
  creation event. `Update` and `Delete` refuse once the question is deleted,
  and otherwise append exactly one event each. `NewFromEvents` rebuilds a
  question by folding `On` over its events. `Events` returns the log.
- **The storage service** (`pkg/bolt/service.go`). It keeps questions in two
  partitions of the bbolt engine:
  - a live partition that maps each key to a question snapshot;
  - a tombstone partition that maps each key to an identifier.

  `New` refuses a visible key. Otherwise it stores the fresh question and
  drops the key's tombstone. `Get` checks for a non-empty tombstone first,
  then for a live entry. `Update` rewrites the snapshot. `Delete` only
  writes a tombstone. `List` returns the visible snapshots in ascending key
  order.

Files:

- `types.dfy`: identifiers (byte sequences), keys, values, the error enum
  and `Result`.
- `event.dfy` (module `QuestionEvents`): the events, `Name` and `DataOf`.
- `model.dfy` (module `Model`): the aggregate, replay, and the lifecycle
  lemmas. The lemmas use the `WellFormed` shape invariant. Calls on a held
  question are modelled by `Step`/`Run`, which keep the question unchanged
  on error, as the Go methods do on their receiver.
- `key_order.dfy` (module `KeyOrder`): the order of the engine's cursor. It
  is ascending bytewise order. Keys here are strings of Unicode scalar
  values. On such strings, lexicographic order by character is the same as
  bytewise order of their UTF-8 encodings.
- `service.dfy` (module `Bolt`): the store as the pair of maps
  `Store(live, tomb)`, with one pure transition function per operation. It
  also holds the invariant `Inv` of every reachable store and the lemmas
  about what clients observe.
- `scenarios.dfy` (module `Scenarios`): the concrete outcomes that the
  repository's tests expect, stated over the model.

In three places the code behaves in a way that is easy to misread; the
model follows the code:

- **Versions.** A fresh question has version 0. The same question rebuilt
  from its history has version 1, because replay counts the creation event.
  The model keeps this asymmetry and pins it with
  `Model.CreationVersionDiffers` and `Model.BuiltQuestion`.
- **Tombstones.** A tombstone hides a key only when its stored identifier is
  non-empty, since the code tests `len(...) > 0`. A mere entry in the
  tombstone partition is not enough. So `Bolt.DeleteHides` states both
  outcomes of a delete.
- **Errors.** The aggregate's refusal and `Get`'s tombstone check return the
  same text, "question deleted". The model therefore uses one error,
  `QuestionDeleted`.

## Model

| member | source | states |
|---|---|---|
| `QuestionEvents.Name` | pkg/model/event.go:23-50 | "add", "update" and "delete" belong to exactly one variant each, so the name tells the variants apart |
| `QuestionEvents.DataOf` | pkg/model/event.go:24-55 | the projection carries the event's own key, and the value of an addition or update; a deletion projects the empty value |
| `QuestionEvents.RenderingDeterminesEvent` | pkg/model/event.go:22-55 | two events have the same name and projection exactly when they are equal or are additions that differ only in identifier |
| `Model.On` | pkg/model/model.go:70-86 | an addition sets id, key and value; an update sets only the value; a deletion sets only the flag; the version moves on every event except an addition applied as new; the history is untouched |
| `Model.Raise` | pkg/model/model.go:88-91 | the event is appended to the history and then applied as new, exactly as `On(q, ev, true)`; the version moves unless the event is an addition |
| `Model.New` | pkg/model/model.go:31-45 | the question has the given id, key and value, is not deleted, has version 0 and the one-event history `[QuestionAdded(id, key, value)]` |
| `Model.Update` | pkg/model/model.go:47-59 | fails with "question deleted" iff the question is deleted; otherwise only the value changes, one `QuestionUpdate(key, value)` is appended and the version grows by one |
| `Model.Delete` | pkg/model/model.go:61-68 | fails with "question deleted" iff the question is deleted; otherwise it becomes deleted, one `QuestionDelete(key)` is appended, the version grows by one and id, key and value stay |
| `Model.Events` | pkg/model/model.go:93-95 | the log is returned unchanged |
| `Model.Replay` | pkg/model/model.go:21-26 | folding the events counts every one of them, the addition included, as a version |
| `Model.ReplayTwiceDoublesVersion` | pkg/model/model.go:21-26 | replaying a history appended to itself doubles the version, since every replayed event counts |
| `Model.ReplayDeleted` | pkg/model/model.go:79-81 | a replayed question is deleted iff some event is a deletion |
| `Model.ReplayValue` | pkg/model/model.go:72-78 | a replayed question holds the value of the last addition or update, or the empty value when there is none |
| `Model.ReplayIdentity` | pkg/model/model.go:72-75 | a replayed question takes id and key from the last addition, or keeps empty ones when there is none |
| `Model.NewFromEvents` | pkg/model/model.go:21-29 | the rebuilt question has the input as history, version equal to the number of events, the deleted flag iff some deletion, the last value set and the id and key of the last addition |
| `Model.Step` | pkg/model/model.go:47-68 | a call on a deleted question leaves it unchanged; on a live one an update call sets the value and appends `QuestionUpdate(key, value)`, a delete call sets the flag and appends `QuestionDelete(key)`, each adding one version; id and key never change |
| `Model.NewIsWellFormed` | pkg/model/model.go:31-45 | a created question has the lifecycle shape: first event its addition, version = events after it, replay reproduces it one version higher |
| `Model.StepPreservesWellFormed` | pkg/model/model.go:47-68 | one update or delete call, failing or not, keeps that shape |
| `Model.RunPreservesWellFormed` | pkg/model/model.go:47-91 | any sequence of calls keeps that shape |
| `Model.DeletedIsAbsorbing` | pkg/model/model.go:47-68 | once deleted, no sequence of calls changes a question |
| `Model.RunKeepsPrefix` | pkg/model/model.go:88-91 | calls only append to the history |
| `Model.BuiltQuestion` | pkg/model/model.go:21-95 | after `New` and any calls: version = \|history\| - 1, the first event is `QuestionAdded(id, key, value)`, every later event has the same key, and rebuilding from the events gives the same question with version one higher |
| `Model.CreationVersionDiffers` | pkg/model/model.go:21-45 | a created question has version 0 while the question rebuilt from its history has version 1 and is otherwise equal |
| `KeyOrder.BelowTransitive` | pkg/bolt/service.go:129-130 | the cursor order is transitive |
| `KeyOrder.BelowTotal` | pkg/bolt/service.go:129-130 | any two distinct keys are ordered one way or the other |
| `KeyOrder.SortedKeys` | pkg/bolt/service.go:129-130 | the cursor visits every key of the partition exactly once, in strictly ascending order |
| `Bolt.New` | pkg/bolt/service.go:35-61 | fails with "key already exist" and writes nothing iff the key is visible; otherwise stores `Model.New(id, key, value)` under the key, drops its tombstone and returns the question |
| `Bolt.Get` | pkg/bolt/service.go:63-84 | succeeds iff the key has a snapshot and no non-empty tombstone, returning the snapshot; a non-empty tombstone gives "question deleted" before a missing snapshot gives "question not found" |
| `Bolt.Update` | pkg/bolt/service.go:86-105 | a failing `Get` is passed through with nothing written; when `Get` succeeds, the update succeeds iff the snapshot is not marked deleted, and otherwise passes on the aggregate's "question deleted"; a success rewrites the snapshot with the new value, one more update event and the next version; tombstones are never written |
| `Bolt.Delete` | pkg/bolt/service.go:107-119 | fails exactly when `Get` fails; otherwise writes the snapshot's id as tombstone under the snapshot's key and never writes the live partition |
| `Bolt.ListedKeys` | pkg/bolt/service.go:121-141 | the listed keys are exactly the visible ones, in strictly ascending order |
| `Bolt.List` | pkg/bolt/service.go:121-141 | the list holds, for each listed key in order, the visible snapshot stored under it |
| `Bolt.NewPreservesInv` | pkg/bolt/service.go:35-61 | creation keeps every snapshot under its own non-empty key, active and well formed, and every tombstone on a stored key |
| `Bolt.UpdatePreservesInv` | pkg/bolt/service.go:86-105 | update keeps that invariant |
| `Bolt.DeletePreservesInv` | pkg/bolt/service.go:107-119 | delete keeps that invariant |
| `Bolt.ApplyPreservesInv` | pkg/bolt/service.go:35-119 | any single service call keeps that invariant |
| `Bolt.ExecPreservesInv` | pkg/bolt/service.go:35-119 | any sequence of service calls keeps that invariant |
| `Bolt.Reachable` | pkg/bolt/service.go:35-119 | every store reached from empty partitions satisfies the invariant |
| `Bolt.NewFailsIffVisible` | pkg/bolt/service.go:48-51 | creation fails exactly when `Get` on the key would succeed |
| `Bolt.NewThenGet` | pkg/bolt/service.go:48-60 | after a successful creation `Get` returns the fresh question and every other key reads as before |
| `Bolt.UpdateAgreesWithGet` | pkg/bolt/service.go:86-105 | on a reachable store update fails iff `Get` fails, with the same error and no write; on success `Get` returns the snapshot with the new value, one more `QuestionUpdate(key, value)` and the next version; other keys read as before |
| `Bolt.DeleteHides` | pkg/bolt/service.go:107-119 | on a reachable store delete fails iff `Get` fails; on success the snapshot stays unchanged, not deleted and with no deletion event, and the key reads "question deleted" if the id is non-empty and stays readable if it is empty; other keys read as before |
| `Bolt.SecondDeleteFails` | pkg/bolt/service.go:107-119 | deleting a key again after deleting it with a non-empty id fails with "question deleted" |
| `Bolt.RecreateAfterDelete` | pkg/bolt/service.go:48-55 | after a delete with a non-empty id the key can be created again, and `Get` returns the fresh one-event question with version 0 |
| `Bolt.ListAgreesWithGet` | pkg/bolt/service.go:121-141 | on a reachable store the list holds exactly what `Get` returns for the visible keys, once each, in strictly ascending key order |
| `Scenarios.CreateThenDuplicate` | pkg/bolt/service_test.go:65-97 | creating "new_key" returns the fresh question; creating it again fails with "key already exist" and writes nothing |
| `Scenarios.UpdateOutcomes` | pkg/bolt/service_test.go:194-266 | updating a fresh question gives version 1 and the history [addition, update]; updating a key never created fails with "question not found" |
| `Scenarios.DeleteOutcomes` | pkg/bolt/service_test.go:355-376 | the first delete succeeds, deleting an unknown key fails, and the second delete of the same key fails |
| `Scenarios.ListOrder` | pkg/bolt/service_test.go:411-449 | after creating "name" and "last_name" the list is the "last_name" question, then the "name" question |
| `Scenarios.RebuildFromFourEvents` | pkg/model/model_test.go:83-128 | rebuilding from an addition, two updates and a deletion gives "other value", deleted and version 4 |
| `Scenarios.HistoryNames` | pkg/model/model.go:38-66 | create "x", update to "y", delete: the log holds the three events in order, named "add", "update", "delete" |

## Left out

- Snapshot encoding. Snapshots are stored with gob encoding, and the model
  treats encoding and decoding as the identity. Decode failures are
  therefore not modelled. A live entry counts as present exactly when the
  key is in the live map, since an encoded question is never empty.
- Engine plumbing. `NewService` creates the two buckets, and every operation
  checks that the buckets exist and opens its own transactions. The model
  starts from two empty maps, so the missing-bucket errors cannot happen.
  Engine I/O and lock failures are not modelled either.
- Bolt.New: requires a non-empty key, and does not model the engine's
  maximum key size. The engine refuses to store an empty key, and refuses
  keys longer than 32768 bytes (`ErrKeyTooLarge`), which makes `New` fail
  at `pkg/bolt/service.go:52`. Both rules live in the engine, not in the
  modelled code, so the model's `New` succeeds on an over-long key.
- Bolt.NewFailsIffVisible: holds only for keys of at most 32768 bytes in
  the source, because the engine's key-size refusal is not modelled.
- Concurrency. `Update` and `Delete` read through `Get` in one transaction
  and write in another. Each is modelled as one sequential step, and
  interleavings with other calls are not modelled.
- `service.History` (`pkg/bolt/service.go:144-163`). It reads a bucket named
  after the key, and no write path ever creates that bucket. The log inside
  the snapshot (`Model.Events`) is the history that is modelled.
- The newest-first history view of the HTTP handler. It only reverses the
  log.
- Pointer events. Events are modelled as values, which is how they are
  registered for decoding. A pointer event would match no case of `On`'s
  type switch and would only bump the version; that behaviour is not
  reproduced.
- `pkg/utils/utils.go`. Identifier rendering (base32 "extended hex",
  section 7 of RFC 4648) and database opening are left out. The global
  identifier generator is replaced by an `id` parameter of `Bolt.New`.
- The HTTP layer, process start-up, logging and error wrapping
  (`derrors.WrapStack`). Errors are the enum `Types.Error`.
- Model.On: `Version` is a Go `int`; the model uses an unbounded `nat` and
  does not model 64-bit wrap-around, which needs 2^63 events.
- Keys holding invalid UTF-8. Go strings may hold arbitrary bytes, but the
  model's keys are strings of Unicode scalar values.

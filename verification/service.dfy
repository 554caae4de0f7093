/** The storage service: questions kept in two partitions of an embedded
    key-value engine, a live partition of question snapshots and a
    tombstone partition of identifiers. Deleting only writes a tombstone;
    a key is visible while it has a snapshot and no non-empty tombstone.
    Each operation is one sequential step on the pair of partitions. */
module Bolt {
  import opened Types
  import opened QuestionEvents
  import opened KeyOrder
  import Model

  /** The two partitions; both start empty. */
  datatype Store = Store(live: map<Key, Model.Question>, tomb: map<Key, ID>)

  const Empty: Store := Store(map[], map[])

  /** The partitions after an operation, and what the operation returned. */
  datatype Reply<T> = Reply(store: Store, result: Result<T>)

  /** `k` carries a tombstone that hides it: an empty stored identifier
      does not count. */
  predicate Tombstoned(st: Store, k: Key) {
    k in st.tomb && |st.tomb[k]| > 0
  }

  /** `k` can be read, updated, deleted and listed. */
  predicate Visible(st: Store, k: Key) {
    !Tombstoned(st, k) && k in st.live
  }

  /** Creates the question `Model.New(id, key, value)` under `key`, unless
      `key` is visible already. On success the snapshot replaces whatever
      was stored under `key` and the tombstone of `key` is dropped; on
      failure nothing is written. The engine refuses empty keys. */
  function New(st: Store, id: ID, key: Key, value: Value): (r: Reply<Model.Question>)
    requires |key| > 0
    ensures r.result.Failure? <==> Visible(st, key)
    ensures r.result.Failure? ==> r.result.error == KeyAlreadyExist && r.store == st
    ensures r.result.Success? ==> && r.result.value == Model.New(id, key, value)
                                  && r.store.live == st.live[key := Model.New(id, key, value)]
                                  && r.store.tomb == st.tomb - {key}
  {
    if key in st.live && !Tombstoned(st, key) then
      Reply(st, Failure(KeyAlreadyExist))
    else
      var q := Model.New(id, key, value);
      Reply(Store(st.live[key := q], st.tomb - {key}), Success(q))
  }

  /** Reads the snapshot under `key`: a non-empty tombstone is checked
      first, then the live partition. */
  function Get(st: Store, key: Key): (r: Result<Model.Question>)
    ensures r.Success? <==> Visible(st, key)
    ensures r.Success? ==> r.value == st.live[key]
    ensures Tombstoned(st, key) ==> r == Failure(QuestionDeleted)
    ensures !Tombstoned(st, key) && key !in st.live ==> r == Failure(QuestionNotFound)
  {
    if Tombstoned(st, key) then Failure(QuestionDeleted)
    else if key !in st.live then Failure(QuestionNotFound)
    else Success(st.live[key])
  }

  /** Reads `key` as `Get` does, changes the value of the snapshot through
      the aggregate and writes it back under `key`. The tombstone partition
      is never written. */
  function Update(st: Store, key: Key, value: Value): (r: Reply<()>)
    ensures r.store.tomb == st.tomb
    ensures Get(st, key).Failure? ==> r == Reply(st, Failure(Get(st, key).error))
    ensures r.result.Failure? ==> r.store == st
    ensures Get(st, key).Success? ==> (r.result.Success? <==> !Get(st, key).value.deleted)
    ensures Get(st, key).Success? && Get(st, key).value.deleted ==> r == Reply(st, Failure(QuestionDeleted))
    ensures r.result.Success? ==> && Visible(st, key)
                                  && var q := st.live[key];
                                     && !q.deleted
                                     && r.store.live == st.live[key := q.(value := value,
                                                                          history := q.history + [QuestionUpdate(q.key, value)],
                                                                          version := q.version + 1)]
  {
    match Get(st, key)
    case Failure(e) => Reply(st, Failure(e))
    case Success(q) =>
      match Model.Update(q, value)
      case Failure(e) => Reply(st, Failure(e))
      case Success(updated) => Reply(st.(live := st.live[key := updated]), Success(()))
  }

  /** Reads `key` as `Get` does and writes the identifier of the snapshot
      as tombstone under the snapshot's own key. The live partition is
      never written, so the snapshot stays as it was. */
  function Delete(st: Store, key: Key): (r: Reply<()>)
    ensures r.store.live == st.live
    ensures r.result.Failure? <==> Get(st, key).Failure?
    ensures r.result.Failure? ==> r == Reply(st, Failure(Get(st, key).error))
    ensures r.result.Success? ==> var q := st.live[key];
                                  r.store.tomb == st.tomb[q.key := q.id]
  {
    match Get(st, key)
    case Failure(e) => Reply(st, Failure(e))
    case Success(q) => Reply(st.(tomb := st.tomb[q.key := q.id]), Success(()))
  }

  /** The keys `List` visits and keeps, in cursor order. */
  function ListedKeys(st: Store): (ks: seq<Key>)
    ensures StrictlySorted(ks)
    ensures forall k :: k in ks <==> Visible(st, k)
  {
    SortedKeys(set k | k in st.live && !Tombstoned(st, k))
  }

  /** The visible snapshots in ascending key order. */
  function List(st: Store): (l: seq<Model.Question>)
    ensures |l| == |ListedKeys(st)|
    ensures forall i | 0 <= i < |l| :: Visible(st, ListedKeys(st)[i]) && l[i] == st.live[ListedKeys(st)[i]]
  {
    var ks := ListedKeys(st);
    assert forall i | 0 <= i < |ks| :: ks[i] in ks;
    seq(|ks|, i requires 0 <= i < |ks| => st.live[ks[i]])
  }

  // ---------------------------------------------------------------------
  // Invariant of reachable stores

  /** Every snapshot is stored under its own non-empty key, is not marked
      deleted and has the shape of a question built by `Model.New` and
      updates; tombstones only exist for keys that have a snapshot. */
  ghost predicate Inv(st: Store) {
    && (forall k | k in st.live ::
          && |k| > 0
          && st.live[k].key == k
          && !st.live[k].deleted
          && Model.WellFormed(st.live[k]))
    && st.tomb.Keys <= st.live.Keys
  }

  lemma EmptyInv()
    ensures Inv(Empty)
  {
  }

  lemma NewPreservesInv(st: Store, id: ID, key: Key, value: Value)
    requires Inv(st) && |key| > 0
    ensures Inv(New(st, id, key, value).store)
  {
    Model.NewIsWellFormed(id, key, value);
  }

  lemma UpdatePreservesInv(st: Store, key: Key, value: Value)
    requires Inv(st)
    ensures Inv(Update(st, key, value).store)
  {
    if Update(st, key, value).result.Success? {
      Model.StepPreservesWellFormed(st.live[key], Model.SetValue(value));
    }
  }

  lemma DeletePreservesInv(st: Store, key: Key)
    requires Inv(st)
    ensures Inv(Delete(st, key).store)
  {
  }

  /** A call a client makes on the service. */
  datatype Call =
    | NewCall(id: ID, key: Key, value: Value)
    | UpdateCall(key: Key, value: Value)
    | DeleteCall(key: Key)

  /** The engine refuses to create a question under the empty key. */
  predicate Admissible(c: Call) {
    c.NewCall? ==> |c.key| > 0
  }

  /** The partitions after one call, successful or not. */
  function Apply(st: Store, c: Call): Store
    requires Admissible(c)
  {
    match c
    case NewCall(id, k, v) => New(st, id, k, v).store
    case UpdateCall(k, v) => Update(st, k, v).store
    case DeleteCall(k) => Delete(st, k).store
  }

  /** The partitions after a sequence of calls, oldest first. */
  function Exec(st: Store, calls: seq<Call>): Store
    requires forall i | 0 <= i < |calls| :: Admissible(calls[i])
    decreases |calls|
  {
    if |calls| == 0 then st else Exec(Apply(st, calls[0]), calls[1..])
  }

  /** One call keeps the invariant. */
  lemma ApplyPreservesInv(st: Store, c: Call)
    requires Inv(st) && Admissible(c)
    ensures Inv(Apply(st, c))
  {
    match c
    case NewCall(id, k, v) => NewPreservesInv(st, id, k, v);
    case UpdateCall(k, v) => UpdatePreservesInv(st, k, v);
    case DeleteCall(k) => DeletePreservesInv(st, k);
  }

  /** Every sequence of calls keeps the invariant. */
  lemma {:induction false} ExecPreservesInv(st: Store, calls: seq<Call>)
    requires Inv(st)
    requires forall i | 0 <= i < |calls| :: Admissible(calls[i])
    decreases |calls|
    ensures Inv(Exec(st, calls))
  {
    if |calls| > 0 {
      var next := Apply(st, calls[0]);
      ApplyPreservesInv(st, calls[0]);
      assert Exec(st, calls) == Exec(next, calls[1..]);
      ExecPreservesInv(next, calls[1..]);
    }
  }

  /** Every store reached from the empty partitions satisfies `Inv`: in
      particular every stored snapshot is active, has version
      |history| - 1 and carries only events of its own key. */
  lemma Reachable(calls: seq<Call>)
    requires forall i | 0 <= i < |calls| :: Admissible(calls[i])
    ensures Inv(Exec(Empty, calls))
  {
    EmptyInv();
    ExecPreservesInv(Empty, calls);
  }

  // ---------------------------------------------------------------------
  // Observable behaviour

  /** `New` fails exactly when `Get` would succeed. */
  lemma NewFailsIffVisible(st: Store, id: ID, key: Key, value: Value)
    requires |key| > 0
    ensures New(st, id, key, value).result.Failure? <==> Get(st, key).Success?
  {
  }

  /** After a successful `New`, `Get` returns the fresh question and every
      other key reads as before. */
  lemma NewThenGet(st: Store, id: ID, key: Key, value: Value)
    requires |key| > 0 && !Visible(st, key)
    ensures var r := New(st, id, key, value);
      && r.result == Success(Model.New(id, key, value))
      && Get(r.store, key) == Success(Model.New(id, key, value))
      && forall k | k != key :: Get(r.store, k) == Get(st, k)
  {
  }

  /** On a reachable store `Update` fails exactly when `Get` fails, with the
      same error; on success `Get` returns the snapshot with the new value,
      one more update event of that key and the next version, and every
      other key reads as before. */
  lemma UpdateAgreesWithGet(st: Store, key: Key, value: Value)
    requires Inv(st)
    ensures var r := Update(st, key, value);
      && (r.result.Failure? <==> Get(st, key).Failure?)
      && (r.result.Failure? ==> r.result.error == Get(st, key).error && r.store == st)
      && (r.result.Success? ==>
            var q := Get(st, key).value;
            && Get(r.store, key) == Success(q.(value := value,
                                               history := q.history + [QuestionUpdate(key, value)],
                                               version := q.version + 1))
            && forall k | k != key :: Get(r.store, k) == Get(st, k))
  {
  }

  /** On a reachable store `Delete` fails exactly when `Get` fails. On
      success the snapshot stays in the live partition unchanged: still not
      deleted, with no deletion event. The key then reads as deleted if the
      snapshot's identifier is non-empty, and is still readable otherwise;
      every other key reads as before. */
  lemma DeleteHides(st: Store, key: Key)
    requires Inv(st)
    ensures var r := Delete(st, key);
      && (r.result.Failure? <==> Get(st, key).Failure?)
      && (r.result.Success? ==>
            var q := st.live[key];
            && r.store.live[key] == q
            && !q.deleted
            && (forall j | 0 <= j < |q.history| :: !q.history[j].QuestionDelete?)
            && Get(r.store, key) == (if |q.id| > 0 then Failure(QuestionDeleted) else Success(q))
            && forall k | k != key :: Get(r.store, k) == Get(st, k))
  {
    var r := Delete(st, key);
    if r.result.Success? {
      var q := st.live[key];
      Model.ReplayDeleted(q.history);
      assert !Model.Replay(q.history).deleted;
    }
  }

  /** Deleting a key whose snapshot has a non-empty identifier twice: the
      second call fails. */
  lemma SecondDeleteFails(st: Store, key: Key)
    requires Inv(st)
    requires Delete(st, key).result.Success? && |st.live[key].id| > 0
    ensures Delete(Delete(st, key).store, key).result == Failure(QuestionDeleted)
  {
  }

  /** A key deleted with a non-empty identifier can be created again; the
      new question is fresh: one event, version 0. */
  lemma RecreateAfterDelete(st: Store, key: Key, id: ID, value: Value)
    requires Inv(st) && |key| > 0
    requires Delete(st, key).result.Success? && |st.live[key].id| > 0
    ensures var r := New(Delete(st, key).store, id, key, value);
      && r.result == Success(Model.New(id, key, value))
      && Get(r.store, key) == Success(Model.New(id, key, value))
      && Get(r.store, key).value.version == 0
      && |Get(r.store, key).value.history| == 1
  {
  }

  /** On a reachable store `List` returns exactly what `Get` returns for the
      visible keys, once each, in ascending key order. */
  lemma ListAgreesWithGet(st: Store)
    requires Inv(st)
    ensures var l := List(st);
      && (forall i, j | 0 <= i < j < |l| :: Below(l[i].key, l[j].key))
      && (forall i | 0 <= i < |l| :: Get(st, l[i].key) == Success(l[i]))
      && (forall k | Get(st, k).Success? :: Get(st, k).value in l)
  {
  }
}

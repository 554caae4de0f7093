/** The concrete outcomes the repository's tests expect, stated over the
    model. The identifier generator is a parameter: the tests install one
    that always returns the same non-empty identifier. */
module Scenarios {
  import opened Types
  import opened QuestionEvents
  import opened KeyOrder
  import Model
  import Bolt

  /** Creating "new_key" stores the fresh question; creating it again fails
      and writes nothing. */
  lemma CreateThenDuplicate(id: ID)
    ensures var r1 := Bolt.New(Bolt.Empty, id, "new_key", "new_value");
      && r1.result == Success(Model.Question(id, "new_key", "new_value", false,
                                             [QuestionAdded(id, "new_key", "new_value")], 0))
      && var r2 := Bolt.New(r1.store, id, "new_key", "any value");
         r2 == Bolt.Reply(r1.store, Failure(KeyAlreadyExist))
  {
  }

  /** Updating a fresh question gives version 1 and a two-event history;
      updating a key that was never created fails with "not found". */
  lemma UpdateOutcomes(id: ID)
    ensures var st := Bolt.New(Bolt.Empty, id, "new_key", "new value").store;
      var r := Bolt.Update(st, "new_key", "updated value");
      && r.result.Success?
      && Bolt.Get(r.store, "new_key") == Success(Model.Question(id, "new_key", "updated value", false,
                                                 [QuestionAdded(id, "new_key", "new value"),
                                                  QuestionUpdate("new_key", "updated value")], 1))
      && Bolt.Update(st, "not_found_key", "updated value") == Bolt.Reply(st, Failure(QuestionNotFound))
  {
    var st := Bolt.New(Bolt.Empty, id, "new_key", "new value").store;
    assert "not_found_key" != "new_key";
    assert Bolt.Get(st, "not_found_key") == Failure(QuestionNotFound);
    assert Bolt.Get(st, "new_key") == Success(Model.New(id, "new_key", "new value"));
    var r := Bolt.Update(st, "new_key", "updated value");
    assert r.result.Success?;
    assert r.store.tomb == map[];
    var q := Model.New(id, "new_key", "new value");
    assert r.store.live["new_key"] == q.(value := "updated value", history := q.history + [QuestionUpdate("new_key", "updated value")], version := 1);
    assert q.history + [QuestionUpdate("new_key", "updated value")]
        == [QuestionAdded(id, "new_key", "new value"), QuestionUpdate("new_key", "updated value")];
    assert Bolt.Visible(r.store, "new_key");
  }

  /** Deleting a fresh question succeeds; deleting an unknown key fails;
      deleting the same key again fails. */
  lemma DeleteOutcomes(id: ID)
    requires |id| > 0
    ensures var st := Bolt.New(Bolt.Empty, id, "new_key", "new value").store;
      var r := Bolt.Delete(st, "new_key");
      && r.result.Success?
      && Bolt.Delete(r.store, "not found key").result == Failure(QuestionNotFound)
      && Bolt.Delete(r.store, "new_key").result == Failure(QuestionDeleted)
  {
  }

  /** Listing after creating "name" and "last_name" returns "last_name"
      first. */
  lemma ListOrder(id: ID)
    ensures var st1 := Bolt.New(Bolt.Empty, id, "name", "John").store;
      var st2 := Bolt.New(st1, id, "last_name", "Doe").store;
      Bolt.List(st2) == [Model.New(id, "last_name", "Doe"), Model.New(id, "name", "John")]
  {
    var st1 := Bolt.New(Bolt.Empty, id, "name", "John").store;
    var st2 := Bolt.New(st1, id, "last_name", "Doe").store;
    var ks := Bolt.ListedKeys(st2);
    assert Below("last_name", "name");
    assert "name" in ks && "last_name" in ks;
    assert |ks| == 2 by {
      assert (set k | k in st2.live && !Bolt.Tombstoned(st2, k)) == {"name", "last_name"};
    }
    assert ks == ["last_name", "name"];
  }

  /** Rebuilding from an addition, two updates and a deletion gives the
      last value, the deleted flag and version 4. */
  lemma RebuildFromFourEvents(id: ID)
    ensures var evs := [QuestionAdded(id, "new_key", "new value"),
                        QuestionUpdate("new_key", "new value"),
                        QuestionUpdate("new_key", "other value"),
                        QuestionDelete("new_key")];
      Model.NewFromEvents(evs) == Model.Question(id, "new_key", "other value", true, evs, 4)
  {
    var evs := [QuestionAdded(id, "new_key", "new value"),
                QuestionUpdate("new_key", "new value"),
                QuestionUpdate("new_key", "other value"),
                QuestionDelete("new_key")];
    assert Model.IsLastSetter(evs, 2);
    assert Model.IsLastAdded(evs, 0);
    assert evs[3].QuestionDelete?;
  }

  /** Creating with "x", updating to "y" and deleting records three events
      in order, named "add", "update" and "delete". */
  lemma HistoryNames(id: ID, key: Key)
    ensures var q := Model.Run(Model.New(id, key, "x"), [Model.SetValue("y"), Model.Remove]);
      && Model.Events(q) == [QuestionAdded(id, key, "x"), QuestionUpdate(key, "y"), QuestionDelete(key)]
      && Name(Model.Events(q)[0]) == "add"
      && Name(Model.Events(q)[1]) == "update"
      && Name(Model.Events(q)[2]) == "delete"
  {
  }
}

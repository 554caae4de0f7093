/** The event-sourced question aggregate: creation, replay and the two
    guarded mutations, each of which appends exactly one event. */
module Model {
  import opened Types
  import opened QuestionEvents

  /** A question; `history` is oldest first. */
  datatype Question = Question(
    id: ID,
    key: Key,
    value: Value,
    deleted: bool,
    history: seq<Event>,
    version: nat)

  /** The zero value a replay starts from. */
  const Zero: Question := Question([], "", "", false, [], 0)

  /** Applies one event. The version moves on every event except an
      addition applied with `isNew` set; updates and deletions always
      count, whatever `isNew` says. The history is not touched. */
  function On(q: Question, ev: Event, isNew: bool): (r: Question)
    ensures r.history == q.history
    ensures r.version == if isNew && ev.QuestionAdded? then q.version else q.version + 1
    ensures ev.QuestionAdded? ==> r.id == ev.id && r.key == ev.key && r.value == ev.value && r.deleted == q.deleted
    ensures ev.QuestionUpdate? ==> r.id == q.id && r.key == q.key && r.value == ev.newValue && r.deleted == q.deleted
    ensures ev.QuestionDelete? ==> r.id == q.id && r.key == q.key && r.value == q.value && r.deleted
  {
    var applied := match ev
      case QuestionAdded(id, k, v) => q.(id := id, key := k, value := v)
      case QuestionUpdate(_, v) => q.(value := v)
      case QuestionDelete(_) => q.(deleted := true);
    if isNew && ev.QuestionAdded? then applied else applied.(version := applied.version + 1)
  }

  /** Records a freshly produced event and applies it as new. */
  function Raise(q: Question, ev: Event): (r: Question)
    ensures r.history == q.history + [ev]
    ensures r.(history := q.history) == On(q, ev, true)
    ensures ev.QuestionAdded? ==> r.version == q.version
    ensures !ev.QuestionAdded? ==> r.version == q.version + 1
  {
    On(q.(history := q.history + [ev]), ev, true)
  }

  /** Creates a question; the creation event is not counted as a version. */
  function New(id: ID, key: Key, value: Value): (r: Question)
    ensures r.id == id && r.key == key && r.value == value && !r.deleted
    ensures r.history == [QuestionAdded(id, key, value)]
    ensures r.version == 0
  {
    Raise(Question(id, key, value, false, [], 0), QuestionAdded(id, key, value))
  }

  /** Changes the value of a question that is not deleted. */
  function Update(q: Question, value: Value): (r: Result<Question>)
    ensures r.Failure? <==> q.deleted
    ensures r.Failure? ==> r.error == QuestionDeleted
    ensures r.Success? ==> r.value == q.(value := value,
                                         history := q.history + [QuestionUpdate(q.key, value)],
                                         version := q.version + 1)
  {
    if q.deleted then Failure(QuestionDeleted)
    else Success(Raise(q, QuestionUpdate(q.key, value)).(value := value))
  }

  /** Marks a question that is not yet deleted as deleted. */
  function Delete(q: Question): (r: Result<Question>)
    ensures r.Failure? <==> q.deleted
    ensures r.Failure? ==> r.error == QuestionDeleted
    ensures r.Success? ==> r.value == q.(deleted := true,
                                         history := q.history + [QuestionDelete(q.key)],
                                         version := q.version + 1)
  {
    if q.deleted then Failure(QuestionDeleted)
    else Success(Raise(q.(deleted := true), QuestionDelete(q.key)))
  }

  /** The full event log, oldest first. */
  function Events(q: Question): (r: seq<Event>)
    ensures r == q.history
  {
    q.history
  }

  // ---------------------------------------------------------------------
  // Replay

  /** Events that set the value of a question. */
  predicate SetsValue(e: Event) {
    e.QuestionAdded? || e.QuestionUpdate?
  }

  /** The value a value-setting event sets. */
  function ValueSet(e: Event): Value
    requires SetsValue(e)
  {
    if e.QuestionAdded? then e.value else e.newValue
  }

  /** `j` is the position of the last value-setting event in `evs`. */
  predicate IsLastSetter(evs: seq<Event>, j: int) {
    && 0 <= j < |evs|
    && SetsValue(evs[j])
    && forall m | j < m < |evs| :: !SetsValue(evs[m])
  }

  /** `j` is the position of the last addition in `evs`. */
  predicate IsLastAdded(evs: seq<Event>, j: int) {
    && 0 <= j < |evs|
    && evs[j].QuestionAdded?
    && forall m | j < m < |evs| :: !evs[m].QuestionAdded?
  }

  /** Folds `evs`, oldest first, over the zero question, applying every
      event as a replayed one (not new), so that every event counts. */
  function Replay(evs: seq<Event>): (r: Question)
    decreases |evs|
    ensures r.history == []
    ensures r.version == |evs|
  {
    if |evs| == 0 then Zero
    else On(Replay(evs[..|evs| - 1]), evs[|evs| - 1], false)
  }

  /** Replaying a history appended to itself counts every event twice. */
  lemma ReplayTwiceDoublesVersion(evs: seq<Event>)
    ensures Replay(evs + evs).version == 2 * |evs|
  {
  }

  /** A replayed question is deleted exactly when some event deletes it. */
  lemma {:induction false} ReplayDeleted(evs: seq<Event>)
    decreases |evs|
    ensures Replay(evs).deleted <==> exists j | 0 <= j < |evs| :: evs[j].QuestionDelete?
  {
    if |evs| > 0 {
      var prefix := evs[..|evs| - 1];
      ReplayDeleted(prefix);
      assert forall j | 0 <= j < |prefix| :: prefix[j] == evs[j];
      if evs[|evs| - 1].QuestionDelete? {
        assert exists j | 0 <= j < |evs| :: evs[j].QuestionDelete?;
      }
    }
  }

  /** A replayed question holds the value of the last addition or update,
      and the empty value when there is none. */
  lemma {:induction false} ReplayValue(evs: seq<Event>)
    decreases |evs|
    ensures (forall j | 0 <= j < |evs| :: !SetsValue(evs[j])) ==> Replay(evs).value == ""
    ensures forall j | IsLastSetter(evs, j) :: Replay(evs).value == ValueSet(evs[j])
  {
    if |evs| > 0 {
      var n := |evs| - 1;
      var prefix := evs[..n];
      var last := evs[n];
      var before := Replay(prefix);
      assert Replay(evs) == On(before, last, false);
      if SetsValue(last) {
        assert Replay(evs).value == ValueSet(last);
        forall j | IsLastSetter(evs, j)
          ensures j == n
        {
        }
      } else {
        assert Replay(evs).value == before.value;
        ReplayValue(prefix);
        forall j | IsLastSetter(evs, j)
          ensures IsLastSetter(prefix, j)
        {
        }
        if forall j | 0 <= j < |evs| :: !SetsValue(evs[j]) {
          assert forall j | 0 <= j < |prefix| :: !SetsValue(prefix[j]);
        }
      }
    }
  }

  /** A replayed question takes its identifier and key from the last
      addition, and keeps the empty ones when there is none. */
  lemma {:induction false} ReplayIdentity(evs: seq<Event>)
    decreases |evs|
    ensures (forall j | 0 <= j < |evs| :: !evs[j].QuestionAdded?) ==> Replay(evs).id == [] && Replay(evs).key == ""
    ensures forall j | IsLastAdded(evs, j) :: Replay(evs).id == evs[j].id && Replay(evs).key == evs[j].key
  {
    if |evs| > 0 {
      var prefix := evs[..|evs| - 1];
      var last := evs[|evs| - 1];
      ReplayIdentity(prefix);
      assert forall j | 0 <= j < |prefix| :: prefix[j] == evs[j];
      if !last.QuestionAdded? {
        forall j | IsLastAdded(evs, j)
          ensures Replay(evs).id == evs[j].id && Replay(evs).key == evs[j].key
        {
          assert IsLastAdded(prefix, j);
        }
      }
    }
  }

  /** Rebuilds a question from its events: the history is the input, every
      event (the addition included) counts as a version, the value comes
      from the last addition or update, identifier and key from the last
      addition, and the question is deleted iff some event deletes it. */
  function NewFromEvents(evs: seq<Event>): (r: Question)
    ensures r.history == evs
    ensures r.version == |evs|
    ensures r.deleted <==> exists j | 0 <= j < |evs| :: evs[j].QuestionDelete?
    ensures (forall j | 0 <= j < |evs| :: !SetsValue(evs[j])) ==> r.value == ""
    ensures forall j | IsLastSetter(evs, j) :: r.value == ValueSet(evs[j])
    ensures (forall j | 0 <= j < |evs| :: !evs[j].QuestionAdded?) ==> r.id == [] && r.key == ""
    ensures forall j | IsLastAdded(evs, j) :: r.id == evs[j].id && r.key == evs[j].key
  {
    ReplayDeleted(evs);
    ReplayValue(evs);
    ReplayIdentity(evs);
    Replay(evs).(history := evs)
  }

  // ---------------------------------------------------------------------
  // Lifecycle

  /** What a question built by `New` and later mutations looks like: the
      first event is the addition that fixed its identifier and key, every
      later event is an update or deletion of that key, the version counts
      the events after the first, and replaying the history gives back the
      same question with the addition counted as one more version. */
  ghost predicate WellFormed(q: Question) {
    && |q.history| >= 1
    && q.history[0].QuestionAdded?
    && q.history[0].id == q.id
    && q.history[0].key == q.key
    && q.version == |q.history| - 1
    && (forall j | 1 <= j < |q.history| :: !q.history[j].QuestionAdded? && q.history[j].key == q.key)
    && Replay(q.history) == q.(history := [], version := q.version + 1)
  }

  /** A call a client makes on a question it holds. */
  datatype Command = SetValue(value: Value) | Remove

  /** The question a caller holds after one call: the mutated question on
      success, the unchanged one on error. */
  function Step(q: Question, c: Command): (r: Question)
    ensures q.deleted ==> r == q
    ensures !q.deleted ==> |r.history| == |q.history| + 1 && r.version == q.version + 1
    ensures r.id == q.id && r.key == q.key
    ensures !q.deleted && c.SetValue? ==> r == q.(value := c.value,
                                                  history := q.history + [QuestionUpdate(q.key, c.value)],
                                                  version := q.version + 1)
    ensures !q.deleted && c.Remove? ==> r == q.(deleted := true,
                                                history := q.history + [QuestionDelete(q.key)],
                                                version := q.version + 1)
  {
    var res := match c
      case SetValue(v) => Update(q, v)
      case Remove => Delete(q);
    match res
    case Success(next) => next
    case Failure(_) => q
  }

  /** The question after a sequence of calls, oldest first. */
  function Run(q: Question, cmds: seq<Command>): (r: Question)
    decreases |cmds|
    ensures |r.history| >= |q.history|
    ensures r.id == q.id && r.key == q.key
  {
    if |cmds| == 0 then q else Run(Step(q, cmds[0]), cmds[1..])
  }

  /** `New` establishes the shape. */
  lemma NewIsWellFormed(id: ID, key: Key, value: Value)
    ensures WellFormed(New(id, key, value))
  {
  }

  /** One call keeps the shape, whether it succeeds or not. */
  lemma StepPreservesWellFormed(q: Question, c: Command)
    requires WellFormed(q)
    ensures WellFormed(Step(q, c))
  {
  }

  /** Any sequence of calls keeps the shape. */
  lemma {:induction false} RunPreservesWellFormed(q: Question, cmds: seq<Command>)
    requires WellFormed(q)
    decreases |cmds|
    ensures WellFormed(Run(q, cmds))
  {
    if |cmds| > 0 {
      StepPreservesWellFormed(q, cmds[0]);
      RunPreservesWellFormed(Step(q, cmds[0]), cmds[1..]);
    }
  }

  /** Deleted is terminal: once a question is deleted, no call changes it. */
  lemma {:induction false} DeletedIsAbsorbing(q: Question, cmds: seq<Command>)
    requires q.deleted
    decreases |cmds|
    ensures Run(q, cmds) == q
  {
    if |cmds| > 0 {
      DeletedIsAbsorbing(Step(q, cmds[0]), cmds[1..]);
    }
  }

  /** A question built by `New` and any calls: its version is the number of
      events after the addition, the addition carries its identifier, key
      and first value, every later event carries the same key, and
      rebuilding it from its events reproduces it, except that the rebuilt
      version is one higher. */
  lemma BuiltQuestion(id: ID, key: Key, value: Value, cmds: seq<Command>)
    ensures var q := Run(New(id, key, value), cmds);
      && q.version == |q.history| - 1
      && q.history[0] == QuestionAdded(id, key, value)
      && (forall j | 1 <= j < |q.history| :: q.history[j].key == key)
      && NewFromEvents(Events(q)) == q.(version := q.version + 1)
  {
    var q0 := New(id, key, value);
    NewIsWellFormed(id, key, value);
    RunPreservesWellFormed(q0, cmds);
    var q := Run(q0, cmds);
    RunKeepsPrefix(q0, cmds);
    assert q.history[0] == q0.history[0];
  }

  /** Calls only append to the history. */
  lemma {:induction false} RunKeepsPrefix(q: Question, cmds: seq<Command>)
    decreases |cmds|
    ensures Run(q, cmds).history[..|q.history|] == q.history
  {
    if |cmds| > 0 {
      var q1 := Step(q, cmds[0]);
      RunKeepsPrefix(q1, cmds[1..]);
      assert q1.history[..|q.history|] == q.history;
    }
  }

  /** The version rule differs between creation and rebuilding: a freshly
      created question has version 0, the same question rebuilt from its
      one-event history has version 1. */
  lemma CreationVersionDiffers(id: ID, key: Key, value: Value)
    ensures New(id, key, value).version == 0
    ensures NewFromEvents(Events(New(id, key, value))).version == 1
    ensures NewFromEvents(Events(New(id, key, value))) == New(id, key, value).(version := 1)
  {
  }
}

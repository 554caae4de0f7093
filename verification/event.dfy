/** The closed set of lifecycle events of a question and their two
    renderings: a short name and a projected key/value record. */
module QuestionEvents {
  import opened Types

  datatype Event =
    | QuestionAdded(id: ID, key: Key, value: Value)
    | QuestionUpdate(key: Key, newValue: Value)
    | QuestionDelete(key: Key)

  /** The key/value projection of an event (`model.Data`). */
  datatype Data = Data(key: string, value: string)

  /** The short name of an event; it tells the three variants apart. */
  function Name(e: Event): (s: string)
    ensures e.QuestionAdded? <==> s == "add"
    ensures e.QuestionUpdate? <==> s == "update"
    ensures e.QuestionDelete? <==> s == "delete"
  {
    match e
    case QuestionAdded(_, _, _) => "add"
    case QuestionUpdate(_, _) => "update"
    case QuestionDelete(_) => "delete"
  }

  /** The projection of an event: its key, and the value it carries
      (none for a deletion). The identifier of an addition is dropped. */
  function DataOf(e: Event): (d: Data)
    ensures d.key == e.key
    ensures e.QuestionAdded? ==> d.value == e.value
    ensures e.QuestionUpdate? ==> d.value == e.newValue
    ensures e.QuestionDelete? ==> d.value == ""
  {
    match e
    case QuestionAdded(_, k, v) => Data(k, v)
    case QuestionUpdate(k, v) => Data(k, v)
    case QuestionDelete(k) => Data(k, "")
  }

  /** Name and projection together identify an event, except for the
      identifier of an addition, which the projection leaves out. */
  lemma RenderingDeterminesEvent(e1: Event, e2: Event)
    ensures (Name(e1) == Name(e2) && DataOf(e1) == DataOf(e2))
        <==> (e1 == e2 || (e1.QuestionAdded? && e2.QuestionAdded? && e1.key == e2.key && e1.value == e2.value))
  {
  }
}

/**
 * The local store behind `getTasks`/`setTasks`: one key, "tasks", holding the
 * serialized array. The serializer itself is not modelled; a stored value is
 * either absent, a saved collection, or text that does not parse.
 */
module Storage {
  import opened Wrappers
  import opened Tasks

  datatype Stored = Absent | Saved(tasks: seq<Task>) | Unparsable

  datatype LoadError = MalformedJson

  /**
   * `getTasks`: only a missing key reads as the empty collection; a value that
   * does not parse makes the read fail (the exception of `JSON.parse`).
   */
  function GetTasks(s: Stored): (r: Result<seq<Task>, LoadError>)
    ensures r.Failure? <==> s.Unparsable?
    ensures r == Success([]) <==> s == Absent || s == Saved([])
    ensures forall ts :: s == Saved(ts) ==> r == Success(ts)
  {
    match s
    case Absent => Success([])
    case Saved(ts) => Success(ts)
    case Unparsable => Failure(MalformedJson)
  }
}

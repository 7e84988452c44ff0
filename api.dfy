/** Values exchanged with the SD-WAN controller: JSON values, the software-state
    object, the calls the script issues and the controller's answers, which the
    model takes as oracle inputs. */
module Api {

  datatype Option<+T> = None | Some(value: T)

  /** The elements of a fetched list; a failed fetch contributes nothing. */
  function Items<T>(r: Option<seq<T>>): seq<T>
  {
    match r
    case Some(xs) => xs
    case None => []
  }

  /** A JSON value as the controller's API returns it (floating point left out). */
  datatype Json = Null | Str(s: string) | Num(n: int) | Arr(items: seq<Json>)

  type JsonObject = map<string, Json>

  /** A device's software-state object; the controller always includes the
      "image_id" key, which the planner reads without a fallback. */
  type SoftwareState = m: JsonObject | "image_id" in m witness map["image_id" := Null]

  /** The tag a printed line starts with ("INFO:", "WARN:", "ERR:" or none). */
  datatype Severity = Info | Warn | Err | Untagged

  /** One request sent to the controller, in the order it is issued. */
  datatype Call =
    | GetSites
    | GetElements
    | GetInterfaces(site: Json, element: string)
    | GetElementImages
    | GetSoftwareState(element: string)
    | PutSoftwareState(element: string, data: JsonObject)
    | PostOperation(element: string, data: JsonObject)

  /** What a stretch of a row loop prints (lines of type `M`) and which
      requests it sends, in order. */
  datatype Outcome<M> = Outcome(log: seq<M>, calls: seq<Call>)
  {
    /** This stretch followed by `o`. */
    function Then(o: Outcome<M>): Outcome<M>
    {
      Outcome(log + o.log, calls + o.calls)
    }
  }

  lemma ThenAssoc<M>(a: Outcome<M>, b: Outcome<M>, c: Outcome<M>)
    ensures a.Then(b).Then(c) == a.Then(b.Then(c))
  {
  }

  /** A call that changes state on the controller. */
  predicate IsMutation(c: Call)
  {
    c.PutSoftwareState? || c.PostOperation?
  }

  /** The controller's answers during the row loops, indexed by the manifest row
      position and the element id: the fetched software state (None when the
      request fails), and whether a put or a post was accepted. */
  datatype Controller = Controller(
    softwareState: (nat, string) -> Option<SoftwareState>,
    putAccepted: (nat, string, JsonObject) -> bool,
    postAccepted: (nat, string, JsonObject) -> bool)
}

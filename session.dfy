/**
 * The OPC UA session the client code talks to, abstracted to one atomic
 * step per service call: reads answer from a fixed address space, and a
 * write records its request and returns the server's per-entry verdict.
 */
module Sessions {

  import opened Ua

  /** What the Write service returns: one status per entry, or a service fault. */
  datatype WriteResponse = Results(codes: seq<StatusCode>) | ServiceFault(status: StatusCode)

  /** The response the Write service gives to a request. An empty request is
      answered with Bad_NothingToDo (OPC UA Part 4, Write service). */
  function Respond(verdict: WriteValue<Variant> -> StatusCode, request: seq<WriteValue<Variant>>): (r: WriteResponse)
    ensures request == [] <==> r == ServiceFault(BadNothingToDo)
    ensures r.Results? ==> |r.codes| == |request| && forall i :: 0 <= i < |request| ==> r.codes[i] == verdict(request[i])
  {
    if request == [] then ServiceFault(BadNothingToDo)
    else Results(seq(|request|, i requires 0 <= i < |request| => verdict(request[i])))
  }

  class Session {
    /** The server's nodes as this session sees them. */
    var space: AddressSpace
    /** Every Write request issued on this session, oldest first. */
    var writeRequests: seq<seq<WriteValue<Variant>>>
    /** The status the server answers to each write entry. */
    const verdict: WriteValue<Variant> -> StatusCode

    constructor (space: AddressSpace, verdict: WriteValue<Variant> -> StatusCode)
      ensures this.space == space && this.verdict == verdict && writeRequests == []
    {
      this.space := space;
      this.verdict := verdict;
      writeRequests := [];
    }

    /** Read of one attribute of one node. */
    function Read(node: NodeId, attribute: AttributeId): DataValue
      reads this`space
    {
      ReadAttribute(space, node, attribute)
    }

    /** Session.ReadValueAsync: the Value attribute of a node, thrown as a
        ServiceResultException when its status is bad. */
    function ReadValue(node: NodeId): (r: Result<DataValue>)
      reads this`space
      ensures r.Ok? <==> !IsBad(Read(node, ValueAttribute).status)
      ensures r.Ok? ==> r.value == Read(node, ValueAttribute)
      ensures r.Err? ==> r.error == ServiceResultException(Read(node, ValueAttribute).status)
    {
      var dv := Read(node, ValueAttribute);
      if IsBad(dv.status) then Err(ServiceResultException(dv.status)) else Ok(dv)
    }

    /** Session.WriteAsync. */
    method Write(request: seq<WriteValue<Variant>>) returns (response: WriteResponse)
      modifies this`writeRequests
      ensures writeRequests == old(writeRequests) + [request]
      ensures response == Respond(verdict, request)
    {
      writeRequests := writeRequests + [request];
      response := Respond(verdict, request);
    }
  }
}

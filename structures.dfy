/**
 * OpcUtils.WriteStructureAsync and OpcUtils.ReadStructureAsync: a structure
 * is written by reading the variable's current value as a skeleton, copying
 * the client's fields into the skeleton's body in place, and writing the
 * skeleton's own wrapped value back; a structure is read with every failure
 * turned into the type's default value.
 */
module Structures {

  import opened Primitives
  import opened Json
  import opened Ua
  import opened Sessions

  /** The ExtensionObject a read hands back, whose Body the copy overwrites in place. */
  class ExtensionObject {
    const typeId: NodeId
    var body: Body

    constructor (typeId: NodeId, body: Body)
      ensures this.typeId == typeId && this.body == body
    {
      this.typeId := typeId;
      this.body := body;
    }

    /** The Variant that wraps this object. */
    function Wrapped(): Variant
      reads this
    {
      Extension(typeId, body)
    }
  }

  /** What Newtonsoft's serialise-and-populate leaves behind: the field bag
      as populated (partly, when it stopped), and the exception it threw,
      if any (a member whose type does not fit the server's type). */
  datatype Populated = Populated(bag: Token, failure: Option<Exception>)

  /** OpcUtils.CopySimilarProperties: the value is serialised to JSON and
      populated into the decoded body in place. Both steps are Newtonsoft's,
      so their outcome is the parameter `copy` of the value and the old bag;
      a failure is thrown to the caller after the body has been populated
      as far as it got. */
  method CopySimilarProperties<T>(value: T, target: ExtensionObject, copy: (T, Token) -> Populated)
    returns (r: Result<()>)
    requires target.body.Complex?
    modifies target`body
    ensures target.body == Complex(copy(value, old(target.body.bag)).bag)
    ensures r.Err? <==> copy(value, old(target.body.bag)).failure.Some?
    ensures r.Err? ==> r.error == copy(value, old(target.body.bag)).failure.value
  {
    var outcome := copy(value, target.body.bag);
    target.body := Complex(outcome.bag);
    r := if outcome.failure.Some? then Err(outcome.failure.value) else Ok(());
  }

  /** The write entries WriteStructureAsync builds from the value it read,
      or the exception the copy throws before any write is sent. */
  function SkeletonRequest<T>(read: Variant, nodeId: NodeId, value: T, copy: (T, Token) -> Populated)
    : (r: Result<seq<WriteValue<Variant>>>)
    ensures r.Err? <==> read.Extension? && read.body.Complex? && copy(value, read.body.bag).failure.Some?
    ensures r.Err? ==> r.error == copy(value, read.body.bag).failure.value
    ensures r.Ok? ==> |r.value| <= 1
    ensures r.Ok? ==> (|r.value| == 1 <==> read.Extension? && read.body.Complex?)
    ensures r.Ok? && |r.value| == 1 ==> r.value[0].nodeId == nodeId && r.value[0].attributeId == ValueAttribute
    ensures r.Ok? && |r.value| == 1 ==> r.value[0].value.Extension? && r.value[0].value.typeId == read.typeId
    ensures r.Ok? && |r.value| == 1 ==> r.value[0].value == read.(body := Complex(copy(value, read.body.bag).bag))
  {
    match read
    case Extension(typeId, Complex(bag)) =>
      var outcome := copy(value, bag);
      if outcome.failure.Some? then Err(outcome.failure.value)
      else Ok([WriteValue(nodeId, ValueAttribute, Extension(typeId, Complex(outcome.bag)))])
    case _ => Ok([])
  }

  /** OpcUtils.WriteStructureAsync. A copy that throws escapes before any
      write. Otherwise one Write request is issued; it holds the skeleton
      entry when the value read is a complex ExtensionObject and is empty
      otherwise, and an empty request is refused by the server. A non-good
      status for the first entry throws. */
  method WriteStructure<T>(session: Session, nodeId: NodeId, value: T, copy: (T, Token) -> Populated)
    returns (r: Result<()>)
    modifies session`writeRequests
    ensures var request := SkeletonRequest(session.Read(nodeId, ValueAttribute).value, nodeId, value, copy);
      && (request.Err? ==> r == Err(request.error) && session.writeRequests == old(session.writeRequests))
      && (request.Ok? ==> session.writeRequests == old(session.writeRequests) + [request.value])
      && (request.Ok? && request.value == [] ==> r == Err(ServiceResultException(BadNothingToDo)))
      && (request.Ok? && request.value != [] ==> (r.Ok? <==> IsGood(session.verdict(request.value[0]))))
      && (request.Ok? && request.value != [] && r.Err? ==> r.error == WriteFailed(session.verdict(request.value[0])))
  {
    var read := session.Read(nodeId, ValueAttribute);
    var writeValues: seq<WriteValue<Variant>> := [];
    match read.value {
      case Extension(typeId, body) =>
        var extensionObject := new ExtensionObject(typeId, body);
        if extensionObject.body.Complex? {
          var bag := body.bag;
          var copied := CopySimilarProperties(value, extensionObject, copy);
          if copied.Err? {
            return Err(copied.error);
          }
          writeValues := writeValues + [WriteValue(nodeId, ValueAttribute, extensionObject.Wrapped())];
          assert writeValues == [WriteValue(nodeId, ValueAttribute, Extension(typeId, Complex(copy(value, bag).bag)))];
          assert SkeletonRequest(read.value, nodeId, value, copy)
            == Ok([WriteValue(nodeId, ValueAttribute, Extension(typeId, Complex(copy(value, bag).bag)))]);
        } else {
          assert SkeletonRequest(read.value, nodeId, value, copy) == Ok([]);
        }
      case _ =>
        assert SkeletonRequest(read.value, nodeId, value, copy) == Ok([]);
    }
    var response := session.Write(writeValues);
    match response {
      case ServiceFault(status) =>
        r := Err(ServiceResultException(status));
      case Results(codes) =>
        r := if IsGood(codes[0]) then Ok(()) else Err(WriteFailed(codes[0]));
    }
  }

  /** Writing a value that is not a complex structure (a scalar, an enum, an
      encoded body, a missing node) always fails, whatever the server's verdict. */
  lemma NonComplexWriteFails<T>(read: Variant, nodeId: NodeId, value: T, copy: (T, Token) -> Populated,
                                verdict: WriteValue<Variant> -> StatusCode)
    requires !(read.Extension? && read.body.Complex?)
    ensures SkeletonRequest(read, nodeId, value, copy) == Ok([])
    ensures Respond(verdict, SkeletonRequest(read, nodeId, value, copy).value) == ServiceFault(BadNothingToDo)
  {
  }

  /** The skeleton keeps everything the server sent except the field bag:
      the type id, and the fact that the body is a decoded complex type. */
  lemma SkeletonKeepsMetadata<T>(read: Variant, nodeId: NodeId, value: T, copy: (T, Token) -> Populated)
    requires read.Extension? && read.body.Complex? && copy(value, read.body.bag).failure.None?
    ensures var w := SkeletonRequest(read, nodeId, value, copy).value[0].value;
      w.typeId == read.typeId && w.body.Complex?
  {
  }

  /** OpcUtils.ReadStructureAsync. Every failure on the way is caught and
      answered with the default: a node the session cannot find, a bad Value
      status, a null value (its JSON form has no Value member), and a value
      that does not decode to T. The decoding (the SDK's JSON encoder and
      Newtonsoft's deserialiser) is the parameter `decode`. */
  method ReadStructure<T>(session: Session, nodeId: NodeId, decode: Variant -> Option<T>, dflt: T)
    returns (r: T)
    ensures nodeId !in session.space ==> r == dflt
    ensures session.ReadValue(nodeId).Err? ==> r == dflt
    ensures nodeId in session.space && session.ReadValue(nodeId).Ok? && session.ReadValue(nodeId).value.value != Null ==>
      r == decode(session.ReadValue(nodeId).value.value).GetOr(dflt)
    ensures r == dflt || exists v: Variant :: decode(v) == Some(r)
  {
    if nodeId !in session.space {
      return dflt;
    }
    var read := session.ReadValue(nodeId);
    if read.Err? {
      return dflt;
    }
    var v := read.value.value;
    if v == Null {
      return dflt;
    }
    var data := decode(v);
    r := data.GetOr(dflt);
  }
}

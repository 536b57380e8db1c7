/**
 * The OPC UA values that the client code exchanges with the .NET SDK,
 * reduced to the parts the modelled operations inspect.
 */
module Ua {

  import opened Primitives
  import opened Json

  /** A StatusCode. Its two top bits are the severity: 00 good, 01 uncertain, 10 bad. */
  type StatusCode = uint32

  const Good: StatusCode := 0
  const BadNothingToDo: StatusCode := 0x800F_0000
  const BadUserAccessDenied: StatusCode := 0x801F_0000
  const BadNodeIdInvalid: StatusCode := 0x8033_0000
  const BadNodeIdUnknown: StatusCode := 0x8034_0000
  const BadAttributeIdInvalid: StatusCode := 0x8035_0000

  /** StatusCode.IsGood: (code & 0xC0000000) == 0. */
  predicate IsGood(code: StatusCode) { code < 0x4000_0000 }

  /** StatusCode.IsBad: (code & 0x80000000) != 0. */
  predicate IsBad(code: StatusCode) { code >= 0x8000_0000 }

  /** Attribute ids of OPC UA Part 6 (Attributes.Value, .DataType, .AccessLevel). */
  type AttributeId = uint32
  const ValueAttribute: AttributeId := 13
  const DataTypeAttribute: AttributeId := 14
  const AccessLevelAttribute: AttributeId := 17

  /** The CurrentWrite bit of the AccessLevel attribute (OPC UA Part 3, section 5.6.2). */
  const CurrentWrite: bv8 := 0x02

  datatype Identifier = Numeric(n: uint32) | Text(s: string)

  /** A NodeId: a namespace index and an identifier. */
  datatype NodeId = NodeId(ns: uint16, id: Identifier)

  /** Well-known nodes of namespace 0. */
  const ObjectsFolder := NodeId(0, Numeric(85))
  const Organizes := NodeId(0, Numeric(35))
  const HasComponent := NodeId(0, Numeric(47))
  const HasProperty := NodeId(0, Numeric(46))

  /** The body of an ExtensionObject: a decoded BaseComplexType, whose fields
      can be introspected as a JSON object, or a body the SDK left encoded. */
  datatype Body = Complex(bag: Token) | Encoded(octets: seq<uint8>)

  /** The value a Variant carries (DataValue.Value / WrappedValue). */
  datatype Variant =
    | Null
    | Byte(b: uint8)
    | Boolean(bit: bool)
    | NodeIdValue(node: NodeId)
    | Extension(typeId: NodeId, body: Body)
    | Other(scalar: Scalar)

  /** A DataValue as returned by a read: the status and the value. */
  datatype DataValue = DataValue(status: StatusCode, value: Variant)

  /** One entry of a WriteValueCollection. */
  datatype WriteValue<V> = WriteValue(nodeId: NodeId, attributeId: AttributeId, value: V)

  /** The exceptions the modelled code throws or lets through. */
  datatype Exception =
    | ServiceResultException(status: StatusCode)
    | WriteFailed(status: StatusCode)
    | ArgumentNullException(parameter: string)
    | NullReferenceException
    | InvalidCastException
    | JsonReaderException
    | VariableNotFound(variableName: string)

  /** A call that returns a value or throws. */
  datatype Result<+T> = Ok(value: T) | Err(error: Exception)

  datatype NodeClass = ObjectNode | VariableNode | OtherNode

  datatype Reference = Reference(referenceType: NodeId, target: NodeId)

  /** A node of the server's address space: its class, the attributes a read
      returns, its forward references, and the status with which the client's
      node cache fails to fetch its references (Good when it succeeds). */
  datatype Node = Node(
    nodeClass: NodeClass,
    attributes: map<AttributeId, DataValue>,
    references: seq<Reference>,
    fetchStatus: StatusCode)

  type AddressSpace = map<NodeId, Node>

  /** The Read service for one (node, attribute) pair. */
  function ReadAttribute(space: AddressSpace, node: NodeId, attribute: AttributeId): (r: DataValue)
    ensures node !in space ==> r == DataValue(BadNodeIdUnknown, Null)
    ensures node in space && attribute in space[node].attributes ==> r == space[node].attributes[attribute]
    ensures node in space && attribute !in space[node].attributes ==> IsBad(r.status) && r.value == Null
  {
    if node !in space then DataValue(BadNodeIdUnknown, Null)
    else if attribute !in space[node].attributes then DataValue(BadAttributeIdInvalid, Null)
    else space[node].attributes[attribute]
  }
}

/**
 * The device classes (OpcDevice and BrDevice): a cache of two live PLC
 * variables, the gCounter byte and the flag boolean, fed by monitored-item
 * notifications and seeded by an initial read; writes guarded by the
 * CurrentWrite bit of the AccessLevel attribute; and the construction of
 * variable handles with their fail-fast shape check. The two classes carry
 * the same cache code, so one class models both.
 */
module Devices {

  import opened Primitives
  import opened Json
  import opened Ua
  import opened Sessions
  import opened NodeIdText
  import opened ShapeCheck

  /** The cached global variables, ns=6;s=::AsGlobalPV:gCounter and
      ns=6;s=::AsGlobalPV:flag (namespace 6 holds the PLC's variables). */
  const CounterNode := NodeId(6, Text("::AsGlobalPV:gCounter"))
  const FlagNode := NodeId(6, Text("::AsGlobalPV:flag"))

  /** A MonitoredItem as the notification handler inspects it. */
  datatype MonitoredItem = MonitoredItem(startNodeId: NodeId, attributeId: AttributeId)

  /** The implicit conversion from an unsigned integer to a NodeId, which
      C# applies when an attribute id is compared with a NodeId. */
  function NumericNodeId(n: uint32): (r: NodeId)
    ensures r.ns == 0 && r.id == Numeric(n)
  {
    NodeId(0, Numeric(n))
  }

  // ----- Unboxing casts -----

  /** `(byte)value.Value`: unboxing null throws NullReferenceException,
      unboxing anything but a byte throws InvalidCastException. */
  function UnboxByte(v: Variant): (r: Result<uint8>)
    ensures r.Ok? <==> v.Byte?
    ensures r.Ok? ==> r.value == v.b
    ensures r.Err? ==> r.error == (if v.Null? then NullReferenceException else InvalidCastException)
  {
    match v
    case Byte(b) => Ok(b)
    case Null => Err(NullReferenceException)
    case _ => Err(InvalidCastException)
  }

  /** `(bool)value.Value`, with the same two failures. */
  function UnboxBool(v: Variant): (r: Result<bool>)
    ensures r.Ok? <==> v.Boolean?
    ensures r.Ok? ==> r.value == v.bit
    ensures r.Err? ==> r.error == (if v.Null? then NullReferenceException else InvalidCastException)
  {
    match v
    case Boolean(b) => Ok(b)
    case Null => Err(NullReferenceException)
    case _ => Err(InvalidCastException)
  }

  // ----- The Counter property as values -----

  /** The counter and every CounterChanged event raised so far, oldest first. */
  datatype Cache = Cache(counter: uint8, events: seq<uint8>)

  /** The Counter setter: the field takes the value, and the event is raised
      with it only when it differs from the value held before. */
  function Assign(c: Cache, value: uint8): (r: Cache)
    ensures r.counter == value
    ensures r.events == c.events || r.events == c.events + [value]
    ensures r.events == c.events <==> c.counter == value
  {
    if c.counter != value then Cache(value, c.events + [value]) else c
  }

  /** The setter applied to each value in turn. */
  function Replay(c: Cache, values: seq<uint8>): (r: Cache)
    ensures values != [] ==> r.counter == values[|values| - 1]
    ensures values == [] ==> r == c
  {
    if values == [] then c else Assign(Replay(c, values[..|values| - 1]), values[|values| - 1])
  }

  /** An independent account of the events a run of assignments raises: each
      value that differs from the one before it (the first compared with the
      counter held before the run). */
  function Changes(prev: uint8, values: seq<uint8>): seq<uint8>
    decreases |values|
  {
    if values == [] then []
    else (if values[0] != prev then [values[0]] else []) + Changes(values[0], values[1..])
  }

  lemma {:induction false} ChangesSnoc(prev: uint8, values: seq<uint8>, v: uint8)
    ensures Changes(prev, values + [v]) ==
      Changes(prev, values) + (if v != (if values == [] then prev else values[|values| - 1]) then [v] else [])
    decreases |values|
  {
    if values == [] {
      assert [v][1..] == [];
    } else {
      assert (values + [v])[1..] == values[1..] + [v];
      ChangesSnoc(values[0], values[1..], v);
      if values[1..] != [] {
        assert values[1..][|values[1..]| - 1] == values[|values| - 1];
      }
    }
  }

  /** The events Replay records are exactly the changes. */
  lemma {:induction false} ReplayEvents(c: Cache, values: seq<uint8>)
    ensures Replay(c, values).events == c.events + Changes(c.counter, values)
  {
    if values != [] {
      var init, v := values[..|values| - 1], values[|values| - 1];
      ReplayEvents(c, init);
      ChangesSnoc(c.counter, init, v);
      assert init + [v] == values;
    }
  }

  /** No event repeats the value of the event before it, and the first one
      differs from the counter held before the run. */
  lemma {:induction false} ChangesNoStutter(prev: uint8, values: seq<uint8>)
    ensures Changes(prev, values) != [] ==> Changes(prev, values)[0] != prev
    ensures forall i :: 0 < i < |Changes(prev, values)| ==> Changes(prev, values)[i] != Changes(prev, values)[i - 1]
    decreases |values|
  {
    if values != [] {
      ChangesNoStutter(values[0], values[1..]);
      var rest := Changes(values[0], values[1..]);
      if values[0] != prev {
        assert Changes(prev, values) == [values[0]] + rest;
      } else {
        assert Changes(prev, values) == rest;
      }
    }
  }

  /** A run raises no event exactly when every value equals the counter. */
  lemma {:induction false} ChangesEmpty(prev: uint8, values: seq<uint8>)
    ensures Changes(prev, values) == [] <==> forall i :: 0 <= i < |values| ==> values[i] == prev
    decreases |values|
  {
    if values != [] {
      ChangesEmpty(values[0], values[1..]);
      if values[0] == prev {
        assert forall i :: 0 < i < |values| ==> values[i] == values[1..][i - 1];
      }
    }
  }

  /** The last event carries the last value of the run. */
  lemma {:induction false} ChangesLast(prev: uint8, values: seq<uint8>)
    requires Changes(prev, values) != []
    ensures Changes(prev, values)[|Changes(prev, values)| - 1] == values[|values| - 1]
    decreases |values|
  {
    var rest := Changes(values[0], values[1..]);
    if rest != [] {
      ChangesLast(values[0], values[1..]);
      assert values[1..][|values[1..]| - 1] == values[|values| - 1];
    } else {
      ChangesEmpty(values[0], values[1..]);
      if |values| > 1 {
        assert values[|values| - 1] == values[1..][|values| - 2];
      }
    }
  }

  // ----- Batches of notifications -----

  /** The values of the leading notifications of a batch that carry a byte;
      the first one that does not is where the cast throws. */
  function LeadingBytes(values: seq<DataValue>): (bs: seq<uint8>)
    ensures |bs| <= |values|
    ensures |bs| < |values| ==> !values[|bs|].value.Byte?
  {
    if values == [] || !values[0].value.Byte? then [] else [values[0].value.b] + LeadingBytes(values[1..])
  }

  /** The same for booleans. */
  function LeadingBools(values: seq<DataValue>): (bs: seq<bool>)
    ensures |bs| <= |values|
    ensures |bs| < |values| ==> !values[|bs|].value.Boolean?
  {
    if values == [] || !values[0].value.Boolean? then [] else [values[0].value.bit] + LeadingBools(values[1..])
  }

  /** Each leading byte is the value of its notification. */
  lemma {:induction false} LeadingBytesAt(values: seq<DataValue>, j: nat)
    requires j < |LeadingBytes(values)|
    ensures values[j].value == Byte(LeadingBytes(values)[j])
    ensures LeadingBytes(values)[..j + 1] == LeadingBytes(values)[..j] + [LeadingBytes(values)[j]]
  {
    if j > 0 {
      LeadingBytesAt(values[1..], j - 1);
    }
  }

  /** Each leading boolean is the value of its notification. */
  lemma {:induction false} LeadingBoolsAt(values: seq<DataValue>, j: nat)
    requires j < |LeadingBools(values)|
    ensures values[j].value == Boolean(LeadingBools(values)[j])
  {
    if j > 0 {
      LeadingBoolsAt(values[1..], j - 1);
    }
  }

  // ----- The Read service as the device uses it -----

  /** ReadNodeValueAsync: the value of a good read, null otherwise. */
  function ReadNodeValue(session: Session, node: NodeId): (r: Variant)
    reads session`space
    ensures IsGood(session.Read(node, ValueAttribute).status) ==> r == session.Read(node, ValueAttribute).value
    ensures !IsGood(session.Read(node, ValueAttribute).status) ==> r == Null
  {
    var dv := session.Read(node, ValueAttribute);
    if IsGood(dv.status) then dv.value else Null
  }

  /** IsNodeWritableAsync on the AccessLevel read: a read that is not good
      means not writable; a good one is unboxed as a byte (which may throw)
      and its CurrentWrite bit decides. */
  function Writability(accessLevel: DataValue): (r: Result<bool>)
    ensures r == Ok(true) <==> IsGood(accessLevel.status) && accessLevel.value.Byte? && WriteBit(accessLevel.value.b)
    ensures r.Err? <==> IsGood(accessLevel.status) && !accessLevel.value.Byte?
    ensures r.Err? ==> r.error == (if accessLevel.value.Null? then NullReferenceException else InvalidCastException)
  {
    if IsGood(accessLevel.status) then
      match UnboxByte(accessLevel.value)
      case Ok(b) => Ok(b as bv8 & CurrentWrite != 0)
      case Err(e) => Err(e)
    else Ok(false)
  }

  /** The CurrentWrite bit of an access level: bit 1 (OPC UA Part 3, section 5.6.2). */
  predicate WriteBit(b: uint8)
  {
    b as bv8 & CurrentWrite != 0
  }

  /** The DataType read as GetNodeDataTypeAsync casts it: null for a read
      that is not good, a NodeId for a NodeId value, null for a null value;
      the cast throws for anything else. */
  function DataTypeOf(dataType: DataValue): (r: Result<Option<NodeId>>)
    ensures !IsGood(dataType.status) ==> r == Ok(None)
    ensures IsGood(dataType.status) ==> (r.Ok? <==> dataType.value.NodeIdValue? || dataType.value.Null?)
    ensures r.Ok? && r.value.Some? ==> IsGood(dataType.status) && dataType.value == NodeIdValue(r.value.value)
    ensures r.Err? ==> r.error == InvalidCastException
  {
    if !IsGood(dataType.status) then Ok(None)
    else
      match dataType.value
      case NodeIdValue(n) => Ok(Some(n))
      case Null => Ok(None)
      case _ => Err(InvalidCastException)
  }

  // ----- Variable handles -----

  const DefaultProgram := "AsGlobalPV"

  /** An empty program name means the global variables. */
  function ProgramOrDefault(program: string): (p: string)
    ensures p != ""
    ensures program != "" ==> p == program
    ensures program == "" ==> p == DefaultProgram
  {
    if program == "" then DefaultProgram else program
  }

  /** The NodeId text of a PLC variable: ns=6;s=::<program>:<variable>. */
  function NodeAddress(program: string, variable: string): string
  {
    "ns=6;s=::" + program + ":" + variable
  }

  /** The node that text names. */
  function AddressNode(program: string, variable: string): NodeId
  {
    NodeId(6, Text("::" + program + ":" + variable))
  }

  /** The text always parses, to the string identifier "::<program>:<variable>"
      in namespace 6. */
  lemma NodeAddressParses(program: string, variable: string)
    ensures Parse(NodeAddress(program, variable)) == Some(AddressNode(program, variable))
  {
    var id := "::" + program + ":" + variable;
    var rest := "s=" + id;
    assert DecimalText(6) == "6";
    assert NodeAddress(program, variable) == "ns=" + DecimalText(6) + ";" + rest;
    ParseNamespaced(6, rest);
    assert rest[..2] == "s=" && rest[2..] == id;
  }

  /** The node prints back as the same text. */
  lemma NodeAddressFormats(program: string, variable: string)
    ensures Format(AddressNode(program, variable)) == NodeAddress(program, variable)
  {
    assert DecimalText(6) == "6";
  }

  /** What handle creation makes of the Value read of the variable: the
      ExtensionObject to keep when the value is one with a decoded complex
      body (after the shape check passed), nothing for any other value, or
      a failure when the read threw or the shape check did not answer true. */
  function Probe(read: Result<DataValue>, shape: Token): (r: Result<Option<Variant>>)
    ensures read.Err? ==> r.Err?
    ensures read.Ok? && !(read.value.value.Extension? && read.value.value.body.Complex?) ==> r == Ok(None)
    ensures read.Ok? && read.value.value.Extension? && read.value.value.body.Complex? ==>
      (r.Ok? <==> AreAllFieldsPresent(Some(shape), Some(read.value.value.body.bag)) == Ok(true))
    ensures r.Ok? && r.value.Some? ==> read.Ok? && r.value.value == read.value.value
  {
    match read
    case Err(e) => Err(e)
    case Ok(dv) =>
      match dv.value
      case Extension(_, Complex(bag)) =>
        (match AreAllFieldsPresent(Some(shape), Some(bag))
         case Ok(true) => Ok(Some(dv.value))
         case Ok(false) => Err(VariableNotFound(""))
         case Err(e) => Err(e))
      case _ => Ok(None)
  }

  /** For a client shape that is a well-formed object and a server body
      that is an object, the probe passes exactly when every path of the
      client's tree exists in the server's. */
  lemma ProbeCovers(read: Result<DataValue>, shape: Token)
    requires read.Ok? && read.value.value.Extension? && read.value.value.body.Complex?
    requires shape.Obj? && WellFormed(shape) && read.value.value.body.bag.Obj?
    ensures Probe(read, shape).Ok? <==> Covers(shape, read.value.value.body.bag)
  {
    FieldsPresentIffCovers(shape.props, read.value.value.body.bag.props);
  }

  /** PlcVariableHandle: what the handle knows of its variable. */
  class VariableHandle {
    const name: string
    const program: string
    const nodeId: NodeId
    const session: Session
    /** The ExtensionObject read at creation, for a complex variable. */
    var extObj: Option<Variant>

    constructor (name: string, program: string, nodeId: NodeId, session: Session)
      ensures this.name == name && this.program == program && this.nodeId == nodeId
      ensures this.session == session && extObj == None
    {
      this.name := name;
      this.program := program;
      this.nodeId := nodeId;
      this.session := session;
      extObj := None;
    }
  }

  // ----- The device -----

  class Device {
    const session: Session
    /** _counter, _flag, and the CounterChanged events raised so far. */
    var counter: uint8
    var flag: bool
    var counterChanged: seq<uint8>

    constructor (session: Session)
      ensures this.session == session
      ensures counter == 0 && !flag && counterChanged == []
    {
      this.session := session;
      counter := 0;
      flag := false;
      counterChanged := [];
    }

    function State(): Cache
      reads this`counter, this`counterChanged
    {
      Cache(counter, counterChanged)
    }

    /** The Counter setter. */
    method SetCounter(value: uint8)
      modifies this`counter, this`counterChanged
      ensures State() == Assign(old(State()), value)
    {
      if counter != value {
        counter := value;
        counterChanged := counterChanged + [value];
      }
    }

    /** OnDataChange as written: every dequeued value of the counter's item
        goes through the Counter setter, and a value that is not a byte
        throws out of the handler with the earlier values applied. The flag
        branch compares the item's attribute id, converted to a NodeId of
        namespace 0, with the flag's node, which never matches: the flag is
        never updated. */
    method OnDataChange(item: MonitoredItem, values: seq<DataValue>) returns (r: Result<()>)
      modifies this`counter, this`counterChanged, this`flag
      ensures flag == old(flag)
      ensures item.startNodeId != CounterNode ==> r == Ok(()) && State() == old(State())
      ensures item.startNodeId == CounterNode ==>
        && State() == Replay(old(State()), LeadingBytes(values))
        && (r.Ok? <==> |LeadingBytes(values)| == |values|)
        && (r.Err? ==> r.error == UnboxByte(values[|LeadingBytes(values)|].value).error)
    {
      r := Ok(());
      var j := 0;
      while j < |values|
        invariant j <= |values|
        invariant flag == old(flag)
        invariant item.startNodeId != CounterNode ==> State() == old(State())
        invariant item.startNodeId == CounterNode ==>
          j <= |LeadingBytes(values)| && State() == Replay(old(State()), LeadingBytes(values)[..j])
      {
        var value := values[j].value;
        if j < |LeadingBytes(values)| {
          LeadingBytesAt(values, j);
        }
        if item.startNodeId == CounterNode {
          match UnboxByte(value)
          case Err(e) =>
            assert LeadingBytes(values)[..j] == LeadingBytes(values);
            r := Err(e);
            return;
          case Ok(b) =>
            SetCounter(b);
        }
        var newFlag := flag;
        if NumericNodeId(item.attributeId) == FlagNode {
          match UnboxBool(value)
          case Err(e) =>
            r := Err(e);
            return;
          case Ok(bit) =>
            newFlag := bit;
        }
        flag := newFlag;
        j := j + 1;
      }
      assert item.startNodeId == CounterNode ==> LeadingBytes(values)[..j] == LeadingBytes(values);
    }

    /** OnDataChange with the flag branch comparing the item's start node, as
        the comment on the Flag setter intends ("the event will set the
        internal _flag"): a batch of the flag's item leaves the flag at the
        last boolean it carries. */
    method OnDataChangeByNode(item: MonitoredItem, values: seq<DataValue>) returns (r: Result<()>)
      modifies this`counter, this`counterChanged, this`flag
      ensures item.startNodeId != CounterNode ==> State() == old(State())
      ensures item.startNodeId != FlagNode ==> flag == old(flag)
      ensures item.startNodeId == CounterNode ==>
        && State() == Replay(old(State()), LeadingBytes(values))
        && (r.Ok? <==> |LeadingBytes(values)| == |values|)
        && (r.Err? ==> r.error == UnboxByte(values[|LeadingBytes(values)|].value).error)
      ensures item.startNodeId == FlagNode ==>
        && flag == (if LeadingBools(values) == [] then old(flag) else LeadingBools(values)[|LeadingBools(values)| - 1])
        && (r.Ok? <==> |LeadingBools(values)| == |values|)
        && (r.Err? ==> r.error == UnboxBool(values[|LeadingBools(values)|].value).error)
      ensures item.startNodeId != CounterNode && item.startNodeId != FlagNode ==> r.Ok?
    {
      r := Ok(());
      var j := 0;
      while j < |values|
        invariant j <= |values| && r.Ok?
        invariant item.startNodeId != CounterNode ==> State() == old(State())
        invariant item.startNodeId != FlagNode ==> flag == old(flag)
        invariant item.startNodeId == CounterNode ==>
          j <= |LeadingBytes(values)| && State() == Replay(old(State()), LeadingBytes(values)[..j])
        invariant item.startNodeId == FlagNode ==>
          j <= |LeadingBools(values)| && flag == (if j == 0 then old(flag) else LeadingBools(values)[j - 1])
      {
        if j < |LeadingBytes(values)| {
          LeadingBytesAt(values, j);
        }
        if j < |LeadingBools(values)| {
          LeadingBoolsAt(values, j);
        }
        r := ApplyByNode(item, values[j].value);
        if r.Err? {
          assert item.startNodeId == CounterNode ==> LeadingBytes(values)[..j] == LeadingBytes(values);
          return;
        }
        j := j + 1;
      }
      assert item.startNodeId == CounterNode ==> LeadingBytes(values)[..j] == LeadingBytes(values);
    }

    /** One dequeued value in OnDataChangeByNode. */
    method ApplyByNode(item: MonitoredItem, value: Variant) returns (r: Result<()>)
      modifies this`counter, this`counterChanged, this`flag
      ensures item.startNodeId == CounterNode ==>
        && (r.Ok? <==> value.Byte?)
        && (r.Err? ==> r.error == UnboxByte(value).error)
        && State() == (if value.Byte? then Assign(old(State()), value.b) else old(State()))
      ensures item.startNodeId == FlagNode ==>
        && (r.Ok? <==> value.Boolean?)
        && (r.Err? ==> r.error == UnboxBool(value).error)
        && flag == (if value.Boolean? then value.bit else old(flag))
      ensures item.startNodeId != CounterNode ==> State() == old(State())
      ensures item.startNodeId != FlagNode ==> flag == old(flag)
      ensures item.startNodeId != CounterNode && item.startNodeId != FlagNode ==> r == Ok(())
    {
      r := Ok(());
      if item.startNodeId == CounterNode {
        match UnboxByte(value)
        case Err(e) =>
          return Err(e);
        case Ok(b) =>
          SetCounter(b);
      }
      if item.startNodeId == FlagNode {
        match UnboxBool(value)
        case Err(e) =>
          return Err(e);
        case Ok(bit) =>
          flag := bit;
      }
    }

    /** ReadInitialNodeValues: the fields are assigned directly, bypassing the
        Counter setter, with 0 and false when the read is not good or does
        not hold a value of the field's type. */
    method ReadInitialNodeValues()
      modifies this`counter, this`flag
      ensures counter == (if ReadNodeValue(session, CounterNode).Byte? then ReadNodeValue(session, CounterNode).b else 0)
      ensures flag == (ReadNodeValue(session, FlagNode).Boolean? && ReadNodeValue(session, FlagNode).bit)
    {
      var c := ReadNodeValue(session, CounterNode);
      counter := if c.Byte? then c.b else 0;
      var f := ReadNodeValue(session, FlagNode);
      flag := if f.Boolean? then f.bit else false;
    }

    /** IsNodeWritableAsync. */
    method IsNodeWritable(node: NodeId) returns (r: Result<bool>)
      ensures r == Writability(session.Read(node, AccessLevelAttribute))
    {
      var readResult := session.Read(node, AccessLevelAttribute);
      r := Ok(false);
      if IsGood(readResult.status) {
        var accessLevel := UnboxByte(readResult.value);
        if accessLevel.Err? {
          return Err(accessLevel.error);
        }
        r := Ok(accessLevel.value as bv8 & CurrentWrite != 0);
      }
    }

    /** WriteNodeValueAsync: no write unless the node is writable; then one
        Value-attribute write, whose status must be good. */
    method WriteNodeValue(node: NodeId, value: Variant) returns (r: Result<bool>)
      modifies session`writeRequests
      ensures Writability(session.Read(node, AccessLevelAttribute)) != Ok(true) ==>
        r == Writability(session.Read(node, AccessLevelAttribute)) && session.writeRequests == old(session.writeRequests)
      ensures Writability(session.Read(node, AccessLevelAttribute)) == Ok(true) ==>
        var entry := WriteValue(node, ValueAttribute, value);
        && session.writeRequests == old(session.writeRequests) + [[entry]]
        && (r.Ok? <==> IsGood(session.verdict(entry)))
        && (r.Ok? ==> r.value)
        && (r.Err? ==> r.error == WriteFailed(session.verdict(entry)))
    {
      var isWritable := IsNodeWritable(node);
      if isWritable != Ok(true) {
        return isWritable;
      }
      var entry := WriteValue(node, ValueAttribute, value);
      var response := session.Write([entry]);
      var status := response.codes[0];
      if !IsGood(status) {
        return Err(WriteFailed(status));
      }
      r := Ok(true);
    }

    /** The Flag setter: fires the write without awaiting it, so its result
        and its failures are dropped, and leaves the flag itself to the
        notification. */
    method SetFlag(value: bool)
      modifies session`writeRequests
      ensures Writability(session.Read(FlagNode, AccessLevelAttribute)) == Ok(true) ==>
        session.writeRequests == old(session.writeRequests) + [[WriteValue(FlagNode, ValueAttribute, Boolean(value))]]
      ensures Writability(session.Read(FlagNode, AccessLevelAttribute)) != Ok(true) ==>
        session.writeRequests == old(session.writeRequests)
    {
      var _ := WriteNodeValue(FlagNode, Boolean(value));
    }

    /** GetNodeDataTypeAsync. */
    method GetNodeDataType(node: NodeId) returns (r: Result<Option<NodeId>>)
      ensures r == DataTypeOf(session.Read(node, DataTypeAttribute))
    {
      var readResult := session.Read(node, DataTypeAttribute);
      if !IsGood(readResult.status) {
        return Ok(None);
      }
      match readResult.value
      case NodeIdValue(n) => r := Ok(Some(n));
      case Null => r := Ok(None);
      case _ => r := Err(InvalidCastException);
    }

    /** CreateVariableHandleAsync<T>: the handle is addressed by the template,
        the variable's Value is read, and a complex ExtensionObject value is
        kept and checked against the tree of a default T; any failure is
        rethrown as "Variable ... not found". */
    method CreateVariableHandle(variableName: string, programName: string, shape: Token)
      returns (r: Result<VariableHandle>)
      ensures var program := ProgramOrDefault(programName);
        var probe := Probe(session.ReadValue(AddressNode(program, variableName)), shape);
        && (r.Err? <==> probe.Err?)
        && (r.Err? ==> r.error == VariableNotFound(variableName))
        && (r.Ok? ==>
          && fresh(r.value)
          && r.value.name == variableName && r.value.program == program
          && r.value.nodeId == AddressNode(program, variableName)
          && r.value.session == session
          && r.value.extObj == probe.value)
    {
      var program := ProgramOrDefault(programName);
      NodeAddressParses(program, variableName);
      var nodeId := Parse(NodeAddress(program, variableName)).value;
      var handle := new VariableHandle(variableName, program, nodeId, session);
      var read := session.ReadValue(handle.nodeId);
      if read.Err? {
        return Err(VariableNotFound(variableName));
      }
      var value := read.value.value;
      if value.Extension? && value.body.Complex? {
        handle.extObj := Some(value);
        if AreAllFieldsPresent(Some(shape), Some(value.body.bag)) != Ok(true) {
          return Err(VariableNotFound(variableName));
        }
      }
      r := Ok(handle);
    }
  }

  /** The flag branch of OnDataChange as written can never be taken. */
  lemma FlagBranchUnreachable(item: MonitoredItem)
    ensures NumericNodeId(item.attributeId) != FlagNode
  {
  }
}

/**
 * OpcUtils.BuildWriteValueCollection: a record is walked depth-first through
 * reflection, and every member that is not itself a nested record becomes
 * one Value-attribute write addressed "<root>.<dotted member path>".
 */
module WriteValues {

  import opened Primitives
  import opened Json
  import opened Ua
  import opened NodeIdText

  /** A member value as reflection returns it. The form of the value stands
      for the member's declared type: a value type or enum (Atom), a string
      (Chars), any other enumerable such as byte[] (Collection), or a class
      whose public properties are walked in turn (Object). */
  datatype Value =
    | NullRef
    | Atom(scalar: Scalar)
    | Chars(s: string)
    | Collection(items: seq<Scalar>)
    | Object(fields: seq<Field>)

  /** A public property, in declaration order. */
  datatype Field = Field(name: string, value: Value)

  /** The WriteValueCollection passed by reference and appended to. */
  class WriteValueCollection {
    var items: seq<WriteValue<Value>>

    constructor ()
      ensures items == []
    {
      items := [];
    }
  }

  /** The member path: the bare name under an empty prefix, "prefix.name" otherwise. */
  function MemberPath(prefix: string, name: string): (path: string)
    ensures prefix == "" ==> path == name
    ensures prefix != "" ==> path == prefix + "." + name
  {
    if prefix == "" then name else prefix + "." + name
  }

  /** The NodeId of a member: the root's text, a dot, and the path, parsed. */
  function MemberNodeId(root: NodeId, path: string): Option<NodeId>
  {
    Parse(Format(root) + "." + path)
  }

  /** The (path, value) pairs the walk emits, in emission order. */
  function Flatten(fields: seq<Field>, prefix: string): seq<(string, Value)>
  {
    if fields == [] then [] else MemberEntries(fields[0], prefix) + Flatten(fields[1..], prefix)
  }

  /** What one member contributes: a nested record is walked under the
      extended prefix and has no entry of its own; anything else, null
      included, is one entry carrying the whole value. */
  function MemberEntries(f: Field, prefix: string): seq<(string, Value)>
  {
    match f.value
    case Object(inner) => Flatten(inner, MemberPath(prefix, f.name))
    case _ => [(MemberPath(prefix, f.name), f.value)]
  }

  /** The write entries for a list of (path, value) pairs under a string root. */
  function Requests(root: NodeId, pairs: seq<(string, Value)>): seq<WriteValue<Value>>
    requires root.id.Text?
  {
    if pairs == [] then []
    else [WriteValue(NodeId(root.ns, Text(root.id.s + "." + pairs[0].0)), ValueAttribute, pairs[0].1)] + Requests(root, pairs[1..])
  }

  /** Entry k of the requests writes the Value attribute of the node whose
      text is the root's, a dot and path k, with value k. */
  lemma {:induction false} RequestsAddress(root: NodeId, pairs: seq<(string, Value)>, k: nat)
    requires root.id.Text? && k < |pairs|
    ensures |Requests(root, pairs)| == |pairs|
    ensures MemberNodeId(root, pairs[k].0) == Some(Requests(root, pairs)[k].nodeId)
    ensures Requests(root, pairs)[k].attributeId == ValueAttribute && Requests(root, pairs)[k].value == pairs[k].1
  {
    if k == 0 {
      RequestsLength(root, pairs);
      MemberNodeIdText(root, pairs[0].0);
    } else {
      RequestsAddress(root, pairs[1..], k - 1);
    }
  }

  lemma {:induction false} RequestsLength(root: NodeId, pairs: seq<(string, Value)>)
    requires root.id.Text?
    ensures |Requests(root, pairs)| == |pairs|
  {
    if pairs != [] { RequestsLength(root, pairs[1..]); }
  }

  /** Under a string root the member's NodeId is the root's identifier
      extended by the path; under a numeric root the text does not parse. */
  lemma MemberNodeIdText(root: NodeId, path: string)
    ensures root.id.Text? ==> MemberNodeId(root, path) == Some(NodeId(root.ns, Text(root.id.s + "." + path)))
    ensures root.id.Numeric? ==> MemberNodeId(root, path).None?
  {
    ParseSuffixed(root, "." + path);
    assert Format(root) + "." + path == Format(root) + ("." + path);
    assert IdentifierText(root.id) + ("." + path) == IdentifierText(root.id) + "." + path;
    match root.id
    case Text(s) => TextDotted(root.ns, s, path);
    case Numeric(n) => NumericDotted(root.ns, n, path);
  }

  /** "s=<text>.<path>" is the string identifier "<text>.<path>". */
  lemma TextDotted(ns: uint16, s: string, path: string)
    ensures ParseIdentifier(ns, IdentifierText(Text(s)) + "." + path) == Some(NodeId(ns, Text(s + "." + path)))
  {
    var rest := IdentifierText(Text(s)) + "." + path;
    assert StartsWith(rest, "s=");
    assert rest[2..] == s + "." + path;
  }

  /** "i=<digits>.<path>" is not a numeric identifier. */
  lemma NumericDotted(ns: uint16, n: uint32, path: string)
    ensures ParseIdentifier(ns, IdentifierText(Numeric(n)) + "." + path).None?
  {
    var digits := DecimalText(n as nat);
    var rest := IdentifierText(Numeric(n)) + "." + path;
    assert rest[0] == 'i';
    assert !StartsWith(rest, "s=");
    assert StartsWith(rest, "i=");
    assert rest[2..] == digits + "." + path;
    assert !IsDigit(rest[2..][|digits|]);
  }

  lemma {:induction false} FlattenAppend(a: seq<Field>, b: seq<Field>, prefix: string)
    ensures Flatten(a + b, prefix) == Flatten(a, prefix) + Flatten(b, prefix)
  {
    if a == [] {
      assert a + b == b;
    } else {
      assert (a + b)[0] == a[0];
      assert (a + b)[1..] == a[1..] + b;
      FlattenAppend(a[1..], b, prefix);
    }
  }

  lemma {:induction false} RequestsAppend(root: NodeId, a: seq<(string, Value)>, b: seq<(string, Value)>)
    requires root.id.Text?
    ensures Requests(root, a + b) == Requests(root, a) + Requests(root, b)
  {
    if a == [] {
      assert a + b == b;
    } else {
      assert (a + b)[0] == a[0];
      assert (a + b)[1..] == a[1..] + b;
      RequestsAppend(root, a[1..], b);
    }
  }

  /** OpcUtils.BuildWriteValueCollection. A null collection is rejected before
      anything else; the walk appends one write per non-record member and never
      touches the entries already there. Building a member's NodeId throws
      under a numeric root, at the first member that needs one. */
  method BuildWriteValueCollection(obj: Value, prefix: string, root: NodeId, writeValues: WriteValueCollection?)
    returns (r: Result<()>)
    requires obj.Object? || obj.NullRef?
    modifies writeValues
    ensures writeValues == null ==> r == Err(ArgumentNullException("writeValues"))
    ensures writeValues != null && obj.NullRef? ==> r == Err(NullReferenceException)
    ensures writeValues != null && obj.Object? ==>
      (r.Ok? <==> root.id.Text? || Flatten(obj.fields, prefix) == [])
    ensures writeValues != null && r.Ok? && root.id.Text? ==>
      writeValues.items == old(writeValues.items) + Requests(root, Flatten(obj.fields, prefix))
    ensures writeValues != null && (r.Err? || !root.id.Text?) ==> writeValues.items == old(writeValues.items)
    decreases obj, 0
  {
    if writeValues == null {
      return Err(ArgumentNullException("writeValues"));
    }
    if obj.NullRef? {
      return Err(NullReferenceException);
    }
    var fields := obj.fields;
    var i := 0;
    while i < |fields|
      invariant 0 <= i <= |fields|
      invariant root.id.Text? ==> writeValues.items == old(writeValues.items) + Requests(root, Flatten(fields[..i], prefix))
      invariant !root.id.Text? ==> writeValues.items == old(writeValues.items) && Flatten(fields[..i], prefix) == []
    {
      ghost var before := writeValues.items;
      FlattenStep(fields, i, prefix);
      r := AddMember(fields[i], prefix, root, writeValues);
      if r.Err? {
        FlattenGrows(fields, i + 1, prefix);
        return;
      }
      if root.id.Text? {
        RequestsAppend(root, Flatten(fields[..i], prefix), MemberEntries(fields[i], prefix));
      }
      i := i + 1;
    }
    assert fields[..i] == fields;
    return Ok(());
  }

  /** One pass of the loop over the public properties: a nested record is
      walked under the member's path, any other member is added as a write
      of its value to the NodeId built from the root's text and the path. */
  method AddMember(f: Field, prefix: string, root: NodeId, writeValues: WriteValueCollection)
    returns (r: Result<()>)
    modifies writeValues
    ensures r.Ok? <==> root.id.Text? || MemberEntries(f, prefix) == []
    ensures r.Ok? && root.id.Text? ==> writeValues.items == old(writeValues.items) + Requests(root, MemberEntries(f, prefix))
    ensures r.Err? || !root.id.Text? ==> writeValues.items == old(writeValues.items)
    decreases f.value, 1
  {
    var path := MemberPath(prefix, f.name);
    if f.value.Object? {
      r := BuildWriteValueCollection(f.value, path, root, writeValues);
    } else {
      MemberNodeIdText(root, path);
      var nodeId := MemberNodeId(root, path);
      if nodeId.None? {
        return Err(ServiceResultException(BadNodeIdInvalid));
      }
      writeValues.items := writeValues.items + [WriteValue(nodeId.value, ValueAttribute, f.value)];
      return Ok(());
    }
  }

  /** The walk up to member i + 1 is the walk up to member i, then member i. */
  lemma FlattenStep(fields: seq<Field>, i: nat, prefix: string)
    requires i < |fields|
    ensures Flatten(fields[..i + 1], prefix) == Flatten(fields[..i], prefix) + MemberEntries(fields[i], prefix)
  {
    assert fields[..i + 1] == fields[..i] + [fields[i]];
    FlattenAppend(fields[..i], [fields[i]], prefix);
    assert Flatten([fields[i]], prefix) == MemberEntries(fields[i], prefix) + Flatten([], prefix);
  }

  /** Entries of a prefix of the members are entries of all of them. */
  lemma FlattenGrows(fields: seq<Field>, i: nat, prefix: string)
    requires i <= |fields|
    ensures |Flatten(fields[..i], prefix)| <= |Flatten(fields, prefix)|
  {
    assert fields == fields[..i] + fields[i..];
    FlattenAppend(fields[..i], fields[i..], prefix);
  }

  // ----- An independent reading of the walk, by member paths -----

  /** The value reached by following member names; only records have members. */
  function Select(v: Value, names: seq<string>): Option<Value>
    decreases names
  {
    if names == [] then Some(v)
    else match v
      case Object(fields) =>
        (match FirstField(fields, names[0])
         case None => None
         case Some(child) => Select(child, names[1..]))
      case _ => None
  }

  /** The value of the first public property of this name. */
  function FirstField(fields: seq<Field>, name: string): (r: Option<Value>)
    ensures r.Some? ==> exists i :: 0 <= i < |fields| && fields[i].name == name && fields[i].value == r.value
  {
    if fields == [] then None
    else if fields[0].name == name then Some(fields[0].value)
    else
      var r := FirstField(fields[1..], name);
      assert forall i :: 1 <= i < |fields| ==> fields[i] == fields[1..][i - 1];
      r
  }

  /** The path text of a chain of member names below a prefix. */
  function Dotted(prefix: string, names: seq<string>): string
    decreases names
  {
    if names == [] then prefix else Dotted(MemberPath(prefix, names[0]), names[1..])
  }

  /** Every public property name of a type is distinct, at every level. */
  predicate DistinctNames(v: Value)
  {
    match v
    case Object(fields) =>
      && (forall i, j :: 0 <= i < j < |fields| ==> fields[i].name != fields[j].name)
      && (forall i :: 0 <= i < |fields| ==> DistinctNames(fields[i].value))
    case _ => true
  }

  lemma {:induction false} FlattenMember(fields: seq<Field>, prefix: string, e: (string, Value))
    ensures e in Flatten(fields, prefix) <==> exists i :: 0 <= i < |fields| && e in MemberEntries(fields[i], prefix)
  {
    if fields != [] {
      FlattenMember(fields[1..], prefix, e);
      assert forall i :: 1 <= i < |fields| ==> fields[i] == fields[1..][i - 1];
    }
  }

  /** Completeness: every member that is not a nested record, at any depth,
      has an entry carrying its path and its value. */
  lemma {:induction false} FlattenComplete(fields: seq<Field>, prefix: string, names: seq<string>)
    requires names != []
    requires Select(Object(fields), names).Some?
    requires !Select(Object(fields), names).value.Object?
    ensures (Dotted(prefix, names), Select(Object(fields), names).value) in Flatten(fields, prefix)
    decreases names
  {
    var child := FirstField(fields, names[0]).value;
    var i :| 0 <= i < |fields| && fields[i].name == names[0] && fields[i].value == child;
    var path := MemberPath(prefix, names[0]);
    if names[1..] == [] {
      assert (path, child) in MemberEntries(fields[i], prefix);
    } else {
      FlattenComplete(child.fields, path, names[1..]);
    }
    FlattenMember(fields, prefix, (Dotted(prefix, names), Select(Object(fields), names).value));
  }

  /** Soundness: every entry is a member that is not a nested record, found by
      following the names of its path from the root record. */
  lemma {:induction false} FlattenSound(fields: seq<Field>, prefix: string, e: (string, Value))
    returns (names: seq<string>)
    requires DistinctNames(Object(fields))
    requires e in Flatten(fields, prefix)
    ensures names != [] && e.0 == Dotted(prefix, names)
    ensures Select(Object(fields), names) == Some(e.1) && !e.1.Object?
    decreases fields
  {
    FlattenMember(fields, prefix, e);
    var i :| 0 <= i < |fields| && e in MemberEntries(fields[i], prefix);
    var f := fields[i];
    assert FirstField(fields, f.name) == Some(f.value) by { FirstFieldDistinct(fields, i); }
    var path := MemberPath(prefix, f.name);
    match f.value {
      case Object(inner) =>
        var rest := FlattenSound(inner, path, e);
        names := [f.name] + rest;
        assert names[1..] == rest;
      case _ =>
        names := [f.name];
    }
  }

  lemma {:induction false} FirstFieldDistinct(fields: seq<Field>, i: nat)
    requires i < |fields|
    requires forall a, b :: 0 <= a < b < |fields| ==> fields[a].name != fields[b].name
    ensures FirstField(fields, fields[i].name) == Some(fields[i].value)
  {
    if i > 0 {
      assert fields[0].name != fields[i].name;
      assert fields[1..][i - 1] == fields[i];
      FirstFieldDistinct(fields[1..], i - 1);
    }
  }
}

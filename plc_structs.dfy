/**
 * The client-side mirrors of the PLC's global types (TDOs.Struct1, Struct2,
 * Enum1). Their member names must equal the PLC's; they are the trees the
 * shape check and the write flattening work on.
 */
module PlcStructs {

  import opened Primitives
  import opened Json
  import opened Ua
  import opened NodeIdText
  import opened ShapeCheck
  import opened WriteValues

  /** The PLC enumeration Enum1 : (Option1, Option2). The client names carry
      the member's index after an underscore. */
  datatype Enum1 = Option1_0 | Option2_1

  /** The underlying value of an Enum1 member. */
  function Ordinal(e: Enum1): (n: nat)
    ensures n < 2
  {
    match e
    case Option1_0 => 0
    case Option2_1 => 1
  }

  function FromOrdinal(n: nat): (e: Enum1)
    requires n < 2
    ensures Ordinal(e) == n
  {
    if n == 0 then Option1_0 else Option2_1
  }

  /** The member names of the PLC declaration, in order. */
  const PlcEnum1Members: seq<string> := ["Option1", "Option2"]

  /** The client's name for a member. */
  function MemberName(e: Enum1): string
  {
    match e
    case Option1_0 => "Option1_0"
    case Option2_1 => "Option2_1"
  }

  /** Each client member is the PLC member at its ordinal, followed by an
      underscore and that ordinal. */
  lemma EnumNamesFollowPlc(e: Enum1)
    ensures MemberName(e) == PlcEnum1Members[Ordinal(e)] + "_" + DecimalText(Ordinal(e))
  {
    assert DecimalText(0) == "0";
    assert DecimalText(1) == "1";
  }

  /** Struct2 : STRUCT myFloat : REAL; myByte : USINT; END_STRUCT. The REAL
      is kept as its bit pattern. */
  datatype Struct2 = Struct2(myFloat: uint32, myByte: uint8)

  /** Struct1 : STRUCT enum1 : Enum1; inner_struct : Struct2; myFloat : REAL;
      str : STRING[80]; int_array : ARRAY[0..9] OF USINT; END_STRUCT. */
  datatype Struct1 = Struct1(enum1: Enum1, inner_struct: Struct2, myFloat: uint32, str: string, int_array: seq<uint8>)

  /** The bounds of int_array in the PLC declaration. */
  const IntArrayLow := 0
  const IntArrayHigh := 9

  /** new Struct2(): both members zero (0.0f has the bit pattern 0). */
  const DefaultStruct2 := Struct2(0, 0)

  /** new Struct1(): a fresh inner Struct2, an empty string and ten zero bytes. */
  const DefaultStruct1 := Struct1(Option1_0, DefaultStruct2, 0, "", seq(10, _ => 0))

  /** The default array has exactly the PLC array's number of elements. */
  lemma DefaultArrayMatchesPlc()
    ensures |DefaultStruct1.int_array| == IntArrayHigh - IntArrayLow + 1
    ensures forall i :: 0 <= i < |DefaultStruct1.int_array| ==> DefaultStruct1.int_array[i] == 0
  {
  }

  /** The member names of the PLC declarations, in order. */
  const PlcStruct1Members: seq<string> := ["enum1", "inner_struct", "myFloat", "str", "int_array"]
  const PlcStruct2Members: seq<string> := ["myFloat", "myByte"]

  // ----- The JSON trees Newtonsoft produces -----

  function ByteItems(a: seq<uint8>): seq<Scalar>
  {
    seq(|a|, i requires 0 <= i < |a| => Integer(a[i] as int))
  }

  /** The JSON of a Struct2: one property per member, in declaration order. */
  function Struct2Json(s: Struct2): Token
  {
    Obj([Property("myFloat", Leaf(Float(s.myFloat))), Property("myByte", Leaf(Integer(s.myByte as int)))])
  }

  /** The JSON of a Struct1: the enum as its number, the inner struct as a
      nested object, the byte array as a base64 string. */
  function Struct1Json(s: Struct1): Token
  {
    Obj([
      Property("enum1", Leaf(Integer(Ordinal(s.enum1)))),
      Property("inner_struct", Struct2Json(s.inner_struct)),
      Property("myFloat", Leaf(Float(s.myFloat))),
      Property("str", Leaf(Str(s.str))),
      Property("int_array", Leaf(Scalar.Bytes(s.int_array)))])
  }

  function Names(props: seq<Property>): (names: seq<string>)
    ensures |names| == |props|
    ensures forall i :: 0 <= i < |props| ==> names[i] == props[i].name
  {
    if props == [] then [] else [props[0].name] + Names(props[1..])
  }

  /** The trees carry the PLC's member names, in the PLC's order. */
  lemma JsonNamesMatchPlc(s: Struct1)
    ensures Names(Struct1Json(s).props) == PlcStruct1Members
    ensures Names(Struct1Json(s).props[1].value.props) == PlcStruct2Members
  {
  }

  /** Every Struct1 tree is well formed, so the shape check's path reading applies. */
  lemma Struct1JsonWellFormed(s: Struct1)
    ensures WellFormed(Struct1Json(s))
  {
    var props := Struct1Json(s).props;
    assert UniqueNames(props) by {
      forall i, j | 0 <= i < j < |props|
        ensures props[i].name != props[j].name
      {
        assert props[i].name == PlcStruct1Members[i] && props[j].name == PlcStruct1Members[j];
      }
    }
    assert WellFormed(props[1].value);
  }

  /** Any two Struct2 trees have the same fields. */
  lemma Struct2Fits(a: Struct2, b: Struct2)
    ensures FieldsPresent(Struct2Json(a).props, Struct2Json(b).props)
  {
    var source, target := Struct2Json(a).props, Struct2Json(b).props;
    assert Lookup(target, "myFloat").Some? && Lookup(target, "myByte").Some?;
    assert FieldPresent(source[1], target);
    assert FieldsPresent(source[1..], target);
  }

  /** A default Struct1 passes the shape check against the tree of any Struct1. */
  lemma DefaultStruct1Fits(s: Struct1)
    ensures AreAllFieldsPresent(Some(Struct1Json(DefaultStruct1)), Some(Struct1Json(s))) == Ok(true)
  {
    var source, target := Struct1Json(DefaultStruct1).props, Struct1Json(s).props;
    Struct1JsonWellFormed(s);
    forall i | 0 <= i < |source|
      ensures FieldPresent(source[i], target)
    {
      LookupUnique(target, i);
      if i == 1 {
        Struct2Fits(DefaultStruct2, s.inner_struct);
      }
    }
    FieldsPresentEach(source, target);
  }

  /** The check recurses into inner_struct: a server tree whose inner_struct
      is not an object fails it, though every name is present. */
  lemma InnerStructMustBeObject(s: Struct1, leaf: Scalar)
    ensures AreAllFieldsPresent(Some(Struct1Json(DefaultStruct1)),
      Some(Obj(Struct1Json(s).props[1 := Property("inner_struct", Leaf(leaf))]))) == Ok(false)
  {
    var source := Struct1Json(DefaultStruct1).props;
    var target := Struct1Json(s).props[1 := Property("inner_struct", Leaf(leaf))];
    assert Lookup(target, "inner_struct") == Some(Leaf(leaf));
    assert !FieldPresent(source[1], target);
    FieldsPresentEach(source, target);
  }

  // ----- The reflection form the flattening walks -----

  function Struct2Value(s: Struct2): Value
  {
    Object([Field("myFloat", Atom(Float(s.myFloat))), Field("myByte", Atom(Integer(s.myByte as int)))])
  }

  function Struct1Value(s: Struct1): Value
  {
    Object([
      Field("enum1", Atom(Integer(Ordinal(s.enum1)))),
      Field("inner_struct", Struct2Value(s.inner_struct)),
      Field("myFloat", Atom(Float(s.myFloat))),
      Field("str", Chars(s.str)),
      Field("int_array", Collection(ByteItems(s.int_array)))])
  }

  /** Writing a Struct1 member by member: the inner struct is walked into two
      entries under "inner_struct.", the array is one entry holding the whole
      collection, and every other member is one entry. */
  lemma Struct1Entries(s: Struct1)
    ensures Flatten(Struct1Value(s).fields, "") == [
      ("enum1", Atom(Integer(Ordinal(s.enum1)))),
      ("inner_struct" + "." + "myFloat", Atom(Float(s.inner_struct.myFloat))),
      ("inner_struct" + "." + "myByte", Atom(Integer(s.inner_struct.myByte as int))),
      ("myFloat", Atom(Float(s.myFloat))),
      ("str", Chars(s.str)),
      ("int_array", Collection(ByteItems(s.int_array)))]
  {
    var fs := Struct1Value(s).fields;
    var inner := Struct2Value(s.inner_struct).fields;
    assert Flatten(inner[2..], "inner_struct") == [];
    assert Flatten(inner[1..], "inner_struct") == [("inner_struct" + "." + "myByte", Atom(Integer(s.inner_struct.myByte as int)))];
    assert Flatten(fs[5..], "") == [];
    assert Flatten(fs[4..], "") == [("int_array", Collection(ByteItems(s.int_array)))];
    assert Flatten(fs[3..], "") == [("str", Chars(s.str))] + Flatten(fs[4..], "");
    assert Flatten(fs[2..], "") == [("myFloat", Atom(Float(s.myFloat)))] + Flatten(fs[3..], "");
    assert Flatten(inner, "inner_struct") == [("inner_struct" + "." + "myFloat", Atom(Float(s.inner_struct.myFloat)))]
      + Flatten(inner[1..], "inner_struct");
    assert MemberEntries(fs[1], "") == Flatten(inner, "inner_struct");
    assert Flatten(fs[1..], "") == Flatten(inner, "inner_struct") + Flatten(fs[2..], "");
    assert Flatten(fs, "") == [("enum1", Atom(Integer(Ordinal(s.enum1))))] + Flatten(fs[1..], "");
  }
}

/**
 * The JSON object trees (Newtonsoft JObject/JToken) that the client code
 * compares, and the primitive values that sit at their leaves.
 */
module Json {

  import opened Primitives

  /** A primitive value as the .NET runtime boxes it; floats are kept as
      their IEEE-754 bit pattern and never interpreted. */
  datatype Scalar =
    | NullValue
    | Bool(bit: bool)
    | Integer(i: int)
    | Float(bits: uint32)
    | Str(s: string)
    | Bytes(octets: seq<uint8>)

  /** A JToken: an object (ordered named properties) or anything else,
      which the shape check only ever treats as "not an object". */
  datatype Token = Obj(props: seq<Property>) | Leaf(scalar: Scalar)

  /** A JProperty: a name and the token it holds. */
  datatype Property = Property(name: string, value: Token)

  /** JObject.TryGetValue: the token of the first property with this name. */
  function Lookup(props: seq<Property>, name: string): (r: Option<Token>)
    ensures r.Some? <==> exists i :: 0 <= i < |props| && props[i].name == name
    ensures r.Some? ==> exists i :: 0 <= i < |props| && props[i].name == name && props[i].value == r.value
  {
    if props == [] then None
    else if props[0].name == name then Some(props[0].value)
    else
      var r := Lookup(props[1..], name);
      assert forall i :: 1 <= i < |props| ==> props[i] == props[1..][i - 1];
      r
  }

  /** A JObject never holds two properties of the same name. */
  predicate UniqueNames(props: seq<Property>)
  {
    forall i, j :: 0 <= i < j < |props| ==> props[i].name != props[j].name
  }

  /** Every object in the tree has unique property names, as every JObject does. */
  predicate WellFormed(t: Token)
  {
    match t
    case Leaf(_) => true
    case Obj(props) => UniqueNames(props) && forall i :: 0 <= i < |props| ==> WellFormed(props[i].value)
  }

  /** With unique names, looking up a property's own name finds that property. */
  lemma {:induction false} LookupUnique(props: seq<Property>, i: nat)
    requires UniqueNames(props)
    requires i < |props|
    ensures Lookup(props, props[i].name) == Some(props[i].value)
  {
    if i > 0 {
      assert props[0].name != props[i].name;
      assert UniqueNames(props[1..]) by {
        forall a, b | 0 <= a < b < |props[1..]|
          ensures props[1..][a].name != props[1..][b].name
        {
          assert props[1..][a] == props[a + 1] && props[1..][b] == props[b + 1];
        }
      }
      LookupUnique(props[1..], i - 1);
    }
  }

  /** Lookup only ever sees the first property of a name: appending more
      properties never changes what an existing name finds. */
  lemma {:induction false} LookupAppend(props: seq<Property>, extra: seq<Property>, name: string)
    requires Lookup(props, name).Some?
    ensures Lookup(props + extra, name) == Lookup(props, name)
  {
    if props[0].name != name {
      assert (props + extra)[1..] == props[1..] + extra;
      LookupAppend(props[1..], extra, name);
    }
  }
}

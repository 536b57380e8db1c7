/**
 * The structural compatibility check run when a variable handle is created
 * (OpcDevice.AreAllFieldsPresent): every field of the client's JSON tree must
 * exist, by name, in the server's tree, and a field that is an object on the
 * client side must be an object on the server side as well, recursively.
 */
module ShapeCheck {

  import opened Primitives
  import opened Json
  import opened Ua

  /** AreAllFieldsPresent(JObject, JObject): the foreach over the source
      properties, stopping at the first one that fails. */
  predicate FieldsPresent(source: seq<Property>, target: seq<Property>)
  {
    source == [] || (FieldPresent(source[0], target) && FieldsPresent(source[1..], target))
  }

  /** One iteration of that loop: the name must be found in the target, and a
      nested object must meet an object that holds all of its fields. */
  predicate FieldPresent(p: Property, target: seq<Property>)
  {
    match Lookup(target, p.name)
    case None => false
    case Some(t) => p.value.Obj? ==> t.Obj? && FieldsPresent(p.value.props, t.props)
  }

  /** AreAllFieldsPresent(object, object): either object null gives false; both
      are serialised to JSON and parsed as JObjects, which throws when the
      serialised form is not an object. The serialisation itself belongs to
      Newtonsoft, so the arguments are the trees it produced. */
  function AreAllFieldsPresent(source: Option<Token>, target: Option<Token>): (r: Result<bool>)
    ensures source.None? || target.None? ==> r == Ok(false)
    ensures source.Some? && target.Some? && (!source.value.Obj? || !target.value.Obj?) ==> r == Err(JsonReaderException)
    ensures r == Ok(true) ==> source.Some? && target.Some? && source.value.Obj? && target.value.Obj?
    ensures source.Some? && target.Some? && source.value.Obj? && target.value.Obj? && WellFormed(source.value) ==>
      (r == Ok(true) <==> Covers(source.value, target.value))
  {
    if source.None? || target.None? then Ok(false)
    else if !source.value.Obj? || !target.value.Obj? then Err(JsonReaderException)
    else
      var answer := FieldsPresent(source.value.props, target.value.props);
      if WellFormed(source.value) then
        FieldsPresentIffCovers(source.value.props, target.value.props);
        Ok(answer)
      else Ok(answer)
  }

  // ----- An independent reading of the check, by paths -----

  /** The token reached from t by following property names; a leaf has no fields. */
  function Resolve(t: Token, path: seq<string>): Option<Token>
    decreases path
  {
    if path == [] then Some(t)
    else match t
      case Leaf(_) => None
      case Obj(props) =>
        match Lookup(props, path[0])
        case None => None
        case Some(child) => Resolve(child, path[1..])
  }

  /** Every path of the source exists in the target, and where the source finds
      an object the target finds an object too. */
  ghost predicate Covers(source: Token, target: Token)
  {
    forall path :: Resolve(source, path).Some? ==>
      && Resolve(target, path).Some?
      && (Resolve(source, path).value.Obj? ==> Resolve(target, path).value.Obj?)
  }

  /** The loop passes for a property exactly when each of its iterations passes. */
  lemma {:induction false} FieldsPresentEach(source: seq<Property>, target: seq<Property>)
    ensures FieldsPresent(source, target) <==> forall i :: 0 <= i < |source| ==> FieldPresent(source[i], target)
  {
    if source != [] {
      FieldsPresentEach(source[1..], target);
      assert forall i :: 1 <= i < |source| ==> source[i] == source[1..][i - 1];
    }
  }

  /** What a passing check says of one field found by name in the source. */
  lemma FieldFound(source: seq<Property>, target: seq<Property>, name: string) returns (t: Token)
    requires FieldsPresent(source, target)
    requires Lookup(source, name).Some?
    ensures Lookup(target, name) == Some(t)
    ensures Lookup(source, name).value.Obj? ==> t.Obj? && FieldsPresent(Lookup(source, name).value.props, t.props)
  {
    var i :| 0 <= i < |source| && source[i].name == name && source[i].value == Lookup(source, name).value;
    FieldsPresentEach(source, target);
    assert FieldPresent(source[i], target);
    t := Lookup(target, name).value;
  }

  /** A passing check means every path of the source resolves in the target. */
  lemma {:induction false} FieldsPresentResolves(source: seq<Property>, target: seq<Property>, path: seq<string>)
    requires FieldsPresent(source, target)
    requires Resolve(Obj(source), path).Some?
    ensures Resolve(Obj(target), path).Some?
    ensures Resolve(Obj(source), path).value.Obj? ==> Resolve(Obj(target), path).value.Obj?
    decreases path
  {
    if path != [] {
      var c := Lookup(source, path[0]).value;
      var d := FieldFound(source, target, path[0]);
      if c.Obj? {
        FieldsPresentResolves(c.props, d.props, path[1..]);
      }
    }
  }

  lemma FieldsPresentCovers(source: seq<Property>, target: seq<Property>)
    requires FieldsPresent(source, target)
    ensures Covers(Obj(source), Obj(target))
  {
    forall path | Resolve(Obj(source), path).Some?
      ensures Resolve(Obj(target), path).Some?
      ensures Resolve(Obj(source), path).value.Obj? ==> Resolve(Obj(target), path).value.Obj?
    {
      FieldsPresentResolves(source, target, path);
    }
  }

  /** Conversely, for a JObject (unique names) whose paths all resolve in the
      target, the check passes. */
  lemma {:induction false} CoversFieldsPresent(source: Token, target: Token)
    requires source.Obj? && target.Obj?
    requires WellFormed(source)
    requires Covers(source, target)
    ensures FieldsPresent(source.props, target.props)
    decreases source
  {
    var ps, qs := source.props, target.props;
    forall i | 0 <= i < |ps|
      ensures FieldPresent(ps[i], qs)
    {
      var n := ps[i].name;
      LookupUnique(ps, i);
      assert Resolve(source, [n]) == Some(ps[i].value);
      assert Resolve(target, [n]).Some?;
      var d := Lookup(qs, n).value;
      assert Resolve(target, [n]) == Some(d);
      if ps[i].value.Obj? {
        assert d.Obj?;
        forall path | Resolve(ps[i].value, path).Some?
          ensures Resolve(d, path).Some?
          ensures Resolve(ps[i].value, path).value.Obj? ==> Resolve(d, path).value.Obj?
        {
          assert ([n] + path)[1..] == path;
          assert Resolve(source, [n] + path) == Resolve(ps[i].value, path);
          assert Resolve(target, [n] + path) == Resolve(d, path);
        }
        CoversFieldsPresent(ps[i].value, d);
      }
    }
    FieldsPresentEach(ps, qs);
  }

  /** The check decides, for a JObject, exactly the path-wise inclusion. */
  lemma FieldsPresentIffCovers(source: seq<Property>, target: seq<Property>)
    requires WellFormed(Obj(source))
    ensures FieldsPresent(source, target) <==> Covers(Obj(source), Obj(target))
  {
    if FieldsPresent(source, target) {
      FieldsPresentCovers(source, target);
    }
    if Covers(Obj(source), Obj(target)) {
      CoversFieldsPresent(Obj(source), Obj(target));
    }
  }

  /** A field name missing from the target fails the check. */
  lemma MissingFieldFails(source: seq<Property>, target: seq<Property>, i: nat)
    requires i < |source|
    requires Lookup(target, source[i].name).None?
    ensures !FieldsPresent(source, target)
  {
    FieldsPresentEach(source, target);
    assert !FieldPresent(source[i], target);
  }

  /** Every JObject is compatible with itself. */
  lemma FieldsPresentReflexive(props: seq<Property>)
    requires WellFormed(Obj(props))
    ensures FieldsPresent(props, props)
  {
    CoversFieldsPresent(Obj(props), Obj(props));
  }

  /** Compatibility chains: a client shape compatible with a server shape that
      is itself contained in a wider one is compatible with the wider one. */
  lemma FieldsPresentTransitive(a: seq<Property>, b: seq<Property>, c: seq<Property>)
    requires WellFormed(Obj(a))
    requires FieldsPresent(a, b) && FieldsPresent(b, c)
    ensures FieldsPresent(a, c)
  {
    FieldsPresentCovers(a, b);
    FieldsPresentCovers(b, c);
    CoversFieldsPresent(Obj(a), Obj(c));
  }

  /** Extra target fields are ignored: adding fields to the target never turns
      a passing check into a failing one. */
  lemma {:induction false} FieldsPresentWiden(source: seq<Property>, target: seq<Property>, extra: seq<Property>)
    requires FieldsPresent(source, target)
    ensures FieldsPresent(source, target + extra)
  {
    if source != [] {
      LookupAppend(target, extra, source[0].name);
      FieldsPresentWiden(source[1..], target, extra);
    }
  }

  /** Non-object fields are matched by name only: a source leaf passes
      against any target exactly when the target has a field of that name,
      whatever that field holds. */
  lemma LeafTypesIgnored(name: string, s: Scalar, target: seq<Property>)
    ensures FieldPresent(Property(name, Leaf(s)), target) <==> Lookup(target, name).Some?
    ensures FieldsPresent([Property(name, Leaf(s))], target) <==> Lookup(target, name).Some?
  {
    assert [Property(name, Leaf(s))][1..] == [];
  }
}

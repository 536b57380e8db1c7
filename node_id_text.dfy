/**
 * The text form of a NodeId, "ns=<namespace>;<type>=<identifier>" of OPC UA
 * Part 6 (IEC 62541-6), section 5.3.1.10: NodeId.ToString() formats it and
 * new NodeId(string) parses it. Only the "i=" and "s=" identifier types occur
 * in the client code.
 */
module NodeIdText {

  import opened Primitives
  import opened Ua

  predicate IsDigit(c: char) { '0' <= c <= '9' }

  predicate AllDigits(s: string) { forall i :: 0 <= i < |s| ==> IsDigit(s[i]) }

  function DigitChar(d: nat): (c: char)
    requires d < 10
    ensures IsDigit(c) && c as int - '0' as int == d
  {
    (d + '0' as int) as char
  }

  /** The decimal text of n, most significant digit first, without leading zeros. */
  function DecimalText(n: nat): (s: string)
    ensures |s| > 0 && AllDigits(s)
    decreases n
  {
    if n < 10 then [DigitChar(n)] else DecimalText(n / 10) + [DigitChar(n % 10)]
  }

  /** The number a string of decimal digits denotes. */
  function DigitsValue(s: string): nat
    requires AllDigits(s)
  {
    if s == [] then 0
    else DigitsValue(s[..|s| - 1]) * 10 + (s[|s| - 1] as int - '0' as int)
  }

  /** Parses a non-empty run of decimal digits; anything else is rejected. */
  function ParseDecimal(s: string): (r: Option<nat>)
    ensures r.Some? <==> s != [] && AllDigits(s)
  {
    if s != [] && AllDigits(s) then Some(DigitsValue(s)) else None
  }

  lemma {:induction false} DecimalRoundTrip(n: nat)
    ensures ParseDecimal(DecimalText(n)) == Some(n)
    decreases n
  {
    var s := DecimalText(n);
    if n >= 10 {
      DecimalRoundTrip(n / 10);
      assert s[..|s| - 1] == DecimalText(n / 10);
      assert DigitsValue(s) == DigitsValue(DecimalText(n / 10)) * 10 + n % 10;
    }
  }

  function StartsWith(s: string, prefix: string): bool
  {
    |prefix| <= |s| && s[..|prefix|] == prefix
  }

  /** The index of the first ';' at or after `from`, or |s| when there is none. */
  function SemicolonFrom(s: string, from: nat): (k: nat)
    requires from <= |s|
    ensures from <= k <= |s|
    ensures k < |s| ==> s[k] == ';'
    ensures forall j :: from <= j < k ==> s[j] != ';'
    decreases |s| - from
  {
    if from == |s| || s[from] == ';' then from else SemicolonFrom(s, from + 1)
  }

  /** NodeId.ToString(): the namespace part is left out for namespace 0. */
  function Format(node: NodeId): string
  {
    (if node.ns == 0 then "" else "ns=" + DecimalText(node.ns as nat) + ";") + IdentifierText(node.id)
  }

  function IdentifierText(id: Identifier): string
  {
    match id
    case Numeric(n) => "i=" + DecimalText(n as nat)
    case Text(s) => "s=" + s
  }

  /** new NodeId(string) on the `ns=<n>;` prefix and the `i=` and `s=`
      identifiers the program builds: None where the SDK throws on them. */
  function Parse(text: string): Option<NodeId>
  {
    if StartsWith(text, "ns=") then
      var k := SemicolonFrom(text, 3);
      if k == |text| then None
      else
        match ParseDecimal(text[3..k])
        case None => None
        case Some(ns) => if ns < 0x1_0000 then ParseIdentifier(ns as uint16, text[k + 1..]) else None
    else ParseIdentifier(0, text)
  }

  function ParseIdentifier(ns: uint16, s: string): Option<NodeId>
  {
    if StartsWith(s, "s=") then Some(NodeId(ns, Text(s[2..])))
    else if StartsWith(s, "i=") then
      match ParseDecimal(s[2..])
      case None => None
      case Some(n) => if n < 0x1_0000_0000 then Some(NodeId(ns, Numeric(n as uint32))) else None
    else None
  }

  lemma IdentifierRoundTrip(ns: uint16, id: Identifier)
    ensures ParseIdentifier(ns, IdentifierText(id)) == Some(NodeId(ns, id))
  {
    match id
    case Numeric(n) =>
      var s := IdentifierText(id);
      assert s[2..] == DecimalText(n as nat);
      DecimalRoundTrip(n as nat);
    case Text(t) =>
      assert IdentifierText(id)[2..] == t;
  }

  /** Every NodeId survives formatting and parsing back. */
  lemma FormatParse(node: NodeId)
    ensures Parse(Format(node)) == Some(node)
  {
    ParseSuffixed(node, "");
    assert Format(node) + "" == Format(node);
    assert IdentifierText(node.id) + "" == IdentifierText(node.id);
    IdentifierRoundTrip(node.ns, node.id);
  }

  /** Text appended to a formatted NodeId is read as part of its identifier. */
  lemma ParseSuffixed(node: NodeId, suffix: string)
    ensures Parse(Format(node) + suffix) == ParseIdentifier(node.ns, IdentifierText(node.id) + suffix)
  {
    var rest := IdentifierText(node.id) + suffix;
    if node.ns == 0 {
      assert Format(node) + suffix == rest;
      assert rest[0] != 'n';
      assert !StartsWith(rest, "ns=");
    } else {
      assert Format(node) + suffix == "ns=" + DecimalText(node.ns as nat) + ";" + rest;
      ParseNamespaced(node.ns as nat, rest);
    }
  }

  /** A text with a namespace part parses its identifier part in that namespace. */
  lemma ParseNamespaced(ns: nat, rest: string)
    requires 0 < ns < 0x1_0000
    ensures Parse("ns=" + DecimalText(ns) + ";" + rest) == ParseIdentifier(ns as uint16, rest)
  {
    var digits := DecimalText(ns);
    var text := "ns=" + digits + ";" + rest;
    var k := 3 + |digits|;
    assert StartsWith(text, "ns=");
    assert text[k] == ';';
    forall j | 3 <= j < k
      ensures text[j] != ';'
    {
      assert text[j] == digits[j - 3];
    }
    SemicolonFirst(text, 3, k);
    assert text[3..k] == digits;
    assert text[k + 1..] == rest;
    DecimalRoundTrip(ns);
  }

  lemma {:induction false} SemicolonFirst(s: string, from: nat, k: nat)
    requires from <= k < |s| && s[k] == ';'
    requires forall j :: from <= j < k ==> s[j] != ';'
    ensures SemicolonFrom(s, from) == k
    decreases k - from
  {
    if from < k { SemicolonFirst(s, from + 1, k); }
  }
}

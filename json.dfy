/** A parsed JSON tree, standing for Jackson's JsonNode, and the five
    accessors the token service uses on it: get, has, isNull, isArray, asText. */
module Json {
  import opened Results

  /** Numbers are integral here: Jackson's IntNode/LongNode/BigIntegerNode. */
  datatype Json =
    | JNull
    | JBool(b: bool)
    | JNum(n: int)
    | JStr(s: string)
    | JArr(elems: seq<Json>)
    | JObj(fields: map<string, Json>)

  /** JsonNode.get(String): the field's node on an object, absent (Java null)
      when the field is missing or the node is not an object. A field whose
      value is the JSON literal null is present, as a JNull node. */
  function Get(node: Json, name: string): (r: Option<Json>)
  {
    if node.JObj? && name in node.fields then Some(node.fields[name]) else None
  }

  /** JsonNode.has(String): get(name) is not Java null, so a JSON null field counts. */
  predicate Has(node: Json, name: string)
  {
    Get(node, name).Some?
  }

  /** Looking a field up by name on a scalar or an array finds nothing, so
      a response that is not a JSON object has no claims at all. */
  lemma GetNonObjectAbsent(node: Json, name: string)
    requires !node.JObj?
    ensures Get(node, name).None? && !Has(node, name)
  {
  }

  predicate IsNull(node: Json)
  {
    node.JNull?
  }

  predicate IsArray(node: Json)
  {
    node.JArr?
  }

  /** JsonNode.asText(): the content of a string, "null" for null, "true"/"false"
      for booleans, the decimal form of a number, and "" for arrays and objects. */
  function AsText(node: Json): (text: string)
  {
    match node
    case JNull => "null"
    case JBool(b) => if b then "true" else "false"
    case JNum(n) => IntToDecimal(n)
    case JStr(s) => s
    case JArr(_) => ""
    case JObj(_) => ""
  }

  function DigitChar(d: nat): (c: char)
    requires d < 10
    ensures '0' <= c <= '9'
  {
    (48 + d) as char
  }

  /** Long.toString / Integer.toString: decimal digits, no leading zeros. */
  function NatToDecimal(n: nat): (r: string)
    ensures |r| > 0
    ensures forall i :: 0 <= i < |r| ==> '0' <= r[i] <= '9'
    ensures n > 0 ==> r[0] != '0'
    decreases n
  {
    if n < 10 then [DigitChar(n)] else NatToDecimal(n / 10) + [DigitChar(n % 10)]
  }

  predicate IsDigits(s: string)
  {
    forall i :: 0 <= i < |s| ==> '0' <= s[i] <= '9'
  }

  /** The value a reader of decimal text assigns to a string of digits. */
  function DecimalValue(s: string): (n: nat)
    requires IsDigits(s)
  {
    if s == [] then 0 else DecimalValue(s[..|s| - 1]) * 10 + (s[|s| - 1] as int - '0' as int)
  }

  /** Reading the decimal text of a number gives the number back. */
  lemma {:induction false} DecimalRoundTrip(n: nat)
    ensures DecimalValue(NatToDecimal(n)) == n
    decreases n
  {
    if n >= 10 {
      var s := NatToDecimal(n);
      assert s[..|s| - 1] == NatToDecimal(n / 10);
      DecimalRoundTrip(n / 10);
    }
  }

  function IntToDecimal(n: int): (r: string)
  {
    if n < 0 then "-" + NatToDecimal(-n) else NatToDecimal(n)
  }

  /** The text asText gives a number is its decimal form: a reader of that
      text recovers the number, with a leading '-' exactly when it is negative. */
  lemma AsTextNumber(n: int)
    ensures n >= 0 ==> IsDigits(AsText(JNum(n))) && DecimalValue(AsText(JNum(n))) == n
    ensures n < 0 ==> var t := AsText(JNum(n));
                      |t| > 1 && t[0] == '-' && IsDigits(t[1..]) && DecimalValue(t[1..]) == -n
  {
    if n < 0 {
      DecimalRoundTrip(-n);
      assert AsText(JNum(n))[1..] == NatToDecimal(-n);
    } else {
      DecimalRoundTrip(n);
    }
  }
}

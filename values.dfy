/** PHP values as the catalogue sees them: decoded request bodies, response arrays,
    query-string text, and the integer reading PHP gives to such text. */
module Values {

  datatype Option<+T> = None | Some(value: T)

  datatype Result<+T, +E> = Ok(value: T) | Err(error: E)

  /** A moment in time; the clock itself is not modelled. */
  datatype Instant = Instant(seconds: int)

  /** Errors that escape every `catch` of the controller and end the request with HTTP 500. */
  datatype Fault =
    | TypeError   // a PHP value of the wrong type reached a typed parameter or operator
    | QueryError  // the database layer refused the query
    | UnsetProperty  // a typed property was read before any value was assigned to it

  /** A PHP value: what `json_decode(..., true)` yields, and what the controller puts in a view.
      Floats are kept as reals and never computed with. A JSON list decodes to an array whose
      keys are "0", "1", ...; keyed arrays are `Arr`, result lists built by the code are `List`. */
  datatype Value =
    | Null
    | Bool(b: bool)
    | Int(i: int)
    | Float(f: real)
    | Str(s: string)
    | Date(at: Instant)
    | Arr(entries: map<string, Value>)
    | List(items: seq<Value>)

  /** A PHP array with string keys. */
  type Fields = map<string, Value>

  /** PHP's `isset($fields[$key])`: the key is present and its value is not null. */
  predicate Isset(fields: Fields, key: string)
  {
    key in fields && !fields[key].Null?
  }

  /** The array a request body decodes to; a body that is not a JSON array or object
      (`None`) offers no keys to `isset`. */
  function KeysOf(body: Option<Fields>): (fields: Fields)
    ensures body.None? ==> fields == map[]
    ensures body.Some? ==> fields == body.value
  {
    if body.Some? then body.value else map[]
  }

  /** PHP truthiness of a string: only "" and "0" are false. */
  predicate Truthy(s: string)
  {
    s != "" && s != "0"
  }

  predicate IsDigit(c: char)
  {
    '0' <= c <= '9'
  }

  predicate AllDigits(s: string)
  {
    |s| > 0 && forall i :: 0 <= i < |s| ==> IsDigit(s[i])
  }

  function DigitsValue(s: string): (n: nat)
    requires AllDigits(s)
    decreases |s|
  {
    if |s| == 1 then (s[0] - '0') as nat
    else DigitsValue(s[..|s| - 1]) * 10 + (s[|s| - 1] - '0') as nat
  }

  /** The integer PHP reads from an integer string: an optional sign followed by decimal
      digits. Every other text is `None`. */
  function IntegerText(s: string): Option<int>
  {
    if |s| > 1 && s[0] == '-' && AllDigits(s[1..]) then Some(-(DigitsValue(s[1..]) as int))
    else if |s| > 1 && s[0] == '+' && AllDigits(s[1..]) then Some(DigitsValue(s[1..]))
    else if AllDigits(s) then Some(DigitsValue(s))
    else None
  }

  function DigitChar(d: nat): (c: char)
    requires d < 10
    ensures IsDigit(c) && (c - '0') as nat == d
  {
    "0123456789"[d]
  }

  function NaturalText(n: nat): (s: string)
    ensures AllDigits(s)
    decreases n
  {
    if n < 10 then [DigitChar(n)] else NaturalText(n / 10) + [DigitChar(n % 10)]
  }

  /** PHP's `(string)` of an integer: canonical decimal notation. */
  function DecimalText(n: int): string
  {
    if n < 0 then "-" + NaturalText(-n) else NaturalText(n)
  }

  lemma {:induction false} NaturalTextRoundTrip(n: nat)
    ensures DigitsValue(NaturalText(n)) == n
    decreases n
  {
    if n >= 10 {
      var s := NaturalText(n);
      assert s[..|s| - 1] == NaturalText(n / 10);
      NaturalTextRoundTrip(n / 10);
    }
  }

  /** Reading back the decimal text of any integer gives that integer. */
  lemma DecimalTextRoundTrip(n: int)
    ensures IntegerText(DecimalText(n)) == Some(n)
  {
    var s := DecimalText(n);
    if n < 0 {
      var digits := NaturalText(-n);
      assert s == "-" + digits;
      assert s[1..] == digits;
      assert |s| > 1 && s[0] == '-' && AllDigits(s[1..]);
      NaturalTextRoundTrip(-n);
    } else {
      assert IsDigit(s[0]);
      assert s[0] != '-' && s[0] != '+';
      NaturalTextRoundTrip(n);
    }
  }

  /** The decimal text of an integer is falsy exactly for zero. */
  lemma DecimalTextTruthy(n: int)
    ensures Truthy(DecimalText(n)) <==> n != 0
  {
    if n >= 10 {
      assert |NaturalText(n)| >= 2;
    } else if n < 0 {
      assert DecimalText(n)[0] == '-';
    }
  }
}

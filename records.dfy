/** The rows a table shows: flat records from field name to a displayable
    value, and the text JavaScript's `toString` gives each value. */
module Records {

  /** A field value. `Nested` stands for anything whose `typeof` is
      "object" (an object or an array), carrying the text its `toString`
      produces; the search skips these. Numbers are modelled as integers. */
  datatype Value = Str(s: string) | Num(n: int) | Bool(b: bool) | Nested(text: string)

  /** A record; a field that is absent reads as `undefined`. */
  type Record = map<string, Value>

  /** The decimal digit for `d`. */
  function Digit(d: int): char
    requires 0 <= d < 10
  {
    ('0' as int + d) as char
  }

  /** The decimal rendering of a natural number, most significant digit first. */
  function NatText(n: nat): (r: string)
    ensures |r| >= 1
    ensures forall i :: 0 <= i < |r| ==> '0' <= r[i] <= '9'
    ensures r[0] == '0' ==> n == 0
    decreases n
  {
    if n < 10 then [Digit(n)] else NatText(n / 10) + [Digit(n % 10)]
  }

  /** The value that a decimal digit string denotes. */
  function DigitsValue(s: string): int
    requires forall i :: 0 <= i < |s| ==> '0' <= s[i] <= '9'
    decreases |s|
  {
    if s == [] then 0 else DigitsValue(s[..|s| - 1]) * 10 + (s[|s| - 1] as int - '0' as int)
  }

  /** Reading the digits back gives the number: the rendering is faithful. */
  lemma {:induction false} NatTextValue(n: nat)
    ensures DigitsValue(NatText(n)) == n
    decreases n
  {
    if n >= 10 {
      NatTextValue(n / 10);
      assert n == (n / 10) * 10 + n % 10;
      var r := NatText(n / 10) + [Digit(n % 10)];
      assert r[..|r| - 1] == NatText(n / 10);
    }
  }

  /** `toString` of an integer: a minus sign for negatives, then the digits. */
  function NumText(n: int): string
  {
    if n < 0 then "-" + NatText(-n) else NatText(n)
  }

  /** `value.toString()`. */
  function Text(v: Value): string
  {
    match v
    case Str(s) => s
    case Num(n) => NumText(n)
    case Bool(b) => if b then "true" else "false"
    case Nested(t) => t
  }
}

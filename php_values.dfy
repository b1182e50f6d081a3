/** PHP scalar values as the package handles them: null, booleans, integers and
    strings, with PHP's truthiness and string conversion. */
module PhpValues {

  datatype Option<+T> = None | Some(value: T) {
    /** The value, or `default` when there is none (PHP's `??`). */
    function GetOr(default: T): T {
      if Some? then value else default
    }
  }

  /** A raised PHP error, for code paths that fail at run time. */
  datatype Fault = UndefinedVariable(name: string)

  /** Either a value or a raised error. */
  datatype Attempt<+T> = Done(value: T) | Raised(fault: Fault)

  /** A PHP scalar. Arrays and objects do not occur as column or config values in this model. */
  datatype Value = Null | Bool(b: bool) | Int(i: int) | Str(s: string)

  /** A string-keyed PHP array of scalars (a config record, a row's columns). */
  type Record = map<string, Value>

  /** Truthiness of a PHP string: "" and "0" are the falsy strings. */
  predicate StrTruthy(s: string) {
    s != "" && s != "0"
  }

  /** `boolval($v)` / `(bool) $v`. */
  predicate Truthy(v: Value) {
    match v
    case Null => false
    case Bool(b) => b
    case Int(i) => i != 0
    case Str(s) => StrTruthy(s)
  }

  function Digit(d: nat): (c: char)
    requires d < 10
    ensures c as int == '0' as int + d
  {
    "0123456789"[d]
  }

  /** Decimal digits of a natural number, most significant first. */
  function NatToDecimal(n: nat): (r: string)
    ensures |r| > 0
    ensures forall k :: 0 <= k < |r| ==> '0' <= r[k] <= '9'
    decreases n
  {
    if n < 10 then [Digit(n)] else NatToDecimal(n / 10) + [Digit(n % 10)]
  }

  /** `(string) $v`: null and false become "", true becomes "1". */
  function ToStr(v: Value): string {
    match v
    case Null => ""
    case Bool(b) => if b then "1" else ""
    case Int(i) => if i < 0 then "-" + NatToDecimal(-i) else NatToDecimal(i)
    case Str(s) => s
  }

  /** `$array[$key]`: an undefined key reads as null. */
  function Lookup(m: Record, k: string): Value {
    if k in m then m[k] else Null
  }

  /** `array_get($array, $key, $default)`: the default applies only when the key is absent. */
  function ArrGet(m: Record, k: string, default: Value): Value {
    if k in m then m[k] else default
  }

  /** The whitespace PHP 7 skips before a numeric string: space, `\t`, `\n`, `\r`,
      `\v` and `\f`. */
  predicate IsSpace(c: char) {
    c == ' ' || c == '\t' || c == '\n' || c == '\r' || c as int == 11 || c as int == 12
  }

  predicate IsDigit(c: char) {
    '0' as int <= c as int <= '9' as int
  }

  /** The length of the longest prefix of `s` made of decimal digits. */
  function DigitRun(s: string): (n: nat)
    ensures n <= |s|
    ensures forall k :: 0 <= k < n ==> IsDigit(s[k])
    ensures n < |s| ==> !IsDigit(s[n])
  {
    if s != [] && IsDigit(s[0]) then 1 + DigitRun(s[1..]) else 0
  }

  /** The value of a string of decimal digits, most significant first ("" is 0). */
  function DecimalValue(d: string): nat
    requires forall k :: 0 <= k < |d| ==> IsDigit(d[k])
  {
    if d == [] then 0
    else
      var last := d[|d| - 1];
      assert IsDigit(last);
      DecimalValue(d[..|d| - 1]) * 10 + (last as int - '0' as int)
  }

  /** The integer PHP 7 reads from a string compared with an integer: leading whitespace
      is skipped, then an optional sign and the longest run of digits; a string with no
      such prefix reads as 0, and whatever follows the digits is ignored. */
  function LeadingInt(s: string): int {
    if s != [] && IsSpace(s[0]) then LeadingInt(s[1..])
    else if s != [] && (s[0] == '-' || s[0] == '+') then
      var digits := s[1..][..DigitRun(s[1..])];
      var magnitude: int := DecimalValue(digits);
      if s[0] == '-' then -magnitude else magnitude
    else DecimalValue(s[..DigitRun(s)])
  }

  /** The digits of a natural number read back as that number. */
  lemma {:induction false} DecimalValueOfNat(n: nat)
    ensures DecimalValue(NatToDecimal(n)) == n
    decreases n
  {
    var d := NatToDecimal(n);
    if n >= 10 {
      DecimalValueOfNat(n / 10);
      assert d[..|d| - 1] == NatToDecimal(n / 10);
    }
  }

  /** A run made only of digits is the whole string. */
  lemma {:induction false} DigitRunAll(s: string)
    requires forall k :: 0 <= k < |s| ==> IsDigit(s[k])
    ensures DigitRun(s) == |s|
  {
    if s != [] {
      DigitRunAll(s[1..]);
    }
  }

  /** An integer compared with its own decimal string reads back as itself. */
  lemma LeadingIntOfDecimal(i: int)
    ensures LeadingInt(ToStr(Int(i))) == i
  {
    var n: nat := if i < 0 then -i else i;
    var d := NatToDecimal(n);
    DigitRunAll(d);
    DecimalValueOfNat(n);
    assert d[..DigitRun(d)] == d;
    if i < 0 {
      var s := "-" + d;
      assert ToStr(Int(i)) == s;
      assert s[1..] == d;
      assert !IsSpace(s[0]);
    } else {
      assert ToStr(Int(i)) == d;
      assert !IsSpace(d[0]) && d[0] != '-' && d[0] != '+';
    }
  }

  /** `$value == $s` for a string `$s` under PHP 7's loose comparison: null compares as
      "", a boolean with the string's truthiness, an integer with the string's leading
      integer (`LeadingInt`), and a string by its contents. */
  predicate LooseEqualsString(v: Value, s: string) {
    match v
    case Null => s == ""
    case Bool(b) => b == StrTruthy(s)
    case Int(i) => i == LeadingInt(s)
    case Str(t) => t == s
  }

  /** An integer loosely equals its own decimal string; a string without a leading
      number equals 0, and a leading number decides on its own. */
  lemma LooseIntegerComparison(i: int)
    ensures LooseEqualsString(Int(i), ToStr(Int(i)))
    ensures LooseEqualsString(Int(0), "en")
    ensures LooseEqualsString(Int(5), "5abc") && LooseEqualsString(Int(-5), " -5")
    ensures !LooseEqualsString(Int(1), "en")
  {
    LeadingIntOfDecimal(i);
    assert DigitRun("en") == 0;
    assert DigitRun("5abc"[1..]) == 0;
    assert DigitRun("5abc") == 1;
    assert " -5"[1..] == "-5";
    assert "-5"[1..] == "5";
    assert DigitRun("5") == 1;
  }
}

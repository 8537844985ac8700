/** The small part of the PHP runtime the plugin leans on: values stored in
    options and theme mods, their truthiness, `empty()` on strings, and the
    way PHP turns a string used as an array key into an integer key. */
module Php {

  datatype Option<+T> = None | Some(value: T)

  /** A PHP value, as far as the option store and the theme mods need one.
      Arrays are keyed by strings; their order is not modelled. */
  datatype Value =
    | Null
    | Bool(b: bool)
    | Int(i: int)
    | Str(s: string)
    | Arr(items: map<string, Value>)

  /** `empty($s)` for a string: only "" and "0" are empty. */
  predicate EmptyString(s: string) {
    s == "" || s == "0"
  }

  /** `(bool) $v`, the test an `if` applies to a value. */
  predicate Truthy(v: Value) {
    match v
    case Null => false
    case Bool(b) => b
    case Int(i) => i != 0
    case Str(s) => !EmptyString(s)
    case Arr(items) => items != map[]
  }

  /** The largest integer of a 64-bit PHP build (PHP_INT_MAX). */
  const PhpIntMax: int := 0x7FFF_FFFF_FFFF_FFFF

  /** A key of a PHP array after normalisation. */
  datatype Key = IntKey(n: int) | StrKey(s: string)

  predicate IsDigit(c: char) {
    '0' <= c <= '9'
  }

  predicate AllDigits(s: string) {
    forall i | 0 <= i < |s| :: IsDigit(s[i])
  }

  /** A decimal numeral without sign and without leading zeros ("0", "7", "42"). */
  predicate CanonicalNumeral(s: string) {
    |s| > 0 && AllDigits(s) && (s[0] == '0' ==> |s| == 1)
  }

  function NumeralValue(s: string): (n: nat)
    requires AllDigits(s)
    decreases |s|
  {
    if s == [] then 0
    else NumeralValue(s[..|s| - 1]) * 10 + (s[|s| - 1] as int - '0' as int)
  }

  /** The key `$a[$name]` really uses: a string that reads as a canonical
      decimal integer within the 64-bit range ("5", "-12", but not "05",
      "-0" or "5a") becomes that integer; every other string stays a string. */
  function ToKey(name: string): (k: Key)
    ensures k.StrKey? ==> k.s == name
    ensures k.IntKey? ==> 0 < |name| && (IsDigit(name[0]) || name[0] == '-')
    ensures k.IntKey? ==> -PhpIntMax - 1 <= k.n <= PhpIntMax
    // A non-negative integer key comes exactly from an unsigned canonical
    // numeral in range, and its value is the numeral's.
    ensures (k.IntKey? && k.n >= 0) <==> (CanonicalNumeral(name) && NumeralValue(name) <= PhpIntMax)
    ensures k.IntKey? && k.n >= 0 ==> k.n == NumeralValue(name)
    // A negative one comes exactly from "-" and a canonical numeral other
    // than "0" whose value is at most 2^63, and it is that value negated.
    ensures (k.IntKey? && k.n < 0) <==>
      (|name| > 1 && name[0] == '-' && CanonicalNumeral(name[1..]) && name[1..] != "0"
       && NumeralValue(name[1..]) <= PhpIntMax + 1)
    ensures k.IntKey? && k.n < 0 ==> 1 < |name| && AllDigits(name[1..]) && k.n == 0 - NumeralValue(name[1..])
  {
    if CanonicalNumeral(name) && NumeralValue(name) <= PhpIntMax then
      IntKey(NumeralValue(name))
    else if |name| > 1 && name[0] == '-' && CanonicalNumeral(name[1..]) && name[1..] != "0"
            && NumeralValue(name[1..]) <= PhpIntMax + 1 then
      NumeralPositive(name[1..]);
      IntKey(0 - NumeralValue(name[1..]))
    else
      StrKey(name)
  }

  /** Examples of the rule: "5" and "-12" become integer keys, while "05",
      "-0" and "5a" stay strings. */
  lemma ToKeyExamples()
    ensures ToKey("5") == IntKey(5) && ToKey("-12") == IntKey(-12)
    ensures ToKey("05") == StrKey("05") && ToKey("-0") == StrKey("-0") && ToKey("5a") == StrKey("5a")
  {
    assert NumeralValue("5") == 5;
    assert "-12"[1..] == "12" && NumeralValue("12") == 12;
    assert !IsDigit("5a"[1]) && !IsDigit("-0"[0]);
    assert "-0"[1..] == "0";
  }

  /** A canonical numeral other than "0" has a value of at least 1. */
  lemma {:induction false} NumeralPositive(s: string)
    requires CanonicalNumeral(s) && s != "0"
    ensures NumeralValue(s) >= 1
  {
    if |s| > 1 {
      var p := s[..|s| - 1];
      assert p[0] == s[0] && p != "0";
      NumeralPositive(p);
    }
  }

  /** Two canonical numerals with the same value are the same string. */
  lemma {:induction false} NumeralInjective(a: string, b: string)
    requires CanonicalNumeral(a) && CanonicalNumeral(b)
    requires NumeralValue(a) == NumeralValue(b)
    ensures a == b
    decreases |a|
  {
    if |a| == 1 && |b| == 1 {
      assert NumeralValue(a) == a[0] as int - '0' as int;
      assert NumeralValue(b) == b[0] as int - '0' as int;
    } else if |a| == 1 {
      var q := b[..|b| - 1];
      assert q[0] == b[0] && q != "0";
      NumeralPositive(q);
    } else if |b| == 1 {
      var p := a[..|a| - 1];
      assert p[0] == a[0] && p != "0";
      NumeralPositive(p);
    } else {
      var p, q := a[..|a| - 1], b[..|b| - 1];
      assert p[0] == a[0] && q[0] == b[0];
      var da, db := a[|a| - 1] as int - '0' as int, b[|b| - 1] as int - '0' as int;
      assert NumeralValue(a) == NumeralValue(p) * 10 + da;
      assert NumeralValue(b) == NumeralValue(q) * 10 + db;
      assert da == db && NumeralValue(p) == NumeralValue(q);
      NumeralInjective(p, q);
      assert a == p + [a[|a| - 1]] && b == q + [b[|b| - 1]];
    }
  }

  /** Distinct strings never share an array key, so an array keyed by theme
      names behaves as a table keyed by the names themselves. */
  lemma ToKeyInjective(a: string, b: string)
    requires ToKey(a) == ToKey(b)
    ensures a == b
  {
    var k := ToKey(a);
    if k.IntKey? {
      if k.n >= 0 {
        NumeralInjective(a, b);
      } else {
        NumeralInjective(a[1..], b[1..]);
        assert a == a[..1] + a[1..] && b == b[..1] + b[1..];
      }
    }
  }
}

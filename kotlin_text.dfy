/** The parts of Kotlin's string library that the translator relies on. */
module KotlinText {
  import opened Wrappers

  const IntMin: int := -0x8000_0000
  const IntMax: int := 0x7FFF_FFFF

  /** `Char.isWhitespace()` on the JVM: a Java whitespace character or a Unicode space separator. */
  predicate IsWhitespace(c: char)
    ensures c == ' ' || c == '\t' || c == '\n' ==> IsWhitespace(c)
    ensures ('0' <= c <= '9') || ('a' <= c <= 'z') || ('A' <= c <= 'Z') ==> !IsWhitespace(c)
  {
    c == '\t' || c == '\n' || c == '\U{B}' || c == '\U{C}' || c == '\r'
    || ('\U{1C}' <= c <= '\U{1F}')
    || c == ' ' || c == '\U{A0}' || c == '\U{1680}' || ('\U{2000}' <= c <= '\U{200A}')
    || c == '\U{2028}' || c == '\U{2029}' || c == '\U{202F}' || c == '\U{205F}' || c == '\U{3000}'
  }

  /** `CharSequence.isBlank()`: empty or whitespace only */
  predicate IsBlank(s: string)
    ensures |s| == 0 ==> IsBlank(s)
    ensures |s| > 0 && IsDigit(s[0]) ==> !IsBlank(s)
  {
    forall i :: 0 <= i < |s| ==> IsWhitespace(s[i])
  }

  /** `CharSequence?.isNullOrBlank()` */
  predicate IsNullOrBlank(s: Option<string>)
  {
    s.None? || IsBlank(s.value)
  }

  /** A null or empty detail counts as blank; one that starts with a digit does not. */
  lemma NullOrBlankCases(s: Option<string>)
    ensures s.None? || s == Some("") ==> IsNullOrBlank(s)
    ensures s.Some? && |s.value| > 0 && IsDigit(s.value[0]) ==> !IsNullOrBlank(s)
  {
  }

  /** Upper-case mapping of one character, as far as it can matter for a comparison with
      an upper-case ASCII word: ASCII letters, and U+017F (long s), whose upper case is 'S'. */
  function UppercaseChar(c: char): char {
    if 'a' <= c <= 'z' then (c as int - 32) as char
    else if c == '\U{17F}' then 'S'
    else c
  }

  /** `String.uppercase()`, character by character (see UppercaseChar) */
  function Uppercase(s: string): (r: string)
    ensures |r| == |s|
  {
    seq(|s|, i requires 0 <= i < |s| => UppercaseChar(s[i]))
  }

  /** `v.uppercase() == "YES"` holds exactly for the spellings of "yes" in any case. */
  lemma UppercaseIsYes(v: string)
    ensures Uppercase(v) == "YES" <==>
      |v| == 3 && v[0] in "yY" && v[1] in "eE" && v[2] in "sS\U{17F}"
  {
    if |v| == 3 && v[0] in "yY" && v[1] in "eE" && v[2] in "sS\U{17F}" {
      assert Uppercase(v)[0] == 'Y' && Uppercase(v)[1] == 'E' && Uppercase(v)[2] == 'S';
    }
    if Uppercase(v) == "YES" {
      assert Uppercase(v)[0] == 'Y' && Uppercase(v)[1] == 'E' && Uppercase(v)[2] == 'S';
      assert UppercaseChar(v[0]) == 'Y' && UppercaseChar(v[1]) == 'E' && UppercaseChar(v[2]) == 'S';
    }
  }

  predicate IsDigit(c: char) { '0' <= c <= '9' }

  predicate AllDigits(s: string) {
    forall i :: 0 <= i < |s| ==> IsDigit(s[i])
  }

  /** The number written by a string of decimal digits */
  function DigitsValue(s: string): nat
    requires AllDigits(s)
    decreases |s|
  {
    if s == [] then 0
    else DigitsValue(s[..|s| - 1]) * 10 + (s[|s| - 1] as int - '0' as int)
  }

  /** Keeps a parsed value only when it fits a 32-bit `Int` */
  function IntOrNull(n: int): (r: Option<int>)
  {
    if IntMin <= n <= IntMax then Some(n) else None
  }

  /** `String.toIntOrNull()`: an optional '+' or '-' followed by at least one decimal digit,
      with no other character, whose value fits a 32-bit `Int`; anything else is null. */
  function ToIntOrNull(s: string): (r: Option<int>)
    ensures r.Some? ==> IntMin <= r.value <= IntMax
  {
    if |s| == 0 then None
    else if s[0] < '0' then
      if |s| == 1 then None
      else if s[0] == '-' && AllDigits(s[1..]) then IntOrNull(-(DigitsValue(s[1..]) as int))
      else if s[0] == '+' && AllDigits(s[1..]) then IntOrNull(DigitsValue(s[1..]))
      else None
    else if AllDigits(s) then IntOrNull(DigitsValue(s))
    else None
  }

  function DigitChar(d: nat): char
    requires d < 10
  {
    ('0' as int + d) as char
  }

  /** Decimal digits of a natural number, without leading zeros */
  function NatToDigits(n: nat): (s: string)
    ensures |s| >= 1 && AllDigits(s)
    ensures |s| > 1 ==> s[0] != '0'
  {
    if n < 10 then [DigitChar(n)] else NatToDigits(n / 10) + [DigitChar(n % 10)]
  }

  /** `Long.toString()`: decimal, with a leading '-' for negative numbers */
  function LongToString(n: int): (r: string)
    ensures |r| >= 1 && (r[0] == '-' <==> n < 0)
    ensures n >= 0 ==> AllDigits(r)
    ensures n < 0 ==> AllDigits(r[1..])
    ensures n >= 0 ==> DigitsValue(r) == n
    ensures n < 0 ==> DigitsValue(r[1..]) == -n
    ensures n >= 0 ==> r == NatToDigits(n)
    ensures n < 0 ==> r == "-" + NatToDigits(-n)
  {
    if n < 0 then
      var digits := NatToDigits(-n);
      DigitsRoundTrip(-n);
      assert ("-" + digits)[1..] == digits;
      "-" + digits
    else
      DigitsRoundTrip(n);
      NatToDigits(n)
  }

  lemma {:induction false} DigitsRoundTrip(n: nat)
    ensures DigitsValue(NatToDigits(n)) == n
  {
    if n >= 10 {
      var s := NatToDigits(n);
      assert s[..|s| - 1] == NatToDigits(n / 10);
      DigitsRoundTrip(n / 10);
    }
  }

  /** `toString()` never maps two numbers to one string. */
  lemma LongToStringInjective(m: int, n: int)
    requires LongToString(m) == LongToString(n)
    ensures m == n
  {
    var s := LongToString(m);
    if m < 0 && n < 0 {
      assert s[1..] == NatToDigits(-m) && s[1..] == NatToDigits(-n);
      NatToDigitsInjective(-m, -n);
    } else if m >= 0 && n >= 0 {
      NatToDigitsInjective(m, n);
    } else {
      assert false;
    }
  }

  lemma NatToDigitsInjective(a: nat, b: nat)
    requires NatToDigits(a) == NatToDigits(b)
    ensures a == b
  {
    DigitsRoundTrip(a);
    DigitsRoundTrip(b);
  }

  /** Only a numeral parses: digits, or a sign followed by digits; every other string gives null. */
  lemma ToIntOrNullOnlyNumerals(s: string)
    ensures ToIntOrNull(s).Some? ==>
      (|s| >= 1 && AllDigits(s)) || (|s| >= 2 && (s[0] == '+' || s[0] == '-') && AllDigits(s[1..]))
  {
  }

  /** A numeral parses to its value exactly when that value fits an `Int`, and to null otherwise. */
  lemma ToIntOrNullNumeralValue(s: string)
    ensures |s| >= 1 && AllDigits(s) ==>
      ToIntOrNull(s) == if DigitsValue(s) <= IntMax then Some(DigitsValue(s)) else None
    ensures |s| >= 2 && s[0] == '+' && AllDigits(s[1..]) ==>
      ToIntOrNull(s) == if DigitsValue(s[1..]) <= IntMax then Some(DigitsValue(s[1..])) else None
    ensures |s| >= 2 && s[0] == '-' && AllDigits(s[1..]) ==>
      ToIntOrNull(s) == if DigitsValue(s[1..]) <= -IntMin then Some(-(DigitsValue(s[1..]) as int)) else None
  {
    if |s| >= 1 && AllDigits(s) {
      assert IsDigit(s[0]);
    }
  }

  /** A shoe size such as "abc" is not a number: parsing it gives null, not an error. */
  lemma NonNumericIsNull()
    ensures ToIntOrNull("abc") == None
    ensures ToIntOrNull("") == None && ToIntOrNull("-") == None && ToIntOrNull(" 9") == None
  {
    assert !AllDigits("abc");
    assert !IsDigit(" 9"[0]);
  }

  /** One past the largest `Int` is too large to parse, so it gives null as well. */
  lemma OverflowIsNull()
    ensures ToIntOrNull("2147483648") == None
  {
    assert "2"[..0] == "";
    assert DigitsValue("2") == 2;
    assert "21"[..1] == "2";
    assert DigitsValue("21") == 21;
    assert "214"[..2] == "21";
    assert DigitsValue("214") == 214;
    assert "2147"[..3] == "214";
    assert DigitsValue("2147") == 2147;
    assert "21474"[..4] == "2147";
    assert DigitsValue("21474") == 21474;
    assert "214748"[..5] == "21474";
    assert DigitsValue("214748") == 214748;
    assert "2147483"[..6] == "214748";
    assert DigitsValue("2147483") == 2147483;
    assert "21474836"[..7] == "2147483";
    assert DigitsValue("21474836") == 21474836;
    assert "214748364"[..8] == "21474836";
    assert DigitsValue("214748364") == 214748364;
    assert "2147483648"[..9] == "214748364";
    assert DigitsValue("2147483648") == 2147483648;
  }

  /** How a string template renders a nullable string: null becomes the text "null". */
  function Render(s: Option<string>): (r: string)
    ensures s.Some? ==> r == s.value
    ensures s.None? ==> r == "null"
  {
    match s
    case Some(v) => v
    case None => "null"
  }
}

/**
 * The two JavaScript string built-ins the customer form's validation relies
 * on: `String.prototype.trim` and the `Number(string)` conversion
 * (StringToNumber, section 7.1.4.1.1 of ECMA-262), the latter over exact
 * reals rather than IEEE doubles.
 */
module JsText {
  import opened Wrappers

  /** The WhiteSpace and LineTerminator code points of ECMA-262 (sections 12.2 and 12.3). */
  predicate IsJsWhitespace(c: char) {
    || c == '\t' || c == '\n' || c == '\U{B}' || c == '\U{C}' || c == '\r'
    || c == ' ' || c == '\U{A0}' || c == '\U{1680}' || ('\U{2000}' <= c <= '\U{200A}')
    || c == '\U{2028}' || c == '\U{2029}' || c == '\U{202F}' || c == '\U{205F}'
    || c == '\U{3000}' || c == '\U{FEFF}'
  }

  /** Drops leading white space: the result is the longest suffix not starting with white space. */
  function TrimStart(s: string): (r: string)
    ensures |r| <= |s| && r == s[|s| - |r|..]
    ensures r != [] ==> !IsJsWhitespace(r[0])
    ensures forall i :: 0 <= i < |s| - |r| ==> IsJsWhitespace(s[i])
  {
    if s != [] && IsJsWhitespace(s[0]) then TrimStart(s[1..]) else s
  }

  /** Drops trailing white space: the result is the longest prefix not ending with white space. */
  function TrimEnd(s: string): (r: string)
    ensures |r| <= |s| && r == s[..|r|]
    ensures r != [] ==> !IsJsWhitespace(r[|r| - 1])
    ensures forall i :: |r| <= i < |s| ==> IsJsWhitespace(s[i])
  {
    if s != [] && IsJsWhitespace(s[|s| - 1]) then TrimEnd(s[..|s| - 1]) else s
  }

  /** `String.prototype.trim` */
  function Trim(s: string): string {
    TrimEnd(TrimStart(s))
  }

  /** A string is falsy after `trim()` exactly when every character of it is white space. */
  lemma TrimEmptyIff(s: string)
    ensures Trim(s) == [] <==> forall i :: 0 <= i < |s| ==> IsJsWhitespace(s[i])
  {
    var t := TrimStart(s);
    if Trim(s) == [] {
      forall i | 0 <= i < |s| ensures IsJsWhitespace(s[i]) {
        if i >= |s| - |t| {
          assert s[i] == t[i - (|s| - |t|)];
        }
      }
    } else {
      var r := Trim(s);
      assert r[0] == t[0] == s[|s| - |t|];
      assert !IsJsWhitespace(s[|s| - |t|]);
    }
  }

  /** A string that neither starts nor ends with white space is its own trim. */
  lemma TrimUnchanged(s: string)
    requires s != [] && !IsJsWhitespace(s[0]) && !IsJsWhitespace(s[|s| - 1])
    ensures Trim(s) == s
  {
    assert TrimStart(s) == s;
    assert TrimEnd(s) == s;
  }

  /** The result of `Number(...)`: not a number, a finite value, or an infinity. */
  datatype JsNumber = NaN | Finite(value: real) | Infinite(negative: bool)

  /** `x <= 0` for a number: false for NaN, and for an infinity true only when negative. */
  predicate AtMostZero(n: JsNumber) {
    match n
    case NaN => false
    case Finite(v) => v <= 0.0
    case Infinite(negative) => negative
  }

  /** The value of a digit character in bases up to 16, and 16 for any other character. */
  function DigitValue(c: char): (v: nat)
    ensures v <= 16
  {
    if '0' <= c <= '9' then (c as int - '0' as int)
    else if 'a' <= c <= 'f' then (c as int - 'a' as int) + 10
    else if 'A' <= c <= 'F' then (c as int - 'A' as int) + 10
    else 16
  }

  predicate AllDigits(s: string, radix: nat) {
    forall i :: 0 <= i < |s| ==> DigitValue(s[i]) < radix
  }

  /** The value of a digit string in the given base, most significant digit first. */
  function Positional(s: string, radix: nat): nat {
    if s == [] then 0 else Positional(s[..|s| - 1], radix) * radix + DigitValue(s[|s| - 1])
  }

  function Pow10(n: nat): (r: nat)
    ensures r >= 1
  {
    if n == 0 then 1 else 10 * Pow10(n - 1)
  }

  /** The position of the first character of `cs` in `s`, or `|s|` when there is none. */
  function IndexOfAny(s: string, cs: set<char>): (k: nat)
    ensures k <= |s|
    ensures k < |s| ==> s[k] in cs
    ensures forall i :: 0 <= i < k ==> s[i] !in cs
  {
    if s == [] then 0
    else if s[0] in cs then 0
    else 1 + IndexOfAny(s[1..], cs)
  }

  /** StrDecimalLiteral's exponent part after the `e`: an optional sign, then one or more digits. */
  function Exponent(s: string): Option<int> {
    var negative := s != [] && s[0] == '-';
    var digits := if s != [] && (s[0] == '+' || s[0] == '-') then s[1..] else s;
    var magnitude: int := Positional(digits, 10);
    if digits != [] && AllDigits(digits, 10) then Some(if negative then -magnitude else magnitude)
    else None
  }

  /** The value `whole.fraction × 10^exponent` of a decimal literal's parts,
      where the fraction has `places` digits. */
  function Scale(whole: nat, fraction: nat, places: nat, exponent: int): (v: real)
    ensures v >= 0.0
  {
    var p := Pow10(places) as real;
    var m := whole as real + fraction as real / p;
    assert fraction as real / p >= 0.0;
    if exponent >= 0 then m * Pow10(exponent) as real else m / Pow10(-exponent) as real
  }

  /** StrUnsignedDecimalLiteral other than Infinity: digits, an optional point and
      fraction (at least one digit in all), then an optional exponent. */
  function UnsignedDecimal(u: string): (r: Option<real>)
    ensures r.Some? ==> r.value >= 0.0
  {
    var e := IndexOfAny(u, {'e', 'E'});
    var mantissa := u[..e];
    var dot := IndexOfAny(mantissa, {'.'});
    var whole := mantissa[..dot];
    var fraction := if dot < |mantissa| then mantissa[dot + 1..] else [];
    var exponent := if e < |u| then Exponent(u[e + 1..]) else Some(0);
    if AllDigits(whole, 10) && AllDigits(fraction, 10) && |whole| + |fraction| > 0 && exponent.Some? then
      Some(Scale(Positional(whole, 10), Positional(fraction, 10), |fraction|, exponent.value))
    else None
  }

  /** A signed StrDecimalLiteral, with `Infinity` spelled out. */
  function SignedDecimal(u: string, negative: bool): (n: JsNumber)
    ensures (n.Finite? && n.value < 0.0) || n == Infinite(true) ==> negative
  {
    if u == "Infinity" then Infinite(negative)
    else match UnsignedDecimal(u)
      case None => NaN
      case Some(v) => Finite(if negative then -v else v)
  }

  /** NonDecimalIntegerLiteral after its `0x`, `0o` or `0b` prefix. */
  function RadixInteger(digits: string, radix: nat): (n: JsNumber)
    ensures n.NaN? || (n.Finite? && n.value >= 0.0)
  {
    if digits != [] && AllDigits(digits, radix) then Finite(Positional(digits, radix) as real) else NaN
  }

  /** `Number(s)` for a string: white space around the literal is ignored, and a blank string is 0.
      Only a literal written with a leading minus sign converts to a negative number or to
      negative infinity. */
  function ToNumber(s: string): (n: JsNumber)
    ensures (n.Finite? && n.value < 0.0) || n == Infinite(true) ==> Trim(s) != [] && Trim(s)[0] == '-'
  {
    var t := Trim(s);
    if t == [] then Finite(0.0)
    else if |t| >= 2 && t[0] == '0' && t[1] in {'x', 'X'} then RadixInteger(t[2..], 16)
    else if |t| >= 2 && t[0] == '0' && t[1] in {'o', 'O'} then RadixInteger(t[2..], 8)
    else if |t| >= 2 && t[0] == '0' && t[1] in {'b', 'B'} then RadixInteger(t[2..], 2)
    else if t[0] == '+' then SignedDecimal(t[1..], false)
    else if t[0] == '-' then SignedDecimal(t[1..], true)
    else SignedDecimal(t, false)
  }

  /** A blank string converts to zero. */
  lemma BlankIsZero(s: string)
    requires forall i :: 0 <= i < |s| ==> IsJsWhitespace(s[i])
    ensures ToNumber(s) == Finite(0.0)
  {
    TrimEmptyIff(s);
  }

  lemma DecimalDigitsNotWhitespace(s: string)
    requires AllDigits(s, 10)
    ensures forall i :: 0 <= i < |s| ==> '0' <= s[i] <= '9' && !IsJsWhitespace(s[i])
  {
    forall i | 0 <= i < |s| ensures '0' <= s[i] <= '9' {
      assert DigitValue(s[i]) < 10;
    }
  }

  /** An unsigned decimal literal without point or exponent has its positional value. */
  lemma UnsignedDigits(u: string)
    requires u != [] && AllDigits(u, 10)
    ensures UnsignedDecimal(u) == Some(Positional(u, 10) as real)
  {
    DecimalDigitsNotWhitespace(u);
    assert IndexOfAny(u, {'e', 'E'}) == |u|;
    assert u[..|u|] == u;
    assert IndexOfAny(u, {'.'}) == |u|;
  }

  lemma NotRadixPrefixed(s: string)
    requires s != [] && AllDigits(s, 10)
    ensures s[0] != '+' && s[0] != '-'
    ensures |s| >= 2 ==> s[1] !in {'x', 'X'} && s[1] !in {'o', 'O'} && s[1] !in {'b', 'B'}
  {
    DecimalDigitsNotWhitespace(s);
  }

  /** A plain string of decimal digits converts to its positional value. */
  lemma DigitsToNumber(s: string)
    requires s != [] && AllDigits(s, 10)
    ensures ToNumber(s) == Finite(Positional(s, 10) as real)
  {
    DecimalDigitsNotWhitespace(s);
    TrimUnchanged(s);
    NotRadixPrefixed(s);
    assert ToNumber(s) == SignedDecimal(s, false);
    assert s != "Infinity" by { assert s[0] != 'I'; }
    UnsignedDigits(s);
  }

  /** A minus sign followed by decimal digits converts to the negated value. */
  lemma NegatedDigitsToNumber(s: string)
    requires s != [] && AllDigits(s, 10)
    ensures ToNumber("-" + s) == Finite(-(Positional(s, 10) as real))
  {
    var t := "-" + s;
    DecimalDigitsNotWhitespace(s);
    assert t[|t| - 1] == s[|s| - 1];
    TrimUnchanged(t);
    assert t[1..] == s;
    assert ToNumber(t) == SignedDecimal(s, true);
    assert s != "Infinity" by { assert s[0] != 'I'; }
    UnsignedDigits(s);
  }

  /** In a literal `whole.fraction` there is no exponent mark, and the point follows the whole part. */
  lemma PointedIndices(whole: string, fraction: string)
    requires AllDigits(whole, 10) && AllDigits(fraction, 10)
    ensures IndexOfAny(whole + "." + fraction, {'e', 'E'}) == |whole + "." + fraction|
    ensures IndexOfAny(whole + "." + fraction, {'.'}) == |whole|
  {
    var u := whole + "." + fraction;
    DecimalDigitsNotWhitespace(whole);
    DecimalDigitsNotWhitespace(fraction);
    forall i | 0 <= i < |u| ensures u[i] == '.' || '0' <= u[i] <= '9' {
      if i < |whole| {
        assert u[i] == whole[i];
      } else if i > |whole| {
        assert u[i] == fraction[i - |whole| - 1];
      }
    }
    assert u[|whole|] == '.';
    assert forall i :: 0 <= i < |whole| ==> u[i] == whole[i];
  }

  /** An unsigned literal with a point, `whole.fraction`, has its decimal value. */
  lemma UnsignedPointed(whole: string, fraction: string)
    requires whole != [] && AllDigits(whole, 10) && AllDigits(fraction, 10)
    ensures UnsignedDecimal(whole + "." + fraction)
              == Some(Scale(Positional(whole, 10), Positional(fraction, 10), |fraction|, 0))
  {
    var u := whole + "." + fraction;
    PointedIndices(whole, fraction);
    assert u[..|u|] == u;
    assert u[..|whole|] == whole;
    assert u[|whole| + 1..] == fraction;
  }

  /** A trimmed literal without sign or radix prefix is read as an unsigned decimal. */
  lemma PlainDispatch(t: string)
    requires t != [] && Trim(t) == t && t[0] != '+' && t[0] != '-'
    requires |t| >= 2 ==> t[1] !in {'x', 'X'} && t[1] !in {'o', 'O'} && t[1] !in {'b', 'B'}
    ensures ToNumber(t) == SignedDecimal(t, false)
  {
  }

  /** A trimmed literal with a leading minus sign is read as a negated decimal. */
  lemma MinusDispatch(t: string)
    requires t != [] && Trim(t) == t && t[0] == '-'
    ensures ToNumber(t) == SignedDecimal(t[1..], true)
  {
  }

  /** The characters of a literal `whole.fraction` are digits and one point. */
  lemma PointedShape(whole: string, fraction: string)
    requires whole != [] && AllDigits(whole, 10) && AllDigits(fraction, 10)
    ensures var u := whole + "." + fraction;
            '0' <= u[0] <= '9' && !IsJsWhitespace(u[0]) && !IsJsWhitespace(u[|u| - 1])
            && (|u| >= 2 ==> u[1] == '.' || '0' <= u[1] <= '9')
  {
    var u := whole + "." + fraction;
    DecimalDigitsNotWhitespace(whole);
    DecimalDigitsNotWhitespace(fraction);
    assert u[0] == whole[0];
    assert |u| >= 2 ==> u[1] == '.' || u[1] == whole[1];
    assert u[|u| - 1] == '.' || u[|u| - 1] == fraction[|fraction| - 1];
  }

  /** The value of the digits `whole.fraction`. */
  function PointedValue(whole: string, fraction: string): (v: real)
    ensures v >= 0.0
    ensures v == 0.0 <==> Positional(whole, 10) == 0 && Positional(fraction, 10) == 0
  {
    var p := Pow10(|fraction|) as real;
    var f := Positional(fraction, 10) as real;
    assert f / p >= 0.0;
    assert f / p == 0.0 <==> f == 0.0;
    Positional(whole, 10) as real + f / p
  }

  /** A decimal literal `whole.fraction`, with or without a minus sign in front,
      converts to its signed decimal value. */
  lemma PointedToNumber(whole: string, fraction: string)
    requires whole != [] && AllDigits(whole, 10) && AllDigits(fraction, 10)
    ensures ToNumber(whole + "." + fraction) == Finite(PointedValue(whole, fraction))
    ensures ToNumber("-" + (whole + "." + fraction)) == Finite(-PointedValue(whole, fraction))
  {
    var u := whole + "." + fraction;
    PointedShape(whole, fraction);
    assert u != "Infinity" by { assert u[0] != 'I'; }
    UnsignedPointed(whole, fraction);
    var v := PointedValue(whole, fraction);
    assert Scale(Positional(whole, 10), Positional(fraction, 10), |fraction|, 0) == v by {
      assert Pow10(0) == 1;
    }
    assert SignedDecimal(u, false) == Finite(v);
    assert SignedDecimal(u, true) == Finite(-v);
    TrimUnchanged(u);
    PlainDispatch(u);
    var t := "-" + u;
    assert t[|t| - 1] == u[|u| - 1];
    TrimUnchanged(t);
    MinusDispatch(t);
    assert t[1..] == u;
  }
}

/** JavaScript `parseInt(s, 10)` on a string, as `routes/set.js` uses it:
    leading white space is skipped, one optional sign is read, then the
    longest run of decimal digits; no digits at all is `NaN` (here `None`).
    Values are unbounded integers and `-0` is `0`. */
module JsParseInt {
  import opened Wrappers

  /** White space and line terminators that `parseInt` skips. */
  predicate IsStrWhiteSpace(c: char) {
    var n := c as int;
    // tab, line tabulation, form feed, space, no-break space, byte order mark
    || n == 0x09 || n == 0x0B || n == 0x0C || n == 0x20 || n == 0xA0 || n == 0xFEFF
    // the other space separators (Unicode category Zs)
    || n == 0x1680 || (0x2000 <= n <= 0x200A) || n == 0x202F || n == 0x205F || n == 0x3000
    // line terminators
    || n == 0x0A || n == 0x0D || n == 0x2028 || n == 0x2029
  }

  predicate IsDigit(c: char) {
    '0' <= c <= '9'
  }

  predicate AllDigits(s: string) {
    forall i :: 0 <= i < |s| ==> IsDigit(s[i])
  }

  /** `s` with its leading white space removed. */
  function TrimStart(s: string): (t: string)
    ensures |t| <= |s| && t == s[|s| - |t|..]
    ensures t == [] || !IsStrWhiteSpace(t[0])
    ensures forall i :: 0 <= i < |s| - |t| ==> IsStrWhiteSpace(s[i])
  {
    if s != [] && IsStrWhiteSpace(s[0]) then TrimStart(s[1..]) else s
  }

  /** The longest prefix of `s` made of decimal digits. */
  function DigitPrefix(s: string): (z: string)
    ensures |z| <= |s| && z == s[..|z|]
    ensures AllDigits(z)
    ensures |z| == |s| || !IsDigit(s[|z|])
  {
    if s != [] && IsDigit(s[0]) then [s[0]] + DigitPrefix(s[1..]) else []
  }

  function DigitValue(c: char): nat
    requires IsDigit(c)
  {
    c as int - '0' as int
  }

  /** The value of a decimal numeral, most significant digit first. */
  function DecimalValue(z: string): nat
    requires AllDigits(z)
  {
    if z == [] then 0 else 10 * DecimalValue(z[..|z| - 1]) + DigitValue(z[|z| - 1])
  }

  /** The value of the leading digits of `u`, if there are any. */
  function LeadingDigits(u: string): Option<nat> {
    var z := DigitPrefix(u);
    if z == [] then None else Some(DecimalValue(z))
  }

  /** parseInt on a string with no leading white space: one optional sign,
      then the leading digits. */
  function ParseSigned(t: string): Option<int> {
    var negative := t != [] && t[0] == '-';
    var rest := if t != [] && (t[0] == '+' || t[0] == '-') then t[1..] else t;
    match LeadingDigits(rest)
    case None => None
    case Some(v) => var m: int := v; Some(if negative then -m else m)
  }

  /** After the white space, a digit comes first or right after one sign. */
  predicate DigitAfterSign(t: string) {
    || (|t| >= 1 && IsDigit(t[0]))
    || (|t| >= 2 && (t[0] == '+' || t[0] == '-') && IsDigit(t[1]))
  }

  /** parseInt(s, 10): NaN exactly when no digit follows the white space
      and the optional sign. */
  function ParseInt(s: string): (r: Option<int>)
    ensures r.Some? <==> DigitAfterSign(TrimStart(s))
  {
    ParseSigned(TrimStart(s))
  }

  /** The shortest decimal numeral of `n`, as `String(n)` writes it. */
  function DecimalString(n: nat): (z: string)
    ensures z != [] && AllDigits(z)
    decreases n
  {
    if n < 10 then [('0' as int + n) as char]
    else DecimalString(n / 10) + [('0' as int + n % 10) as char]
  }

  /** `String(n)` for an integer: a minus sign before a negative value. */
  function IntString(n: int): (s: string)
    ensures s != [] && (s[0] == '-' || IsDigit(s[0]))
  {
    if n < 0 then "-" + DecimalString(-n) else DecimalString(n)
  }

  /** Reading a numeral back gives its value. */
  lemma {:induction false} DecimalValueOfString(n: nat)
    ensures DecimalValue(DecimalString(n)) == n
    decreases n
  {
    if n >= 10 {
      var z := DecimalString(n);
      DecimalValueOfString(n / 10);
      assert z[..|z| - 1] == DecimalString(n / 10);
    }
  }

  /** A digit run followed by a non-digit is the whole digit prefix. */
  lemma {:induction false} DigitPrefixOfAppend(z: string, t: string)
    requires AllDigits(z)
    requires t == [] || !IsDigit(t[0])
    ensures DigitPrefix(z + t) == z
    decreases |z|
  {
    if z != [] {
      assert (z + t)[1..] == z[1..] + t;
      DigitPrefixOfAppend(z[1..], t);
      assert z == [z[0]] + z[1..];
    } else {
      assert z + t == t;
    }
  }

  /** A numeral followed by text that does not start with a digit reads as
      its value. */
  lemma LeadingDigitsOfNumeral(n: nat, t: string)
    requires t == [] || !IsDigit(t[0])
    ensures LeadingDigits(DecimalString(n) + t) == Some(n)
  {
    DigitPrefixOfAppend(DecimalString(n), t);
    DecimalValueOfString(n);
  }

  lemma TrimStartNoWhiteSpace(s: string)
    requires s == [] || !IsStrWhiteSpace(s[0])
    ensures TrimStart(s) == s
  {
  }

  /** parseInt(String(n)) == n for every integer, and any text after the
      numeral that does not start with a digit is ignored: "12abc" reads 12. */
  lemma ParseIntOfIntString(n: int, t: string)
    requires t == [] || !IsDigit(t[0])
    ensures ParseInt(IntString(n) + t) == Some(n)
  {
    var s := IntString(n) + t;
    assert s[0] == IntString(n)[0];
    TrimStartNoWhiteSpace(s);
    if n < 0 {
      ParseNegative(n, t);
    } else {
      ParseNonNegative(n, t);
    }
  }

  lemma ParseNegative(n: int, t: string)
    requires n < 0
    requires t == [] || !IsDigit(t[0])
    ensures ParseSigned(IntString(n) + t) == Some(n)
  {
    var m: nat := -n;
    var z := DecimalString(m);
    assert IntString(n) + t == "-" + (z + t);
    assert LeadingDigits(z + t) == Some(m) by {
      LeadingDigitsOfNumeral(m, t);
    }
    ParseSignedMinus("-" + (z + t), m);
  }

  /** A minus sign followed by leading digits reads as their negated value. */
  lemma ParseSignedMinus(s: string, v: nat)
    requires s != [] && s[0] == '-' && LeadingDigits(s[1..]) == Some(v)
    ensures ParseSigned(s) == Some(-(v as int))
  {
  }

  lemma ParseNonNegative(n: nat, t: string)
    requires t == [] || !IsDigit(t[0])
    ensures ParseSigned(IntString(n) + t) == Some(n)
  {
    var s := IntString(n) + t;
    assert s == DecimalString(n) + t;
    assert IsDigit(s[0]);
    LeadingDigitsOfNumeral(n, t);
  }

  /** Leading white space is skipped. */
  lemma {:induction false} TrimStartSkipsWhiteSpace(w: string, s: string)
    requires forall i :: 0 <= i < |w| ==> IsStrWhiteSpace(w[i])
    ensures TrimStart(w + s) == TrimStart(s)
    decreases |w|
  {
    if w != [] {
      assert (w + s)[1..] == w[1..] + s;
      TrimStartSkipsWhiteSpace(w[1..], s);
    } else {
      assert w + s == s;
    }
  }

  /** Leading white space never changes the result. */
  lemma ParseIntSkipsWhiteSpace(w: string, s: string)
    requires forall i :: 0 <= i < |w| ==> IsStrWhiteSpace(w[i])
    ensures ParseInt(w + s) == ParseInt(s)
  {
    TrimStartSkipsWhiteSpace(w, s);
  }

  /** The value for every input with digits: white space, an optional `+`
      or `-`, a digit run that may have leading zeros, and text that does not
      start with a digit. */
  lemma ParseIntValue(w: string, sign: string, z: string, t: string)
    requires forall i :: 0 <= i < |w| ==> IsStrWhiteSpace(w[i])
    requires sign == "" || sign == "+" || sign == "-"
    requires z != [] && AllDigits(z)
    requires t == [] || !IsDigit(t[0])
    ensures ParseInt(w + sign + z + t) ==
      Some(if sign == "-" then -(DecimalValue(z) as int) else DecimalValue(z))
  {
    var u := sign + (z + t);
    assert w + sign + z + t == w + u by {
      ConcatAssoc(w, sign, z, t);
    }
    assert u[0] == if sign == "" then z[0] else sign[0];
    ParseSignedDigits(sign, z, t);
    ParseIntAfterWhiteSpace(w, u);
  }

  lemma ConcatAssoc(w: string, sign: string, z: string, t: string)
    ensures w + sign + z + t == w + (sign + (z + t))
  {
  }

  /** White space, then text that starts with neither white space nor
      nothing, reads as that text without a trim. */
  lemma ParseIntAfterWhiteSpace(w: string, u: string)
    requires forall i :: 0 <= i < |w| ==> IsStrWhiteSpace(w[i])
    requires u != [] && !IsStrWhiteSpace(u[0])
    ensures ParseInt(w + u) == ParseSigned(u)
  {
    ParseIntSkipsWhiteSpace(w, u);
    TrimStartNoWhiteSpace(u);
  }

  /** An optional sign, then digits, then text that does not start with one. */
  lemma ParseSignedDigits(sign: string, z: string, t: string)
    requires sign == "" || sign == "+" || sign == "-"
    requires z != [] && AllDigits(z)
    requires t == [] || !IsDigit(t[0])
    ensures ParseSigned(sign + (z + t)) ==
      Some(if sign == "-" then -(DecimalValue(z) as int) else DecimalValue(z))
  {
    var v := DecimalValue(z);
    var d := z + t;
    var u := sign + d;
    assert LeadingDigits(d) == Some(v) by {
      DigitPrefixOfAppend(z, t);
    }
    if sign == "" {
      assert ParseSigned(u) == Some(v) by {
        assert u == d;
        ParseSignedUnsigned(d, v);
      }
    } else if sign == "+" {
      assert ParseSigned(u) == Some(v) by {
        assert u[0] == '+' && u[1..] == d;
        ParseSignedPlus(u, v);
      }
    } else {
      assert ParseSigned(u) == Some(-(v as int)) by {
        assert u[0] == '-' && u[1..] == d;
        ParseSignedMinus(u, v);
      }
    }
  }

  /** Leading digits with no sign read as their value. */
  lemma ParseSignedUnsigned(s: string, v: nat)
    requires LeadingDigits(s) == Some(v)
    ensures ParseSigned(s) == Some(v)
  {
  }

  /** A plus sign followed by leading digits reads as their value. */
  lemma ParseSignedPlus(s: string, v: nat)
    requires s != [] && s[0] == '+' && LeadingDigits(s[1..]) == Some(v)
    ensures ParseSigned(s) == Some(v)
  {
  }

  /** "+5" reads 5: a plus sign is accepted. */
  lemma ParseIntPlusSign()
    ensures ParseInt("+5") == Some(5)
  {
    assert DecimalValue("5") == 5;
    assert "" + "+" + "5" + "" == "+5";
    ParseIntValue("", "+", "5", "");
  }

  /** "007" reads 7: leading zeros are accepted. */
  lemma ParseIntLeadingZeros()
    ensures ParseInt("007") == Some(7)
  {
    assert DecimalValue("007") == 7 by {
      assert "007"[..2] == "00" && "00"[..1] == "0" && "0"[..0] == "";
    }
    assert "" + "" + "007" + "" == "007";
    ParseIntValue("", "", "007", "");
  }

  /** "-0" reads 0: integers have no negative zero. */
  lemma ParseIntNegativeZero()
    ensures ParseInt("-0") == Some(0)
  {
    assert LeadingDigits("0") == Some(0) by {
      assert DigitPrefix("0") == "0" by {
        DigitPrefixOfAppend("0", "");
        assert "0" + "" == "0";
      }
      assert DecimalValue("0") == 0;
    }
    assert ParseSigned("-0") == Some(0) by {
      assert "-0"[1..] == "0";
      ParseSignedMinus("-0", 0);
    }
    TrimStartNoWhiteSpace("-0");
  }

  lemma ParseIntNaN(s: string)
    requires !DigitAfterSign(TrimStart(s))
    ensures ParseInt(s) == None
  {
  }

  /** "12abc" reads 12: trailing non-digits are tolerated. */
  lemma ParseIntTrailingText()
    ensures ParseInt("12abc") == Some(12)
  {
    assert DecimalString(1) == "1";
    assert DecimalString(12) == "12";
    assert IntString(12) + "abc" == "12abc";
    ParseIntOfIntString(12, "abc");
  }

  /** White space and a sign before the digits are accepted. */
  lemma ParseIntSignAndSpace()
    ensures ParseInt(" \t-7") == Some(-7)
  {
    assert TrimStart(" \t-7") == "-7" by {
      assert " \t" + "-7" == " \t-7";
      TrimStartSkipsWhiteSpace(" \t", "-7");
      TrimStartNoWhiteSpace("-7");
    }
    assert ParseSigned("-7") == Some(-7) by {
      assert DecimalString(7) == "7";
      assert IntString(-7) + "" == "-7";
      ParseNegative(-7, "");
    }
  }

  /** With radix 10 a "0x" prefix is not special: "0x1A" reads 0. */
  lemma ParseIntHexPrefix()
    ensures ParseInt("0x1A") == Some(0)
  {
    assert IntString(0) + "x1A" == "0x1A";
    ParseIntOfIntString(0, "x1A");
  }

  /** Text without leading digits, a bare sign and the empty string are NaN. */
  lemma ParseIntNaNExamples()
    ensures ParseInt("abc") == None
    ensures ParseInt("-") == None
    ensures ParseInt("+x") == None
    ensures ParseInt("") == None
  {
    TrimStartNoWhiteSpace("abc");
    ParseIntNaN("abc");
    TrimStartNoWhiteSpace("-");
    ParseIntNaN("-");
    TrimStartNoWhiteSpace("+x");
    ParseIntNaN("+x");
    ParseIntNaN("");
  }
}

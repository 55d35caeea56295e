/**
 * The two integer/text conversions the client and server lean on: `Number#toString()` of a
 * non-negative integer (timestamps written to storage) and `parseInt` (timestamps read back,
 * minutes typed by the user, `auth_date`, route ids). `parseInt` yields `None` where
 * JavaScript yields NaN.
 */
module JsInt {
  import opened Wrappers

  predicate IsDigit(c: char) { '0' <= c <= '9' }

  function DigitChar(d: nat): (c: char)
    requires d < 10
    ensures IsDigit(c) && c as int - '0' as int == d
  {
    (d + '0' as int) as char
  }

  function DigitValue(c: char): nat
    requires IsDigit(c)
  {
    c as int - '0' as int
  }

  /** Decimal digits, most significant first, with no leading zero. */
  function DecimalString(n: nat): (s: string)
    ensures |s| > 0
    ensures forall i :: 0 <= i < |s| ==> IsDigit(s[i])
    decreases n
  {
    if n < 10 then [DigitChar(n)] else DecimalString(n / 10) + [DigitChar(n % 10)]
  }

  /** The value of a run of decimal digits. */
  function DigitsValue(s: string): nat
    requires forall i :: 0 <= i < |s| ==> IsDigit(s[i])
  {
    if s == [] then 0 else DigitsValue(s[..|s| - 1]) * 10 + DigitValue(s[|s| - 1])
  }

  /** The length of the run of digits at the front of `s`. */
  function LeadingDigits(s: string): (k: nat)
    ensures k <= |s|
    ensures forall i :: 0 <= i < k ==> IsDigit(s[i])
    ensures k < |s| ==> !IsDigit(s[k])
  {
    if s == [] || !IsDigit(s[0]) then 0 else 1 + LeadingDigits(s[1..])
  }

  /** White space and line terminators as ECMAScript's `trim` and `parseInt` skip them. */
  predicate IsSpace(c: char)
  {
    || c == '\t' || c == '\n' || c == '\U{000B}' || c == '\U{000C}' || c == '\r' || c == ' '
    || c == '\U{00A0}' || c == '\U{1680}' || ('\U{2000}' <= c <= '\U{200A}')
    || c == '\U{2028}' || c == '\U{2029}' || c == '\U{202F}' || c == '\U{205F}' || c == '\U{3000}'
    || c == '\U{FEFF}'
  }

  function TrimStart(s: string): (t: string)
    ensures |t| <= |s| && (t == [] || !IsSpace(t[0]))
  {
    if s != [] && IsSpace(s[0]) then TrimStart(s[1..]) else s
  }

  /**
   * `parseInt(s, 10)`: leading white space, an optional sign, then the longest run of
   * digits; whatever follows the digits is ignored. No digits gives NaN.
   */
  function ParseInt(s: string): (r: Option<int>)
    ensures r.Some? ==> exists i :: 0 <= i < |s| && IsDigit(s[i])
    ensures r.Some? && r.value < 0 ==> '-' in s
  {
    TrimStartIsSuffix(s);
    var t := TrimStart(s);
    var negative := |t| > 0 && t[0] == '-';
    var body := if |t| > 0 && (t[0] == '-' || t[0] == '+') then t[1..] else t;
    var k := LeadingDigits(body);
    if k == 0 then None
    else
      var v: int := DigitsValue(body[..k]);
      Some(if negative then -v else v)
  }

  lemma {:induction false} DigitsValueOfDecimal(n: nat)
    ensures DigitsValue(DecimalString(n)) == n
    decreases n
  {
    if n >= 10 {
      var s := DecimalString(n);
      assert s[..|s| - 1] == DecimalString(n / 10);
      DigitsValueOfDecimal(n / 10);
    }
  }

  /**
   * Reading back what was written: `parseInt(String(n))` is `n`, also when non-digit text
   * follows.
   */
  lemma ParseDecimal(n: nat, suffix: string)
    requires suffix == [] || !IsDigit(suffix[0])
    ensures ParseInt(DecimalString(n) + suffix) == Some(n)
  {
    var s := DecimalString(n) + suffix;
    var d := DecimalString(n);
    assert s[0] == d[0] && IsDigit(s[0]);
    assert TrimStart(s) == s;
    LeadingDigitsOfAppend(d, suffix);
    assert s[..|d|] == d;
    DigitsValueOfDecimal(n);
  }

  lemma {:induction false} LeadingDigitsOfAppend(d: string, suffix: string)
    requires forall i :: 0 <= i < |d| ==> IsDigit(d[i])
    requires suffix == [] || !IsDigit(suffix[0])
    ensures LeadingDigits(d + suffix) == |d|
  {
    if d != [] {
      assert (d + suffix)[1..] == d[1..] + suffix;
      LeadingDigitsOfAppend(d[1..], suffix);
    } else {
      assert d + suffix == suffix;
    }
  }

  /**
   * `parseInt` of leading white space, an optional sign, one or more digits (leading zeros
   * allowed) and a tail that does not start with a digit: the signed value of the digits.
   */
  lemma ParseIntForm(ws: string, sign: string, digits: string, suffix: string)
    requires forall i :: 0 <= i < |ws| ==> IsSpace(ws[i])
    requires sign == "" || sign == "+" || sign == "-"
    requires digits != [] && AllDigits(digits)
    requires suffix == [] || !IsDigit(suffix[0])
    ensures var v: int := DigitsValue(digits); ParseInt(ws + sign + digits + suffix) == Some(if sign == "-" then -v else v)
  {
    if sign == "" {
      var rest := digits + suffix;
      assert ws + sign + digits + suffix == ws + rest;
      assert rest[0] == digits[0];
      ParseIntSkipsSpace(ws, rest);
      ParseIntUnsigned(digits, suffix);
    } else {
      var c := sign[0];
      var rest := [c] + (digits + suffix);
      assert sign == [c];
      assert ws + sign + digits + suffix == ws + rest;
      assert rest[0] == c && !IsSpace(c);
      ParseIntSkipsSpace(ws, rest);
      ParseIntSigned(c, digits, suffix);
    }
  }

  lemma ParseIntSkipsSpace(ws: string, rest: string)
    requires forall i :: 0 <= i < |ws| ==> IsSpace(ws[i])
    requires rest != [] && !IsSpace(rest[0])
    ensures ParseInt(ws + rest) == ParseInt(rest)
  {
    TrimStartSpaces(ws, rest);
    assert TrimStart(rest) == rest;
  }

  lemma DigitsThenTail(digits: string, suffix: string)
    requires digits != [] && AllDigits(digits)
    requires suffix == [] || !IsDigit(suffix[0])
    ensures LeadingDigits(digits + suffix) == |digits|
    ensures (digits + suffix)[..|digits|] == digits
    ensures TrimStart(digits + suffix) == digits + suffix
  {
    LeadingDigitsOfAppend(digits, suffix);
    assert (digits + suffix)[0] == digits[0];
  }

  lemma ParseIntUnsigned(digits: string, suffix: string)
    requires digits != [] && AllDigits(digits)
    requires suffix == [] || !IsDigit(suffix[0])
    ensures var v: int := DigitsValue(digits); ParseInt(digits + suffix) == Some(v)
  {
    DigitsThenTail(digits, suffix);
  }

  lemma ParseIntSigned(sign: char, digits: string, suffix: string)
    requires sign == '-' || sign == '+'
    requires digits != [] && AllDigits(digits)
    requires suffix == [] || !IsDigit(suffix[0])
    ensures var v: int := DigitsValue(digits); ParseInt([sign] + (digits + suffix)) == Some(if sign == '-' then -v else v)
  {
    var rest := [sign] + (digits + suffix);
    DigitsThenTail(digits, suffix);
    assert rest[1..] == digits + suffix;
    assert TrimStart(rest) == rest;
  }

  lemma {:induction false} TrimStartSpaces(ws: string, rest: string)
    requires forall i :: 0 <= i < |ws| ==> IsSpace(ws[i])
    requires rest != [] && !IsSpace(rest[0])
    ensures TrimStart(ws + rest) == rest
  {
    if ws == [] {
      assert ws + rest == rest;
    } else {
      assert (ws + rest)[1..] == ws[1..] + rest;
      TrimStartSpaces(ws[1..], rest);
    }
  }

  /** Text without any digit after the optional sign is NaN. */
  lemma ParseIntNoDigits(s: string)
    requires s == [] || (!IsDigit(s[0]) && !IsSpace(s[0]) && s[0] != '-' && s[0] != '+')
    ensures ParseInt(s) == None
  {
  }

  function TrimEnd(s: string): (t: string)
    ensures |t| <= |s| && (t == [] || !IsSpace(t[|t| - 1]))
  {
    if s != [] && IsSpace(s[|s| - 1]) then TrimEnd(s[..|s| - 1]) else s
  }

  /** `String#trim`. */
  function Trim(s: string): (t: string)
    ensures |t| <= |s|
    ensures t == [] || (!IsSpace(t[0]) && !IsSpace(t[|t| - 1]))
  {
    var u := TrimStart(s);
    TrimEndIsPrefix(u);
    TrimEnd(u)
  }

  lemma {:induction false} TrimStartIsSuffix(s: string)
    ensures TrimStart(s) == s[|s| - |TrimStart(s)|..]
    ensures forall i :: 0 <= i < |s| - |TrimStart(s)| ==> IsSpace(s[i])
  {
    if s != [] && IsSpace(s[0]) {
      TrimStartIsSuffix(s[1..]);
      assert s[1..][|s[1..]| - |TrimStart(s[1..])|..] == s[|s| - |TrimStart(s)|..];
      forall i | 1 <= i < |s| - |TrimStart(s)| ensures IsSpace(s[i]) {
        assert s[i] == s[1..][i - 1];
      }
    }
  }

  lemma {:induction false} TrimEndIsPrefix(s: string)
    ensures TrimEnd(s) == s[..|TrimEnd(s)|]
    ensures forall i :: |TrimEnd(s)| <= i < |s| ==> IsSpace(s[i])
  {
    if s != [] && IsSpace(s[|s| - 1]) {
      var p := s[..|s| - 1];
      TrimEndIsPrefix(p);
      assert p[..|TrimEnd(p)|] == s[..|TrimEnd(s)|];
    }
  }

  /**
   * The trimmed text is a piece of the original with no white space at either end, and
   * everything cut off was white space.
   */
  lemma TrimShape(s: string)
    ensures var t := Trim(s);
      && (t == [] || (!IsSpace(t[0]) && !IsSpace(t[|t| - 1])))
      && exists i, j :: 0 <= i <= j <= |s| && t == s[i..j]
           && (forall k :: 0 <= k < i ==> IsSpace(s[k]))
           && (forall k :: j <= k < |s| ==> IsSpace(s[k]))
  {
    var u := TrimStart(s);
    var t := Trim(s);
    assert t == TrimEnd(u);
    TrimStartIsSuffix(s);
    TrimEndIsPrefix(u);
    var i := |s| - |u|;
    var j := i + |t|;
    assert u == s[i..];
    assert t == u[..|t|];
    assert t == s[i..j];
    forall k | j <= k < |s| ensures IsSpace(s[k]) {
      assert s[k] == u[k - i];
    }
  }

  /** Trimming twice is trimming once. */
  lemma TrimIdempotent(s: string)
    ensures Trim(Trim(s)) == Trim(s)
  {
    var t := Trim(s);
    TrimShape(s);
    assert TrimStart(t) == t;
    if t != [] {
      assert TrimEnd(t) == t;
    }
  }

  /** `BigInt#toString()`: a minus sign before the digits of a negative value. */
  function IntString(n: int): (s: string)
    ensures |s| > 0
  {
    if n < 0 then "-" + DecimalString(-n) else DecimalString(n)
  }

  predicate AllDigits(s: string)
  {
    forall i :: 0 <= i < |s| ==> IsDigit(s[i])
  }

  /**
   * `BigInt(s)` of a text: white space around it is ignored, the empty text is 0, otherwise
   * an optional sign and one or more decimal digits and nothing else; any other text throws.
   */
  function ParseBigInt(s: string): (r: Option<int>)
    ensures Trim(s) == [] ==> r == Some(0)
    ensures r.Some? && Trim(s) != [] ==> IsDigit(Trim(s)[|Trim(s)| - 1])
    ensures r.Some? && r.value < 0 ==> Trim(s)[0] == '-'
  {
    var t := Trim(s);
    if t == [] then Some(0)
    else
      var body := if t[0] == '-' || t[0] == '+' then t[1..] else t;
      if body == [] || !AllDigits(body) then None
      else
        var v: int := DigitsValue(body);
        Some(if t[0] == '-' then -v else v)
  }

  /** A row id turned into text converts back to the same id. */
  lemma ParseBigIntOfIntString(n: int)
    ensures ParseBigInt(IntString(n)) == Some(n)
  {
    var s := IntString(n);
    var d := if n < 0 then DecimalString(-n) else DecimalString(n);
    assert !IsSpace(s[0]) && !IsSpace(s[|s| - 1]);
    assert TrimStart(s) == s;
    assert TrimEnd(s) == s;
    if n < 0 {
      assert s[1..] == d;
      DigitsValueOfDecimal(-n);
    } else {
      DigitsValueOfDecimal(n);
    }
  }
}

/** Python's `int(x)` on the decoded JSON values it meets: the conversion applied to a
    cookie's expiration date. */
module PyInt {
  import opened Wrappers
  import opened Text
  import opened Json

  predicate IsDigit(c: char) {
    '0' <= c <= '9'
  }

  function DigitValue(c: char): nat {
    if IsDigit(c) then (c as int) - ('0' as int) else 0
  }

  function Digit(n: nat): char
    requires n < 10
  {
    ((('0' as int) + n) as char)
  }

  /** The digits `int(str)` accepts once the whitespace and the sign are gone: a
      non-empty run of ASCII digits in which single underscores may separate two
      digits. */
  predicate WellFormedDigits(d: string) {
    && d != []
    && IsDigit(d[0])
    && forall k :: 0 <= k < |d| ==> IsDigit(d[k]) || (d[k] == '_' && k + 1 < |d| && IsDigit(d[k + 1]))
  }

  /** The number the digits of `d` spell, underscores skipped. */
  function DigitsValue(d: string): nat {
    if d == [] then 0
    else if d[|d| - 1] == '_' then DigitsValue(d[..|d| - 1])
    else DigitsValue(d[..|d| - 1]) * 10 + DigitValue(d[|d| - 1])
  }

  /** `int(s)` for a string in base 10: surrounding whitespace is ignored; `None`
      where Python raises `ValueError`. */
  function ParseInt(s: string): Option<int> {
    ParseLiteral(Strip(s))
  }

  /** A stripped literal: one optional sign, then the digits. */
  function ParseLiteral(t: string): Option<int> {
    if t != [] && (t[0] == '+' || t[0] == '-') then
      var n: int := DigitsValue(t[1..]);
      if WellFormedDigits(t[1..]) then Some(if t[0] == '-' then -n else n) else None
    else if WellFormedDigits(t) then Some(DigitsValue(t))
    else None
  }

  /** `str(n)`: the shortest decimal spelling of n. */
  function ShowNat(n: nat): (s: string)
    ensures s != []
    ensures forall k :: 0 <= k < |s| ==> IsDigit(s[k])
  {
    if n < 10 then [Digit(n)] else ShowNat(n / 10) + [Digit(n % 10)]
  }

  function ShowInt(i: int): string {
    if i < 0 then "-" + ShowNat(-i) else ShowNat(i)
  }

  lemma {:induction false} DigitsOfShow(n: nat)
    ensures DigitsValue(ShowNat(n)) == n
  {
    if n >= 10 {
      var s := ShowNat(n);
      assert s[..|s| - 1] == ShowNat(n / 10);
      DigitsOfShow(n / 10);
    }
  }

  /** Digits, and so the spelling `str` writes, are not whitespace. */
  lemma ShowUnspaced(i: int)
    ensures var s := ShowInt(i); s != [] && !IsSpace(s[0]) && !IsSpace(s[|s| - 1])
  {
    var s := ShowInt(i);
    assert IsDigit(s[|s| - 1]);
    assert s[0] == '-' || IsDigit(s[0]);
  }

  /** The digits `str` writes form a literal `int` accepts, with the same value. */
  lemma ShowDigits(n: nat)
    ensures WellFormedDigits(ShowNat(n)) && DigitsValue(ShowNat(n)) == n
  {
    DigitsOfShow(n);
  }

  /** `int(str(i)) == i`: the string conversion reads back what `str` writes. */
  lemma ParseShow(i: int)
    ensures ParseInt(ShowInt(i)) == Some(i)
  {
    var s := ShowInt(i);
    ShowUnspaced(i);
    assert [] + s + [] == s;
    StripAround([], s, []);
    ParseLiteralShow(i);
  }

  lemma ParseLiteralShow(i: int)
    ensures ParseLiteral(ShowInt(i)) == Some(i)
  {
    var s := ShowInt(i);
    if i < 0 {
      ShowDigits(-i);
      assert s[1..] == ShowNat(-i);
    } else {
      ShowDigits(i);
      assert IsDigit(s[0]);
    }
  }

  /** Whitespace around the literal is ignored and underscores group digits. */
  lemma ParseSpacedGrouped()
    ensures ParseInt(" 1_7\n") == Some(17)
  {
    StripAround(" ", "1_7", "\n");
    assert " " + "1_7" + "\n" == " 1_7\n";
    assert "1_7"[..2] == "1_" && "1_"[..1] == "1" && "1"[..0] == "";
  }

  /** A sign is read. */
  lemma ParseNegative()
    ensures ParseInt("-42") == Some(-42)
  {
    StripAround("", "-42", "");
    assert "" + "-42" + "" == "-42";
    assert Strip("-42") == "-42";
    var d := "-42"[1..];
    assert d == "42" && d[..1] == "4" && "4"[..0] == "";
    assert DigitsValue("4") == 4;
    assert DigitsValue(d) == 42;
    assert WellFormedDigits(d);
    assert ParseLiteral("-42") == Some(-42);
  }

  /** A fraction, a doubled or a leading underscore, and the empty string are refused. */
  lemma ParseRefused()
    ensures ParseInt("1.5") == None
    ensures ParseInt("1__0") == None
    ensures ParseInt("_1") == None
    ensures ParseInt("") == None
  {
    StripAround("", "1.5", "");
    assert "" + "1.5" + "" == "1.5";
    assert !IsDigit("1.5"[1]) && "1.5"[1] != '_';
    StripAround("", "1__0", "");
    assert "" + "1__0" + "" == "1__0";
    assert "1__0"[1] == '_' && !IsDigit("1__0"[2]);
    StripAround("", "_1", "");
    assert "" + "_1" + "" == "_1";
  }

  /** `int(f)` of a finite float: the integer part, rounding toward zero. */
  function Truncate(f: real): (n: int)
    ensures 0.0 <= f ==> n as real <= f < n as real + 1.0
    ensures f < 0.0 ==> n as real - 1.0 < f <= n as real
  {
    if 0.0 <= f then f.Floor else -((-f).Floor)
  }

  /** `int(x)` for a decoded JSON value; `None` where Python raises: `TypeError` for
      null, lists and objects, `ValueError` for NaN and for a string that is not an
      integer literal, `OverflowError` for an infinity. A boolean is 0 or 1, an integer
      is itself, a float is truncated toward zero and a string is parsed. */
  function IntOf(v: Value): (r: Option<int>)
    ensures r.Some? <==> v.JBool? || v.JInt? || v.JFloat? || (v.JStr? && ParseInt(v.s).Some?)
    ensures v.JBool? ==> r == Some(if v.b then 1 else 0)
    ensures v.JInt? ==> r == Some(v.i)
    ensures v.JFloat? && 0.0 <= v.f ==> r.value as real <= v.f < r.value as real + 1.0
    ensures v.JFloat? && v.f < 0.0 ==> r.value as real - 1.0 < v.f <= r.value as real
    ensures v.JStr? ==> r == ParseInt(v.s)
  {
    match v
    case JBool(b) => Some(if b then 1 else 0)
    case JInt(i) => Some(i)
    case JFloat(f) => Some(Truncate(f))
    case JStr(s) => ParseInt(s)
    case _ => None
  }
}

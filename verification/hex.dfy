/** Python's `int(text, 16)`, restricted to plain hexadecimal digit strings,
    and the lower-case encoding it inverts. */
module Hex {
  import opened Results

  /** The value of one hexadecimal digit, either case; `None` for any other character. */
  function DigitValue(c: char): (r: Option<nat>)
    ensures r.Some? ==> r.value < 16
  {
    if '0' <= c <= '9' then Some(c as int - '0' as int)
    else if 'a' <= c <= 'f' then Some(c as int - 'a' as int + 10)
    else if 'A' <= c <= 'F' then Some(c as int - 'A' as int + 10)
    else None
  }

  predicate IsHexDigit(c: char) {
    DigitValue(c).Some?
  }

  function Pow16(k: nat): (r: nat)
    ensures r >= 1
  {
    if k == 0 then 1 else 16 * Pow16(k - 1)
  }

  /** The positional reading of a digit string: each digit weighted by the
      power of sixteen of its distance from the end (a non-digit reads as 0). */
  function HexValue(s: string): nat {
    if |s| == 0 then 0 else DigitValue(s[0]).GetOr(0) * Pow16(|s| - 1) + HexValue(s[1..])
  }

  /** `int(s, 16)`: the value of a non-empty run of hexadecimal digits, most
      significant first, in either case and with any leading zeros; `None`
      where Python raises `ValueError`. */
  function ParseHex(s: string): (r: Option<nat>)
    ensures r.Some? <==> |s| > 0 && forall i :: 0 <= i < |s| ==> IsHexDigit(s[i])
    ensures r.Some? ==> r.value < Pow16(|s|)
    ensures r.Some? ==> r.value == HexValue(s)
  {
    if |s| == 0 then None
    else match DigitValue(s[|s| - 1])
      case None => None
      case Some(d) =>
        if |s| == 1 then Some(d)
        else match ParseHex(s[..|s| - 1])
          case None => None
          case Some(v) =>
            HexValueSnoc(s[..|s| - 1], s[|s| - 1]);
            assert s == s[..|s| - 1] + [s[|s| - 1]];
            Some(16 * v + d)
  }

  /** One more digit at the end multiplies the value so far by sixteen and
      adds the digit. */
  lemma {:induction false} HexValueSnoc(s: string, c: char)
    ensures HexValue(s + [c]) == 16 * HexValue(s) + DigitValue(c).GetOr(0)
  {
    var t := s + [c];
    if |s| > 0 {
      assert t[0] == s[0] && t[1..] == s[1..] + [c];
      HexValueSnoc(s[1..], c);
      var d0, p, h := DigitValue(s[0]).GetOr(0), Pow16(|s| - 1), HexValue(s[1..]);
      assert HexValue(t) == d0 * Pow16(|s|) + HexValue(t[1..]);
      assert Pow16(|s|) == 16 * p;
      ShiftDigit(d0, p, h);
    } else {
      assert t == [c];
    }
  }

  lemma ShiftDigit(d: int, p: int, h: int)
    ensures d * (16 * p) + 16 * h == 16 * (d * p + h)
  {
  }

  /** A leading zero does not change the value: `int("0f101", 16)` is
      `int("f101", 16)`. */
  lemma ParseHexLeadingZero(s: string)
    requires ParseHex(s).Some?
    ensures ParseHex(['0'] + s) == ParseHex(s)
  {
    var t := ['0'] + s;
    forall i | 0 <= i < |t|
      ensures IsHexDigit(t[i])
    {
      if i > 0 {
        assert t[i] == s[i - 1];
      }
    }
    assert t[0] == '0' && t[1..] == s;
    assert HexValue(t) == HexValue(s);
  }

  /** Upper-case digits read like lower-case ones. */
  lemma ParseHexUpperCase()
    ensures ParseHex("F101") == Some(0xF101)
    ensures ParseHex("F101") == ParseHex("f101")
  {
    assert "F101"[1..] == "101" && "101"[1..] == "01" && "01"[1..] == "1";
    assert "f101"[1..] == "101";
    assert Pow16(3) == 0x1000;
  }

  /** The lower-case hexadecimal digit for a value below sixteen. */
  function Digit(d: nat): (c: char)
    requires d < 16
    ensures DigitValue(c) == Some(d)
  {
    if d < 10 then ('0' as int + d) as char else ('a' as int + d - 10) as char
  }

  /** The shortest lower-case hexadecimal spelling of `n`, as a stylesheet
      writes a code point after its backslash. */
  function ToHex(n: nat): (r: string)
    ensures |r| > 0
    ensures forall i :: 0 <= i < |r| ==> IsHexDigit(r[i])
  {
    if n < 16 then [Digit(n)] else ToHex(n / 16) + [Digit(n % 16)]
  }

  /** Parsing inverts the encoding: every natural number survives the round trip. */
  lemma {:induction false} ParseToHex(n: nat)
    ensures ParseHex(ToHex(n)) == Some(n)
  {
    if n >= 16 {
      ParseToHex(n / 16);
      var s := ToHex(n);
      assert s[..|s| - 1] == ToHex(n / 16);
    }
  }
}

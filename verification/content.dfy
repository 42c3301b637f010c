/** Decoding a `content` declaration such as `"\f101"` into a code point
    (icon_font.py:58-62): strip the quotes, drop the escape character, read
    the rest as hexadecimal, and turn it into a character. */
module Content {
  import opened Results
  import opened Strings
  import opened Hex

  /** Python's `unichr` accepts code points below 0x110000. */
  const CodePointLimit: nat := 0x11_0000

  type CodePoint = n: nat | n < CodePointLimit

  /** Why loading a stylesheet fails: `int(text, 16)` raised, or `unichr` did. */
  datatype LoadError = NotHex(text: string) | NotACodePoint(value: nat)

  predicate IsQuote(c: char) {
    c == '"' || c == '\''
  }

  /** `re.match("^['\"].*['\"]$", v)`: a quote, a run without newlines, a
      quote, then the end, or a final newline, which `$` also accepts. */
  predicate Quoted(v: string) {
    && |v| >= 2 && IsQuote(v[0])
    && (|| (IsQuote(v[|v| - 1]) && InLine(v, 1, |v| - 1))
        || (|v| >= 3 && v[|v| - 1] == '\n' && IsQuote(v[|v| - 2]) && InLine(v, 1, |v| - 2)))
  }

  /** `val[1:-1]` when the value is quoted, the value itself otherwise. */
  function StripQuotes(v: string): (r: string)
    ensures |r| <= |v|
  {
    if Quoted(v) then v[1..|v| - 1] else v
  }

  /** Quotes around a single-line body come off, whichever quote characters
      they are. */
  lemma StripQuotesRemovesQuotes(open: char, body: string, close: char)
    requires IsQuote(open) && IsQuote(close) && InLine(body, 0, |body|)
    ensures StripQuotes([open] + body + [close]) == body
  {
    var v := [open] + body + [close];
    assert v[1..|v| - 1] == body;
  }

  /** A value that does not start with a quote is left alone. */
  lemma StripQuotesKeepsUnquoted(v: string)
    requires |v| == 0 || !IsQuote(v[0])
    ensures StripQuotes(v) == v
  {
  }

  /** The code point a `content` value denotes, or the error the source raises
      for it. Success means the text after the quotes and the first character
      is non-empty plain hexadecimal whose value is below 0x110000. */
  function DecodeContent(v: string): (r: Result<CodePoint, LoadError>)
    ensures r.Success? <==>
      var digits := Drop(StripQuotes(v), 1);
      ParseHex(digits).Some? && ParseHex(digits).value < CodePointLimit
    ensures r.Success? ==> ParseHex(Drop(StripQuotes(v), 1)) == Some(r.value as nat)
  {
    var digits := Drop(StripQuotes(v), 1);
    match ParseHex(digits)
    case None => Failure(NotHex(digits))
    case Some(n) => if n < CodePointLimit then Success(n) else Failure(NotACodePoint(n))
  }

  /** Writing a code point the way stylesheets do — quote, backslash, hex
      digits, quote — and decoding it gives the code point back. */
  lemma DecodeEncodedContent(n: CodePoint, open: char, close: char)
    requires IsQuote(open) && IsQuote(close)
    ensures DecodeContent([open, '\\'] + ToHex(n) + [close]) == Success(n)
  {
    EncodedDigits(n, open, close);
    ParseToHex(n);
  }

  /** A hexadecimal value past the last code point is rejected, as `unichr`
      rejects it. */
  lemma DecodeRejectsLargeValue(open: char, n: nat, close: char)
    requires IsQuote(open) && IsQuote(close) && n >= CodePointLimit
    ensures DecodeContent([open, '\\'] + ToHex(n) + [close]) == Failure(NotACodePoint(n))
  {
    EncodedDigits(n, open, close);
    ParseToHex(n);
  }

  /** The digits `DecodeContent` hands to the hex parser are exactly the ones
      written after the backslash. */
  lemma EncodedDigits(n: nat, open: char, close: char)
    requires IsQuote(open) && IsQuote(close)
    ensures Drop(StripQuotes([open, '\\'] + ToHex(n) + [close]), 1) == ToHex(n)
  {
    var hex := ToHex(n);
    EscapedHexOnOneLine(hex);
    StripQuotesRemovesQuotes(open, ['\\'] + hex, close);
    EscapedShape(open, hex, close);
  }

  lemma EscapedHexOnOneLine(hex: string)
    requires forall i :: 0 <= i < |hex| ==> IsHexDigit(hex[i])
    ensures InLine(['\\'] + hex, 0, |hex| + 1)
  {
    var body := ['\\'] + hex;
    forall i | 1 <= i < |body|
      ensures body[i] != '\n'
    {
      assert body[i] == hex[i - 1] && IsHexDigit(hex[i - 1]);
    }
  }

  lemma EscapedShape(open: char, hex: string, close: char)
    ensures [open, '\\'] + hex + [close] == [open] + (['\\'] + hex) + [close]
    ensures Drop(['\\'] + hex, 1) == hex
  {
    assert (['\\'] + hex)[1..] == hex;
  }

  /** The usual icon-font form decodes as expected: `"\f101"` is U+F101. */
  lemma DecodeTypicalContent()
    ensures DecodeContent("\"\\f101\"") == Success(0xF101)
  {
    HexF101();
    DecodeEncodedContent(0xF101, '"', '"');
    TypicalSpelling();
  }

  lemma HexF101()
    ensures ToHex(0xF101) == "f101"
  {
    assert ToHex(0xF10) == "f10";
  }

  lemma TypicalSpelling()
    ensures [('"' as char), '\\'] + "f101" + ['"'] == "\"\\f101\""
  {
  }
}

/** Form-encoding of the free-text model name for the query string
    (`urllib.parse.quote_plus` with its default `safe=''`), and the decoding
    that undoes it at the byte level. */
module Quote {

  type byte = x: int | 0 <= x < 256

  /** The characters `quote` never escapes: ASCII letters, digits and "_.-~". */
  predicate AlwaysSafe(c: char) {
    ('A' <= c <= 'Z') || ('a' <= c <= 'z') || ('0' <= c <= '9')
    || c == '_' || c == '.' || c == '-' || c == '~'
  }

  /** The characters `quote_plus` can produce. */
  predicate QuotedChar(c: char) {
    AlwaysSafe(c) || c == '+' || c == '%'
  }

  /** The UTF-8 encoding of one character (the `encoding='utf-8'` default). */
  function Utf8(c: char): (bs: seq<byte>)
    ensures 1 <= |bs| <= 4
    ensures c as int < 0x80 <==> |bs| == 1
    ensures c as int < 0x80 ==> bs[0] == c as int
    ensures forall k :: 1 <= k < |bs| ==> 0x80 <= bs[k] < 0xC0
  {
    var cp := c as int;
    if cp < 0x80 then [cp]
    else if cp < 0x800 then [0xC0 + cp / 64, 0x80 + cp % 64]
    else if cp < 0x10000 then [0xE0 + cp / 4096, 0x80 + (cp / 64) % 64, 0x80 + cp % 64]
    else [0xF0 + cp / 0x40000, 0x80 + (cp / 4096) % 64, 0x80 + (cp / 64) % 64, 0x80 + cp % 64]
  }

  /** The UTF-8 encoding of a string (`s.encode('utf-8')`). */
  function Utf8String(s: string): seq<byte> {
    if |s| == 0 then [] else Utf8(s[0]) + Utf8String(s[1..])
  }

  /** Upper-case hexadecimal digit, as `%02X` writes it. */
  function HexDigit(v: nat): (c: char)
    requires v < 16
    ensures AlwaysSafe(c) && IsHex(c) && HexValue(c) == v
  {
    if v < 10 then ('0' as int + v) as char else ('A' as int + v - 10) as char
  }

  predicate IsHex(c: char) {
    ('0' <= c <= '9') || ('A' <= c <= 'F') || ('a' <= c <= 'f')
  }

  function HexValue(c: char): (v: nat)
    requires IsHex(c)
    ensures v < 16
  {
    if '0' <= c <= '9' then c as int - '0' as int
    else if 'A' <= c <= 'F' then c as int - 'A' as int + 10
    else c as int - 'a' as int + 10
  }

  /** Each byte written as "%XY". */
  function PercentEncode(bs: seq<byte>): (t: string)
    ensures |t| == 3 * |bs|
    ensures forall k :: 0 <= k < |t| ==> QuotedChar(t[k])
  {
    if |bs| == 0 then []
    else ['%', HexDigit(bs[0] / 16), HexDigit(bs[0] % 16)] + PercentEncode(bs[1..])
  }

  /** How `quote_plus` writes one character: a space as '+', a safe character
      as itself, anything else as the percent-escapes of its UTF-8 bytes. */
  function QuoteChar(c: char): (t: string)
    ensures 1 <= |t| <= 12
    ensures forall k :: 0 <= k < |t| ==> QuotedChar(t[k])
  {
    if c == ' ' then "+"
    else if AlwaysSafe(c) then [c]
    else PercentEncode(Utf8(c))
  }

  /** `quote_plus(s)`. Its output never contains a character with a meaning in
      a URL ('?', '&', '=', '#', '/', ' '), so the encoded term stays one
      query value. */
  function QuotePlus(s: string): (t: string)
    ensures |s| <= |t| <= 12 * |s|
    ensures forall k :: 0 <= k < |t| ==> QuotedChar(t[k])
  {
    if |s| == 0 then [] else QuoteChar(s[0]) + QuotePlus(s[1..])
  }

  /** `unquote_plus(t)` taken to bytes: '+' is a space, "%XY" with two hex
      digits is the byte XY, and any other character is its UTF-8 bytes. */
  function UnquotePlusBytes(t: string): seq<byte>
    decreases |t|
  {
    if |t| == 0 then []
    else if t[0] == '+' then [0x20] + UnquotePlusBytes(t[1..])
    else if t[0] == '%' && |t| >= 3 && IsHex(t[1]) && IsHex(t[2]) then
      [HexValue(t[1]) * 16 + HexValue(t[2])] + UnquotePlusBytes(t[3..])
    else Utf8(t[0]) + UnquotePlusBytes(t[1..])
  }

  /** One escape "%XY" decodes to the byte it was written for. */
  lemma UnquoteEscape(b: byte, rest: string)
    ensures UnquotePlusBytes(['%', HexDigit(b / 16), HexDigit(b % 16)] + rest)
            == [b] + UnquotePlusBytes(rest)
  {
    var t := ['%', HexDigit(b / 16), HexDigit(b % 16)] + rest;
    assert t[0] == '%' && t[1] == HexDigit(b / 16) && t[2] == HexDigit(b % 16);
    assert t[3..] == rest;
  }

  lemma {:induction false} UnquotePercentEncode(bs: seq<byte>, rest: string)
    ensures UnquotePlusBytes(PercentEncode(bs) + rest) == bs + UnquotePlusBytes(rest)
    decreases |bs|
  {
    if |bs| > 0 {
      var e := ['%', HexDigit(bs[0] / 16), HexDigit(bs[0] % 16)];
      var tail := PercentEncode(bs[1..]) + rest;
      assert PercentEncode(bs) + rest == e + tail;
      UnquoteEscape(bs[0], tail);
      UnquotePercentEncode(bs[1..], rest);
      assert bs == [bs[0]] + bs[1..];
    } else {
      assert PercentEncode(bs) + rest == rest;
    }
  }

  lemma UnquoteQuoteChar(c: char, rest: string)
    ensures UnquotePlusBytes(QuoteChar(c) + rest) == Utf8(c) + UnquotePlusBytes(rest)
  {
    if c == ' ' {
      assert (QuoteChar(c) + rest)[1..] == rest;
    } else if AlwaysSafe(c) {
      assert (QuoteChar(c) + rest)[1..] == rest;
    } else {
      UnquotePercentEncode(Utf8(c), rest);
    }
  }

  /** Decoding what `quote_plus` wrote gives back the UTF-8 bytes of the
      original text: no information is lost and nothing is added. */
  lemma {:induction false} UnquoteQuotePlus(s: string)
    ensures UnquotePlusBytes(QuotePlus(s)) == Utf8String(s)
    decreases |s|
  {
    if |s| > 0 {
      UnquoteQuoteChar(s[0], QuotePlus(s[1..]));
      UnquoteQuotePlus(s[1..]);
    }
  }
}

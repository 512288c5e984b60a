/** The Python 2 text codecs the emitter relies on:
    - `string_escape` (the body of a byte-string repr, quote `'`), applied by
      `Command.to_string` after UTF-8 encoding;
    - `unicode_escape`, applied to environment values in `RCFile.write`;
    - `repr` of unicode strings (`u'...'`), which `%s` applies to each item when
      a multi-line value, parsed into a list, is formatted into text.
    Also two readers used to state what the escaping achieves: one for the body of
    a Python unicode literal, one for the inside of a shell double-quoted word. */
module PyEscape {
  import opened Wrappers
  import opened Text

  const HEX: string := "0123456789abcdef"

  /** `w` lower-case hexadecimal digits of `n` (Python's `%0wx` for n < 16^w). */
  function Hex(n: nat, w: nat): (r: string)
    ensures |r| == w
    ensures forall i :: 0 <= i < |r| ==> r[i] in HEX
    decreases w
  {
    if w == 0 then "" else Hex(n / 16, w - 1) + [HEX[n % 16]]
  }

  predicate IsByte(b: int) {
    0 <= b < 256
  }

  /** UTF-8 encoding of one Unicode scalar value. */
  function Utf8(c: char): (bytes: seq<int>)
    ensures 1 <= |bytes| <= 4
    ensures forall i :: 0 <= i < |bytes| ==> IsByte(bytes[i])
    ensures c as int < 128 <==> bytes == [c as int]
    ensures c as int >= 128 ==> forall i :: 0 <= i < |bytes| ==> bytes[i] >= 128
  {
    var n := c as int;
    if n < 0x80 then [n]
    else if n < 0x800 then [0xC0 + n / 64, 0x80 + n % 64]
    else if n < 0x10000 then [0xE0 + n / 4096, 0x80 + (n / 64) % 64, 0x80 + n % 64]
    else [0xF0 + n / 262144, 0x80 + (n / 4096) % 64, 0x80 + (n / 64) % 64, 0x80 + n % 64]
  }

  function Utf8Bytes(s: string): (bs: seq<int>)
    ensures forall i :: 0 <= i < |bs| ==> IsByte(bs[i])
    decreases |s|
  {
    if |s| == 0 then [] else Utf8(s[0]) + Utf8Bytes(s[1..])
  }

  /** An ASCII text encodes to its own code points. */
  lemma {:induction false} Utf8Ascii(s: string)
    requires forall i :: 0 <= i < |s| ==> s[i] as int < 128
    ensures |Utf8Bytes(s)| == |s|
    ensures forall i :: 0 <= i < |s| ==> Utf8Bytes(s)[i] == s[i] as int
    decreases |s|
  {
    if |s| > 0 {
      Utf8Ascii(s[1..]);
    }
  }

  /** One byte of a Python 2 byte-string repr body quoted with `quote`. */
  function ReprByte(b: int, quote: char): (r: string)
    requires IsByte(b)
    ensures 1 <= |r| <= 4
    ensures quote == '\'' ==> r[0] != '\''
    ensures b != '\\' as int ==> '\\' !in r[1..]
    ensures b != quote as int ==> '\'' !in r[1..]
    ensures |r| == 1 <==> r == [b as char]
  {
    if b == quote as int || b == '\\' as int then ['\\', b as char]
    else if b == '\t' as int then "\\t"
    else if b == '\n' as int then "\\n"
    else if b == '\r' as int then "\\r"
    else if b < 32 || b >= 127 then "\\x" + Hex(b, 2)
    else [b as char]
  }

  function ReprBytes(bs: seq<int>, quote: char): (r: string)
    requires forall i :: 0 <= i < |bs| ==> IsByte(bs[i])
    ensures |bs| > 0 ==> |r| > 0 && (quote == '\'' ==> r[0] != '\'')
    decreases |bs|
  {
    if |bs| == 0 then "" else ReprByte(bs[0], quote) + ReprBytes(bs[1..], quote)
  }

  /** `s.encode('utf-8').encode('string_escape')`. */
  function StringEscape(s: string): string
  {
    ReprBytes(Utf8Bytes(s), '\'')
  }

  // ---------------------------------------------------------------------------
  // The escaping step of Command.to_string and its per-byte reading.

  /** What `to_string` does to a token holding a double quote:
      `string_escape`, then `\'` back to `'`, then `"` to `\"`. */
  function TokenEscape(x: string): (r: string)
    ensures r == TokenEscapeBytes(Utf8Bytes(x))
    ensures QuotesGuarded(r)
    ensures ShellLiteralText(x) ==> DqRead(r) == x
  {
    ReplaceSingleQuote(Utf8Bytes(x));
    ReplaceDoubleQuote(Utf8Bytes(x));
    EscapedQuotesGuarded(Utf8Bytes(x));
    var r := ReplaceAll(ReplaceAll(StringEscape(x), "\\'", "'"), "\"", "\\\"");
    if ShellLiteralText(x) then DqReadTokenEscapeBytes(x); r else r
  }

  /** The same escaping, one byte at a time: backslash and double quote get a
      backslash, tab/newline/CR their letter escapes, other control and non-ASCII
      bytes `\xhh`, everything else (the single quote included) stays. */
  function TokenEscapeByte(b: int): (r: string)
    requires IsByte(b)
  {
    if b == '"' as int then "\\\""
    else if b == '\'' as int then "'"
    else ReprByte(b, '\'')
  }

  function TokenEscapeBytes(bs: seq<int>): string
    requires forall i :: 0 <= i < |bs| ==> IsByte(bs[i])
    decreases |bs|
  {
    if |bs| == 0 then "" else TokenEscapeByte(bs[0]) + TokenEscapeBytes(bs[1..])
  }

  /** The first replacement only ever undoes the `\'` that `string_escape` wrote. */
  function UnquoteBytes(bs: seq<int>): string
    requires forall i :: 0 <= i < |bs| ==> IsByte(bs[i])
    decreases |bs|
  {
    if |bs| == 0 then "" else UnquoteByte(bs[0]) + UnquoteBytes(bs[1..])
  }

  function UnquoteByte(b: int): string
    requires IsByte(b)
  {
    if b == '\'' as int then "'" else ReprByte(b, '\'')
  }

  /** One escaped byte followed by text that does not start with `'`. */
  lemma ReplaceSingleQuoteUnit(b: int, t: string)
    requires IsByte(b)
    requires |t| == 0 || t[0] != '\''
    ensures ReplaceAll(ReprByte(b, '\'') + t, "\\'", "'")
      == UnquoteByte(b) + ReplaceAll(t, "\\'", "'")
  {
    var u := ReprByte(b, '\'');
    if b == '\'' as int {
      assert u == "\\'";
      QuoteUnit(t);
    } else if b == '\\' as int {
      assert u == "\\\\";
      BackslashUnit(t);
    } else if |u| > 1 {
      EscapeUnit(u, t);
    } else {
      assert u == [b as char];
      ReplacePlain(u, t, "\\'", "'");
    }
  }

  lemma {:induction false} ReplaceSingleQuote(bs: seq<int>)
    requires forall i :: 0 <= i < |bs| ==> IsByte(bs[i])
    ensures ReplaceAll(ReprBytes(bs, '\''), "\\'", "'") == UnquoteBytes(bs)
    decreases |bs|
  {
    if |bs| > 0 {
      ReplaceSingleQuote(bs[1..]);
      ReplaceSingleQuoteUnit(bs[0], ReprBytes(bs[1..], '\''));
    }
  }

  /** The second replacement, on one byte's text. */
  lemma ReplaceDoubleQuoteUnit(b: int)
    requires IsByte(b)
    ensures ReplaceAll(UnquoteByte(b), "\"", "\\\"") == TokenEscapeByte(b)
  {
    var u := UnquoteByte(b);
    if b == '"' as int {
      assert u == "\"";
    } else {
      assert '"' !in u;
      ReplacePlain(u, "", "\"", "\\\"");
      assert u + "" == u;
    }
  }

  lemma {:induction false} ReplaceDoubleQuote(bs: seq<int>)
    requires forall i :: 0 <= i < |bs| ==> IsByte(bs[i])
    ensures ReplaceAll(UnquoteBytes(bs), "\"", "\\\"") == TokenEscapeBytes(bs)
    decreases |bs|
  {
    if |bs| > 0 {
      ReplaceDoubleQuote(bs[1..]);
      ReplaceAllAppend(UnquoteByte(bs[0]), UnquoteBytes(bs[1..]), "\"", "\\\"");
      ReplaceDoubleQuoteUnit(bs[0]);
    }
  }

  /** Every double quote in `s` has a backslash right before it. */
  predicate QuotesGuarded(s: string) {
    forall i :: 0 <= i < |s| && s[i] == '"' ==> i > 0 && s[i - 1] == '\\'
  }

  /** Guarded text followed by guarded text is guarded: a guarded text never
      starts with a double quote. */
  lemma GuardedAppend(u: string, t: string)
    requires QuotesGuarded(u) && QuotesGuarded(t)
    ensures QuotesGuarded(u + t)
  {
    var r := u + t;
    forall i | 0 <= i < |r| && r[i] == '"' ensures i > 0 && r[i - 1] == '\\' {
      if i < |u| {
        assert r[i] == u[i] && r[i - 1] == u[i - 1];
      } else {
        assert r[i] == t[i - |u|] && r[i - 1] == t[i - |u| - 1];
      }
    }
  }

  lemma EscapedQuoteGuarded(b: int)
    requires IsByte(b)
    ensures QuotesGuarded(TokenEscapeByte(b))
  {
    var u := TokenEscapeByte(b);
    if b != '"' as int && b != '\'' as int {
      assert u[0] != '"';
    }
  }

  /** After escaping, every double quote is preceded by a backslash. */
  lemma {:induction false} EscapedQuotesGuarded(bs: seq<int>)
    requires forall i :: 0 <= i < |bs| ==> IsByte(bs[i])
    ensures QuotesGuarded(TokenEscapeBytes(bs))
    decreases |bs|
  {
    if |bs| > 0 {
      EscapedQuotesGuarded(bs[1..]);
      EscapedQuoteGuarded(bs[0]);
      GuardedAppend(TokenEscapeByte(bs[0]), TokenEscapeBytes(bs[1..]));
    }
  }

  // ---------------------------------------------------------------------------
  // unicode_escape, used on environment values.

  /** One character under Python 2's `unicode_escape` codec. */
  function UnicodeEscapeChar(c: char): (r: string)
    ensures |r| >= 1
  {
    var n := c as int;
    if c == '\\' then "\\\\"
    else if n >= 0x10000 then "\\U" + Hex(n, 8)
    else if n >= 256 then "\\u" + Hex(n, 4)
    else if c == '\t' then "\\t"
    else if c == '\n' then "\\n"
    else if c == '\r' then "\\r"
    else if n < 32 || n >= 127 then "\\x" + Hex(n, 2)
    else [c]
  }

  function UnicodeEscape(s: string): string
    decreases |s|
  {
    if |s| == 0 then "" else UnicodeEscapeChar(s[0]) + UnicodeEscape(s[1..])
  }

  /** `val.encode('unicode_escape').replace('"', '\\"')`, as `write` does for an
      environment value holding a space. */
  function EnvEscape(v: string): (r: string)
    ensures ShellLiteralText(v) ==> DqRead(r) == v
  {
    var r := ReplaceAll(UnicodeEscape(v), "\"", "\\\"");
    if ShellLiteralText(v) then UnicodeEscapeReadsBack(v); r else r
  }

  // ---------------------------------------------------------------------------
  // repr of unicode strings, and reading a unicode literal back.

  /** The quote `repr` puts around `s`: a double quote when the text holds a
      single quote and no double quote, a single quote otherwise. */
  function ReprQuote(s: string): (q: char)
    ensures q == '\'' || q == '"'
  {
    if '\'' in s && '"' !in s then '"' else '\''
  }

  /** One character of a `u'...'` repr body quoted with `quote`: the quote gets a
      backslash, every other character is written as `unicode_escape` writes it. */
  function UnicodeReprChar(c: char, quote: char): string
  {
    if c == quote then ['\\', c] else UnicodeEscapeChar(c)
  }

  function UnicodeReprBody(s: string, quote: char): string
    decreases |s|
  {
    if |s| == 0 then "" else UnicodeReprChar(s[0], quote) + UnicodeReprBody(s[1..], quote)
  }

  /** `repr(s)` of a Python 2 unicode string: what Python would evaluate back to
      `s`, and for plain printable text just `u'` + `s` + `'`. */
  function UnicodeRepr(s: string): (r: string)
    ensures IsUnicodeLiteralOf(r, s)
    ensures PlainText(s) ==> r == "u'" + s + "'"
  {
    var q := ReprQuote(s);
    ReadReprBody(s, q);
    PlainReprBody(s, q);
    "u" + [q] + UnicodeReprBody(s, q) + [q]
  }

  /** `r` is a Python unicode literal, `u` and a quoted body, whose value is `s`. */
  predicate IsUnicodeLiteralOf(r: string, s: string) {
    |r| >= 3 && r[0] == 'u' && (r[1] == '\'' || r[1] == '"') && r[|r| - 1] == r[1] &&
    LiteralRead(r[2..|r| - 1], r[1]) == Some(s)
  }

  /** Printable ASCII without quotes or backslashes: `repr` writes it unchanged. */
  predicate PlainText(s: string) {
    forall i :: 0 <= i < |s| ==> 32 <= s[i] as int < 127 && s[i] != '\'' && s[i] != '"' && s[i] != '\\'
  }

  function DigitValue(c: char): nat {
    if '0' <= c <= '9' then c as int - '0' as int
    else if 'a' <= c <= 'f' then c as int - 'a' as int + 10
    else if 'A' <= c <= 'F' then c as int - 'A' as int + 10
    else 0
  }

  predicate IsHexDigit(c: char) {
    '0' <= c <= '9' || 'a' <= c <= 'f' || 'A' <= c <= 'F'
  }

  predicate AllHex(d: string) {
    forall k :: 0 <= k < |d| ==> IsHexDigit(d[k])
  }

  /** The number a run of hexadecimal digits denotes. */
  function HexValue(t: string): nat
    decreases |t|
  {
    if |t| == 0 then 0 else HexValue(t[..|t| - 1]) * 16 + DigitValue(t[|t| - 1])
  }

  function Pow16(w: nat): nat {
    if w == 0 then 1 else 16 * Pow16(w - 1)
  }

  predicate IsScalar(n: int) {
    0 <= n < 0xD800 || 0xE000 <= n < 0x11_0000
  }

  /** `o` with `c` put in front of its text. */
  function Cons(c: char, o: Option<string>): Option<string> {
    if o.Some? then Some([c] + o.value) else None
  }

  /** The value of the body of a Python unicode literal closed by `quote`: `None`
      when the body would end the literal early (a bare `quote`), ends in a lone
      backslash, or holds a malformed `\x`, `\u` or `\U` escape. The escapes
      read are the ones `repr` writes; any other backslash is kept, as Python
      keeps an unknown escape (`\a`, `\b`, `\f`, `\v`, octal and `\N{...}`
      are not read). */
  function LiteralRead(t: string, quote: char): Option<string>
    decreases |t|
  {
    if |t| == 0 then Some("")
    else if t[0] == quote then None
    else if t[0] != '\\' then Cons(t[0], LiteralRead(t[1..], quote))
    else if |t| == 1 then None
    else
      var e := t[1];
      if e == '\\' || e == '\'' || e == '"' then Cons(e, LiteralRead(t[2..], quote))
      else if e == 't' then Cons('\t', LiteralRead(t[2..], quote))
      else if e == 'n' then Cons('\n', LiteralRead(t[2..], quote))
      else if e == 'r' then Cons('\r', LiteralRead(t[2..], quote))
      else if e == 'x' || e == 'u' || e == 'U' then
        var w := if e == 'x' then 2 else if e == 'u' then 4 else 8;
        if |t| < 2 + w then None
        else if !AllHex(t[2..2 + w]) then None
        else if !IsScalar(HexValue(t[2..2 + w])) then None
        else Cons(HexValue(t[2..2 + w]) as char, LiteralRead(t[2 + w..], quote))
      else Cons('\\', LiteralRead(t[1..], quote))
  }

  /** `Hex` writes digits that `HexValue` reads back, for numbers that fit. */
  lemma {:induction false} HexReadsBack(n: nat, w: nat)
    requires n < Pow16(w)
    ensures HexValue(Hex(n, w)) == n
    ensures AllHex(Hex(n, w))
    decreases w
  {
    if w > 0 {
      HexReadsBack(n / 16, w - 1);
      var h := Hex(n / 16, w - 1);
      var d := HEX[n % 16];
      assert Hex(n, w) == h + [d];
      assert (h + [d])[..w - 1] == h;
      HexDigitValue(n % 16);
    }
  }

  lemma HexDigitValue(k: nat)
    requires k < 16
    ensures IsHexDigit(HEX[k]) && DigitValue(HEX[k]) == k
  {
    if k < 10 {
      assert HEX[k] as int == '0' as int + k by {
        assert HEX[..10] == "0123456789";
      }
    } else {
      assert HEX[k] as int == 'a' as int + k - 10 by {
        assert HEX[10..] == "abcdef";
        assert HEX[k] == HEX[10..][k - 10];
      }
    }
  }

  /** A character that is neither backslash nor quote reads as itself. */
  lemma ReadOrdinary(c: char, t: string, q: char)
    requires c != q && c != '\\'
    ensures LiteralRead([c] + t, q) == Cons(c, LiteralRead(t, q))
  {
    assert ([c] + t)[1..] == t;
  }

  /** A backslash and one of the letters or characters `repr` writes after it. */
  lemma ReadPair(e: char, c: char, t: string, q: char)
    requires q == '\'' || q == '"'
    requires (e == c && (c == '\\' || c == '\'' || c == '"')) || (e == 't' && c == '\t') ||
             (e == 'n' && c == '\n') || (e == 'r' && c == '\r')
    ensures LiteralRead(['\\', e] + t, q) == Cons(c, LiteralRead(t, q))
  {
    assert (['\\', e] + t)[2..] == t;
  }

  /** The number of digits after `\x`, `\u` and `\U`. */
  function EscapeWidth(e: char): nat {
    if e == 'x' then 2 else if e == 'u' then 4 else 8
  }

  /** A `\x`, `\u` or `\U` escape with well-formed digits. */
  lemma ReadHexDigits(e: char, d: string, t: string, q: char)
    requires q == '\'' || q == '"'
    requires e == 'x' || e == 'u' || e == 'U'
    requires |d| == EscapeWidth(e) && AllHex(d) && IsScalar(HexValue(d))
    ensures LiteralRead("\\" + [e] + d + t, q) == Cons(HexValue(d) as char, LiteralRead(t, q))
  {
    var u := "\\" + [e] + d + t;
    assert u[2..2 + |d|] == d;
    assert u[2 + |d|..] == t;
  }

  /** The escape `unicode_escape` writes for `c` with `w` digits reads back as `c`. */
  lemma ReadHexEscape(e: char, c: char, t: string, q: char)
    requires q == '\'' || q == '"'
    requires e == 'x' || e == 'u' || e == 'U'
    requires c as int < Pow16(EscapeWidth(e))
    ensures LiteralRead("\\" + [e] + Hex(c as int, EscapeWidth(e)) + t, q) == Cons(c, LiteralRead(t, q))
  {
    HexReadsBack(c as int, EscapeWidth(e));
    ReadHexDigits(e, Hex(c as int, EscapeWidth(e)), t, q);
  }

  lemma Pow16Widths()
    ensures Pow16(2) == 0x100 && Pow16(4) == 0x1_0000 && Pow16(8) == 0x1_0000_0000
  {
  }

  /** Each written character reads back as the character. */
  lemma ReadReprChar(c: char, t: string, q: char)
    requires q == '\'' || q == '"'
    ensures LiteralRead(UnicodeReprChar(c, q) + t, q) == Cons(c, LiteralRead(t, q))
  {
    var n := c as int;
    if c == q || c == '\\' {
      assert UnicodeReprChar(c, q) == ['\\', c];
      ReadPair(c, c, t, q);
    } else if n >= 256 || n < 32 || n >= 127 {
      ReadReprEscaped(c, t, q);
    } else {
      assert UnicodeReprChar(c, q) == [c];
      ReadOrdinary(c, t, q);
    }
  }

  /** The characters `unicode_escape` writes as an escape. */
  lemma ReadReprEscaped(c: char, t: string, q: char)
    requires q == '\'' || q == '"'
    requires c != q && c != '\\'
    requires c as int >= 256 || c as int < 32 || c as int >= 127
    ensures LiteralRead(UnicodeReprChar(c, q) + t, q) == Cons(c, LiteralRead(t, q))
  {
    var n := c as int;
    if n >= 256 {
      ReadReprWide(c, t, q);
    } else if c == '\t' {
      assert UnicodeReprChar(c, q) == ['\\', 't'];
      ReadPair('t', c, t, q);
    } else if c == '\n' {
      assert UnicodeReprChar(c, q) == ['\\', 'n'];
      ReadPair('n', c, t, q);
    } else if c == '\r' {
      assert UnicodeReprChar(c, q) == ['\\', 'r'];
      ReadPair('r', c, t, q);
    } else {
      ReadReprByte(c, t, q);
    }
  }

  lemma ReadReprWide(c: char, t: string, q: char)
    requires q == '\'' || q == '"'
    requires c as int >= 256
    ensures LiteralRead(UnicodeReprChar(c, q) + t, q) == Cons(c, LiteralRead(t, q))
  {
    var n := c as int;
    Pow16Widths();
    var e := if n >= 0x10000 then 'U' else 'u';
    assert UnicodeReprChar(c, q) == "\\" + [e] + Hex(n, EscapeWidth(e));
    ReadHexEscape(e, c, t, q);
  }

  lemma ReadReprByte(c: char, t: string, q: char)
    requires q == '\'' || q == '"'
    requires c as int < 32 || 127 <= c as int < 256
    requires c != '\t' && c != '\n' && c != '\r'
    ensures LiteralRead(UnicodeReprChar(c, q) + t, q) == Cons(c, LiteralRead(t, q))
  {
    Pow16Widths();
    assert UnicodeReprChar(c, q) == "\\" + ['x'] + Hex(c as int, 2);
    ReadHexEscape('x', c, t, q);
  }

  /** Python evaluates a repr body back to the text it was written from. */
  lemma {:induction false} ReadReprBody(s: string, q: char)
    requires q == '\'' || q == '"'
    ensures LiteralRead(UnicodeReprBody(s, q), q) == Some(s)
    decreases |s|
  {
    if |s| > 0 {
      ReadReprBody(s[1..], q);
      ReadReprChar(s[0], UnicodeReprBody(s[1..], q), q);
      assert [s[0]] + s[1..] == s;
    }
  }

  /** Plain text is its own repr body. */
  lemma {:induction false} PlainReprBody(s: string, q: char)
    requires q == '\'' || q == '"'
    ensures PlainText(s) ==> UnicodeReprBody(s, q) == s
    decreases |s|
  {
    if |s| > 0 && PlainText(s) {
      PlainReprBody(s[1..], q);
      assert UnicodeReprChar(s[0], q) == [s[0]];
      assert [s[0]] + s[1..] == s;
    }
  }

  // ---------------------------------------------------------------------------
  // Reading escaped text back as a shell does inside double quotes.

  predicate IsDqSpecial(c: char) {
    c == '$' || c == '`' || c == '"' || c == '\\' || c == '\n'
  }

  /** The characters a POSIX shell yields for the text between a pair of double
      quotes, as far as backslashes are concerned: a backslash is dropped before
      `$`, backquote, double quote, backslash and newline, and kept otherwise.
      Expansions are not modelled, so callers keep `$` and backquote out. */
  function DqRead(s: string): string
    decreases |s|
  {
    if |s| == 0 then ""
    else if s[0] == '\\' && |s| >= 2 && IsDqSpecial(s[1]) then [s[1]] + DqRead(s[2..])
    else [s[0]] + DqRead(s[1..])
  }

  /** Printable ASCII without the characters that trigger shell expansion. */
  predicate ShellLiteralText(s: string) {
    forall i :: 0 <= i < |s| ==> 32 <= s[i] as int < 127 && s[i] != '$' && s[i] != '`'
  }

  lemma {:induction false} DqReadTokenEscapeBytes(s: string)
    requires ShellLiteralText(s)
    ensures DqRead(TokenEscapeBytes(Utf8Bytes(s))) == s
    decreases |s|
  {
    if |s| > 0 {
      Utf8Ascii(s);
      Utf8Ascii(s[1..]);
      var bs := Utf8Bytes(s);
      assert bs == Utf8(s[0]) + Utf8Bytes(s[1..]);
      assert Utf8(s[0]) == [s[0] as int];
      assert bs[1..] == Utf8Bytes(s[1..]);
      var u := TokenEscapeByte(bs[0]);
      var t := TokenEscapeBytes(bs[1..]);
      DqReadTokenEscapeBytes(s[1..]);
      assert TokenEscapeBytes(bs) == u + t;
      if s[0] == '"' || s[0] == '\\' {
        assert u == ['\\', s[0]];
        assert (u + t)[2..] == t;
      } else {
        assert u == [s[0]];
        assert (u + t)[1..] == t;
      }
      assert [s[0]] + s[1..] == s;
    }
  }

  /** Text that needs no escaping reads back as itself between double quotes. */
  lemma {:induction false} DqReadPlain(s: string)
    requires '\\' !in s
    ensures DqRead(s) == s
    decreases |s|
  {
    if |s| > 0 {
      DqReadPlain(s[1..]);
      assert [s[0]] + s[1..] == s;
    }
  }

  /** Double-quoted, the escaped value of `EnvEscape` reads back as the value. */
  lemma {:induction false} UnicodeEscapeReadsBack(s: string)
    requires ShellLiteralText(s)
    ensures DqRead(ReplaceAll(UnicodeEscape(s), "\"", "\\\"")) == s
    decreases |s|
  {
    if |s| > 0 {
      var u := UnicodeEscapeChar(s[0]);
      assert UnicodeEscape(s) == u + UnicodeEscape(s[1..]);
      ReplaceAllAppend(u, UnicodeEscape(s[1..]), "\"", "\\\"");
      UnicodeEscapeReadsBack(s[1..]);
      var t := ReplaceAll(UnicodeEscape(s[1..]), "\"", "\\\"");
      if s[0] == '"' {
        assert u == "\"";
        assert ReplaceAll(u, "\"", "\\\"") == "\\\"";
        assert ReplaceAll(UnicodeEscape(s), "\"", "\\\"") == "\\\"" + t;
        assert ("\\\"" + t)[2..] == t;
      } else if s[0] == '\\' {
        assert u == "\\\\";
        ReplacePlain(u, "", "\"", "\\\"");
        assert u + "" == u;
        assert ReplaceAll(UnicodeEscape(s), "\"", "\\\"") == "\\\\" + t;
        assert ("\\\\" + t)[2..] == t;
      } else {
        assert u == [s[0]];
        ReplacePlain(u, "", "\"", "\\\"");
        assert u + "" == u;
        assert ReplaceAll(UnicodeEscape(s), "\"", "\\\"") == [s[0]] + t;
        assert ([s[0]] + t)[1..] == t;
      }
      assert [s[0]] + s[1..] == s;
    }
  }
}

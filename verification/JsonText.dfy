/**
  JSON strings as section 7 of RFC 8259 defines them: what the extension's writer
  escapes, what a reader decodes, and what becomes of a request id on its way to the
  extension and back. C bytes and Python characters are both written as `char`.
 */
module JsonText {
  import opened Basics
  import opened Values

  const QUOTE: char := '"'
  const BACKSLASH: char := '\\'
  const NEWLINE: char := '\n'
  const BACKSPACE: char := '\U{0008}'
  const FORM_FEED: char := '\U{000C}'
  const RETURN: char := '\r'
  const TAB: char := '\t'

  /** The letter of a two-character escape, if the character has one. */
  function ShortEscape(c: char): Option<char>
  {
    if c == QUOTE then Some(QUOTE)
    else if c == BACKSLASH then Some(BACKSLASH)
    else if c == BACKSPACE then Some('b')
    else if c == FORM_FEED then Some('f')
    else if c == NEWLINE then Some('n')
    else if c == RETURN then Some('r')
    else if c == TAB then Some('t')
    else None
  }

  function UnicodeEscape(n: nat): string
    requires n < 0x1_0000
  {
    [BACKSLASH, 'u', Digit(n / 4096), Digit(n / 256 % 16), Digit(n / 16 % 16), Digit(n % 16)]
  }

  /** One character as `DvsAppendJsonEscapedString` writes it. */
  function EscapeChar(c: char): string
  {
    if ShortEscape(c).Some? then [BACKSLASH, ShortEscape(c).value]
    else if c < ' ' then UnicodeEscape(c as nat)
    else [c]
  }

  function Escape(s: string): string
  {
    if s == "" then "" else Escape(s[..|s| - 1]) + EscapeChar(s[|s| - 1])
  }

  function Quoted(s: string): string
  {
    [QUOTE] + Escape(s) + [QUOTE]
  }

  // ---------------------------------------------------------------- reading

  /** What a two-character escape stands for. */
  function ShortMeaning(letter: char): Option<char>
  {
    match letter
    case '"' => Some(QUOTE)
    case '\\' => Some(BACKSLASH)
    case '/' => Some('/')
    case 'b' => Some(BACKSPACE)
    case 'f' => Some(FORM_FEED)
    case 'n' => Some(NEWLINE)
    case 'r' => Some(RETURN)
    case 't' => Some(TAB)
    case _ => None
  }

  /** The character of four hex digits; surrogates are left out. */
  function UnicodeMeaning(d: string): Option<char>
    requires |d| == 4
  {
    if exists i :: 0 <= i < 4 && !IsHexDigit(d[i]) then None
    else
      var n := DigitValue(d[0]) * 4096 + DigitValue(d[1]) * 256 + DigitValue(d[2]) * 16 + DigitValue(d[3]);
      if 0xD800 <= n < 0xE000 || n >= 0x1_0000 then None else Some(n as char)
  }

  datatype Parsed = Failed | Parsed(value: string, rest: string)

  function Prepend(s: string, p: Parsed): Parsed
  {
    if p.Failed? then Failed else Parsed(s + p.value, p.rest)
  }

  /** The first character of a string's text, and how many characters of the text it takes. */
  function Head(t: string): (h: Option<(char, nat)>)
    requires t != ""
    ensures h.Some? ==> 0 < h.value.1 <= |t|
  {
    if t[0] == QUOTE || t[0] < ' ' then None
    else if t[0] != BACKSLASH then Some((t[0], 1))
    else if |t| >= 2 && ShortMeaning(t[1]).Some? then Some((ShortMeaning(t[1]).value, 2))
    else if |t| >= 6 && t[1] == 'u' && UnicodeMeaning(t[2..6]).Some? then Some((UnicodeMeaning(t[2..6]).value, 6))
    else None
  }

  /** Reads a string up to and including its closing quotation mark. */
  function ReadBody(t: string): Parsed
    decreases |t|
  {
    if t == "" then Failed
    else if t[0] == QUOTE then Parsed("", t[1..])
    else match Head(t)
      case None => Failed
      case Some((c, n)) => Prepend([c], ReadBody(t[n..]))
  }

  function ReadString(t: string): Parsed
  {
    if t == "" || t[0] != QUOTE then Failed else ReadBody(t[1..])
  }

  // ---------------------------------------------------------------- round trip

  lemma ControlMeaning(c: char)
    requires c < ' '
    ensures UnicodeMeaning(UnicodeEscape(c as nat)[2..6]) == Some(c)
  {
    var n := c as nat;
    assert n / 4096 == 0 && n / 256 % 16 == 0 && n / 16 % 16 == n / 16;
    assert UnicodeEscape(n)[2..6] == [Digit(0), Digit(0), Digit(n / 16), Digit(n % 16)];
    LowMeaning(n / 16, n % 16);
  }

  lemma LowMeaning(high: nat, low: nat)
    requires high < 16 && low < 16
    ensures UnicodeMeaning([Digit(0), Digit(0), Digit(high), Digit(low)]) == Some((16 * high + low) as char)
  {
    DigitRoundTrip(0);
    DigitRoundTrip(high);
    DigitRoundTrip(low);
  }

  lemma HeadOfEscaped(c: char, t: string)
    ensures Head(EscapeChar(c) + t) == Some((c, |EscapeChar(c)|))
  {
    var text := EscapeChar(c) + t;
    if ShortEscape(c).None? && c < ' ' {
      ControlMeaning(c);
      assert text[2..6] == UnicodeEscape(c as nat)[2..6];
    }
  }

  lemma EscapedStart(c: char)
    ensures 0 < |EscapeChar(c)| <= 6 && EscapeChar(c)[0] != QUOTE
  {
  }

  lemma ReadsEscapedChar(c: char, t: string)
    ensures ReadBody(EscapeChar(c) + t) == Prepend([c], ReadBody(t))
  {
    var text := EscapeChar(c) + t;
    HeadOfEscaped(c, t);
    EscapedStart(c);
    assert text[|EscapeChar(c)|..] == t;
  }

  lemma PrependTwice(a: string, b: string, p: Parsed)
    ensures Prepend(a, Prepend(b, p)) == Prepend(a + b, p)
  {
    if p.Parsed? {
      assert a + (b + p.value) == a + b + p.value;
    }
  }

  lemma PrependNothing(p: Parsed)
    ensures Prepend("", p) == p
  {
    if p.Parsed? {
      assert "" + p.value == p.value;
    }
  }

  lemma EscapeLast(s: string, t: string)
    requires s != ""
    ensures Escape(s) + t == Escape(s[..|s| - 1]) + (EscapeChar(s[|s| - 1]) + t)
  {
  }

  lemma ReadsOneMore(s: string, init: string, c: char, t: string, whole: string)
    requires s == init + [c] && ReadBody(whole) == Prepend(init, ReadBody(EscapeChar(c) + t))
    ensures ReadBody(whole) == Prepend(s, ReadBody(t))
  {
    ReadsEscapedChar(c, t);
    PrependTwice(init, [c], ReadBody(t));
  }

  lemma {:induction false} ReadsEscaped(s: string, t: string, whole: string)
    requires whole == Escape(s) + t
    ensures ReadBody(whole) == Prepend(s, ReadBody(t))
    decreases |s|
  {
    if s == "" {
      ReadsNothing(t, whole);
    } else {
      var init, c := s[..|s| - 1], s[|s| - 1];
      LastSplits(s);
      EscapeLast(s, t);
      ReadsEscaped(init, EscapeChar(c) + t, whole);
      ReadsOneMore(s, init, c, t, whole);
    }
  }

  lemma LastSplits(s: string)
    requires s != ""
    ensures s == s[..|s| - 1] + [s[|s| - 1]]
  {
  }

  lemma ReadsNothing(t: string, whole: string)
    requires whole == Escape("") + t
    ensures ReadBody(whole) == Prepend("", ReadBody(t))
  {
    assert whole == t;
    PrependNothing(ReadBody(t));
  }

  /** Every string is read back, wherever it stands. */
  lemma QuotedRoundTrip(s: string, rest: string)
    ensures ReadString(Quoted(s) + rest) == Parsed(s, rest)
  {
    var t := [QUOTE] + rest;
    assert (Quoted(s) + rest)[1..] == Escape(s) + t;
    assert t[1..] == rest;
    ReadsEscaped(s, t, Escape(s) + t);
    assert s + "" == s;
  }

  // ---------------------------------------------------------------- size and shape

  predicate OneLine(t: string)
  {
    |t| > 0 && t[|t| - 1] == NEWLINE && NEWLINE !in t[..|t| - 1]
  }

  lemma DigitIsNoNewline(d: nat)
    requires d < 16
    ensures Digit(d) != NEWLINE
  {
  }

  lemma EscapedCharShape(c: char)
    ensures |EscapeChar(c)| <= 6 && NEWLINE !in EscapeChar(c)
  {
    if ShortEscape(c).None? && c < ' ' {
      var n := c as nat;
      DigitIsNoNewline(n / 4096);
      DigitIsNoNewline(n / 256 % 16);
      DigitIsNoNewline(n / 16 % 16);
      DigitIsNoNewline(n % 16);
    }
  }

  lemma {:induction false} EscapeIsBounded(s: string)
    ensures |Escape(s)| <= 6 * |s| && NEWLINE !in Escape(s)
    decreases |s|
  {
    if s != "" {
      EscapeIsBounded(s[..|s| - 1]);
      EscapedCharShape(s[|s| - 1]);
    }
  }

  lemma QuotedIsBounded(s: string)
    ensures |Quoted(s)| <= 6 * |s| + 2 && NEWLINE !in Quoted(s)
  {
    EscapeIsBounded(s);
  }

  function Pow10(k: nat): nat
  {
    if k == 0 then 1 else 10 * Pow10(k - 1)
  }

  lemma {:induction false} DecimalLength(n: nat, k: nat)
    requires k > 0 && n < Pow10(k)
    ensures |Dec(n)| <= k && NEWLINE !in Dec(n)
    decreases k
  {
    DigitIsNoNewline(n % 10);
    if n >= 10 {
      assert Pow10(k) == 10 * Pow10(k - 1);
      assert k > 1;
      DecimalLength(n / 10, k - 1);
    }
  }

  /** A 32-bit number has at most ten decimal digits. */
  lemma WordLength(n: nat)
    requires n < 0x1_0000_0000
    ensures |Dec(n)| <= 10 && NEWLINE !in Dec(n)
  {
    assert Pow10(5) == 100000;
    assert Pow10(10) == 10000000000;
    DecimalLength(n, 10);
  }

  /** `%016llx`. */
  function FixedHex(n: nat, k: nat): (t: string)
    ensures |t| == k && NEWLINE !in t
  {
    if k == 0 then ""
    else
      DigitIsNoNewline(n % 16);
      FixedHex(n / 16, k - 1) + [Digit(n % 16)]
  }

  lemma {:induction false} FixedHexRoundTrip(n: nat, k: nat)
    requires n < Pow16(k)
    ensures DigitsValue(FixedHex(n, k), 16) == n
  {
    if k > 0 {
      FixedHexRoundTrip(n / 16, k - 1);
      DigitRoundTrip(n % 16);
      var t := FixedHex(n, k);
      assert t[..|t| - 1] == FixedHex(n / 16, k - 1);
    }
  }

  function Pow16(k: nat): nat
  {
    if k == 0 then 1 else 16 * Pow16(k - 1)
  }

  lemma {:induction false} HexPairsShape(bytes: seq<Byte>)
    ensures |HexPairs(bytes)| == 2 * |bytes| && NEWLINE !in HexPairs(bytes)
  {
    if bytes != [] {
      HexPairsShape(bytes[1..]);
      DigitIsNoNewline(bytes[0] / 16);
      DigitIsNoNewline(bytes[0] % 16);
    }
  }

  lemma {:induction false} HexPairsAppend(bytes: seq<Byte>, b: Byte)
    ensures HexPairs(bytes + [b]) == HexPairs(bytes) + [Digit(b / 16), Digit(b % 16)]
  {
    if bytes == [] {
      assert (bytes + [b])[1..] == [];
    } else {
      assert (bytes + [b])[1..] == bytes[1..] + [b];
      HexPairsAppend(bytes[1..], b);
    }
  }

  // ---------------------------------------------------------------- the echo of a request id

  /** A character that `json.dumps` writes as it is. */
  predicate Plain(c: char)
  {
    ' ' <= c <= '~' && c != QUOTE && c != BACKSLASH
  }

  /** One character as `json.dumps` writes it. */
  function DumpChar(c: char): string
  {
    if Plain(c) then [c]
    else if ShortEscape(c).Some? then [BACKSLASH, ShortEscape(c).value]
    else if c as nat < 0x1_0000 then UnicodeEscape(c as nat)
    else
      var n := c as nat - 0x1_0000;
      UnicodeEscape(0xD800 + n / 1024 % 1024) + UnicodeEscape(0xDC00 + n % 1024)
  }

  function Dump(s: string): string
  {
    if s == "" then "" else DumpChar(s[0]) + Dump(s[1..])
  }

  /** What the extension takes for a field's value: the characters before the next quotation mark. */
  function UntilQuote(t: string): (value: string)
    ensures value <= t && QUOTE !in value
    ensures |value| < |t| ==> t[|value|] == QUOTE
  {
    if t == "" || t[0] == QUOTE then "" else [t[0]] + UntilQuote(t[1..])
  }

  /** The id that IDA decodes from the response to a request it sent with this id. */
  function Echo(id: string): string
  {
    UntilQuote(Dump(id) + [QUOTE])
  }

  lemma EchoPlain(c: char, s: string)
    requires Plain(c)
    ensures Echo([c] + s) == [c] + Echo(s)
  {
    assert ([c] + s)[1..] == s;
    var t := Dump([c] + s) + [QUOTE];
    assert t == [c] + (Dump(s) + [QUOTE]);
    assert t[1..] == Dump(s) + [QUOTE];
  }

  /** A character that is not plain echoes as an escape. */
  lemma EchoEscaped(c: char, s: string)
    requires !Plain(c)
    ensures |Echo([c] + s)| > 0 && Echo([c] + s)[0] == BACKSLASH
    ensures c == BACKSLASH ==> Echo([c] + s) == [BACKSLASH, BACKSLASH] + Echo(s)
  {
    assert ([c] + s)[1..] == s;
    var t := Dump([c] + s) + [QUOTE];
    assert t[0] == BACKSLASH;
    if c == BACKSLASH {
      assert t == [BACKSLASH, BACKSLASH] + (Dump(s) + [QUOTE]);
      assert t[1..][1..] == Dump(s) + [QUOTE];
    }
  }

  function Slashes(k: nat): string
  {
    if k == 0 then "" else [BACKSLASH] + Slashes(k - 1)
  }

  lemma {:induction false} SlashesGrow(k: nat)
    ensures Slashes(k) + [BACKSLASH, BACKSLASH] == [BACKSLASH] + Slashes(k + 1)
  {
    if k > 0 {
      SlashesGrow(k - 1);
    }
  }

  lemma SlashesBefore(k: nat, e: string)
    ensures Slashes(k) + ([BACKSLASH, BACKSLASH] + e) == [BACKSLASH] + (Slashes(k + 1) + e)
  {
    SlashesGrow(k);
    assert Slashes(k) + ([BACKSLASH, BACKSLASH] + e) == (Slashes(k) + [BACKSLASH, BACKSLASH]) + e;
    assert [BACKSLASH] + (Slashes(k + 1) + e) == ([BACKSLASH] + Slashes(k + 1)) + e;
  }

  lemma SameTail(c: char, a: string, b: string)
    ensures [c] + a == [c] + b ==> a == b
  {
    assert ([c] + a)[1..] == a && ([c] + b)[1..] == b;
  }

  /** Doubling backslashes never gives back the same text. */
  lemma {:induction false} NeverCatchesUp(s: string, k: nat)
    requires k > 0
    ensures s != Slashes(k) + Echo(s)
    decreases |s|
  {
    if s != "" && s[0] == BACKSLASH {
      var tail := s[1..];
      assert s == [BACKSLASH] + tail;
      EchoEscaped(BACKSLASH, tail);
      SlashesBefore(k, Echo(tail));
      NeverCatchesUp(tail, k + 1);
      SameTail(BACKSLASH, tail, Slashes(k + 1) + Echo(tail));
    }
  }

  ghost predicate AllPlain(s: string)
  {
    forall i :: 0 <= i < |s| ==> Plain(s[i])
  }

  lemma PlainHead(c: char, s: string)
    ensures AllPlain([c] + s) <==> Plain(c) && AllPlain(s)
  {
    var t := [c] + s;
    if AllPlain(t) {
      forall i | 0 <= i < |s| ensures Plain(s[i]) {
        assert t[i + 1] == s[i];
      }
      assert Plain(t[0]);
    }
  }

  lemma NotExact(c: char, s: string)
    requires !Plain(c)
    ensures Echo([c] + s) != [c] + s
  {
    EchoEscaped(c, s);
    if c == BACKSLASH {
      NeverCatchesUp(s, 1);
      SlashesBefore(0, Echo(s));
      assert Slashes(0) + Echo([c] + s) == Echo([c] + s);
      SameTail(BACKSLASH, Slashes(1) + Echo(s), s);
    }
  }

  /** A request id comes back unchanged exactly if all of its characters are plain. */
  lemma {:induction false} EchoIsExactIff(id: string)
    ensures Echo(id) == id <==> AllPlain(id)
    decreases |id|
  {
    if id != "" {
      var c, s := id[0], id[1..];
      assert id == [c] + s;
      PlainHead(c, s);
      EchoIsExactIff(s);
      if Plain(c) {
        EchoPlain(c, s);
        SameTail(c, Echo(s), s);
      } else {
        NotExact(c, s);
      }
    }
  }
}

/** Textual numbers, request ids and little-endian memory values. */
module Values {
  import opened Basics
  import opened Bits

  function Digit(d: nat): char
    requires d < 16
  {
    "0123456789abcdef"[d]
  }

  function DigitValue(c: char): nat
  {
    if '0' <= c <= '9' then (c - '0') as nat
    else if 'a' <= c <= 'f' then 10 + (c - 'a') as nat
    else 0
  }

  lemma DigitRoundTrip(d: nat)
    requires d < 16
    ensures DigitValue(Digit(d)) == d && IsHexDigit(Digit(d))
  {
  }

  /** Positional notation without leading zeros. */
  function Digits(n: nat, radix: nat): string
    requires radix == 10 || radix == 16
  {
    if n < radix then [Digit(n)] else Digits(n / radix, radix) + [Digit(n % radix)]
  }

  function DigitsValue(text: string, radix: nat): nat
    requires radix == 10 || radix == 16
  {
    if text == [] then 0
    else DigitsValue(text[..|text| - 1], radix) * radix + DigitValue(text[|text| - 1])
  }

  lemma {:induction false} DigitsRoundTrip(n: nat, radix: nat)
    requires radix == 10 || radix == 16
    ensures Digits(n, radix) != [] && DigitsValue(Digits(n, radix), radix) == n
  {
    DigitRoundTrip(n % radix);
    if n >= radix {
      DigitsRoundTrip(n / radix, radix);
      var text := Digits(n, radix);
      assert text[..|text| - 1] == Digits(n / radix, radix) && text[|text| - 1] == Digit(n % radix);
    }
  }

  function Dec(n: nat): string
  {
    Digits(n, 10)
  }

  /** `f"0x{n:x}"`. */
  function Hex(n: nat): (text: string)
    ensures text != ""
  {
    "0x" + Digits(n, 16)
  }

  /** What `sscanf(text, "%llx")` and `int(text, 0)` make of a `0x` text. */
  function HexValue(text: string): nat
  {
    if |text| < 2 then 0 else DigitsValue(text[2..], 16)
  }

  lemma HexRoundTrip(n: nat)
    ensures HexValue(Hex(n)) == n
  {
    DigitsRoundTrip(n, 16);
    assert Hex(n)[2..] == Digits(n, 16);
  }

  // ---------------------------------------------------------------- request ids

  function RegId(pcSeq: nat): string
  {
    "v-reg-" + Dec(pcSeq) + "-runtime"
  }

  function MemId(pcSeq: nat, index: nat): string
  {
    "v-mem-" + Dec(pcSeq) + "-" + Dec(index)
  }

  function ArgRegId(pcSeq: nat): string
  {
    "reg-" + Dec(pcSeq) + "-entry"
  }

  function ArgMemId(pcSeq: nat, name: string): string
  {
    "mem-" + Dec(pcSeq) + "-" + name
  }

  /** `is_v_request_id`: the prefix that routes a response to the local-variable planner. */
  predicate IsLocalId(id: string)
  {
    "v-" <= id
  }

  lemma MemIdsDiffer(pcSeq: nat, i: nat, j: nat)
    ensures MemId(pcSeq, i) == MemId(pcSeq, j) <==> i == j
  {
    var prefix := "v-mem-" + Dec(pcSeq) + "-";
    assert MemId(pcSeq, i)[|prefix|..] == Dec(i) && MemId(pcSeq, j)[|prefix|..] == Dec(j);
    DigitsRoundTrip(i, 10);
    DigitsRoundTrip(j, 10);
  }

  lemma ArgMemIdsDiffer(pcSeq: nat, a: string, b: string)
    ensures ArgMemId(pcSeq, a) == ArgMemId(pcSeq, b) <==> a == b
  {
    var prefix := "mem-" + Dec(pcSeq) + "-";
    assert ArgMemId(pcSeq, a)[|prefix|..] == a && ArgMemId(pcSeq, b)[|prefix|..] == b;
  }

  /** Register and memory ids never collide, and only the local planner's carry the prefix. */
  lemma IdKindsDiffer(pcSeq: nat, index: nat, name: string)
    ensures RegId(pcSeq) != MemId(pcSeq, index) && ArgRegId(pcSeq) != ArgMemId(pcSeq, name)
    ensures IsLocalId(RegId(pcSeq)) && IsLocalId(MemId(pcSeq, index))
    ensures !IsLocalId(ArgRegId(pcSeq)) && !IsLocalId(ArgMemId(pcSeq, name))
  {
    assert RegId(pcSeq)[2] == 'r' && MemId(pcSeq, index)[2] == 'm';
    assert ArgRegId(pcSeq)[0] == 'r' && ArgMemId(pcSeq, name)[0] == 'm';
  }

  // ---------------------------------------------------------------- memory values

  type Byte = n: nat | n < 256

  function LittleEndian(bytes: seq<Byte>): nat
  {
    if bytes == [] then 0 else bytes[0] + 256 * LittleEndian(bytes[1..])
  }

  /** Bit `8 * k + i` of the number is bit `i` of byte `k`, and there are no others. */
  ghost predicate IsLittleEndian(n: nat, bytes: seq<Byte>)
  {
    && n < Pow2(8 * |bytes|)
    && forall k, i: nat :: 0 <= k < |bytes| && i < 8 ==> (Bit(n, 8 * k + i) <==> Bit(bytes[k], i))
  }

  lemma {:induction false} BitOfBytes(bytes: seq<Byte>, k: nat, i: nat)
    requires k < |bytes| && i < 8
    ensures Bit(LittleEndian(bytes), 8 * k + i) <==> Bit(bytes[k], i)
    decreases k
  {
    assert Pow2(8) == 256;
    BitOfJoin(bytes[0], LittleEndian(bytes[1..]), 8, 8 * k + i);
    if k > 0 {
      BitOfBytes(bytes[1..], k - 1, i);
    }
  }

  lemma {:induction false} BytesAreSmall(bytes: seq<Byte>)
    ensures LittleEndian(bytes) < Pow2(8 * |bytes|)
  {
    if bytes != [] {
      BytesAreSmall(bytes[1..]);
      Pow2Byte(8 * |bytes[1..]|);
    }
  }

  /** The decoded number: the first byte is the lowest. */
  lemma LittleEndianBits(bytes: seq<Byte>)
    ensures IsLittleEndian(LittleEndian(bytes), bytes)
  {
    BytesAreSmall(bytes);
    forall k, i: nat | 0 <= k < |bytes| && i < 8
      ensures Bit(LittleEndian(bytes), 8 * k + i) <==> Bit(bytes[k], i)
    {
      BitOfBytes(bytes, k, i);
    }
  }

  /** The text is a number with the bits of a window. */
  ghost predicate ShowsWindow(text: string, v: int, offset: nat, width: nat)
  {
    exists n: nat :: IsWindow(n, v, offset, width) && text == Hex(n)
  }

  lemma ExtractShows(v: int, offset: nat, width: nat)
    ensures ShowsWindow(Hex(Extract(v, offset, width)), v, offset, width)
  {
    ExtractIsWindow(v, offset, width);
  }

  lemma MaskShows(v: int, width: nat)
    ensures ShowsWindow(Hex(Mask(v, 8 * width)), v, 0, width)
  {
    MaskIsWindow(v, width);
  }

  /** Where the bits of two windows agree, the same text shows both. */
  lemma SameWindow(text: string, v: int, w: int, offset: nat, width: nat)
    requires ShowsWindow(text, v, offset, width)
    requires forall i: nat :: offset <= i < offset + 8 * width ==> (Bit(v, i) <==> Bit(w, i))
    ensures ShowsWindow(text, w, offset, width)
  {
    var n: nat :| IsWindow(n, v, offset, width) && text == Hex(n);
    assert IsWindow(n, w, offset, width);
  }

  /** The text determines the bits of its window. */
  lemma TextHasTheBits(text: string, v: int, w: int, offset: nat, width: nat, i: nat)
    requires ShowsWindow(text, v, offset, width) && ShowsWindow(text, w, offset, width)
    requires offset <= i < offset + 8 * width
    ensures Bit(v, i) <==> Bit(w, i)
  {
    var n: nat :| IsWindow(n, v, offset, width) && text == Hex(n);
    var m: nat :| IsWindow(m, w, offset, width) && text == Hex(m);
    HexRoundTrip(n);
    HexRoundTrip(m);
    assert Bit(n, i - offset) <==> Bit(v, offset + (i - offset));
    assert Bit(n, i - offset) <==> Bit(w, offset + (i - offset));
  }

  /** Equal extracted numbers have equal windows. */
  lemma SameExtract(text: string, v: int, w: int, offset: nat, width: nat)
    requires ShowsWindow(text, v, offset, width) && Extract(v, offset, width) == Extract(w, offset, width)
    ensures ShowsWindow(text, w, offset, width)
  {
    ExtractShows(v, offset, width);
    ExtractShows(w, offset, width);
    forall i: nat | offset <= i < offset + 8 * width ensures Bit(v, i) <==> Bit(w, i) {
      TextHasTheBits(Hex(Extract(v, offset, width)), v, w, offset, width, i);
    }
    SameWindow(text, v, w, offset, width);
  }

  /** The text is the number of bytes stored from the lowest up. */
  ghost predicate ShowsBytes(text: string, bytes: seq<Byte>)
  {
    exists n: nat :: IsLittleEndian(n, bytes) && text == Hex(n)
  }

  lemma LittleEndianShows(bytes: seq<Byte>)
    ensures ShowsBytes(Hex(LittleEndian(bytes)), bytes)
  {
    LittleEndianBits(bytes);
  }

  /** Two lower-case hex digits per byte, as the memory response carries them. */
  function HexPairs(bytes: seq<Byte>): string
  {
    if bytes == [] then "" else [Digit(bytes[0] / 16), Digit(bytes[0] % 16)] + HexPairs(bytes[1..])
  }

  predicate IsHexDigit(c: char)
  {
    '0' <= c <= '9' || 'a' <= c <= 'f'
  }

  /** `bytes.fromhex` on the texts the extension sends: `None` stands for the error it raises. */
  function FromHex(text: string): (bytes: Option<seq<Byte>>)
    ensures bytes.Some? ==> |text| == 2 * |bytes.value|
  {
    if text == "" then Some([])
    else if |text| < 2 || !IsHexDigit(text[0]) || !IsHexDigit(text[1]) then None
    else match FromHex(text[2..])
      case None => None
      case Some(rest) => Some([DigitValue(text[0]) * 16 + DigitValue(text[1])] + rest)
  }

  lemma {:induction false} HexPairsRoundTrip(bytes: seq<Byte>)
    ensures FromHex(HexPairs(bytes)) == Some(bytes)
  {
    if bytes != [] {
      var hi, lo := bytes[0] / 16, bytes[0] % 16;
      HexPairsRoundTrip(bytes[1..]);
      PairIsRead(hi, lo, HexPairs(bytes[1..]), bytes[1..], HexPairs(bytes));
      assert hi * 16 + lo == bytes[0] && [bytes[0]] + bytes[1..] == bytes;
    }
  }

  lemma PairIsRead(hi: nat, lo: nat, rest: string, bytes: seq<Byte>, text: string)
    requires hi < 16 && lo < 16 && FromHex(rest) == Some(bytes) && text == [Digit(hi), Digit(lo)] + rest
    ensures FromHex(text) == Some([hi * 16 + lo] + bytes)
  {
    DigitRoundTrip(hi);
    DigitRoundTrip(lo);
    assert text[2..] == rest;
  }

  /** A variable of this many bytes is a number; what `SupportedWidth` has to come to. */
  predicate ExactWidth(size: int)
  {
    size == 1 || size == 2 || size == 4 || size == 8
  }

  predicate SupportedWidth(width: int)
  {
    width == 1 || width == 2 || width == 4 || width == 8
  }
}

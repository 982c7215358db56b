/**
  What IDA reads from the responses: each response decodes to the request it echoes and
  to the values that were put into it.
 */
module ResponseReading {
  import opened Basics
  import opened Values
  import opened JsonText
  import opened JsonWriter
  import opened RequestFields
  import RL = RequestLines

  // ---------------------------------------------------------------- reading piece by piece

  function Expect(t: string, piece: string): Option<string>
  {
    if piece <= t then Some(t[|piece|..]) else None
  }

  lemma ExpectPiece(piece: string, rest: string)
    ensures Expect(piece + rest, piece) == Some(rest)
  {
    assert (piece + rest)[|piece|..] == rest;
  }

  /** A decimal number and the text behind it. */
  function TakeNumber(t: string): Option<(nat, string)>
  {
    var d := LeadingDigits(t);
    if d == "" then None else Some((DigitsValue(d, 10), TakenDigits(t)))
  }

  function TakenDigits(t: string): string
  {
    if t != "" && IsDigit(t[0]) then TakenDigits(t[1..]) else t
  }

  lemma {:induction false} DigitsAreTaken(d: string, rest: string)
    requires (forall i :: 0 <= i < |d| ==> IsDigit(d[i])) && rest != "" && !IsDigit(rest[0])
    ensures TakenDigits(d + rest) == rest
    decreases |d|
  {
    if d == "" {
      assert d + rest == rest;
    } else {
      assert (d + rest)[1..] == d[1..] + rest;
      DigitsAreTaken(d[1..], rest);
    }
  }

  lemma NumberIsTaken(n: nat, rest: string)
    requires rest != "" && !IsDigit(rest[0])
    ensures TakeNumber(Dec(n) + rest) == Some((n, rest))
  {
    RL.DecimalIsDigits(n);
    RL.DigitsAreRead(Dec(n), rest);
    DigitsAreTaken(Dec(n), rest);
    DigitsRoundTrip(n, 10);
  }

  // ---------------------------------------------------------------- the common part

  datatype Echoed = Echoed(pcSeq: nat, id: string, runtimePc: string, rest: string)

  const BEGIN: string := "{\"protocol\":1,\"id\":"

  function Middle(kind: string): string
  {
    ",\"type\":\"" + kind + "\",\"role\":\"windbg\",\"payload\":{\"pc_seq\":"
  }

  const REQUEST_ID: string := ",\"request_id\":"

  /** The header: message id, type and `pc_seq`. */
  function DecodeHeader(kind: string, t: string): Option<(nat, string)>
  {
    match Expect(t, BEGIN)
    case None => None
    case Some(a) =>
      match TakeNumber(a)
      case None => None
      case Some((_, b)) =>
        match Expect(b, Middle(kind))
        case None => None
        case Some(c) =>
          match TakeNumber(c)
          case None => None
          case Some((pcSeq, d)) => (match Expect(d, REQUEST_ID) case None => None case Some(e) => Some((pcSeq, e)))
  }

  /** The header, the request id and the runtime PC. */
  function DecodeOpening(kind: string, t: string): Option<Echoed>
  {
    match DecodeHeader(kind, t)
    case None => None
    case Some((pcSeq, a)) =>
      match ReadString(a)
      case Failed => None
      case Parsed(id, b) =>
        match Expect(b, RUNTIME_PC)
        case None => None
        case Some(c) =>
          (match ReadString(c)
           case Failed => None
           case Parsed(runtimePc, rest) => Some(Echoed(pcSeq, id, runtimePc, rest)))
  }

  lemma HeaderText(kind: string, messageId: nat, pcSeq: nat, rest: string)
    ensures Header(kind, messageId, pcSeq) + rest == BEGIN
            + (Dec(messageId) + (Middle(kind) + (Dec(pcSeq) + (REQUEST_ID + rest))))
  {
  }

  lemma HeaderReadsBack(kind: string, messageId: nat, pcSeq: nat, rest: string)
    ensures DecodeHeader(kind, Header(kind, messageId, pcSeq) + rest) == Some((pcSeq, rest))
  {
    HeaderText(kind, messageId, pcSeq, rest);
    var d := REQUEST_ID + rest;
    var c := Dec(pcSeq) + d;
    var b := Middle(kind) + c;
    ExpectPiece(BEGIN, Dec(messageId) + b);
    NumberIsTaken(messageId, b);
    ExpectPiece(Middle(kind), c);
    NumberIsTaken(pcSeq, d);
    ExpectPiece(REQUEST_ID, rest);
  }

  lemma OpeningText(kind: string, messageId: nat, pcSeq: nat, id: string, runtimePc: string, rest: string)
    ensures Opening(kind, messageId, pcSeq, id, runtimePc) + rest
            == Header(kind, messageId, pcSeq) + (Quoted(id) + (RUNTIME_PC + (Quoted(runtimePc) + rest)))
  {
    FivePieces(Header(kind, messageId, pcSeq), Quoted(id), RUNTIME_PC, Quoted(runtimePc), rest);
  }

  lemma FivePieces(a: string, b: string, c: string, d: string, e: string)
    ensures a + b + c + d + e == a + (b + (c + (d + e)))
  {
  }

  lemma OpeningReadsBack(kind: string, messageId: nat, pcSeq: nat, id: string, runtimePc: string, rest: string)
    ensures DecodeOpening(kind, Opening(kind, messageId, pcSeq, id, runtimePc) + rest) ==
            Some(Echoed(pcSeq, id, runtimePc, rest))
  {
    OpeningText(kind, messageId, pcSeq, id, runtimePc, rest);
    var c := Quoted(runtimePc) + rest;
    HeaderReadsBack(kind, messageId, pcSeq, Quoted(id) + (RUNTIME_PC + c));
    QuotedRoundTrip(id, RUNTIME_PC + c);
    ExpectPiece(RUNTIME_PC, c);
    QuotedRoundTrip(runtimePc, rest);
  }

  // ---------------------------------------------------------------- the registers

  /** The names and numbers of the registers that were read. */
  function Pairs(values: seq<RegisterValue>): seq<(string, nat)>
  {
    if values == [] then []
    else
      Pairs(values[..|values| - 1])
      + (if values[|values| - 1].ok then [(values[|values| - 1].name, values[|values| - 1].value)] else [])
  }

  /** The text of the entries, from front to back. */
  function PairsText(pairs: seq<(string, nat)>, first: bool): string
  {
    if pairs == [] then ""
    else Entry(first, RegisterValue(pairs[0].0, pairs[0].1, true)) + PairsText(pairs[1..], false)
  }

  lemma {:induction false} PairsTextAppend(pairs: seq<(string, nat)>, pair: (string, nat), first: bool)
    ensures PairsText(pairs + [pair], first) == PairsText(pairs, first)
            + Entry(first && pairs == [], RegisterValue(pair.0, pair.1, true))
    decreases |pairs|
  {
    if pairs == [] {
      assert (pairs + [pair])[1..] == [];
    } else {
      assert (pairs + [pair])[1..] == pairs[1..] + [pair];
      PairsTextAppend(pairs[1..], pair, false);
    }
  }

  lemma {:induction false} EntriesArePairs(values: seq<RegisterValue>)
    ensures Entries(values) == PairsText(Pairs(values), true) && (Entries(values) == "" <==> Pairs(values) == [])
    decreases |values|
  {
    if values != [] {
      var init, v := values[..|values| - 1], values[|values| - 1];
      EntriesArePairs(init);
      if v.ok {
        PairsTextAppend(Pairs(init), (v.name, v.value), true);
        assert Entry(Entries(init) == "", v) == Entry(Entries(init) == "", RegisterValue(v.name, v.value, true));
      } else {
        assert Pairs(values) == Pairs(init) + [] == Pairs(init);
      }
    }
  }

  /** `"name":"0x..."` in front of a text. */
  function DecodePair(t: string): Option<((string, nat), string)>
  {
    match ReadString(t)
    case Failed => None
    case Parsed(name, a) =>
      match Expect(a, ":")
      case None => None
      case Some(b) =>
        (match ReadString(b) case Failed => None case Parsed(text, rest) => Some(((name, HexValue(text)), rest)))
  }

  /** The pairs up to the closing brace, behind those already read. */
  function DecodePairs(t: string, got: seq<(string, nat)>): Option<(seq<(string, nat)>, string)>
    decreases |t|
  {
    if t == "" then None
    else if t[0] == '}' then Some((got, t))
    else
      var u := if t[0] == ',' then t[1..] else t;
      match DecodePair(u)
      case None => None
      case Some((pair, rest)) => if |rest| < |t| then DecodePairs(rest, got + [pair]) else None
  }

  ghost predicate Decodable(pair: (string, nat))
  {
    AllPlain(pair.0) && pair.1 < Pow16(16)
  }

  lemma {:induction false} PlainIsUnescaped(s: string)
    requires AllPlain(s)
    ensures Escape(s) == s
    decreases |s|
  {
    if s != "" {
      assert AllPlain(s[..|s| - 1]) && Plain(s[|s| - 1]);
      PlainIsUnescaped(s[..|s| - 1]);
    }
  }

  lemma {:induction false} HexIsPlain(n: nat, k: nat)
    ensures AllPlain(FixedHex(n, k))
  {
    if k > 0 {
      HexIsPlain(n / 16, k - 1);
      DigitIsPlain(n % 16);
    }
  }

  lemma DigitIsPlain(d: nat)
    requires d < 16
    ensures Plain(Digit(d))
  {
  }

  lemma PrefixedIsPlain(s: string)
    requires AllPlain(s)
    ensures AllPlain("0x" + s)
  {
  }

  lemma QuotedPlain(s: string)
    requires AllPlain(s)
    ensures Quoted(s) == [QUOTE] + s + [QUOTE]
  {
    PlainIsUnescaped(s);
  }

  lemma EntryPieces(name: string, hex: string, rest: string)
    ensures "" + "\"" + name + "\":\"0x" + hex + "\"" + rest
            == ([QUOTE] + name + [QUOTE]) + (":" + (([QUOTE] + ("0x" + hex) + [QUOTE]) + rest))
  {
    assert "\":\"0x" == [QUOTE] + ":" + [QUOTE] + "0x";
  }

  lemma EntryText(name: string, value: nat, rest: string)
    requires AllPlain(name)
    ensures Entry(true, RegisterValue(name, value, true)) + rest == Quoted(name)
            + (":" + (Quoted("0x" + FixedHex(value, 16)) + rest))
  {
    HexIsPlain(value, 16);
    PrefixedIsPlain(FixedHex(value, 16));
    QuotedPlain(name);
    QuotedPlain("0x" + FixedHex(value, 16));
    EntryPieces(name, FixedHex(value, 16), rest);
  }

  lemma CommaText(v: RegisterValue, rest: string)
    ensures Entry(false, v) + rest == "," + (Entry(true, v) + rest)
  {
    assert Entry(false, v) == "," + Entry(true, v);
  }

  lemma PairReadsBack(name: string, value: nat, rest: string)
    requires Decodable((name, value))
    ensures DecodePair(Entry(true, RegisterValue(name, value, true)) + rest) == Some(((name, value), rest))
  {
    var text := "0x" + FixedHex(value, 16);
    EntryText(name, value, rest);
    QuotedRoundTrip(name, ":" + (Quoted(text) + rest));
    ExpectPiece(":", Quoted(text) + rest);
    QuotedRoundTrip(text, rest);
    FixedHexRoundTrip(value, 16);
    assert text[2..] == FixedHex(value, 16);
  }

  /** One pair in front, with or without a comma, is decoded. */
  lemma NextPair(first: bool, pair: (string, nat), rest: string, got: seq<(string, nat)>)
    requires Decodable(pair)
    ensures DecodePairs(Entry(first, RegisterValue(pair.0, pair.1, true)) + rest, got) ==
            DecodePairs(rest, got + [pair])
  {
    var v := RegisterValue(pair.0, pair.1, true);
    var u := Entry(true, v) + rest;
    EntryText(pair.0, pair.1, rest);
    PairReadsBack(pair.0, pair.1, rest);
    assert u[0] == QUOTE && |rest| < |u|;
    if !first {
      CommaText(v, rest);
      assert ("," + u)[1..] == u;
    }
  }

  lemma PairsTextFirst(pairs: seq<(string, nat)>, first: bool, rest: string)
    requires pairs != []
    ensures PairsText(pairs, first) + rest == Entry(first, RegisterValue(pairs[0].0, pairs[0].1, true))
            + (PairsText(pairs[1..], false) + rest)
  {
  }

  lemma {:induction false} PairsReadBack(pairs: seq<(string, nat)>, k: nat, rest: string)
    requires k <= |pairs| && forall i :: 0 <= i < |pairs| ==> Decodable(pairs[i])
    ensures DecodePairs(PairsText(pairs[k..], k == 0) + ("}" + rest), pairs[..k]) == Some((pairs, "}" + rest))
    decreases |pairs| - k
  {
    if k == |pairs| {
      assert pairs[k..] == [] && pairs[..k] == pairs;
      assert PairsText([], k == 0) + ("}" + rest) == "}" + rest;
    } else {
      PairsTextFirst(pairs[k..], k == 0, "}" + rest);
      assert pairs[k..][0] == pairs[k] && pairs[k..][1..] == pairs[k + 1..]
        && pairs[..k] + [pairs[k]] == pairs[..k + 1];
      NextPair(k == 0, pairs[k], PairsText(pairs[k + 1..], false) + ("}" + rest), pairs[..k]);
      PairsReadBack(pairs, k + 1, rest);
    }
  }

  // ---------------------------------------------------------------- whole responses

  datatype RegDecoded = RegDecoded(pcSeq: nat, id: string, runtimePc: string, pairs: seq<(string, nat)>)

  function DecodeReg(t: string): Option<RegDecoded>
  {
    match DecodeOpening("reg_response", t)
    case None => None
    case Some(e) =>
      match Expect(e.rest, REGISTERS)
      case None => None
      case Some(u) =>
        match DecodePairs(u, [])
        case None => None
        case Some((pairs, end)) =>
          if end == END_REGISTERS then Some(RegDecoded(e.pcSeq, e.id, e.runtimePc, pairs)) else None
  }

  lemma RegText(messageId: nat, pcSeq: nat, id: string, runtimePc: string, values: seq<RegisterValue>)
    ensures RegResponse(messageId, pcSeq, id, runtimePc, values)
            == Opening("reg_response", messageId, pcSeq, id, runtimePc)
              + (REGISTERS + (Entries(values) + END_REGISTERS))
  {
    FourPieces(Opening("reg_response", messageId, pcSeq, id, runtimePc), REGISTERS, Entries(values), END_REGISTERS);
  }

  lemma FourPieces(a: string, b: string, c: string, d: string)
    ensures a + b + c + d == a + (b + (c + d))
  {
  }

  /**
    A register response reads back: number, id, runtime PC, and exactly the registers that
    were read with their values.
   */
  lemma RegResponseReadsBack(messageId: nat, pcSeq: nat, id: string, runtimePc: string, values: seq<RegisterValue>)
    requires forall i :: 0 <= i < |Pairs(values)| ==> Decodable(Pairs(values)[i])
    ensures DecodeReg(RegResponse(messageId, pcSeq, id, runtimePc, values)) ==
            Some(RegDecoded(pcSeq, id, runtimePc, Pairs(values)))
  {
    RegText(messageId, pcSeq, id, runtimePc, values);
    OpeningReadsBack("reg_response", messageId, pcSeq, id, runtimePc, REGISTERS + (Entries(values) + END_REGISTERS));
    ExpectPiece(REGISTERS, Entries(values) + END_REGISTERS);
    EntriesReadBack(values);
  }

  lemma EntriesReadBack(values: seq<RegisterValue>)
    requires forall i :: 0 <= i < |Pairs(values)| ==> Decodable(Pairs(values)[i])
    ensures DecodePairs(Entries(values) + END_REGISTERS, []) == Some((Pairs(values), END_REGISTERS))
  {
    var pairs := Pairs(values);
    EntriesArePairs(values);
    assert END_REGISTERS == "}" + "}}\n" && pairs[0..] == pairs && pairs[..0] == [];
    PairsReadBack(pairs, 0, "}}\n");
  }

  /** `ok` tells a read from a report of a failure, which carries no bytes. */
  datatype MemDecoded = MemDecoded(pcSeq: nat, id: string, runtimePc: string, ok: bool, address: string, size: nat,
                                   bytesHex: string)

  const SIZE: string := ",\"size\":"
  const BYTES: string := ",\"bytes_hex\":"
  const ERROR: string := ",\"error\":{\"code\":"

  function DecodeMem(t: string): Option<MemDecoded>
  {
    match DecodeOpening("mem_response", t)
    case None => None
    case Some(e) =>
      match Expect(e.rest, ADDRESS)
      case Some(u) => DecodeRead(e, u)
      case None => (match Expect(e.rest, NOT_OK) case None => None case Some(u) => DecodeFailure(e, u))
  }

  function DecodeRead(e: Echoed, t: string): Option<MemDecoded>
  {
    match ReadString(t)
    case Failed => None
    case Parsed(address, u) =>
      match DecodeBytes(u)
      case None => None
      case Some((size, hex)) => Some(MemDecoded(e.pcSeq, e.id, e.runtimePc, true, address, size, hex))
  }

  function DecodeFailure(e: Echoed, t: string): Option<MemDecoded>
  {
    match ReadString(t)
    case Failed => None
    case Parsed(address, u) =>
      match DecodeError(u)
      case None => None
      case Some(size) => Some(MemDecoded(e.pcSeq, e.id, e.runtimePc, false, address, size, ""))
  }

  /** The size, and an error object whose code and message are not looked at. */
  function DecodeError(t: string): Option<nat>
  {
    match Expect(t, SIZE)
    case None => None
    case Some(a) =>
      match TakeNumber(a)
      case None => None
      case Some((size, b)) =>
        match Expect(b, ERROR)
        case None => None
        case Some(c) =>
          match ReadString(c)
          case Failed => None
          case Parsed(_, d) => if DecodeMessage(d) then Some(size) else None
  }

  predicate DecodeMessage(t: string)
  {
    match Expect(t, MESSAGE)
    case None => false
    case Some(a) => ReadString(a).Parsed? && ReadString(a).rest == END_REGISTERS
  }

  function DecodeBytes(t: string): Option<(nat, string)>
  {
    match Expect(t, SIZE)
    case None => None
    case Some(a) =>
      match TakeNumber(a)
      case None => None
      case Some((size, b)) =>
        match Expect(b, BYTES)
        case None => None
        case Some(c) =>
          (match ReadString(c)
           case Failed => None
           case Parsed(hex, d) => if d == "}}\n" then Some((size, hex)) else None)
  }

  lemma {:induction false} HexPairsArePlain(bytes: seq<Byte>)
    ensures AllPlain(HexPairs(bytes))
  {
    if bytes != [] {
      HexPairsArePlain(bytes[1..]);
      DigitIsPlain(bytes[0] / 16);
      DigitIsPlain(bytes[0] % 16);
    }
  }

  lemma BytesPieces(size: string, hex: string)
    ensures ",\"size\":" + size + ",\"bytes_hex\":\"" + hex + END_MEMORY ==
            SIZE + (size + (BYTES + (([QUOTE] + hex + [QUOTE]) + "}}\n")))
  {
    assert ",\"bytes_hex\":\"" == BYTES + [QUOTE];
    assert END_MEMORY == [QUOTE] + "}}\n";
  }

  lemma BytesText(size: nat, bytes: seq<Byte>)
    ensures SizeField(size) + HexPairs(bytes) + END_MEMORY ==
            SIZE + (Dec(size) + (BYTES + (Quoted(HexPairs(bytes)) + "}}\n")))
  {
    HexPairsArePlain(bytes);
    QuotedPlain(HexPairs(bytes));
    BytesPieces(Dec(size), HexPairs(bytes));
  }

  lemma BytesReadBack(size: nat, bytes: seq<Byte>)
    ensures DecodeBytes(SizeField(size) + HexPairs(bytes) + END_MEMORY) == Some((size, HexPairs(bytes)))
  {
    BytesText(size, bytes);
    var c := Quoted(HexPairs(bytes)) + "}}\n";
    var b := BYTES + c;
    ExpectPiece(SIZE, Dec(size) + b);
    NumberIsTaken(size, b);
    ExpectPiece(BYTES, c);
    QuotedRoundTrip(HexPairs(bytes), "}}\n");
  }

  lemma MemText(messageId: nat, pcSeq: nat, id: string, runtimePc: string, address: string, size: nat, bytes: seq<Byte>)
    ensures MemResponse(messageId, pcSeq, id, runtimePc, address, size, bytes)
            == Opening("mem_response", messageId, pcSeq, id, runtimePc)
              + (ADDRESS + (Quoted(address) + (SizeField(size) + HexPairs(bytes) + END_MEMORY)))
  {
    SixPieces(Opening("mem_response", messageId, pcSeq, id, runtimePc), ADDRESS, Quoted(address), SizeField(size),
              HexPairs(bytes), END_MEMORY);
  }

  lemma SixPieces(a: string, b: string, c: string, d: string, e: string, f: string)
    ensures a + b + c + d + e + f == a + (b + (c + (d + e + f)))
  {
    FourPieces(a, b, c, d + e + f);
    assert a + b + c + d + e + f == a + b + c + (d + e + f);
  }

  /** A memory response reads back: number, id, runtime PC, address, size, and the bytes. */
  lemma MemResponseReadsBack(messageId: nat, pcSeq: nat, id: string, runtimePc: string, address: string, size: nat,
                             bytes: seq<Byte>)
    ensures DecodeMem(MemResponse(messageId, pcSeq, id, runtimePc, address, size, bytes))
            == Some(MemDecoded(pcSeq, id, runtimePc, true, address, size, HexPairs(bytes)))
    ensures FromHex(HexPairs(bytes)) == Some(bytes)
  {
    var tail := SizeField(size) + HexPairs(bytes) + END_MEMORY;
    MemText(messageId, pcSeq, id, runtimePc, address, size, bytes);
    OpeningReadsBack("mem_response", messageId, pcSeq, id, runtimePc, ADDRESS + (Quoted(address) + tail));
    ExpectPiece(ADDRESS, Quoted(address) + tail);
    QuotedRoundTrip(address, tail);
    BytesReadBack(size, bytes);
    HexPairsRoundTrip(bytes);
  }

  // ---------------------------------------------------------------- reports of failures

  lemma MessageReadsBack(message: string)
    ensures DecodeMessage(MESSAGE + (Quoted(message) + END_REGISTERS))
  {
    ExpectPiece(MESSAGE, Quoted(message) + END_REGISTERS);
    QuotedRoundTrip(message, END_REGISTERS);
  }

  lemma ErrorText(size: nat, rest: string)
    ensures ErrorField(size) + rest == SIZE + (Dec(size) + (ERROR + rest))
  {
  }

  lemma ErrorReadsBack(size: nat, code: string, message: string)
    ensures DecodeError(ErrorField(size) + (Quoted(code) + (MESSAGE + (Quoted(message) + END_REGISTERS)))) == Some(size)
  {
    var d := MESSAGE + (Quoted(message) + END_REGISTERS);
    var c := Quoted(code) + d;
    ErrorText(size, c);
    ExpectPiece(SIZE, Dec(size) + (ERROR + c));
    NumberIsTaken(size, ERROR + c);
    ExpectPiece(ERROR, c);
    QuotedRoundTrip(code, d);
    MessageReadsBack(message);
  }

  lemma MemErrorText(messageId: nat, pcSeq: nat, id: string, runtimePc: string, address: string, size: nat,
                     code: string, message: string)
    ensures MemErrorResponse(messageId, pcSeq, id, runtimePc, address, size, code, message)
            == Opening("mem_response", messageId, pcSeq, id, runtimePc)
               + (NOT_OK + (Quoted(address)
                 + (ErrorField(size) + (Quoted(code) + (MESSAGE + (Quoted(message) + END_REGISTERS))))))
  {
    EightPieces(Opening("mem_response", messageId, pcSeq, id, runtimePc), NOT_OK, Quoted(address), ErrorField(size),
                Quoted(code), MESSAGE, Quoted(message), END_REGISTERS);
  }

  lemma EightPieces(a: string, b: string, c: string, d: string, e: string, f: string, g: string, h: string)
    ensures a + b + c + d + e + f + g + h == a + (b + (c + (d + (e + (f + (g + h))))))
  {
    FourPieces(e, f, g, h);
    FivePieces(a, b, c, d, e + f + g + h);
    assert a + b + c + d + e + f + g + h == a + b + c + d + (e + f + g + h);
  }

  lemma FailureIsNoRead(rest: string)
    ensures Expect(NOT_OK + rest, ADDRESS) == None
  {
    assert (NOT_OK + rest)[6] == 'f' && ADDRESS[6] == 't';
  }

  /** A report of a failure reads back: number, id, runtime PC, address and size, and that it is none. */
  lemma MemErrorReadsBack(messageId: nat, pcSeq: nat, id: string, runtimePc: string, address: string, size: nat,
                          code: string, message: string)
    ensures DecodeMem(MemErrorResponse(messageId, pcSeq, id, runtimePc, address, size, code, message))
            == Some(MemDecoded(pcSeq, id, runtimePc, false, address, size, ""))
  {
    var error := ErrorField(size) + (Quoted(code) + (MESSAGE + (Quoted(message) + END_REGISTERS)));
    MemErrorText(messageId, pcSeq, id, runtimePc, address, size, code, message);
    OpeningReadsBack("mem_response", messageId, pcSeq, id, runtimePc, NOT_OK + (Quoted(address) + error));
    FailureIsNoRead(Quoted(address) + error);
    ExpectPiece(NOT_OK, Quoted(address) + error);
    QuotedRoundTrip(address, error);
    ErrorReadsBack(size, code, message);
  }
}

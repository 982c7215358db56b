/** `json_writer.c`: responses appended piece by piece to a caller's buffer. */
module JsonWriter {
  import opened Values
  import opened JsonText

  /** One slot of the register read; `ok` is false for a register that could not be read. */
  datatype RegisterValue = RegisterValue(name: string, value: nat, ok: bool)

  // ---------------------------------------------------------------- the texts

  function Header(kind: string, messageId: nat, pcSeq: nat): string
  {
    "{\"protocol\":1,\"id\":" + Dec(messageId) + ",\"type\":\"" + kind
      + "\",\"role\":\"windbg\",\"payload\":{\"pc_seq\":" + Dec(pcSeq) + ",\"request_id\":"
  }

  const RUNTIME_PC: string := ",\"runtime_pc\":"
  const REGISTERS: string := ",\"ok\":true,\"registers\":{"
  const ADDRESS: string := ",\"ok\":true,\"address\":"
  const END_REGISTERS: string := "}}}\n"
  const END_MEMORY: string := "\"}}\n"

  /** The common part of both responses. */
  function Opening(kind: string, messageId: nat, pcSeq: nat, requestId: string, runtimePc: string): string
  {
    Header(kind, messageId, pcSeq) + Quoted(requestId) + RUNTIME_PC + Quoted(runtimePc)
  }

  function Entry(first: bool, v: RegisterValue): string
  {
    (if first then "" else ",") + "\"" + v.name + "\":\"0x" + FixedHex(v.value, 16) + "\""
  }

  /** The entries of the registers that were read. */
  function Entries(values: seq<RegisterValue>): string
  {
    if values == [] then ""
    else
      var before := Entries(values[..|values| - 1]);
      if values[|values| - 1].ok then before + Entry(before == "", values[|values| - 1]) else before
  }

  function RegResponse(messageId: nat, pcSeq: nat, requestId: string, runtimePc: string,
                       values: seq<RegisterValue>): string
  {
    Opening("reg_response", messageId, pcSeq, requestId, runtimePc) + REGISTERS + Entries(values) + END_REGISTERS
  }

  function SizeField(size: nat): string
  {
    ",\"size\":" + Dec(size) + ",\"bytes_hex\":\""
  }

  function MemResponse(messageId: nat, pcSeq: nat, requestId: string, runtimePc: string, address: string, size: nat,
                       bytes: seq<Byte>): string
  {
    Opening("mem_response", messageId, pcSeq, requestId, runtimePc) + ADDRESS + Quoted(address) + SizeField(size)
      + HexPairs(bytes) + END_MEMORY
  }

  const NOT_OK: string := ",\"ok\":false,\"address\":"
  const MESSAGE: string := ",\"message\":"

  function ErrorField(size: nat): string
  {
    ",\"size\":" + Dec(size) + ",\"error\":{\"code\":"
  }

  function MemErrorResponse(messageId: nat, pcSeq: nat, requestId: string, runtimePc: string, address: string,
                            size: nat, code: string, message: string): string
  {
    Opening("mem_response", messageId, pcSeq, requestId, runtimePc) + NOT_OK + Quoted(address) + ErrorField(size)
    + Quoted(code) + MESSAGE + Quoted(message) + END_REGISTERS
  }

  // ---------------------------------------------------------------- writing

  /** The buffer holds `text` up to the offset, and a terminating zero unless nothing was written yet. */
  ghost predicate Holds(buffer: array<char>, offset: nat, text: string)
    reads buffer
  {
    && offset == |text| && (|text| < buffer.Length || text == "") && buffer[..offset] == text
    && (text != "" ==> buffer[offset] == '\0')
  }

  /** `DvsAppendJson`: a formatted piece is written if it fits together with its terminating zero. */
  method Append(buffer: array<char>, offset: nat, piece: string, ghost text: string) returns (ok: bool, offset': nat)
    requires Holds(buffer, offset, text)
    modifies buffer
    ensures ok <==> |text + piece| < buffer.Length
    ensures ok ==> Holds(buffer, offset', text + piece)
  {
    if offset >= buffer.Length {
      return false, offset;
    }
    var room := buffer.Length - offset;
    var copied := if |piece| < room then |piece| else room - 1;
    forall k | 0 <= k < copied {
      buffer[offset + k] := piece[k];
    }
    buffer[offset + copied] := '\0';
    if |piece| >= room {
      return false, offset;
    }
    assert buffer[..offset + |piece|] == text + piece;
    return true, offset + |piece|;
  }

  /** The loop over the characters of a string. */
  method AppendCharacters(buffer: array<char>, offset: nat, value: string, ghost text: string)
    returns (ok: bool, offset': nat)
    requires Holds(buffer, offset, text) && |text| < buffer.Length
    modifies buffer
    ensures ok <==> |text| + |Escape(value)| < buffer.Length
    ensures ok ==> Holds(buffer, offset', text + Escape(value))
  {
    offset' := offset;
    ghost var so := text;
    EscapeNothing(text, value);
    for i := 0 to |value|
      invariant so == text + Escape(value[..i]) && |so| < buffer.Length && Holds(buffer, offset', so)
    {
      EscapeNext(text, value, i);
      var piece := EscapeChar(value[i]);
      ok, offset' := Append(buffer, offset', piece, so);
      if !ok {
        EscapeGrows(value, i + 1);
        return;
      }
      so := so + piece;
    }
    assert value[..|value|] == value;
    ok := true;
  }

  /** `DvsAppendJsonEscapedString`. */
  method AppendEscaped(buffer: array<char>, offset: nat, value: string, ghost text: string)
    returns (ok: bool, offset': nat)
    requires Holds(buffer, offset, text)
    modifies buffer
    ensures ok <==> |text + Quoted(value)| < buffer.Length
    ensures ok ==> Holds(buffer, offset', text + Quoted(value))
  {
    QuotedParts(text, value);
    ghost var start := text + [QUOTE];
    ok, offset' := Append(buffer, offset, [QUOTE], text);
    if ok {
      ok, offset' := AppendCharacters(buffer, offset', value, start);
      if ok {
        ok, offset' := Append(buffer, offset', [QUOTE], start + Escape(value));
      }
    }
  }

  lemma QuotedParts(text: string, value: string)
    ensures text + Quoted(value) == text + [QUOTE] + Escape(value) + [QUOTE]
    ensures |text + Quoted(value)| == |text| + 1 + |Escape(value)| + 1
  {
  }

  lemma EscapeNothing(text: string, value: string)
    ensures text + Escape(value[..0]) == text
  {
  }

  lemma EscapeNext(text: string, value: string, i: nat)
    requires i < |value|
    ensures Escape(value[..i + 1]) == Escape(value[..i]) + EscapeChar(value[i])
    ensures text + Escape(value[..i + 1]) == text + Escape(value[..i]) + EscapeChar(value[i])
  {
    assert value[..i + 1][..i] == value[..i];
  }

  lemma {:induction false} EscapeGrows(value: string, i: nat)
    requires i <= |value|
    ensures |Escape(value[..i])| <= |Escape(value)|
    decreases |value| - i
  {
    if i < |value| {
      EscapeNext("", value, i);
      EscapeGrows(value, i + 1);
    } else {
      assert value[..i] == value;
    }
  }

  /** The pieces before the payload proper. */
  method WriteOpening(buffer: array<char>, kind: string, messageId: nat, pcSeq: nat, requestId: string,
                      runtimePc: string)
      returns (ok: bool, offset: nat)
    modifies buffer
    ensures ok <==> |Opening(kind, messageId, pcSeq, requestId, runtimePc)| < buffer.Length
    ensures ok ==> Holds(buffer, offset, Opening(kind, messageId, pcSeq, requestId, runtimePc))
  {
    ghost var header := Header(kind, messageId, pcSeq);
    assert "" + header == header;
    ok, offset := Append(buffer, 0, Header(kind, messageId, pcSeq), "");
    if ok {
      ok, offset := AppendEscaped(buffer, offset, requestId, header);
      if ok {
        ok, offset := Append(buffer, offset, RUNTIME_PC, header + Quoted(requestId));
        if ok {
          ok, offset := AppendEscaped(buffer, offset, runtimePc, header + Quoted(requestId) + RUNTIME_PC);
        }
      }
    }
  }

  lemma EntriesNext(text: string, values: seq<RegisterValue>, i: nat)
    requires i < |values|
    ensures |Entries(values[..i])| <= |Entries(values[..i + 1])|
    ensures !values[i].ok ==> Entries(values[..i + 1]) == Entries(values[..i])
    ensures values[i].ok ==>
            text + Entries(values[..i + 1]) == text + Entries(values[..i])
            + Entry(Entries(values[..i]) == "", values[i])
    ensures values[i].ok ==> Entries(values[..i + 1]) != ""
  {
    assert values[..i + 1][..i] == values[..i];
  }

  lemma {:induction false} EntriesGrow(values: seq<RegisterValue>, i: nat)
    requires i <= |values|
    ensures |Entries(values[..i])| <= |Entries(values)|
    decreases |values| - i
  {
    if i < |values| {
      EntriesNext("", values, i);
      EntriesGrow(values, i + 1);
    } else {
      assert values[..i] == values;
    }
  }

  /** The loop over the register values. */
  method WriteEntries(buffer: array<char>, offset: nat, values: seq<RegisterValue>, ghost text: string)
    returns (ok: bool, offset': nat)
    requires Holds(buffer, offset, text) && |text| < buffer.Length
    modifies buffer
    ensures ok <==> |text + Entries(values)| < buffer.Length
    ensures ok ==> Holds(buffer, offset', text + Entries(values))
  {
    offset' := offset;
    var first := true;
    ghost var so := text;
    assert text == text + Entries(values[..0]);
    for i := 0 to |values|
      invariant first <==> Entries(values[..i]) == ""
      invariant so == text + Entries(values[..i]) && |so| < buffer.Length && Holds(buffer, offset', so)
    {
      EntriesNext(text, values, i);
      if values[i].ok {
        var piece := Entry(first, values[i]);
        ok, offset' := Append(buffer, offset', piece, so);
        if !ok {
          EntriesGrow(values, i + 1);
          return;
        }
        first := false;
        so := so + piece;
      }
    }
    assert values[..|values|] == values;
    ok := true;
  }

  /** `DvsWriteRegResponse` succeeds exactly if the whole response and its terminating zero fit. */
  method WriteRegResponse(buffer: array<char>, messageId: nat, pcSeq: nat, requestId: string, runtimePc: string,
                          values: seq<RegisterValue>)
      returns (ok: bool, offset: nat)
    modifies buffer
    ensures ok <==> |RegResponse(messageId, pcSeq, requestId, runtimePc, values)| < buffer.Length
    ensures ok ==> Holds(buffer, offset, RegResponse(messageId, pcSeq, requestId, runtimePc, values))
  {
    ghost var opening := Opening("reg_response", messageId, pcSeq, requestId, runtimePc);
    ok, offset := WriteOpening(buffer, "reg_response", messageId, pcSeq, requestId, runtimePc);
    if ok {
      ok, offset := Append(buffer, offset, REGISTERS, opening);
      if ok {
        ok, offset := WriteEntries(buffer, offset, values, opening + REGISTERS);
        if ok {
          ok, offset := Append(buffer, offset, END_REGISTERS, opening + REGISTERS + Entries(values));
        }
      }
    }
  }

  /** The loop over the bytes. */
  method WriteBytes(buffer: array<char>, offset: nat, bytes: seq<Byte>, ghost text: string)
    returns (ok: bool, offset': nat)
    requires Holds(buffer, offset, text) && |text| < buffer.Length
    modifies buffer
    ensures ok <==> |text + HexPairs(bytes)| < buffer.Length
    ensures ok ==> Holds(buffer, offset', text + HexPairs(bytes))
  {
    offset' := offset;
    assert text + HexPairs(bytes[..0]) == text;
    HexPairsShape(bytes);
    for i := 0 to |bytes|
      invariant Holds(buffer, offset', text + HexPairs(bytes[..i])) && |text + HexPairs(bytes[..i])| < buffer.Length
    {
      assert bytes[..i + 1] == bytes[..i] + [bytes[i]];
      HexPairsAppend(bytes[..i], bytes[i]);
      HexPairsShape(bytes[..i + 1]);
      ghost var so := text + HexPairs(bytes[..i]);
      var pair := [Digit(bytes[i] / 16), Digit(bytes[i] % 16)];
      assert so + pair == text + HexPairs(bytes[..i + 1]);
      ok, offset' := Append(buffer, offset', pair, so);
      if !ok {
        return;
      }
    }
    assert bytes[..|bytes|] == bytes;
    ok := true;
  }

  /** `DvsWriteMemResponse` succeeds exactly if the whole response and its terminating zero fit. */
  method WriteMemResponse(buffer: array<char>, messageId: nat, pcSeq: nat, requestId: string, runtimePc: string,
                          address: string, size: nat, bytes: seq<Byte>)
      returns (ok: bool, offset: nat)
    modifies buffer
    ensures ok <==> |MemResponse(messageId, pcSeq, requestId, runtimePc, address, size, bytes)| < buffer.Length
    ensures ok ==> Holds(buffer, offset, MemResponse(messageId, pcSeq, requestId, runtimePc, address, size, bytes))
  {
    ghost var opening := Opening("mem_response", messageId, pcSeq, requestId, runtimePc);
    ghost var front := opening + ADDRESS + Quoted(address) + SizeField(size);
    ok, offset := WriteOpening(buffer, "mem_response", messageId, pcSeq, requestId, runtimePc);
    if ok {
      ok, offset := Append(buffer, offset, ADDRESS, opening);
      if ok {
        ok, offset := AppendEscaped(buffer, offset, address, opening + ADDRESS);
        if ok {
          ok, offset := Append(buffer, offset, SizeField(size), opening + ADDRESS + Quoted(address));
          if ok {
            ok, offset := WriteBytes(buffer, offset, bytes, front);
            if ok {
              ok, offset := Append(buffer, offset, END_MEMORY, front + HexPairs(bytes));
            }
          }
        }
      }
    }
  }

  /** `DvsWriteMemErrorResponse` succeeds exactly if the whole response and its terminating zero fit. */
  method WriteMemErrorResponse(buffer: array<char>, messageId: nat, pcSeq: nat, requestId: string, runtimePc: string,
                               address: string, size: nat, code: string, message: string)
    returns (ok: bool, offset: nat)
    modifies buffer
    ensures ok <==>
            |MemErrorResponse(messageId, pcSeq, requestId, runtimePc, address, size, code, message)| < buffer.Length
    ensures ok ==> Holds(buffer, offset,
                         MemErrorResponse(messageId, pcSeq, requestId, runtimePc, address, size, code, message))
  {
    ghost var opening := Opening("mem_response", messageId, pcSeq, requestId, runtimePc);
    ok, offset := WriteOpening(buffer, "mem_response", messageId, pcSeq, requestId, runtimePc);
    if ok {
      ok, offset := Append(buffer, offset, NOT_OK, opening);
      if ok {
        ok, offset := AppendEscaped(buffer, offset, address, opening + NOT_OK);
        if ok {
          ok, offset := Append(buffer, offset, ErrorField(size), opening + NOT_OK + Quoted(address));
          if ok {
            ok, offset := WriteError(buffer, offset, code, message,
                                     opening + NOT_OK + Quoted(address) + ErrorField(size));
          }
        }
      }
    }
  }

  /** The code, the message and the end. */
  method WriteError(buffer: array<char>, offset: nat, code: string, message: string, ghost text: string)
    returns (ok: bool, offset': nat)
    requires Holds(buffer, offset, text) && |text| < buffer.Length
    modifies buffer
    ensures ok <==> |text + Quoted(code) + MESSAGE + Quoted(message) + END_REGISTERS| < buffer.Length
    ensures ok ==> Holds(buffer, offset', text + Quoted(code) + MESSAGE + Quoted(message) + END_REGISTERS)
  {
    ok, offset' := AppendEscaped(buffer, offset, code, text);
    if ok {
      ok, offset' := Append(buffer, offset', MESSAGE, text + Quoted(code));
      if ok {
        ok, offset' := AppendEscaped(buffer, offset', message, text + Quoted(code) + MESSAGE);
        if ok {
          ok, offset' := Append(buffer, offset', END_REGISTERS, text + Quoted(code) + MESSAGE + Quoted(message));
        }
      }
    }
  }
}

/** Sizes and shapes of the responses. */
module ResponseSize {
  import opened Basics
  import opened Values
  import opened JsonText
  import opened JsonWriter

  /** What the request parsers accept: texts bounded by their buffers, taken from one line. */
  ghost predicate Field(s: string, max: nat)
  {
    |s| <= max && NEWLINE !in s
  }

  ghost predicate Readings(values: seq<RegisterValue>)
  {
    |values| <= 32 && forall i :: 0 <= i < |values| ==> Field(values[i].name, 15)
  }

  lemma HeaderShape(kind: string, messageId: nat, pcSeq: nat)
    requires messageId < WORD && pcSeq < WORD && Field(kind, 12)
    ensures Field(Header(kind, messageId, pcSeq), 150)
  {
    WordLength(messageId);
    WordLength(pcSeq);
  }

  lemma OpeningShape(kind: string, messageId: nat, pcSeq: nat, requestId: string, runtimePc: string)
    requires messageId < WORD && pcSeq < WORD && Field(kind, 12) && |requestId| <= 127 && |runtimePc| <= 63
    ensures Field(Opening(kind, messageId, pcSeq, requestId, runtimePc), 1330)
  {
    HeaderShape(kind, messageId, pcSeq);
    QuotedIsBounded(requestId);
    QuotedIsBounded(runtimePc);
  }

  lemma EntryShape(first: bool, v: RegisterValue)
    requires Field(v.name, 15)
    ensures Field(Entry(first, v), 39)
  {
  }

  lemma {:induction false} EntriesShape(values: seq<RegisterValue>)
    requires forall i :: 0 <= i < |values| ==> Field(values[i].name, 15)
    ensures Field(Entries(values), 39 * |values|)
  {
    if values != [] {
      var init := values[..|values| - 1];
      EntriesShape(init);
      EntryShape(Entries(init) == "", values[|values| - 1]);
    }
  }

  lemma EndsLine(front: string, end: string)
    requires NEWLINE !in front && OneLine(end)
    ensures OneLine(front + end)
  {
    var t := front + end;
    assert t[..|t| - 1] == front + end[..|end| - 1];
  }

  /** Every register response to an accepted request fits its 4096-byte buffer and is one line. */
  lemma RegResponseFits(messageId: nat, pcSeq: nat, requestId: string, runtimePc: string, values: seq<RegisterValue>)
    requires messageId < WORD && pcSeq < WORD && |requestId| <= 127 && |runtimePc| <= 63 && Readings(values)
    ensures var t := RegResponse(messageId, pcSeq, requestId, runtimePc, values); |t| < 4096 && OneLine(t)
  {
    OpeningShape("reg_response", messageId, pcSeq, requestId, runtimePc);
    EntriesShape(values);
    var front := Opening("reg_response", messageId, pcSeq, requestId, runtimePc) + REGISTERS + Entries(values);
    assert END_REGISTERS[..3] == "}}}";
    EndsLine(front, END_REGISTERS);
  }

  lemma MemoryFrontShape(messageId: nat, pcSeq: nat, requestId: string, runtimePc: string, address: string, size: nat)
    requires messageId < WORD && pcSeq < WORD && size < WORD && |requestId| <= 127 && |runtimePc| <= 63
    requires |address| <= 63
    ensures Field(Opening("mem_response", messageId, pcSeq, requestId, runtimePc) + ADDRESS + Quoted(address)
            + SizeField(size), 1800)
  {
    OpeningShape("mem_response", messageId, pcSeq, requestId, runtimePc);
    QuotedIsBounded(address);
    WordLength(size);
  }

  /** Every memory response to an accepted request fits its 12288-byte buffer and is one line. */
  lemma MemResponseFits(messageId: nat, pcSeq: nat, requestId: string, runtimePc: string, address: string, size: nat,
                        bytes: seq<Byte>)
    requires messageId < WORD && pcSeq < WORD && size < WORD && |requestId| <= 127 && |runtimePc| <= 63
    requires |address| <= 63
    requires |bytes| <= 4096
    ensures var t := MemResponse(messageId, pcSeq, requestId, runtimePc, address, size, bytes);
            |t| < 12288 && OneLine(t)
  {
    MemoryFrontShape(messageId, pcSeq, requestId, runtimePc, address, size);
    HexPairsShape(bytes);
    var front := Opening("mem_response", messageId, pcSeq, requestId, runtimePc) + ADDRESS + Quoted(address)
      + SizeField(size);
    assert END_MEMORY[..3] == "\"}}";
    EndsLine(front + HexPairs(bytes), END_MEMORY);
  }

  lemma ErrorFrontShape(messageId: nat, pcSeq: nat, requestId: string, runtimePc: string, address: string, size: nat)
    requires messageId < WORD && pcSeq < WORD && size < WORD && |requestId| <= 127 && |runtimePc| <= 63
    requires |address| <= 63
    ensures Field(Opening("mem_response", messageId, pcSeq, requestId, runtimePc) + NOT_OK + Quoted(address)
            + ErrorField(size), 1772)
  {
    OpeningShape("mem_response", messageId, pcSeq, requestId, runtimePc);
    QuotedIsBounded(address);
    WordLength(size);
  }

  /** An error response whose code and message have at most 42 characters fits its 2048-byte buffer and is one line. */
  lemma MemErrorFits(messageId: nat, pcSeq: nat, requestId: string, runtimePc: string, address: string, size: nat,
                     code: string, message: string)
    requires messageId < WORD && pcSeq < WORD && size < WORD && |requestId| <= 127 && |runtimePc| <= 63
    requires |address| <= 63
    requires |code| + |message| <= 42
    ensures var t := MemErrorResponse(messageId, pcSeq, requestId, runtimePc, address, size, code, message);
            |t| < 2048 && OneLine(t)
  {
    ErrorFrontShape(messageId, pcSeq, requestId, runtimePc, address, size);
    QuotedIsBounded(code);
    QuotedIsBounded(message);
    var front := Opening("mem_response", messageId, pcSeq, requestId, runtimePc) + NOT_OK + Quoted(address)
      + ErrorField(size)
                 + Quoted(code) + MESSAGE + Quoted(message);
    assert END_REGISTERS[..3] == "}}}";
    EndsLine(front, END_REGISTERS);
  }
}

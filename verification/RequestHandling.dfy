/** The request handlers of the WinDbg extension: what is sent for every line that arrives. */
module RequestHandling {
  import opened Basics
  import opened Values
  import opened JsonText
  import opened JsonWriter
  import opened ResponseSize
  import RF = RequestFields

  /** What the handler sent, if it sent anything. */
  datatype Reply = Ignored | Sent(text: string)

  // ---------------------------------------------------------------- register requests

  function Reading(name: string, registers: map<string, nat>): RegisterValue
  {
    RegisterValue(name, if name in registers then registers[name] else 0, name in registers)
  }

  /** One reading per listed name, in order; it is marked as read exactly if the register can be read. */
  function ReadingsOf(names: seq<string>, registers: map<string, nat>): (values: seq<RegisterValue>)
    ensures |values| == |names| && forall i :: 0 <= i < |names| ==> values[i] == Reading(names[i], registers)
  {
    seq(|names|, i requires 0 <= i < |names| => Reading(names[i], registers))
  }

  /** `DvsReadRegisters`, once the register interface is there. */
  method ReadRegisters(names: seq<string>, registers: map<string, nat>) returns (values: seq<RegisterValue>)
    ensures values == ReadingsOf(names, registers)
  {
    values := [];
    for i := 0 to |names|
      invariant |values| == i && forall k :: 0 <= k < i ==> values[k] == Reading(names[k], registers)
    {
      values := values + [Reading(names[i], registers)];
    }
  }

  datatype RegRequest = RegRequest(pcSeq: nat, id: string, runtimePc: string, names: seq<string>)

  /** The request in a line, if all its fields are found. */
  function ParseReg(line: string): (q: Option<RegRequest>)
    ensures q.Some? <==> RF.NumberField(line, "pc_seq").Some? && RF.StringField(line, "request_id", 128).Some?
                         && RF.StringField(line, "runtime_pc", 64).Some? && RF.RegisterList(line).Some?
    ensures q.Some? ==> q.value.pcSeq < WORD
  {
    match (RF.NumberField(line, "pc_seq"), RF.StringField(line, "request_id", 128),
           RF.StringField(line, "runtime_pc", 64), RF.RegisterList(line))
    case (Some(pcSeq), Some(id), Some(runtimePc), Some(names)) => Option.Some(RegRequest(pcSeq, id, runtimePc, names))
    case _ => None
  }

  ghost predicate ShortNames(names: seq<string>)
  {
    |names| <= 32 && forall i :: 0 <= i < |names| ==> Field(names[i], 15)
  }

  lemma {:induction false} SuffixOfSkip(t: string)
    requires NEWLINE !in t
    ensures NEWLINE !in RF.SkipToName(t)
    decreases |t|
  {
    if t != "" {
      SuffixOfSkip(t[1..]);
    }
  }

  lemma NameIsShort(t: string, count: nat)
    requires NEWLINE !in t
    ensures var scan := RF.NextName(t, count);
            scan.Name? ==> count < 32 && Field(RF.LowerAscii(scan.value), 15) && NEWLINE !in scan.rest
  {
    SuffixOfSkip(t);
    var u := RF.SkipToName(t);
    if u != "" {
      var value := UntilQuote(u[1..]);
      assert forall k :: 0 <= k < |value| ==> value[k] == u[1..][k];
    }
  }

  lemma {:induction false} ListIsShort(t: string, names: seq<string>)
    requires NEWLINE !in t && ShortNames(names)
    ensures RF.NameList(t, names).Some? ==> ShortNames(RF.NameList(t, names).value)
    decreases |t|
  {
    NameIsShort(t, |names|);
    var scan := RF.NextName(t, |names|);
    if scan.Name? {
      ListIsShort(scan.rest, names + [RF.LowerAscii(scan.value)]);
    }
  }

  lemma {:induction false} SuffixOfAfter(s: string, pattern: string)
    requires NEWLINE !in s
    ensures RF.After(s, pattern).Some? ==> NEWLINE !in RF.After(s, pattern).value
    decreases |s|
  {
    if !(pattern <= s) && s != "" {
      SuffixOfAfter(s[1..], pattern);
    }
  }

  lemma {:induction false} SuffixOfPast(s: string, c: char)
    requires NEWLINE !in s
    ensures RF.Past(s, c).Some? ==> NEWLINE !in RF.Past(s, c).value
    decreases |s|
  {
    if s != "" && s[0] != c {
      SuffixOfPast(s[1..], c);
    }
  }

  /** A register list in one line has at most 32 names of at most 15 characters. */
  lemma RegisterListIsShort(line: string)
    requires NEWLINE !in line
    ensures RF.RegisterList(line).Some? ==> ShortNames(RF.RegisterList(line).value)
  {
    var after := RF.After(line, RF.Word("registers"));
    SuffixOfAfter(line, RF.Word("registers"));
    if after.Some? {
      var t := RF.Word("registers") + after.value;
      SuffixOfPast(t, '[');
      if RF.Past(t, '[').Some? {
        ListIsShort(RF.Past(t, '[').value, []);
      }
    }
  }

  lemma StringFieldIsShort(line: string, field: string, size: nat)
    ensures RF.StringField(line, field, size).Some? ==> |RF.StringField(line, field, size).value| < size
  {
  }

  /** What a line that holds a register request is answered with. */
  function RegReply(q: RegRequest, messageId: nat, registers: map<string, nat>): string
  {
    RegResponse(messageId, q.pcSeq, q.id, q.runtimePc, ReadingsOf(q.names, registers))
  }

  /**
    `DvsHandleRegRequest`: an answer is sent if and only if all fields are found and the
    registers can be accessed at all. It is one line, and holds one entry for each listed
    register that can be read.
   */
  method HandleRegRequest(line: string, messageId: nat, registers: Option<map<string, nat>>) returns (reply: Reply)
    requires NEWLINE !in line && messageId < WORD
    ensures reply.Sent? <==> ParseReg(line).Some? && registers.Some?
    ensures reply.Sent? ==>
            reply.text == RegReply(ParseReg(line).value, messageId, registers.value) && OneLine(reply.text)
            && |reply.text| < 4096
  {
    var pcSeq := RF.ExtractUnsignedField(line, "pc_seq");
    var requestId := RF.ExtractStringField(line, "request_id", 128);
    var runtimePc := RF.ExtractStringField(line, "runtime_pc", 64);
    var names := RF.ParseRegisterList(line);
    if pcSeq.None? || requestId.None? || runtimePc.None? || names.None? {
      return Ignored;
    }
    if registers.None? {
      return Ignored;
    }
    StringFieldIsShort(line, "request_id", 128);
    StringFieldIsShort(line, "runtime_pc", 64);
    RegisterListIsShort(line);
    var values := ReadRegisters(names.value, registers.value);
    var text := BuildRegResponse(messageId, pcSeq.value, requestId.value, runtimePc.value, values);
    return Sent(text);
  }

  /** Fills a 4096-byte buffer; it is always large enough. */
  method BuildRegResponse(messageId: nat, pcSeq: nat, requestId: string, runtimePc: string, values: seq<RegisterValue>)
    returns (text: string)
    requires messageId < WORD && pcSeq < WORD && |requestId| <= 127 && |runtimePc| <= 63 && Readings(values)
    ensures text == RegResponse(messageId, pcSeq, requestId, runtimePc, values) && |text| < 4096 && OneLine(text)
  {
    var buffer := new char[4096];
    RegResponseFits(messageId, pcSeq, requestId, runtimePc, values);
    var ok, length := WriteRegResponse(buffer, messageId, pcSeq, requestId, runtimePc, values);
    assert ok;
    text := buffer[..length];
  }

  // ---------------------------------------------------------------- memory requests

  datatype MemRequest = MemRequest(pcSeq: nat, id: string, runtimePc: string, address: string, size: nat)

  function ParseMem(line: string): (q: Option<MemRequest>)
    ensures q.Some? <==> RF.NumberField(line, "pc_seq").Some? && RF.StringField(line, "request_id", 128).Some?
                         && RF.StringField(line, "runtime_pc", 64).Some? && RF.StringField(line, "address", 64).Some?
                         && RF.NumberField(line, "size").Some?
    ensures q.Some? ==>
            q.value.pcSeq < WORD && q.value.size < WORD && |q.value.id| < 128 && |q.value.runtimePc| < 64
            && |q.value.address| < 64
  {
    StringFieldIsShort(line, "request_id", 128);
    StringFieldIsShort(line, "runtime_pc", 64);
    StringFieldIsShort(line, "address", 64);
    match (RF.NumberField(line, "pc_seq"), RF.StringField(line, "request_id", 128),
           RF.StringField(line, "runtime_pc", 64),
           RF.StringField(line, "address", 64), RF.NumberField(line, "size"))
    case (Some(pcSeq), Some(id), Some(runtimePc), Some(address), Some(size)) =>
      Option.Some(MemRequest(pcSeq, id, runtimePc, address, size))
    case _ => None
  }

  function LeadingHex(t: string): string
  {
    if t != "" && IsHexDigit(t[0]) then [t[0]] + LeadingHex(t[1..]) else ""
  }

  /** The digits of either case behind an optional sign and prefix. */
  function HexDigits(t: string): string
  {
    var u := RF.LowerAscii(RF.Unsigned(t));
    LeadingHex(if "0x" <= u then u[2..] else u)
  }

  /** `%llx`: white space, a sign, a prefix and digits. */
  function HexNumber(t: string): (n: Option<nat>)
    ensures n.Some? ==> n.value < QUAD
  {
    var s := RF.SkipSpaces(t);
    var d := HexDigits(s);
    if d == "" then None else Some(RF.Converted(s, DigitsValue(d, 16), QUAD))
  }

  /** The memory as the debugger reads it: all bytes asked for, or a message why not. */
  type Memory = (nat, nat) -> Result

  datatype Result = Read(bytes: seq<Byte>) | Unreadable(message: string)

  const MAX_SIZE: nat := 4096

  /** What a memory request is answered with. */
  function MemReply(q: MemRequest, messageId: nat, memory: Memory): string
  {
    FateReply(q, messageId, FateOf(q, memory))
  }

  /** A request is refused with a code and a message, or carried out. */
  datatype Fate = Refused(code: string, message: string) | Done(read: Result)

  function FateOf(q: MemRequest, memory: Memory): Fate
  {
    var address := HexNumber(q.address);
    if address.None? then Refused("invalid_address", "invalid memory read address")
    else if q.size == 0 || q.size > MAX_SIZE then Refused("invalid_size", "invalid memory read size")
    else Done(memory(address.value, q.size))
  }

  function FateReply(q: MemRequest, messageId: nat, fate: Fate): string
  {
    match fate
    case Refused(code, message) =>
      MemErrorResponse(messageId, q.pcSeq, q.id, q.runtimePc, q.address, q.size, code, message)
    case Done(read) => ReadReply(q, messageId, read)
  }

  function ReadReply(q: MemRequest, messageId: nat, read: Result): string
  {
    match read
    case Read(bytes) => MemResponse(messageId, q.pcSeq, q.id, q.runtimePc, q.address, q.size, bytes)
    case Unreadable(message) =>
      MemErrorResponse(messageId, q.pcSeq, q.id, q.runtimePc, q.address, q.size, "read_failed", message)
  }

  /** The memory refuses a request that is otherwise in order. */
  predicate ReadFails(q: MemRequest, memory: Memory)
  {
    FateOf(q, memory).Done? && FateOf(q, memory).read.Unreadable?
  }

  /**
    `DvsHandleMemRequest`: a line whose fields are found is answered. Only the report of
    a failed read may be too long for its buffer, and is then dropped.
   */
  method HandleMemRequest(line: string, messageId: nat, memory: Memory) returns (reply: Reply)
    requires messageId < WORD
    requires forall address, size :: memory(address, size).Read? ==> |memory(address, size).bytes| == size
    ensures ParseMem(line).None? ==> reply == Ignored
    ensures ParseMem(line).Some? ==>
              var q := ParseMem(line).value;
              && (reply.Sent? <==> !ReadFails(q, memory) || |MemReply(q, messageId, memory)| < 2048)
              && (reply.Sent? ==> reply.text == MemReply(q, messageId, memory) && |reply.text| < 12288)
              && (!ReadFails(q, memory) ==> OneLine(MemReply(q, messageId, memory)))
  {
    var pcSeq := RF.ExtractUnsignedField(line, "pc_seq");
    var requestId := RF.ExtractStringField(line, "request_id", 128);
    var runtimePc := RF.ExtractStringField(line, "runtime_pc", 64);
    var text := RF.ExtractStringField(line, "address", 64);
    var size := RF.ExtractUnsignedField(line, "size");
    if pcSeq.None? || requestId.None? || runtimePc.None? || text.None? || size.None? {
      return Ignored;
    }
    reply := AnswerMem(MemRequest(pcSeq.value, requestId.value, runtimePc.value, text.value, size.value), messageId,
                       memory);
  }

  method AnswerMem(q: MemRequest, messageId: nat, memory: Memory) returns (reply: Reply)
    requires messageId < WORD && q.pcSeq < WORD && q.size < WORD && |q.id| < 128 && |q.runtimePc| < 64
    requires |q.address| < 64
    requires forall address, size :: memory(address, size).Read? ==> |memory(address, size).bytes| == size
    ensures reply.Sent? <==> !ReadFails(q, memory) || |MemReply(q, messageId, memory)| < 2048
    ensures reply.Sent? ==> reply.text == MemReply(q, messageId, memory) && |reply.text| < 12288
    ensures !ReadFails(q, memory) ==> OneLine(MemReply(q, messageId, memory))
  {
    reply := AnswerFate(q, messageId, FateOf(q, memory));
  }

  method AnswerFate(q: MemRequest, messageId: nat, fate: Fate) returns (reply: Reply)
    requires messageId < WORD && q.pcSeq < WORD && q.size < WORD && |q.id| < 128 && |q.runtimePc| < 64
    requires |q.address| < 64 && (fate.Refused? ==> |fate.code| + |fate.message| <= 42)
    requires fate.Done? && fate.read.Read? ==> |fate.read.bytes| <= MAX_SIZE
    ensures reply.Sent? <==> fate.Refused? || fate.read.Read? || |FateReply(q, messageId, fate)| < 2048
    ensures reply.Sent? ==> reply.text == FateReply(q, messageId, fate) && |reply.text| < 12288
    ensures fate.Refused? || fate.read.Read? ==> OneLine(FateReply(q, messageId, fate))
  {
    match fate {
      case Refused(code, message) => reply := RefuseMem(q, messageId, code, message);
      case Done(read) => reply := AnswerRead(q, messageId, read);
    }
  }

  /** The bytes, or the debugger's reason why there are none. */
  method AnswerRead(q: MemRequest, messageId: nat, read: Result) returns (reply: Reply)
    requires messageId < WORD && q.pcSeq < WORD && q.size < WORD && |q.id| < 128 && |q.runtimePc| < 64
    requires |q.address| < 64 && (read.Read? ==> |read.bytes| <= MAX_SIZE)
    ensures reply.Sent? <==> read.Read? || |ReadReply(q, messageId, read)| < 2048
    ensures reply.Sent? ==> reply.text == ReadReply(q, messageId, read) && |reply.text| < 12288
    ensures read.Read? ==> OneLine(ReadReply(q, messageId, read))
  {
    match read {
      case Unreadable(message) => reply := SendMemError(q, messageId, "read_failed", message);
      case Read(bytes) => reply := SendMemBytes(q, messageId, bytes);
    }
  }

  /** Fills a 12288-byte buffer; it is always large enough. */
  method SendMemBytes(q: MemRequest, messageId: nat, bytes: seq<Byte>) returns (reply: Reply)
    requires messageId < WORD && q.pcSeq < WORD && q.size < WORD && |q.id| < 128 && |q.runtimePc| < 64
    requires |q.address| < 64 && |bytes| <= MAX_SIZE
    ensures var t := MemResponse(messageId, q.pcSeq, q.id, q.runtimePc, q.address, q.size, bytes);
            reply == Sent(t) && |t| < 12288 && OneLine(t)
  {
    MemResponseFits(messageId, q.pcSeq, q.id, q.runtimePc, q.address, q.size, bytes);
    var buffer := new char[12288];
    var ok, length := WriteMemResponse(buffer, messageId, q.pcSeq, q.id, q.runtimePc, q.address, q.size, bytes);
    assert ok;
    reply := Sent(buffer[..length]);
  }

  /** A report with a short code and message always fits. */
  method RefuseMem(q: MemRequest, messageId: nat, code: string, message: string) returns (reply: Reply)
    requires messageId < WORD && q.pcSeq < WORD && q.size < WORD && |q.id| < 128 && |q.runtimePc| < 64
    requires |q.address| < 64 && |code| + |message| <= 42
    ensures var t := MemErrorResponse(messageId, q.pcSeq, q.id, q.runtimePc, q.address, q.size, code, message);
            reply == Sent(t) && |t| < 2048 && OneLine(t)
  {
    MemErrorFits(messageId, q.pcSeq, q.id, q.runtimePc, q.address, q.size, code, message);
    reply := SendMemError(q, messageId, code, message);
  }

  /** `DvsSendMemErrorResponse`. */
  method SendMemError(q: MemRequest, messageId: nat, code: string, message: string) returns (reply: Reply)
    ensures var t := MemErrorResponse(messageId, q.pcSeq, q.id, q.runtimePc, q.address, q.size, code, message);
            reply == if |t| < 2048 then Sent(t) else Ignored
  {
    var buffer := new char[2048];
    var ok, length :=
      WriteMemErrorResponse(buffer, messageId, q.pcSeq, q.id, q.runtimePc, q.address, q.size, code, message);
    if !ok {
      return Ignored;
    }
    return Sent(buffer[..length]);
  }
}

/**
  The answers of the target, as they travel: what IDA decodes from the reply to a request
  line it wrote is exactly the answer that the target gives to that request.
 */
module Wire {
  import opened Basics
  import opened Values
  import opened JsonText
  import T = Target
  import M = RecoveryModel
  import RF = RequestFields
  import RL = RequestLines
  import RH = RequestHandling
  import RR = ResponseReading
  import JW = JsonWriter

  // ---------------------------------------------------------------- ids

  lemma {:induction false} DigitsArePlain(n: nat, radix: nat)
    requires radix == 10 || radix == 16
    ensures AllPlain(Digits(n, radix))
  {
    RR.DigitIsPlain(n % radix);
    if n >= radix {
      DigitsArePlain(n / radix, radix);
    }
  }

  lemma PlainConcat(a: string, b: string)
    requires AllPlain(a) && AllPlain(b)
    ensures AllPlain(a + b)
  {
  }

  ghost predicate Passes(id: string)
  {
    RL.IsId(id) && |id| < 128
  }

  lemma RegIdPasses(pcSeq: nat)
    requires pcSeq < WORD
    ensures Passes(RegId(pcSeq)) && Passes(ArgRegId(pcSeq))
  {
    WordLength(pcSeq);
    DigitsArePlain(pcSeq, 10);
    PlainConcat("reg-", Dec(pcSeq));
    HasHyphen("v", "reg-" + Dec(pcSeq) + "-runtime", RegId(pcSeq));
    HasHyphen("reg", Dec(pcSeq) + "-entry", ArgRegId(pcSeq));
  }

  lemma MemIdPasses(pcSeq: nat, index: nat)
    requires pcSeq < WORD && index < WORD
    ensures Passes(MemId(pcSeq, index))
  {
    WordLength(pcSeq);
    WordLength(index);
    DigitsArePlain(pcSeq, 10);
    DigitsArePlain(index, 10);
    HasHyphen("v", "mem-" + Dec(pcSeq) + "-" + Dec(index), MemId(pcSeq, index));
  }

  /** The planners' ids pass unchanged; the id of a stack argument does if its name is plain and not too long. */
  lemma ArgMemIdPasses(pcSeq: nat, name: string)
    requires pcSeq < WORD && AllPlain(name) && |name| <= 112
    ensures Passes(ArgMemId(pcSeq, name))
  {
    WordLength(pcSeq);
    DigitsArePlain(pcSeq, 10);
    HasHyphen("mem", Dec(pcSeq) + "-" + name, ArgMemId(pcSeq, name));
  }

  lemma HasHyphen(a: string, b: string, id: string)
    requires AllPlain(a) && AllPlain(b) && id == a + "-" + b
    ensures RL.IsId(id)
  {
    assert id[|a|] == '-';
  }

  // ---------------------------------------------------------------- registers

  lemma {:induction false} PairsAre(names: seq<string>, registers: map<string, nat>, n: string, v: nat)
    ensures (n, v) in RR.Pairs(RH.ReadingsOf(names, registers)) <==> n in names && n in registers && v == registers[n]
    decreases |names|
  {
    var values := RH.ReadingsOf(names, registers);
    if names != [] {
      var init, last := names[..|names| - 1], names[|names| - 1];
      PairsAre(init, registers, n, v);
      assert values[..|values| - 1] == RH.ReadingsOf(init, registers);
      assert names == init + [last];
    }
  }

  lemma PairsDecode(names: seq<string>, registers: map<string, nat>)
    requires forall i :: 0 <= i < |names| ==> AllPlain(names[i])
    requires forall n :: n in registers ==> registers[n] < Pow16(16)
    ensures var pairs := RR.Pairs(RH.ReadingsOf(names, registers));
            forall i :: 0 <= i < |pairs| ==> RR.Decodable(pairs[i])
  {
    var pairs := RR.Pairs(RH.ReadingsOf(names, registers));
    forall i | 0 <= i < |pairs| ensures RR.Decodable(pairs[i]) {
      PairsAre(names, registers, pairs[i].0, pairs[i].1);
      assert pairs[i] in pairs && (pairs[i].0, pairs[i].1) == pairs[i];
      var k :| 0 <= k < |names| && names[k] == pairs[i].0;
    }
  }

  /** The request lists the registers it asks for, under names the extension accepts. */
  ghost predicate Lists(names: seq<string>, registers: set<string>)
  {
    && RL.AllNames(names) && 0 < |names| <= RF.MAX_REGISTERS && (forall i :: 0 <= i < |names| ==> AllPlain(names[i]))
    && forall n :: n in names <==> n in registers
  }

  /** What IDA makes of a decoded register response. */
  function Received(d: RR.RegDecoded): T.Message
  {
    T.RegAnswer(M.Response(Some(d.pcSeq), Some(d.id), d.runtimePc, true, Some(Numbers(d.pairs)), "", None, ""))
  }

  /** The JSON object of the pairs; a later entry for a name replaces an earlier one. */
  function Numbers(pairs: seq<(string, nat)>): map<string, M.Raw>
  {
    if pairs == [] then map[]
    else Numbers(pairs[..|pairs| - 1])[pairs[|pairs| - 1].0 := M.Number(pairs[|pairs| - 1].1)]
  }

  lemma {:induction false} NumbersAre(pairs: seq<(string, nat)>, registers: map<string, nat>)
    requires forall i :: 0 <= i < |pairs| ==> pairs[i].0 in registers && pairs[i].1 == registers[pairs[i].0]
    ensures forall n :: n in Numbers(pairs) <==> exists i :: 0 <= i < |pairs| && pairs[i].0 == n
    ensures forall n :: n in Numbers(pairs) ==> n in registers && Numbers(pairs)[n] == M.Number(registers[n])
    decreases |pairs|
  {
    if pairs != [] {
      var init := pairs[..|pairs| - 1];
      NumbersAre(init, registers);
      forall n ensures n in Numbers(pairs) <==> exists i :: 0 <= i < |pairs| && pairs[i].0 == n {
        if n in Numbers(init) {
          var i :| 0 <= i < |init| && init[i].0 == n;
          assert pairs[i].0 == n;
        }
        if i :| 0 <= i < |pairs| && pairs[i].0 == n {
          if i < |init| {
            assert init[i].0 == n;
          }
        }
      }
    }
  }

  lemma SameNumbers(names: seq<string>, asked: set<string>, registers: map<string, nat>)
    requires forall n :: n in names <==> n in asked
    ensures Numbers(RR.Pairs(RH.ReadingsOf(names, registers))) ==
            map n | n in asked && n in registers :: M.Number(registers[n])
  {
    var pairs := RR.Pairs(RH.ReadingsOf(names, registers));
    forall i | 0 <= i < |pairs|
      ensures pairs[i].0 in registers && pairs[i].1 == registers[pairs[i].0] && pairs[i].0 in names
    {
      PairsAre(names, registers, pairs[i].0, pairs[i].1);
      assert pairs[i] in pairs && (pairs[i].0, pairs[i].1) == pairs[i];
    }
    NumbersAre(pairs, registers);
    forall n ensures n in Numbers(pairs) <==> n in asked && n in registers {
      if n in asked && n in registers {
        PairsAre(names, registers, n, registers[n]);
        var i :| 0 <= i < |pairs| && pairs[i] == (n, registers[n]);
        assert pairs[i].0 == n;
      }
      if n in Numbers(pairs) {
        var i :| 0 <= i < |pairs| && pairs[i].0 == n;
      }
    }
  }

  function RegLine(q: M.Request, names: seq<string>, number: nat, reason: string): string
    requires q.RegRequest?
  {
    RL.Line(RL.RegEntries(number, q.pcSeq, q.id, q.runtimePc, names, reason))
  }

  lemma RegLineParses(q: M.Request, names: seq<string>, number: nat, reason: string)
    requires q.RegRequest? && Passes(q.id) && RL.IsHexText(q.runtimePc) && |q.runtimePc| < 64 && q.pcSeq < WORD
    requires Lists(names, q.registers)
    ensures RH.ParseReg(RegLine(q, names, number, reason)) == Some(RH.RegRequest(q.pcSeq, q.id, q.runtimePc, names))
  {
    RL.RegRequestIsRead(number, q.pcSeq, q.id, q.runtimePc, names, reason);
  }

  lemma RegReplyDecodes(stop: T.Stop, q: M.Request, names: seq<string>, number: nat)
    requires q.RegRequest? && Lists(names, q.registers) && forall n :: n in stop.regs ==> stop.regs[n] < Pow16(16)
    ensures var decoded :=
            RR.DecodeReg(RH.RegReply(RH.RegRequest(q.pcSeq, q.id, q.runtimePc, names), number, stop.regs));
            decoded.Some? && Received(decoded.value) == T.Answer(stop, q)
  {
    PairsDecode(names, stop.regs);
    RR.RegResponseReadsBack(number, q.pcSeq, q.id, q.runtimePc, RH.ReadingsOf(names, stop.regs));
    SameNumbers(names, q.registers, stop.regs);
  }

  /**
    The reply to the line of a register request decodes to the target's answer to it:
    the id, the PC, and exactly the readable ones of the registers asked for.
   */
  lemma RegAnswerTravels(stop: T.Stop, q: M.Request, names: seq<string>, requestNumber: nat, responseNumber: nat,
                         reason: string)
    requires q.RegRequest? && Passes(q.id) && RL.IsHexText(q.runtimePc) && |q.runtimePc| < 64 && q.pcSeq < WORD
    requires Lists(names, q.registers) && forall n :: n in stop.regs ==> stop.regs[n] < Pow16(16)
    ensures var parsed := RH.ParseReg(RegLine(q, names, requestNumber, reason));
            && parsed.Some?
            && var decoded := RR.DecodeReg(RH.RegReply(parsed.value, responseNumber, stop.regs));
               decoded.Some? && Received(decoded.value) == T.Answer(stop, q)
  {
    RegLineParses(q, names, requestNumber, reason);
    RegReplyDecodes(stop, q, names, responseNumber);
  }

  // ---------------------------------------------------------------- memory

  /** The debugger reads all bytes, or says why not. */
  function MemoryAt(stop: T.Stop, message: string): RH.Memory
  {
    (address: nat, size: nat) =>
      if T.Readable(stop, address, size) then RH.Read(T.Bytes(stop, address, size)) else RH.Unreadable(message)
  }

  function ReceivedMem(d: RR.MemDecoded): T.Message
  {
    T.MemAnswer(M.Response(Some(d.pcSeq), Some(d.id), d.runtimePc, d.ok, None, d.address, Some(d.size), d.bytesHex))
  }

  lemma {:induction false} HexIsTaken(d: string)
    requires forall i :: 0 <= i < |d| ==> IsHexDigit(d[i])
    ensures RH.LeadingHex(d) == d
    decreases |d|
  {
    if d != "" {
      HexIsTaken(d[1..]);
    }
  }

  lemma {:induction false} DigitsAreHex(n: nat)
    ensures Digits(n, 16) != "" && forall i :: 0 <= i < |Digits(n, 16)| ==> IsHexDigit(Digits(n, 16)[i])
  {
    DigitRoundTrip(n % 16);
    if n >= 16 {
      DigitsAreHex(n / 16);
    }
  }

  lemma LowerStays(t: string)
    requires forall i :: 0 <= i < |t| ==> LowerChar(t[i]) == t[i]
    ensures RF.LowerAscii(t) == t
  {
  }

  lemma PrefixedDigits(t: string, d: string)
    requires t == "0x" + d && forall i :: 0 <= i < |d| ==> IsHexDigit(d[i])
    ensures RH.HexDigits(t) == d
  {
    assert t[2..] == d && t[0] == '0' && t[1] == 'x';
    LowerStays(t);
    HexIsTaken(d);
  }

  lemma PrefixedStarts(t: string, d: string)
    requires t == "0x" + d
    ensures RF.SkipSpaces(t) == t && !("-" <= t)
  {
    assert t[0] == '0';
  }

  lemma UnsignedIsTaken(t: string)
    requires RF.SkipSpaces(t) == t && !("-" <= t) && RH.HexDigits(t) != "" && DigitsValue(RH.HexDigits(t), 16) < QUAD
    ensures RH.HexNumber(t) == Some(DigitsValue(RH.HexDigits(t), 16))
  {
  }

  /** The extension reads the address that IDA wrote. */
  lemma AddressPasses(n: nat)
    requires n < QUAD
    ensures RH.HexNumber(Hex(n)) == Some(n) && HexValue(Hex(n)) == n && RL.IsHexText(Hex(n))
  {
    DigitsAreHex(n);
    DigitsRoundTrip(n, 16);
    PrefixedDigits(Hex(n), Digits(n, 16));
    PrefixedStarts(Hex(n), Digits(n, 16));
    UnsignedIsTaken(Hex(n));
    HexRoundTrip(n);
    DigitsArePlain(n, 16);
    PlainConcat("0x", Digits(n, 16));
  }

  function MemLine(q: M.Request, number: nat, more: seq<RL.Entry>): string
    requires q.MemRequest? && q.size >= 0
  {
    RL.Line(RL.MemEntries(number, q.pcSeq, q.id, q.runtimePc, q.address, q.size, more))
  }

  lemma MemLineParses(q: M.Request, number: nat, more: seq<RL.Entry>)
    requires q.MemRequest? && Passes(q.id) && RL.IsHexText(q.runtimePc) && |q.runtimePc| < 64 && q.pcSeq < WORD
    requires RL.IsHexText(q.address) && |q.address| < 64 && 0 <= q.size < WORD
    ensures RH.ParseMem(MemLine(q, number, more)) == Some(RH.MemRequest(q.pcSeq, q.id, q.runtimePc, q.address, q.size))
  {
    RL.MemRequestIsRead(number, q.pcSeq, q.id, q.runtimePc, q.address, q.size, more);
  }

  /** Whatever becomes of the request, its reply decodes to the target's answer. */
  lemma MemReplyDecodes(stop: T.Stop, q: M.Request, address: nat, number: nat, message: string)
    requires q.MemRequest? && q.address == Hex(address) && address < QUAD && q.size >= 0
    ensures var request := RH.MemRequest(q.pcSeq, q.id, q.runtimePc, q.address, q.size);
            var decoded := RR.DecodeMem(RH.MemReply(request, number, MemoryAt(stop, message)));
            decoded.Some? && ReceivedMem(decoded.value) == T.Answer(stop, q)
  {
    AddressPasses(address);
    var fate := RH.FateOf(RH.MemRequest(q.pcSeq, q.id, q.runtimePc, q.address, q.size), MemoryAt(stop, message));
    if fate.Refused? {
      FailureDecodes(stop, q, number, fate.code, fate.message);
    } else if fate.read.Read? {
      BytesDecode(stop, q, address, number);
    } else {
      FailureDecodes(stop, q, number, "read_failed", message);
    }
  }

  lemma BytesDecode(stop: T.Stop, q: M.Request, address: nat, number: nat)
    requires q.MemRequest? && HexValue(q.address) == address && 0 < q.size <= 4096 && T.Readable(stop, address, q.size)
    ensures var bytes := T.Bytes(stop, address, q.size);
            var t := JW.MemResponse(number, q.pcSeq, q.id, q.runtimePc, q.address, q.size, bytes);
            RR.DecodeMem(t).Some? && ReceivedMem(RR.DecodeMem(t).value) == T.Answer(stop, q)
  {
    RR.MemResponseReadsBack(number, q.pcSeq, q.id, q.runtimePc, q.address, q.size, T.Bytes(stop, address, q.size));
  }

  /** Any error response decodes to the failure that the target answers with. */
  lemma FailureDecodes(stop: T.Stop, q: M.Request, number: nat, code: string, message: string)
    requires q.MemRequest? && q.size >= 0
    requires !(0 < q.size <= 4096 && T.Readable(stop, HexValue(q.address), q.size))
    ensures var t := JW.MemErrorResponse(number, q.pcSeq, q.id, q.runtimePc, q.address, q.size, code, message);
            RR.DecodeMem(t).Some? && ReceivedMem(RR.DecodeMem(t).value) == T.Answer(stop, q)
  {
    RR.MemErrorReadsBack(number, q.pcSeq, q.id, q.runtimePc, q.address, q.size, code, message);
  }

  /**
    The reply to the line of a memory request decodes to the target's answer to it: the
    bytes, or the failure of a size that is refused or of memory that cannot be read.
   */
  lemma MemAnswerTravels(stop: T.Stop, q: M.Request, address: nat, requestNumber: nat, responseNumber: nat,
                         more: seq<RL.Entry>, message: string)
    requires q.MemRequest? && Passes(q.id) && RL.IsHexText(q.runtimePc) && |q.runtimePc| < 64 && q.pcSeq < WORD
    requires q.address == Hex(address) && address < QUAD && |q.address| < 64 && 0 <= q.size < WORD
    ensures var parsed := RH.ParseMem(MemLine(q, requestNumber, more));
            && parsed.Some?
            && var decoded := RR.DecodeMem(RH.MemReply(parsed.value, responseNumber, MemoryAt(stop, message)));
               decoded.Some? && ReceivedMem(decoded.value) == T.Answer(stop, q)
  {
    AddressPasses(address);
    MemLineParses(q, requestNumber, more);
    MemReplyDecodes(stop, q, address, responseNumber, message);
  }
}

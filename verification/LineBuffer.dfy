/**
  The WinDbg extension's receive buffer. `wire` holds what the broker has sent and the
  extension has not yet received; `arriving` says how many of those bytes a receive sees.
 */
module LineBufferModel {
  import opened Values
  import opened Framing

  const CAPACITY: nat := 8192

  datatype Pop = NoLine | TooLong | Popped(line: Line, rest: seq<Byte>)

  function StripCr(line: Line): Line
  {
    if |line| > 0 && line[|line| - 1] == CR then line[..|line| - 1] else line
  }

  /** The place of the first newline at or after `from`, or the length. */
  function FirstFrom(content: seq<Byte>, from: nat): (i: nat)
    requires from <= |content|
    ensures from <= i <= |content| && (i < |content| ==> content[i] == LF)
    ensures forall k :: from <= k < i ==> content[k] != LF
    decreases |content| - from
  {
    if from == |content| || content[from] == LF then from else FirstFrom(content, from + 1)
  }

  function FirstLf(content: seq<Byte>): (i: nat)
    ensures i <= |content| && (forall k :: 0 <= k < i ==> content[k] != LF) && (i < |content| ==> content[i] == LF)
  {
    FirstFrom(content, 0)
  }

  /** `DvsTryPopLine` into a line buffer of `size` bytes. */
  function PopLine(content: seq<Byte>, size: nat): Pop
  {
    var i := FirstLf(content);
    if i == |content| then NoLine
    else
      var line := StripCr(content[..i]);
      if |line| >= size then TooLong else Popped(line, content[i + 1..])
  }

  datatype Code = Ok | Timeout | Error

  datatype Receiver = Receiver(content: seq<Byte>, wire: seq<Byte>)

  datatype Received = Received(code: Code, line: Line, after: Receiver)

  function Finish(r: Receiver, size: nat): Received
  {
    match PopLine(r.content, size)
    case NoLine => Received(Timeout, [], r)
    case TooLong => Received(Error, [], r.(content := []))
    case Popped(line, rest) => Received(Ok, line, r.(content := rest))
  }

  function Min(a: nat, b: nat): nat
  {
    if a < b then a else b
  }

  /** How many bytes one receive takes from the wire. */
  function Taken(r: Receiver, arriving: nat): (n: nat)
    ensures n <= |r.wire| && (|r.content| <= CAPACITY ==> |r.content| + n <= CAPACITY)
    ensures arriving > 0 && r.wire != [] && |r.content| < CAPACITY ==> n > 0
  {
    if |r.content| >= CAPACITY then 0 else Min(Min(arriving, |r.wire|), CAPACITY - |r.content|)
  }

  function Refilled(r: Receiver, n: nat): Receiver
    requires n <= |r.wire|
  {
    Receiver(r.content + r.wire[..n], r.wire[n..])
  }

  /** `DvsSocketReceiveLine` on a live connection; nothing arriving is a timeout. */
  function ReceiveLine(r: Receiver, size: nat, arriving: nat): Received
  {
    if PopLine(r.content, size) != NoLine then Finish(r, size)
    else if arriving == 0 || r.wire == [] then Received(Timeout, [], r)
    else if |r.content| >= CAPACITY then Received(Error, [], r.(content := []))
    else Finish(Refilled(r, Taken(r, arriving)), size)
  }

  // ---------------------------------------------------------------- whole runs

  datatype Session = Session(delivered: seq<Line>, failed: bool, r: Receiver)

  function Finished(s: Session, got: Received): Session
  {
    match got.code
    case Ok => Session(s.delivered + [got.line], s.failed, got.after)
    case Timeout => Session(s.delivered, s.failed, got.after)
    case Error => Session(s.delivered, true, got.after)
  }

  function Call(s: Session, size: nat, arriving: nat): Session
  {
    Finished(s, ReceiveLine(s.r, size, arriving))
  }

  function Run(stream: seq<Byte>, size: nat, arrivals: seq<nat>): Session
  {
    if arrivals == [] then Session([], false, Receiver([], stream))
    else Call(Run(stream, size, arrivals[..|arrivals| - 1]), size, arrivals[|arrivals| - 1])
  }

  function Stripped(lines: seq<Line>): seq<Line>
  {
    seq(|lines|, i requires 0 <= i < |lines| => StripCr(lines[i]))
  }

  /** Every line fits the line buffer, and so does an unfinished one the receive buffer. */
  ghost predicate Short(f: Frames, size: nat)
  {
    |f.rest| <= CAPACITY && forall i :: 0 <= i < |f.lines| ==> |StripCr(f.lines[i])| < size
  }

  /** Everything not yet received or not yet delivered. */
  function Ahead(r: Receiver): Frames
  {
    Split(r.content + r.wire)
  }

  /** What is ahead is short, and delivering it all would complete the lines of the stream. */
  ghost predicate Conserves(stream: seq<Byte>, size: nat, s: Session)
  {
    && !s.failed && Short(Ahead(s.r), size)
    && Stripped(Split(stream).lines) == s.delivered + Stripped(Ahead(s.r).lines)
    && Split(stream).rest == Ahead(s.r).rest
  }

  /** Popping takes the first of the lines ahead, and refuses it exactly if it is too long. */
  lemma PopTakesFirst(r: Receiver, size: nat)
    ensures match PopLine(r.content, size)
            case NoLine => LF !in r.content
            case TooLong => Ahead(r).lines != [] && |StripCr(Ahead(r).lines[0])| >= size
            case Popped(line, rest) =>
              && Ahead(r).lines != [] && line == StripCr(Ahead(r).lines[0]) && |line| < size && |rest| < |r.content|
              && Ahead(r.(content := rest)) == Frames(Ahead(r).lines[1..], Ahead(r).rest)
  {
    var i := FirstLf(r.content);
    if i < |r.content| {
      var line, rest := r.content[..i], r.content[i + 1..];
      assert r.content + r.wire == line + [LF] + (rest + r.wire);
      SplitFront(line, rest + r.wire);
      assert Ahead(r).lines[0] == line && Ahead(r).lines[1..] == Split(rest + r.wire).lines;
    }
  }

  lemma StrippedFirst(lines: seq<Line>)
    requires lines != []
    ensures Stripped(lines) == [StripCr(lines[0])] + Stripped(lines[1..])
  {
  }

  lemma FinishConserves(stream: seq<Byte>, size: nat, s: Session)
    requires Conserves(stream, size, s)
    ensures var got := Finish(s.r, size);
            && got.code != Error
            && Conserves(stream, size,
                         Session(if got.code == Ok then s.delivered + [got.line] else s.delivered, false, got.after))
  {
    PopTakesFirst(s.r, size);
    var got, lines := Finish(s.r, size), Ahead(s.r).lines;
    if got.code == Ok {
      StrippedFirst(lines);
      assert s.delivered + ([got.line] + Stripped(lines[1..])) == s.delivered + [got.line] + Stripped(lines[1..]);
    }
  }

  /**
    Content without a newline is the beginning of the next line, so it does not fill the
    buffer while more is to come.
   */
  lemma NeverFull(r: Receiver, size: nat)
    requires Short(Ahead(r), size) && LF !in r.content && r.wire != [] && size < CAPACITY - 1
    ensures |r.content| < CAPACITY
  {
    StartsWith(r.content, r.wire);
    if Ahead(r).lines == [] {
      JoinedOfSplit(r.content + r.wire);
    }
  }

  /** The first line, or else the rest, begins with the bytes that are already there. */
  lemma {:induction false} StartsWith(content: Line, more: seq<Byte>)
    requires LF !in content
    ensures var f := Split(content + more); if f.lines == [] then content <= f.rest else content <= f.lines[0]
    decreases |more|
  {
    if more == [] {
      assert content + more == content;
      RestIsOneLine(content);
    } else {
      var init := more[..|more| - 1];
      StartsWith(content, init);
      assert content + more == (content + init) + [more[|more| - 1]];
      SplitLast(content + init, more[|more| - 1]);
    }
  }

  /** Receiving moves bytes from the wire to the buffer and changes nothing that lies ahead. */
  lemma SameAhead(r: Receiver, n: nat)
    requires n <= |r.wire|
    ensures Ahead(Refilled(r, n)) == Ahead(r)
  {
    var r' := Refilled(r, n);
    assert r'.content + r'.wire == r.content + r.wire;
  }

  lemma CallConserves(stream: seq<Byte>, size: nat, s: Session, arriving: nat)
    requires Conserves(stream, size, s) && size < CAPACITY - 1
    ensures Conserves(stream, size, Call(s, size, arriving))
  {
    FinishConserves(stream, size, s);
    PopTakesFirst(s.r, size);
    if PopLine(s.r.content, size) == NoLine && arriving > 0 && s.r.wire != [] {
      NeverFull(s.r, size);
      SameAhead(s.r, Taken(s.r, arriving));
      FinishConserves(stream, size, s.(r := Refilled(s.r, Taken(s.r, arriving))));
    }
  }

  lemma {:induction false} RunConserves(stream: seq<Byte>, size: nat, arrivals: seq<nat>)
    requires Short(Split(stream), size) && size < CAPACITY - 1
    ensures Conserves(stream, size, Run(stream, size, arrivals))
    decreases |arrivals|
  {
    if arrivals == [] {
      assert [] + stream == stream;
      assert [] + Stripped(Split(stream).lines) == Stripped(Split(stream).lines);
    } else {
      RunConserves(stream, size, arrivals[..|arrivals| - 1]);
      CallConserves(stream, size, Run(stream, size, arrivals[..|arrivals| - 1]), arrivals[|arrivals| - 1]);
    }
  }

  /**
    However the bytes arrive, no call fails, and the delivered lines are the first lines of
    the stream without their carriage returns. Once nothing is left on the wire and a call
    finds no line, they are all of them.
   */
  lemma LinesArriveIntact(stream: seq<Byte>, size: nat, arrivals: seq<nat>)
    requires Short(Split(stream), size) && size < CAPACITY - 1
    ensures var s := Run(stream, size, arrivals);
            var lines := Stripped(Split(stream).lines);
            && !s.failed && s.delivered <= lines
            && (s.r.wire == [] && LF !in s.r.content ==> s.delivered == lines && s.r.content == Split(stream).rest)
  {
    RunConserves(stream, size, arrivals);
    var s := Run(stream, size, arrivals);
    if s.r.wire == [] && LF !in s.r.content {
      assert s.r.content + s.r.wire == s.r.content;
      RestIsOneLine(s.r.content);
    }
  }

  // ---------------------------------------------------------------- which streams fail

  ghost predicate AllBelow(lines: seq<Line>, size: nat)
  {
    forall i :: 0 <= i < |lines| ==> |lines[i]| < size
  }

  /** As long as no call failed, nothing is lost and only short lines were delivered. */
  ghost predicate Faithful(stream: seq<Byte>, size: nat, s: Session)
  {
    s.failed ||
    (&& Stripped(Split(stream).lines) == s.delivered + Stripped(Ahead(s.r).lines)
      && Split(stream).rest == Ahead(s.r).rest
     && AllBelow(s.delivered, size) && |s.r.content| <= CAPACITY)
  }

  lemma FinishIsFaithful(stream: seq<Byte>, size: nat, s: Session)
    requires Faithful(stream, size, s)
    ensures Faithful(stream, size, Finished(s, Finish(s.r, size)))
  {
    PopTakesFirst(s.r, size);
    var got, lines := Finish(s.r, size), Ahead(s.r).lines;
    if got.code == Ok && !s.failed {
      StrippedFirst(lines);
      assert s.delivered + ([got.line] + Stripped(lines[1..])) == s.delivered + [got.line] + Stripped(lines[1..]);
    }
  }

  lemma RefilledIsFaithful(stream: seq<Byte>, size: nat, s: Session, arriving: nat)
    requires Faithful(stream, size, s) && |s.r.content| < CAPACITY
    ensures Faithful(stream, size, s.(r := Refilled(s.r, Taken(s.r, arriving))))
  {
    SameAhead(s.r, Taken(s.r, arriving));
  }

  lemma CallIsFaithful(stream: seq<Byte>, size: nat, s: Session, arriving: nat)
    requires Faithful(stream, size, s)
    ensures Faithful(stream, size, Call(s, size, arriving))
  {
    if PopLine(s.r.content, size) != NoLine {
      FinishIsFaithful(stream, size, s);
    } else if arriving == 0 || s.r.wire == [] {
      assert Call(s, size, arriving) == s;
    } else if |s.r.content| >= CAPACITY {
      assert Call(s, size, arriving).failed;
    } else {
      var refilled := s.(r := Refilled(s.r, Taken(s.r, arriving)));
      RefilledIsFaithful(stream, size, s, arriving);
      FinishIsFaithful(stream, size, refilled);
      assert Call(s, size, arriving) == Finished(refilled, Finish(refilled.r, size));
    }
  }

  lemma {:induction false} RunIsFaithful(stream: seq<Byte>, size: nat, arrivals: seq<nat>)
    ensures Faithful(stream, size, Run(stream, size, arrivals))
    decreases |arrivals|
  {
    if arrivals == [] {
      assert [] + stream == stream;
      assert [] + Stripped(Split(stream).lines) == Stripped(Split(stream).lines);
    } else {
      RunIsFaithful(stream, size, arrivals[..|arrivals| - 1]);
      CallIsFaithful(stream, size, Run(stream, size, arrivals[..|arrivals| - 1]), arrivals[|arrivals| - 1]);
    }
  }

  /** Everything has been received, and no complete line is left in the buffer. */
  ghost predicate Drained(s: Session)
  {
    s.r.wire == [] && LF !in s.r.content
  }

  /**
    Exactly the streams with a line that is too long, or an unfinished one that is longer
    than the receive buffer, make a call fail, however their bytes arrive.
   */
  lemma FailsIffNotShort(stream: seq<Byte>, size: nat, arrivals: seq<nat>)
    requires size < CAPACITY - 1 && Drained(Run(stream, size, arrivals))
    ensures Run(stream, size, arrivals).failed <==> !Short(Split(stream), size)
  {
    var s := Run(stream, size, arrivals);
    if Short(Split(stream), size) {
      RunConserves(stream, size, arrivals);
    }
    RunIsFaithful(stream, size, arrivals);
    if !s.failed {
      assert s.r.content + s.r.wire == s.r.content;
      RestIsOneLine(s.r.content);
      assert s.delivered + [] == s.delivered;
      forall i | 0 <= i < |Split(stream).lines| ensures |StripCr(Split(stream).lines[i])| < size {
        assert Stripped(Split(stream).lines)[i] == s.delivered[i];
      }
    }
  }

  /** Calls at which bytes arrive drain every stream: each one makes what is left smaller. */
  lemma CallMakesProgress(s: Session, size: nat, arriving: nat)
    requires arriving > 0 && !Drained(s)
    ensures var s' := Call(s, size, arriving); 2 * |s'.r.wire| + |s'.r.content| < 2 * |s.r.wire| + |s.r.content|
  {
    PopTakesFirst(s.r, size);
    if PopLine(s.r.content, size) == NoLine && s.r.wire != [] && |s.r.content| < CAPACITY {
      PopTakesFirst(Refilled(s.r, Taken(s.r, arriving)), size);
    }
  }
}

/** `socket_client.c`: the static buffer, scanned and shifted in place. */
module LineBuffer {
  import opened Values
  import opened Framing
  import opened LineBufferModel

  class SocketClient {
    const recvBuffer: array<Byte>
    var recvLen: nat
    var wire: seq<Byte>

    ghost predicate Valid()
      reads this
    {
      recvBuffer.Length == CAPACITY && recvLen <= CAPACITY
    }

    ghost function Value(): Receiver
      requires Valid()
      reads this, recvBuffer
    {
      Receiver(recvBuffer[..recvLen], wire)
    }

    constructor (stream: seq<Byte>)
      ensures Valid() && fresh(recvBuffer) && Value() == Receiver([], stream)
    {
      recvBuffer := new Byte[CAPACITY];
      recvLen := 0;
      wire := stream;
    }

    /** Looks for the first newline. */
    method FindNewline() returns (i: nat)
      requires Valid()
      ensures i == FirstLf(recvBuffer[..recvLen])
    {
      i := 0;
      while i < recvLen
        invariant i <= recvLen && FirstFrom(recvBuffer[..recvLen], i) == FirstLf(recvBuffer[..recvLen])
      {
        if recvBuffer[i] == LF {
          return;
        }
        i := i + 1;
      }
    }

    /** `memmove`: drops the first `count` bytes. */
    method Shift(count: nat)
      requires Valid() && count <= recvLen
      modifies this`recvLen, recvBuffer
      ensures Valid() && recvBuffer[..recvLen] == old(recvBuffer[..recvLen])[count..]
    {
      forall k | 0 <= k < recvLen - count {
        recvBuffer[k] := recvBuffer[count + k];
      }
      recvLen := recvLen - count;
    }

    /** `memcpy`: copies the first bytes and ends them with a zero. */
    method CopyLine(line: array<Byte>, lineLen: nat)
      requires Valid() && line != recvBuffer && lineLen < line.Length && lineLen <= recvLen
      modifies line
      ensures line[..lineLen] == recvBuffer[..lineLen] && line[lineLen] == 0
    {
      forall k | 0 <= k < lineLen {
        line[k] := recvBuffer[k];
      }
      line[lineLen] := 0;
    }

    method TryPopLine(line: array<Byte>) returns (code: Code, ghost text: Line)
      requires Valid() && line != recvBuffer
      modifies this`recvLen, recvBuffer, line
      ensures Valid() && Received(code, text, Value()) == Finish(old(Value()), line.Length)
      ensures code == Ok ==> |text| < line.Length && line[..|text|] == text && line[|text|] == 0
    {
      ghost var content := recvBuffer[..recvLen];
      var i := FindNewline();
      if i == recvLen {
        return Timeout, [];
      }
      var lineLen := i;
      if lineLen > 0 && recvBuffer[lineLen - 1] == CR {
        lineLen := lineLen - 1;
      }
      text := recvBuffer[..lineLen];
      assert text == StripCr(content[..i]);
      if lineLen >= line.Length {
        recvLen := 0;
        return Error, [];
      }
      CopyLine(line, lineLen);
      Shift(i + 1);
      return Ok, text;
    }

    /** Receives once and looks again. */
    method ReceiveMore(line: array<Byte>, arriving: nat) returns (code: Code, ghost text: Line)
      requires Valid() && line != recvBuffer && arriving > 0 && wire != [] && recvLen < CAPACITY
      modifies this, recvBuffer, line
      ensures Valid()
      ensures Received(code, text, Value()) ==
              Finish(Refilled(old(Value()), Taken(old(Value()), arriving)), line.Length)
      ensures code == Ok ==> |text| < line.Length && line[..|text|] == text && line[|text|] == 0
    {
      var n := Min(Min(arriving, |wire|), CAPACITY - recvLen);
      Refill(n);
      code, text := TryPopLine(line);
    }

    method SocketReceiveLine(line: array<Byte>, arriving: nat) returns (code: Code, ghost text: Line)
      requires Valid() && line != recvBuffer
      modifies this, recvBuffer, line
      ensures Valid() && Received(code, text, Value()) == ReceiveLine(old(Value()), line.Length, arriving)
      ensures code == Ok ==> |text| < line.Length && line[..|text|] == text && line[|text|] == 0
    {
      ghost var before := Value();
      code, text := TryPopLine(line);
      assert code == Timeout <==> PopLine(before.content, line.Length) == NoLine;
      if code != Timeout || arriving == 0 || wire == [] {
        return;
      }
      assert Value() == before;
      if recvLen >= CAPACITY {
        recvLen := 0;
        return Error, [];
      }
      code, text := ReceiveMore(line, arriving);
    }

    /** `recv`: the next `n` bytes of the stream land behind the buffered ones. */
    method Refill(n: nat)
      requires Valid() && n <= |wire| && n <= CAPACITY - recvLen
      modifies this, recvBuffer
      ensures Valid() && Value() == Receiver(old(recvBuffer[..recvLen]) + old(wire)[..n], old(wire)[n..])
    {
      forall k | 0 <= k < n {
        recvBuffer[recvLen + k] := wire[k];
      }
      recvLen := recvLen + n;
      wire := wire[n..];
    }
  }
}

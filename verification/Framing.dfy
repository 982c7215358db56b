/** Newline framing: what a byte stream means, apart from how it is received. */
module Framing {
  import opened Values

  const LF: Byte := 10
  const CR: Byte := 13

  type Line = seq<Byte>

  /** The complete lines of a stream, and the unfinished rest. */
  datatype Frames = Frames(lines: seq<Line>, rest: Line)

  /** One more byte ends a line or lengthens the rest. */
  function Feed(f: Frames, b: Byte): Frames
  {
    if b == LF then Frames(f.lines + [f.rest], []) else Frames(f.lines, f.rest + [b])
  }

  function Split(stream: seq<Byte>): Frames
    decreases |stream|
  {
    if stream == [] then Frames([], [])
    else Feed(Split(stream[..|stream| - 1]), stream[|stream| - 1])
  }

  /** The stream that consists of these lines and this rest. */
  function Joined(lines: seq<Line>, rest: Line): seq<Byte>
    decreases |lines|
  {
    if lines == [] then rest else lines[0] + [LF] + Joined(lines[1..], rest)
  }

  ghost predicate Framed(f: Frames)
  {
    LF !in f.rest && forall i :: 0 <= i < |f.lines| ==> LF !in f.lines[i]
  }

  lemma SplitLast(stream: seq<Byte>, b: Byte)
    ensures Split(stream + [b]) == Feed(Split(stream), b)
  {
    assert (stream + [b])[..|stream|] == stream;
  }

  /** The frames `more` follow the lines `first`. */
  function Behind(first: seq<Line>, more: Frames): Frames
  {
    Frames(first + more.lines, more.rest)
  }

  /** Receiving more bytes continues where the rest stopped. */
  lemma {:induction false} SplitAppend(a: seq<Byte>, b: seq<Byte>)
    ensures Split(a + b) == Behind(Split(a).lines, Split(Split(a).rest + b))
    decreases |b|
  {
    var rest := Split(a).rest;
    if b == [] {
      SplitIsFramed(a);
      RestIsOneLine(rest);
      assert a + b == a && rest + b == rest && Split(a).lines + [] == Split(a).lines;
    } else {
      var init, last := b[..|b| - 1], b[|b| - 1];
      SplitAppend(a, init);
      assert a + b == (a + init) + [last] && rest + b == (rest + init) + [last];
      SplitLast(a + init, last);
      SplitLast(rest + init, last);
    }
  }

  lemma {:induction false} SplitIsFramed(stream: seq<Byte>)
    ensures Framed(Split(stream))
    decreases |stream|
  {
    if stream != [] {
      SplitIsFramed(stream[..|stream| - 1]);
    }
  }

  lemma {:induction false} RestIsOneLine(rest: Line)
    requires LF !in rest
    ensures Split(rest) == Frames([], rest)
    decreases |rest|
  {
    if rest != [] {
      var init, last := rest[..|rest| - 1], rest[|rest| - 1];
      assert rest == init + [last];
      RestIsOneLine(init);
      SplitLast(init, last);
    }
  }

  /** A line and its newline in front are split off as one line. */
  lemma SplitFront(line: Line, tail: seq<Byte>)
    requires LF !in line
    ensures Split(line + [LF] + tail) == Behind([line], Split(tail))
  {
    RestIsOneLine(line);
    SplitLast(line, LF);
    assert Split(line + [LF]) == Frames([line], []);
    SplitAppend(line + [LF], tail);
    assert [] + tail == tail;
  }

  /** Splitting undoes joining: frames without newlines are recovered exactly. */
  lemma {:induction false} SplitOfJoined(lines: seq<Line>, rest: Line)
    requires Framed(Frames(lines, rest))
    ensures Split(Joined(lines, rest)) == Frames(lines, rest)
    decreases |lines|
  {
    if lines == [] {
      RestIsOneLine(rest);
    } else {
      SplitOfJoined(lines[1..], rest);
      SplitFront(lines[0], Joined(lines[1..], rest));
    }
  }

  lemma {:induction false} JoinedAppend(lines: seq<Line>, line: Line, rest: Line)
    ensures Joined(lines + [line], rest) == Joined(lines, line + [LF] + rest)
    decreases |lines|
  {
    if lines == [] {
      assert (lines + [line])[1..] == [];
    } else {
      assert (lines + [line])[1..] == lines[1..] + [line];
      JoinedAppend(lines[1..], line, rest);
    }
  }

  lemma {:induction false} JoinedExtends(lines: seq<Line>, rest: Line, b: Byte)
    ensures Joined(lines, rest + [b]) == Joined(lines, rest) + [b]
    decreases |lines|
  {
    if lines != [] {
      JoinedExtends(lines[1..], rest, b);
    }
  }

  lemma JoinedFeed(f: Frames, b: Byte)
    ensures Joined(Feed(f, b).lines, Feed(f, b).rest) == Joined(f.lines, f.rest) + [b]
  {
    JoinedExtends(f.lines, f.rest, b);
    if b == LF {
      JoinedAppend(f.lines, f.rest, []);
      assert f.rest + [LF] + [] == f.rest + [b];
    }
  }

  /** Joining undoes splitting: no byte is lost. */
  lemma {:induction false} JoinedOfSplit(stream: seq<Byte>)
    ensures Joined(Split(stream).lines, Split(stream).rest) == stream
    decreases |stream|
  {
    if stream != [] {
      var init, b := stream[..|stream| - 1], stream[|stream| - 1];
      assert stream == init + [b];
      JoinedOfSplit(init);
      SplitLast(init, b);
      JoinedFeed(Split(init), b);
    }
  }
}

/** The receive loops of the broker and of the IDA client. */
module PythonFraming {
  import opened Values
  import opened Framing

  /** The bytes that `bytes.strip` removes. */
  predicate IsSpace(b: Byte)
  {
    b == 32 || 9 <= b <= 13
  }

  predicate Blank(line: Line)
  {
    forall i :: 0 <= i < |line| ==> IsSpace(line[i])
  }

  /** Lines of white space are skipped. */
  function NonBlank(lines: seq<Line>): seq<Line>
  {
    if lines == [] then []
    else NonBlank(lines[..|lines| - 1]) + (if Blank(lines[|lines| - 1]) then [] else [lines[|lines| - 1]])
  }

  lemma {:induction false} NonBlankConcat(a: seq<Line>, b: seq<Line>)
    ensures NonBlank(a + b) == NonBlank(a) + NonBlank(b)
    decreases |b|
  {
    if b == [] {
      assert a + b == a;
    } else {
      var init := b[..|b| - 1];
      NonBlankConcat(a, init);
      assert (a + b)[..|a + b| - 1] == a + init;
    }
  }

  function Concat(chunks: seq<seq<Byte>>): seq<Byte>
  {
    if chunks == [] then [] else Concat(chunks[..|chunks| - 1]) + chunks[|chunks| - 1]
  }

  method FirstNewline(buffer: seq<Byte>) returns (found: bool, at: nat)
    ensures found <==> LF in buffer
    ensures found ==> at < |buffer| && buffer[at] == LF && LF !in buffer[..at]
  {
    at := 0;
    while at < |buffer|
      invariant at <= |buffer| && LF !in buffer[..at]
    {
      if buffer[at] == LF {
        return true, at;
      }
      assert buffer[..at + 1] == buffer[..at] + [buffer[at]];
      at := at + 1;
    }
    assert buffer[..at] == buffer;
    return false, 0;
  }

  lemma NonBlankStep(taken: seq<Line>, line: Line)
    ensures NonBlank(taken + [line]) == NonBlank(taken) + (if Blank(line) then [] else [line])
  {
    assert (taken + [line])[..|taken|] == taken;
  }

  lemma CutAt(rest: seq<Byte>, at: nat)
    requires at < |rest|
    ensures rest == rest[..at] + [rest[at]] + rest[at + 1..]
  {
  }

  lemma BehindTwice(taken: seq<Line>, line: Line, f: Frames)
    ensures Behind(taken, Behind([line], f)) == Behind(taken + [line], f)
  {
    assert taken + ([line] + f.lines) == (taken + [line]) + f.lines;
  }

  /** Taking the first line out of the rest. */
  lemma TakeFirst(whole: Frames, taken: seq<Line>, rest: seq<Byte>, line: Line, tail: seq<Byte>)
    requires whole == Behind(taken, Split(rest)) && rest == line + [LF] + tail && LF !in line
    ensures whole == Behind(taken + [line], Split(tail))
  {
    SplitFront(line, tail);
    BehindTwice(taken, line, Split(tail));
  }

  lemma NothingMore(whole: Frames, taken: seq<Line>, rest: seq<Byte>)
    requires whole == Behind(taken, Split(rest)) && LF !in rest
    ensures whole == Frames(taken, rest)
  {
    RestIsOneLine(rest);
    assert taken + [] == taken;
  }

  /** `_drain_receive_buffer`: takes every complete line out of the buffer and hands on those that are not blank. */
  method Drain(buffer: seq<Byte>) returns (lines: seq<Line>, rest: seq<Byte>)
    ensures lines == NonBlank(Split(buffer).lines) && rest == Split(buffer).rest
  {
    lines, rest := [], buffer;
    ghost var whole, taken: seq<Line> := Split(buffer), [];
    assert [] + whole.lines == whole.lines;
    var found: bool, at: nat;
    found, at := FirstNewline(rest);
    while found
      invariant found <==> LF in rest
      invariant found ==> at < |rest| && rest[at] == LF && LF !in rest[..at]
      invariant lines == NonBlank(taken)
      invariant whole == Split(buffer) == Behind(taken, Split(rest))
      decreases |rest|
    {
      var line, tail := rest[..at], rest[at + 1..];
      CutAt(rest, at);
      TakeFirst(whole, taken, rest, line, tail);
      NonBlankStep(taken, line);
      taken := taken + [line];
      if !Blank(line) {
        lines := lines + [line];
      }
      rest := tail;
      found, at := FirstNewline(rest);
    }
    NothingMore(whole, taken, rest);
  }

  /** The state of one connection's reader. */
  class Reader {
    var buffer: seq<Byte>
    var delivered: seq<Line>
    ghost var received: seq<Byte>

    /** Everything received so far is accounted for. */
    ghost predicate Valid()
      reads this
    {
      delivered == NonBlank(Split(received).lines) && buffer == Split(received).rest
    }

    constructor ()
      ensures Valid() && received == []
    {
      buffer, delivered, received := [], [], [];
    }

    method Receive(chunk: seq<Byte>)
      requires Valid()
      modifies this
      ensures Valid() && received == old(received) + chunk
    {
      SplitAppend(received, chunk);
      NonBlankConcat(Split(received).lines, Split(buffer + chunk).lines);
      buffer := buffer + chunk;
      var lines, rest := Drain(buffer);
      delivered := delivered + lines;
      buffer := rest;
      received := received + chunk;
    }
  }

  /** However the stream is cut into chunks, the loop delivers the lines of the whole stream. */
  method ReceiveAll(chunks: seq<seq<Byte>>) returns (delivered: seq<Line>, rest: seq<Byte>)
    ensures delivered == NonBlank(Split(Concat(chunks)).lines) && rest == Split(Concat(chunks)).rest
  {
    var reader := new Reader();
    for i := 0 to |chunks|
      invariant reader.Valid() && reader.received == Concat(chunks[..i])
    {
      assert chunks[..i + 1][..i] == chunks[..i];
      reader.Receive(chunks[i]);
    }
    assert chunks[..|chunks|] == chunks;
    return reader.delivered, reader.buffer;
  }
}

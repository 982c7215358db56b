/**
  The lines in which IDA writes its requests, and what the extension's searches find in
  them. A line is a list of entries; the searches pass over entries whose key and value
  cannot be mistaken for the field they look for.
 */
module RequestLines {
  import opened Basics
  import opened Values
  import opened JsonText
  import opened RequestFields

  datatype Value = Number(n: nat) | Text(s: string) | Names(names: seq<string>) | Nested

  /** A key, its value, and what follows: a comma, closing braces, or nothing behind an opening brace. */
  datatype Entry = Entry(key: string, value: Value, delim: string)

  function MoreNames(names: seq<string>): string
  {
    if names == [] then "" else "," + (Word(names[0]) + MoreNames(names[1..]))
  }

  function ValueJson(v: Value): string
  {
    match v
    case Number(n) => Dec(n)
    case Text(s) => Word(Dump(s))
    case Names(names) => if names == [] then "[]" else "[" + (Word(names[0]) + (MoreNames(names[1..]) + "]"))
    case Nested => "{"
  }

  function Render(es: seq<Entry>): string
  {
    if es == [] then "" else Word(es[0].key) + (":" + (ValueJson(es[0].value) + (es[0].delim + Render(es[1..]))))
  }

  function Line(es: seq<Entry>): string
  {
    "{" + Render(es)
  }

  // ---------------------------------------------------------------- passing over text

  predicate IsFieldName(field: string)
  {
    field != "" && 'a' <= field[0] <= 'z' && QUOTE !in field
  }

  lemma {:induction false} SkipText(piece: string, rest: string, pattern: string)
    requires pattern != "" && pattern[0] == QUOTE && QUOTE !in piece
    ensures After(piece + rest, pattern) == After(rest, pattern)
    decreases |piece|
  {
    if piece == "" {
      assert piece + rest == rest;
    } else {
      var s := piece + rest;
      assert s[0] != pattern[0] && s[1..] == piece[1..] + rest;
      SkipText(piece[1..], rest, pattern);
    }
  }

  lemma WordIsCut(w: string, rest: string)
    requires QUOTE !in w
    ensures (Word(w) + rest)[1..] == w + ([QUOTE] + rest) && UntilQuote((Word(w) + rest)[1..]) == w
  {
    var t := w + ([QUOTE] + rest);
    assert (Word(w) + rest)[1..] == t;
    assert t[0..] == t && t[0..|w|] == w;
    UntilQuoteIs(t, 0, |w|);
  }

  /** A quoted word is the quoted field only if it is the same word. */
  lemma SameWord(w: string, rest: string, field: string)
    requires QUOTE !in w && QUOTE !in field && Word(field) <= Word(w) + rest
    ensures w == field
  {
    var s := Word(w) + rest;
    WordIsCut(w, rest);
    assert s == Word(field) + s[|Word(field)|..];
    WordIsCut(field, s[|Word(field)|..]);
  }

  lemma SkipWord(w: string, rest: string, field: string)
    requires IsFieldName(field) && QUOTE !in w && w != field && rest != "" && !('a' <= rest[0] <= 'z')
    ensures After(Word(w) + rest, Word(field)) == After(rest, Word(field))
  {
    var p := Word(field);
    var s := Word(w) + rest;
    assert !(p <= s) by {
      if p <= s {
        SameWord(w, rest, field);
      }
    }
    assert s[1..] == w + ([QUOTE] + rest);
    SkipText(w, [QUOTE] + rest, p);
    var t := [QUOTE] + rest;
    assert t[1] == rest[0] && p[1] == field[0];
    assert t[1..] == rest;
  }

  lemma FoundWord(field: string, rest: string)
    ensures After(Word(field) + rest, Word(field)) == Some(rest)
  {
    assert (Word(field) + rest)[|Word(field)|..] == rest;
  }

  /** The entry cannot be mistaken for the field. */
  predicate Skippable(e: Entry, field: string)
  {
    && QUOTE !in e.key && e.key != field && QUOTE !in e.delim
    && match e.value
       case Number(_) => true
       case Text(s) => QUOTE !in Dump(s) && Dump(s) != field && e.delim != "" && !('a' <= e.delim[0] <= 'z')
       case Names(_) => false
       case Nested => true
  }

  lemma {:induction false} DigitsHaveNoQuote(n: nat)
    ensures QUOTE !in Dec(n)
  {
    if n >= 10 {
      DigitsHaveNoQuote(n / 10);
    }
  }

  lemma SkipValue(e: Entry, rest: string, field: string)
    requires IsFieldName(field) && Skippable(e, field)
    ensures After(ValueJson(e.value) + (e.delim + rest), Word(field)) == After(rest, Word(field))
  {
    var p := Word(field);
    match e.value {
      case Number(n) =>
        DigitsHaveNoQuote(n);
        SkipText(Dec(n), e.delim + rest, p);
      case Text(s) => SkipWord(Dump(s), e.delim + rest, field);
      case _ => SkipText("{", e.delim + rest, p);
    }
    SkipText(e.delim, rest, p);
  }

  lemma SkipEntry(es: seq<Entry>, field: string)
    requires IsFieldName(field) && es != [] && Skippable(es[0], field)
    ensures After(Render(es), Word(field)) == After(Render(es[1..]), Word(field))
  {
    var value := ValueJson(es[0].value) + (es[0].delim + Render(es[1..]));
    SkipWord(es[0].key, ":" + value, field);
    SkipText(":", value, Word(field));
    SkipValue(es[0], Render(es[1..]), field);
  }

  function Behind(es: seq<Entry>, k: nat): string
    requires k < |es|
  {
    ValueJson(es[k].value) + (es[k].delim + Render(es[k + 1..]))
  }

  lemma BehindShifted(es: seq<Entry>, rest: seq<Entry>, k: nat)
    requires 0 < k < |es| && rest == es[1..]
    ensures Behind(rest, k - 1) == Behind(es, k)
  {
    assert rest[k..] == es[k + 1..];
  }

  /** The search stops at the first entry with this key, when no earlier one can be mistaken for it. */
  lemma {:induction false} EntryIsFound(es: seq<Entry>, k: nat, field: string)
    requires IsFieldName(field) && k < |es| && es[k].key == field && forall j :: 0 <= j < k ==> Skippable(es[j], field)
    ensures After(Render(es), Word(field)) == Some(":" + Behind(es, k))
    decreases k
  {
    if k == 0 {
      FoundWord(field, ":" + Behind(es, 0));
    } else {
      var rest := es[1..];
      SkipEntry(es, field);
      assert forall j :: 0 <= j < k - 1 ==> rest[j] == es[j + 1];
      EntryIsFound(rest, k - 1, field);
      BehindShifted(es, rest, k);
    }
  }

  lemma NoSpaces(t: string)
    requires t != "" && !IsSpace(t[0])
    ensures SkipSpaces(t) == t
  {
  }

  lemma ValueIsFound(es: seq<Entry>, k: nat, field: string)
    requires IsFieldName(field) && k < |es| && es[k].key == field && forall j :: 0 <= j < k ==> Skippable(es[j], field)
    ensures ValueText(Line(es), field) == Some(SkipSpaces(Behind(es, k)))
  {
    LineAfter(es, k, field);
    var t := ":" + Behind(es, k);
    assert t[0] == ':' && t[1..] == Behind(es, k);
  }

  // ---------------------------------------------------------------- what is found

  lemma {:induction false} UntilQuoteStops(t: string, rest: string)
    requires QUOTE in t
    ensures UntilQuote(t + rest) == UntilQuote(t) && |UntilQuote(t)| < |t|
    decreases |t|
  {
    if t[0] != QUOTE {
      assert t == [t[0]] + t[1..];
      assert (t + rest)[1..] == t[1..] + rest;
      UntilQuoteStops(t[1..], rest);
    }
  }

  lemma WordText(d: string, rest: string)
    ensures var t := Word(d) + rest;
            |t| == |d| + 2 + |rest| && t[0] == QUOTE && t[1..] == (d + [QUOTE]) + rest && SkipSpaces(t) == t
  {
  }

  /** What is cut out of a text value is the echo of the text. */
  lemma TextIsEchoed(s: string, rest: string, size: nat)
    ensures CutString(Word(Dump(s)) + rest, size) == if |Echo(s)| < size then Some(Echo(s)) else None
  {
    var d := Dump(s);
    WordText(d, rest);
    assert (d + [QUOTE])[|d|] == QUOTE;
    UntilQuoteStops(d + [QUOTE], rest);
  }

  /** `StringField` on a line: the echo of the text, if it fits the buffer. */
  lemma TextFieldIs(es: seq<Entry>, k: nat, field: string, size: nat)
    requires IsFieldName(field) && k < |es| && es[k].key == field && forall j :: 0 <= j < k ==> Skippable(es[j], field)
    requires es[k].value.Text?
    ensures StringField(Line(es), field, size) == if |Echo(es[k].value.s)| < size then Some(Echo(es[k].value.s))
            else None
  {
    ValueIsFound(es, k, field);
    WordText(Dump(es[k].value.s), es[k].delim + Render(es[k + 1..]));
    TextIsEchoed(es[k].value.s, es[k].delim + Render(es[k + 1..]), size);
  }

  lemma {:induction false} DigitsAreRead(d: string, rest: string)
    requires (forall i :: 0 <= i < |d| ==> IsDigit(d[i])) && (rest == "" || !IsDigit(rest[0]))
    ensures LeadingDigits(d + rest) == d
    decreases |d|
  {
    if d == "" {
      assert d + rest == rest;
    } else {
      assert (d + rest)[1..] == d[1..] + rest;
      DigitsAreRead(d[1..], rest);
    }
  }

  lemma {:induction false} DecimalIsDigits(n: nat)
    ensures Dec(n) != "" && forall i :: 0 <= i < |Dec(n)| ==> IsDigit(Dec(n)[i])
  {
    if n >= 10 {
      DecimalIsDigits(n / 10);
    }
  }

  lemma NumberIsRead(n: nat, rest: string)
    requires n < WORD && (rest == "" || !IsDigit(rest[0]))
    ensures LeadingNumber(Dec(n) + rest) == Some(n) && SkipSpaces(Dec(n) + rest) == Dec(n) + rest
  {
    DecimalIsDigits(n);
    DigitsAreRead(Dec(n), rest);
    DigitsRoundTrip(n, 10);
    NoSpaces(Dec(n) + rest);
    UnsignedIsRead(Dec(n) + rest, Dec(n));
  }

  lemma UnsignedIsRead(t: string, d: string)
    requires t != "" && IsDigit(t[0]) && d != "" && LeadingDigits(t) == d && DigitsValue(d, 10) < WORD
    ensures LeadingNumber(t) == Some(DigitsValue(d, 10))
  {
    assert Unsigned(t) == t && !("-" <= t);
  }

  lemma NumberFieldIs(es: seq<Entry>, k: nat, field: string)
    requires IsFieldName(field) && k < |es| && es[k].key == field && forall j :: 0 <= j < k ==> Skippable(es[j], field)
    requires es[k].value.Number? && es[k].value.n < WORD && es[k].delim != "" && !IsDigit(es[k].delim[0])
    ensures NumberField(Line(es), field) == Some(es[k].value.n)
  {
    ValueIsFound(es, k, field);
    NumberIsRead(es[k].value.n, es[k].delim + Render(es[k + 1..]));
  }

  // ---------------------------------------------------------------- the register list

  ghost predicate AllNames(names: seq<string>)
  {
    forall i :: 0 <= i < |names| ==> IsName(names[i])
  }

  /** A name the list may hold: short, lower case, free of quotation marks. */
  predicate IsName(name: string)
  {
    0 < |name| < NAME_SIZE && QUOTE !in name && forall i :: 0 <= i < |name| ==> LowerChar(name[i]) == name[i]
  }

  lemma NameIsCut(name: string, rest: string, count: nat)
    requires IsName(name) && count < MAX_REGISTERS
    ensures CutName(Word(name) + rest, count) == Name(name, rest)
  {
    WordIsCut(name, rest);
    assert (Word(name) + rest)[|name| + 2..] == rest;
  }

  /** A name is read where it stands, or behind a comma. */
  lemma NameIsNext(name: string, rest: string, count: nat)
    requires IsName(name) && count < MAX_REGISTERS
    ensures NextName(Word(name) + rest, count) == Name(name, rest)
    ensures NextName("," + (Word(name) + rest), count) == Name(name, rest)
  {
    var u := Word(name) + rest;
    NameIsCut(name, rest, count);
    assert u[0] == QUOTE && SkipToName(u) == u;
    assert ("," + u)[1..] == u && SkipToName("," + u) == u;
  }

  lemma MoreNamesText(names: seq<string>, rest: string)
    requires names != []
    ensures MoreNames(names) + ("]" + rest) == "," + (Word(names[0]) + (MoreNames(names[1..]) + ("]" + rest)))
  {
  }

  lemma ReadNext(name: string, rest: string, got: seq<string>)
    requires IsName(name) && |got| < MAX_REGISTERS
    ensures NameList("," + (Word(name) + rest), got) == NameList(rest, got + [name])
    ensures NameList(Word(name) + rest, got) == NameList(rest, got + [name])
  {
    NameIsNext(name, rest, |got|);
    assert LowerAscii(name) == name;
  }

  lemma EndOfList(rest: string, got: seq<string>)
    requires got != []
    ensures NameList(MoreNames([]) + ("]" + rest), got) == Some(got)
  {
    var t := MoreNames([]) + ("]" + rest);
    assert t == "]" + rest && t[0] == ']';
  }

  /** One more name of the list is read. */
  lemma ReadOneMore(names: seq<string>, k: nat, rest: string)
    requires AllNames(names) && 0 < k < |names| <= MAX_REGISTERS
    ensures NameList(MoreNames(names[k..]) + ("]" + rest), names[..k]) ==
            NameList(MoreNames(names[k + 1..]) + ("]" + rest), names[..k + 1])
  {
    assert names[k..][0] == names[k] && names[k..][1..] == names[k + 1..] && names[..k] + [names[k]] == names[..k + 1];
    MoreNamesText(names[k..], rest);
    ReadNext(names[k], MoreNames(names[k + 1..]) + ("]" + rest), names[..k]);
  }

  lemma {:induction false} MoreNamesAreRead(names: seq<string>, k: nat, rest: string)
    requires AllNames(names) && 0 < k <= |names| <= MAX_REGISTERS
    ensures NameList(MoreNames(names[k..]) + ("]" + rest), names[..k]) == Some(names)
    decreases |names| - k
  {
    if k == |names| {
      assert names[k..] == [] && names[..k] == names;
      EndOfList(rest, names);
    } else {
      ReadOneMore(names, k, rest);
      MoreNamesAreRead(names, k + 1, rest);
    }
  }

  lemma NamesAreRead(names: seq<string>, rest: string)
    requires AllNames(names) && 0 < |names| <= MAX_REGISTERS
    ensures NameList(Word(names[0]) + (MoreNames(names[1..]) + ("]" + rest)), []) == Some(names)
  {
    ReadNext(names[0], MoreNames(names[1..]) + ("]" + rest), []);
    assert [] + [names[0]] == names[..1];
    MoreNamesAreRead(names, 1, rest);
  }

  lemma BracketIsFound(body: string)
    ensures Past(Word("registers") + (":" + ("[" + body)), '[') == Some(body)
  {
    var before := Word("registers") + ":";
    assert '[' !in before;
    PastIsNext(before, '[', body);
    assert Word("registers") + (":" + ("[" + body)) == before + ['['] + body;
  }

  /** The text of a list, up to its closing bracket. */
  lemma ListText(names: seq<string>, rest: string)
    requires names != []
    ensures ValueJson(Names(names)) + rest == "[" + (Word(names[0]) + (MoreNames(names[1..]) + ("]" + rest)))
  {
  }

  lemma ListIsRead(json: string, names: seq<string>, rest: string)
    requires names != [] && AllNames(names) && |names| <= MAX_REGISTERS
    requires After(json, Word("registers")) == Some(":" + (ValueJson(Names(names)) + rest))
    ensures RegisterList(json) == Some(names)
  {
    ListText(names, rest);
    BracketIsFound(Word(names[0]) + (MoreNames(names[1..]) + ("]" + rest)));
    NamesAreRead(names, rest);
  }

  lemma NamesFieldIs(es: seq<Entry>, k: nat)
    requires k < |es| && es[k].key == "registers" && forall j :: 0 <= j < k ==> Skippable(es[j], "registers")
    requires es[k].value.Names? && es[k].value.names != [] && |es[k].value.names| <= MAX_REGISTERS
    requires AllNames(es[k].value.names)
    ensures RegisterList(Line(es)) == Some(es[k].value.names)
  {
    LineAfter(es, k, "registers");
    ListIsRead(Line(es), es[k].value.names, es[k].delim + Render(es[k + 1..]));
  }

  lemma LineAfter(es: seq<Entry>, k: nat, field: string)
    requires IsFieldName(field) && k < |es| && es[k].key == field && forall j :: 0 <= j < k ==> Skippable(es[j], field)
    ensures After(Line(es), Word(field)) == Some(":" + Behind(es, k))
  {
    SkipText("{", Render(es), Word(field));
    EntryIsFound(es, k, field);
  }

  // ---------------------------------------------------------------- the requests

  /** The entries that all requests begin with. */
  function Envelope(kind: string, messageId: nat, pcSeq: nat): seq<Entry>
  {
    [Entry("protocol", Number(1), ","), Entry("id", Number(messageId), ","), Entry("type", Text(kind), ","),
     Entry("role", Text("ida"), ","), Entry("payload", Nested, ""), Entry("pc_seq", Number(pcSeq), ",")]
  }

  function RegEntries(messageId: nat, pcSeq: nat, id: string, runtimePc: string, names: seq<string>,
                      reason: string): seq<Entry>
  {
    Envelope("reg_request", messageId, pcSeq)
    + [Entry("request_id", Text(id), ","), Entry("runtime_pc", Text(runtimePc), ","),
       Entry("registers", Names(names), ","),
       Entry("reason", Text(reason), "}}")]
  }

  /** `more` stands for the reason and the variable, which the extension does not read. */
  function MemEntries(messageId: nat, pcSeq: nat, id: string, runtimePc: string, address: string, size: nat,
                      more: seq<Entry>): seq<Entry>
  {
    Envelope("mem_request", messageId, pcSeq)
    + [Entry("request_id", Text(id), ","), Entry("runtime_pc", Text(runtimePc), ","),
       Entry("address", Text(address), ","), Entry("size", Number(size), ",")]
    + more
  }

  lemma {:induction false} DumpPlain(s: string)
    requires AllPlain(s)
    ensures Dump(s) == s && QUOTE !in Dump(s)
    decreases |s|
  {
    if s != "" {
      assert s == [s[0]] + s[1..];
      PlainHead(s[0], s[1..]);
      DumpPlain(s[1..]);
    }
  }

  lemma PlainTextSkippable(key: string, s: string, field: string)
    requires AllPlain(s) && s != field && key != field && QUOTE !in key
    ensures Skippable(Entry(key, Text(s), ","), field)
  {
    DumpPlain(s);
  }

  /** No name of the envelope is the name of a payload field. */
  lemma KeysDiffer(key: string, field: string)
    requires key in {"protocol", "id", "type", "role", "payload", "pc_seq", "ida", "reg_request", "mem_request"}
    requires field in {"request_id", "runtime_pc", "registers", "address", "size"}
    ensures key != field && QUOTE !in key && IsFieldName(field)
  {
  }

  lemma KindIsPlain(kind: string)
    requires kind in {"reg_request", "mem_request", "ida"}
    ensures AllPlain(kind) && |kind| < 64
  {
  }

  /** The searches for payload fields pass over the envelope. */
  lemma EnvelopeSkippable(kind: string, messageId: nat, pcSeq: nat, field: string, j: nat)
    requires j < 6 && kind in {"reg_request", "mem_request"}
    requires field in {"request_id", "runtime_pc", "registers", "address", "size"}
    ensures Skippable(Envelope(kind, messageId, pcSeq)[j], field)
  {
    var e := Envelope(kind, messageId, pcSeq)[j];
    KeysDiffer(e.key, field);
    if e.value.Text? {
      KeysDiffer(e.value.s, field);
      KindIsPlain(e.value.s);
      PlainTextSkippable(e.key, e.value.s, field);
    }
  }

  /** An id as the planners make it: it has a hyphen, as no field name has. */
  ghost predicate IsId(id: string)
  {
    AllPlain(id) && '-' in id
  }

  ghost predicate IsHexText(s: string)
  {
    AllPlain(s) && |s| > 0 && s[0] == '0'
  }

  lemma IdSkippable(id: string, field: string)
    requires IsId(id) && field in {"runtime_pc", "registers", "address", "size"}
    ensures Skippable(Entry("request_id", Text(id), ","), field)
  {
    assert '-' !in field;
    assert "request_id"[1] == 'e';
    PlainTextSkippable("request_id", id, field);
  }

  lemma HexSkippable(key: string, s: string, field: string)
    requires IsHexText(s) && key in {"runtime_pc", "address"} && field in {"registers", "address", "size"}
    requires key != field
    ensures Skippable(Entry(key, Text(s), ","), field)
  {
    assert field[0] != '0';
    PlainTextSkippable(key, s, field);
  }

  lemma TypeIsRead(kind: string, messageId: nat, pcSeq: nat, es: seq<Entry>)
    requires kind in {"reg_request", "mem_request"} && Envelope(kind, messageId, pcSeq) <= es
    ensures StringField(Line(es), "type", 64) == Some(kind)
  {
    assert forall j :: 0 <= j < 3 ==> es[j] == Envelope(kind, messageId, pcSeq)[j];
    TextFieldIs(es, 2, "type", 64);
    KindIsPlain(kind);
    EchoIsExactIff(kind);
  }

  lemma OtherKeys(key: string)
    requires key in {"protocol", "id", "type", "role", "payload", "ida", "reg_request", "mem_request"}
    ensures key != "pc_seq" && QUOTE !in key
  {
  }

  lemma BeforePcSeq(kind: string, messageId: nat, pcSeq: nat, j: nat)
    requires j < 5 && kind in {"reg_request", "mem_request"}
    ensures Skippable(Envelope(kind, messageId, pcSeq)[j], "pc_seq")
  {
    var e := Envelope(kind, messageId, pcSeq)[j];
    OtherKeys(e.key);
    if e.value.Text? {
      OtherKeys(e.value.s);
      KindIsPlain(e.value.s);
      PlainTextSkippable(e.key, e.value.s, "pc_seq");
    }
  }

  lemma PcSeqIsRead(kind: string, messageId: nat, pcSeq: nat, es: seq<Entry>)
    requires kind in {"reg_request", "mem_request"} && pcSeq < WORD && Envelope(kind, messageId, pcSeq) <= es
    ensures NumberField(Line(es), "pc_seq") == Some(pcSeq)
  {
    forall j | 0 <= j < 5 ensures Skippable(es[j], "pc_seq") {
      assert es[j] == Envelope(kind, messageId, pcSeq)[j];
      BeforePcSeq(kind, messageId, pcSeq, j);
    }
    assert es[5] == Envelope(kind, messageId, pcSeq)[5];
    NumberFieldIs(es, 5, "pc_seq");
  }

  /** Whatever the id is, the extension takes its echo for it. */
  lemma IdIsEchoed(kind: string, messageId: nat, pcSeq: nat, id: string, es: seq<Entry>)
    requires kind in {"reg_request", "mem_request"}
    requires Envelope(kind, messageId, pcSeq) + [Entry("request_id", Text(id), ",")] <= es
    ensures StringField(Line(es), "request_id", 128) == if |Echo(id)| < 128 then Some(Echo(id)) else None
  {
    forall j | 0 <= j < 6 ensures Skippable(es[j], "request_id") {
      assert es[j] == Envelope(kind, messageId, pcSeq)[j];
      EnvelopeSkippable(kind, messageId, pcSeq, "request_id", j);
    }
    TextFieldIs(es, 6, "request_id", 128);
  }

  /** What both requests begin with. */
  function Common(kind: string, messageId: nat, pcSeq: nat, id: string, runtimePc: string): seq<Entry>
  {
    Envelope(kind, messageId, pcSeq) + [Entry("request_id", Text(id), ","), Entry("runtime_pc", Text(runtimePc), ",")]
  }

  lemma CommonSkippable(kind: string, messageId: nat, pcSeq: nat, id: string, runtimePc: string, field: string, j: nat)
    requires kind in {"reg_request", "mem_request"} && IsId(id) && IsHexText(runtimePc)
    requires (field == "runtime_pc" && j < 7) || (field in {"registers", "address", "size"} && j < 8)
    ensures Skippable(Common(kind, messageId, pcSeq, id, runtimePc)[j], field)
  {
    var es := Common(kind, messageId, pcSeq, id, runtimePc);
    if j < 6 {
      assert es[j] == Envelope(kind, messageId, pcSeq)[j];
      EnvelopeSkippable(kind, messageId, pcSeq, field, j);
    } else if j == 6 {
      IdSkippable(id, field);
    } else {
      HexSkippable("runtime_pc", runtimePc, field);
    }
  }

  lemma PcIsRead(kind: string, messageId: nat, pcSeq: nat, id: string, runtimePc: string, es: seq<Entry>)
    requires kind in {"reg_request", "mem_request"} && IsId(id) && IsHexText(runtimePc) && |runtimePc| < 64
    requires Common(kind, messageId, pcSeq, id, runtimePc) <= es
    ensures StringField(Line(es), "runtime_pc", 64) == Some(runtimePc)
  {
    forall j | 0 <= j < 7 ensures Skippable(es[j], "runtime_pc") {
      assert es[j] == Common(kind, messageId, pcSeq, id, runtimePc)[j];
      CommonSkippable(kind, messageId, pcSeq, id, runtimePc, "runtime_pc", j);
    }
    TextFieldIs(es, 7, "runtime_pc", 64);
    EchoIsExactIff(runtimePc);
  }

  lemma CommonIsRead(kind: string, messageId: nat, pcSeq: nat, id: string, runtimePc: string, es: seq<Entry>)
    requires kind in {"reg_request", "mem_request"} && IsId(id) && |id| < 128 && IsHexText(runtimePc)
    requires |runtimePc| < 64 && pcSeq < WORD
    requires Common(kind, messageId, pcSeq, id, runtimePc) <= es
    ensures StringField(Line(es), "type", 64) == Some(kind) && NumberField(Line(es), "pc_seq") == Some(pcSeq)
    ensures StringField(Line(es), "request_id", 128) == Some(id)
    ensures StringField(Line(es), "runtime_pc", 64) == Some(runtimePc)
  {
    var env := Envelope(kind, messageId, pcSeq);
    assert env <= es && env + [Entry("request_id", Text(id), ",")] <= es;
    TypeIsRead(kind, messageId, pcSeq, es);
    PcSeqIsRead(kind, messageId, pcSeq, es);
    IdIsEchoed(kind, messageId, pcSeq, id, es);
    EchoIsExactIff(id);
    PcIsRead(kind, messageId, pcSeq, id, runtimePc, es);
  }

  lemma RegisterNamesAreRead(messageId: nat, pcSeq: nat, id: string, runtimePc: string, names: seq<string>,
                             reason: string)
    requires IsId(id) && IsHexText(runtimePc) && AllNames(names) && 0 < |names| <= MAX_REGISTERS
    ensures RegisterList(Line(RegEntries(messageId, pcSeq, id, runtimePc, names, reason))) == Some(names)
  {
    var es := RegEntries(messageId, pcSeq, id, runtimePc, names, reason);
    forall j | 0 <= j < 8 ensures Skippable(es[j], "registers") {
      assert es[j] == Common("reg_request", messageId, pcSeq, id, runtimePc)[j];
      CommonSkippable("reg_request", messageId, pcSeq, id, runtimePc, "registers", j);
    }
    NamesFieldIs(es, 8);
  }

  /** A register request with a plain id is read as it was written. */
  lemma RegRequestIsRead(messageId: nat, pcSeq: nat, id: string, runtimePc: string, names: seq<string>, reason: string)
    requires IsId(id) && |id| < 128 && IsHexText(runtimePc) && |runtimePc| < 64 && pcSeq < WORD
    requires AllNames(names) && 0 < |names| <= MAX_REGISTERS
    ensures var line := Line(RegEntries(messageId, pcSeq, id, runtimePc, names, reason));
            && StringField(line, "type", 64) == Some("reg_request") && NumberField(line, "pc_seq") == Some(pcSeq)
            && StringField(line, "request_id", 128) == Some(id)
            && StringField(line, "runtime_pc", 64) == Some(runtimePc)
            && RegisterList(line) == Some(names)
  {
    var es := RegEntries(messageId, pcSeq, id, runtimePc, names, reason);
    assert Common("reg_request", messageId, pcSeq, id, runtimePc) <= es;
    CommonIsRead("reg_request", messageId, pcSeq, id, runtimePc, es);
    RegisterNamesAreRead(messageId, pcSeq, id, runtimePc, names, reason);
  }

  lemma AddressAndSizeAreRead(messageId: nat, pcSeq: nat, id: string, runtimePc: string, address: string, size: nat,
                              more: seq<Entry>)
    requires IsId(id) && IsHexText(runtimePc) && IsHexText(address) && |address| < 64 && size < WORD
    ensures var line := Line(MemEntries(messageId, pcSeq, id, runtimePc, address, size, more));
            StringField(line, "address", 64) == Some(address) && NumberField(line, "size") == Some(size)
  {
    var es := MemEntries(messageId, pcSeq, id, runtimePc, address, size, more);
    forall j, field | 0 <= j < 8 && field in {"address", "size"} ensures Skippable(es[j], field) {
      assert es[j] == Common("mem_request", messageId, pcSeq, id, runtimePc)[j];
      CommonSkippable("mem_request", messageId, pcSeq, id, runtimePc, field, j);
    }
    TextFieldIs(es, 8, "address", 64);
    EchoIsExactIff(address);
    HexSkippable("address", address, "size");
    NumberFieldIs(es, 9, "size");
  }

  /** The same for memory requests. */
  lemma MemRequestIsRead(messageId: nat, pcSeq: nat, id: string, runtimePc: string, address: string, size: nat,
                         more: seq<Entry>)
    requires IsId(id) && |id| < 128 && IsHexText(runtimePc) && |runtimePc| < 64 && IsHexText(address) && |address| < 64
    requires pcSeq < WORD && size < WORD
    ensures var line := Line(MemEntries(messageId, pcSeq, id, runtimePc, address, size, more));
            && StringField(line, "type", 64) == Some("mem_request") && NumberField(line, "pc_seq") == Some(pcSeq)
            && StringField(line, "request_id", 128) == Some(id)
            && StringField(line, "runtime_pc", 64) == Some(runtimePc)
            && StringField(line, "address", 64) == Some(address) && NumberField(line, "size") == Some(size)
  {
    var es := MemEntries(messageId, pcSeq, id, runtimePc, address, size, more);
    assert Common("mem_request", messageId, pcSeq, id, runtimePc) <= es;
    CommonIsRead("mem_request", messageId, pcSeq, id, runtimePc, es);
    AddressAndSizeAreRead(messageId, pcSeq, id, runtimePc, address, size, more);
  }
}

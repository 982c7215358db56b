/**
  How the extension cuts fields out of a received line: by searching for quoted names,
  not by parsing JSON. Each search is a function on the text that is left to read, and
  the C loops are proved to compute it.
 */
module RequestFields {
  import opened Basics
  import opened Values
  import opened JsonText

  // ---------------------------------------------------------------- searching

  /** `strstr`: the text behind the first occurrence of the pattern. */
  function After(s: string, pattern: string): (rest: Option<string>)
    decreases |s|
  {
    if pattern <= s then Some(s[|pattern|..])
    else if s == "" then None
    else After(s[1..], pattern)
  }

  predicate StandsAt(s: string, pattern: string, k: nat)
  {
    k <= |s| && pattern <= s[k..]
  }

  /**
    There is a text behind the pattern exactly if the pattern stands somewhere, and it is
    the one behind the first place.
   */
  lemma {:induction false} AfterIsFirst(s: string, pattern: string, k: nat)
    ensures StandsAt(s, pattern, k) && (forall j: nat :: j < k ==> !StandsAt(s, pattern, j)) ==>
            After(s, pattern) == Some(s[k + |pattern|..])
    ensures After(s, pattern).None? ==> !StandsAt(s, pattern, k)
    decreases |s|
  {
    assert s[0..] == s;
    if k > 0 && s != "" {
      AfterIsFirst(s[1..], pattern, k - 1);
      assert k <= |s| ==> s[1..][k - 1..] == s[k..];
      if StandsAt(s, pattern, k) && forall j: nat :: j < k ==> !StandsAt(s, pattern, j) {
        assert !StandsAt(s, pattern, 0);
        forall j: nat | j < k - 1 ensures !StandsAt(s[1..], pattern, j) {
          assert s[1..][j..] == s[j + 1..] && !StandsAt(s, pattern, j + 1);
        }
        assert s[1..][k - 1 + |pattern|..] == s[k + |pattern|..];
      }
    }
  }

  lemma {:induction false} TooShort(s: string, pattern: string)
    requires |s| < |pattern|
    ensures After(s, pattern) == None
    decreases |s|
  {
    if s != "" {
      TooShort(s[1..], pattern);
    }
  }

  method Find(s: string, pattern: string) returns (at: Option<nat>)
    requires pattern != ""
    ensures at.None? ==> After(s, pattern) == None
    ensures at.Some? ==> StandsAt(s, pattern, at.value) && After(s, pattern) == Some(s[at.value + |pattern|..])
  {
    var i: nat := 0;
    assert s[0..] == s;
    while i + |pattern| <= |s|
      invariant i <= |s| && After(s, pattern) == After(s[i..], pattern)
    {
      if s[i..i + |pattern|] == pattern {
        assert s[i..][..|pattern|] == pattern;
        assert s[i..][|pattern|..] == s[i + |pattern|..];
        return Some(i);
      }
      assert s[i..][..|pattern|] == s[i..i + |pattern|];
      assert s[i..][1..] == s[i + 1..];
      i := i + 1;
    }
    TooShort(s[i..], pattern);
    return None;
  }

  /** `strchr`: the text behind the next such character. */
  function Past(s: string, c: char): (rest: Option<string>)
    ensures rest.Some? ==> |rest.value| < |s|
  {
    if s == "" then None
    else if s[0] == c then Some(s[1..])
    else Past(s[1..], c)
  }

  /** There is such a text exactly if the character occurs, and no such character stands before the one it follows. */
  lemma {:induction false} PastIsNext(before: string, c: char, rest: string)
    requires c !in before
    ensures Past(before + [c] + rest, c) == Some(rest) && Past(before, c) == None
    decreases |before|
  {
    if before == "" {
      assert (before + [c] + rest)[1..] == rest;
    } else {
      PastIsNext(before[1..], c, rest);
      assert (before + [c] + rest)[1..] == before[1..] + [c] + rest;
    }
  }

  method IndexOf(s: string, c: char, from: nat) returns (at: Option<nat>)
    requires from <= |s|
    ensures at.Some? ==>
            from <= at.value < |s| && s[at.value] == c && Past(s[from..], c) == Some(s[at.value + 1..])
            && c !in s[from..at.value]
    ensures at.None? ==> Past(s[from..], c) == None && c !in s[from..]
  {
    var i := from;
    while i < |s|
      invariant from <= i <= |s| && c !in s[from..i] && Past(s[from..], c) == Past(s[i..], c)
    {
      assert s[i..][1..] == s[i + 1..];
      if s[i] == c {
        return Some(i);
      }
      assert s[from..i + 1] == s[from..i] + [s[i]];
      i := i + 1;
    }
    assert s[from..i] == s[from..];
    return None;
  }

  predicate IsSpace(c: char)
  {
    c == ' ' || '\t' <= c <= '\r'
  }

  function SkipSpaces(s: string): string
  {
    if s != "" && IsSpace(s[0]) then SkipSpaces(s[1..]) else s
  }

  method SkipSpacesFrom(s: string, from: nat) returns (at: nat)
    requires from <= |s|
    ensures from <= at <= |s| && s[at..] == SkipSpaces(s[from..])
  {
    at := from;
    while at < |s| && IsSpace(s[at])
      invariant from <= at <= |s| && SkipSpaces(s[from..]) == SkipSpaces(s[at..])
    {
      assert s[at..][1..] == s[at + 1..];
      at := at + 1;
    }
  }

  // ---------------------------------------------------------------- fields

  function Word(w: string): string
  {
    [QUOTE] + w + [QUOTE]
  }

  /** The text of a field's value: behind the quoted name, the next colon and white space. */
  function ValueText(json: string, field: string): Option<string>
  {
    match After(json, Word(field))
    case None => None
    case Some(t) => (match Past(t, ':') case None => None case Some(u) => Some(SkipSpaces(u)))
  }

  /** A string in front of a text, cut at the next quotation mark, if there is one within `size` characters. */
  function CutString(t: string, size: nat): Option<string>
  {
    if t == "" || t[0] != QUOTE then None
    else
      var value := UntilQuote(t[1..]);
      if |value| == |t| - 1 || |value| >= size then None else Some(value)
  }

  /** `DvsExtractJsonStringField` into a buffer of `size` bytes. */
  function StringField(json: string, field: string, size: nat): Option<string>
  {
    match ValueText(json, field)
    case None => None
    case Some(t) => CutString(t, size)
  }

  lemma {:induction false} UntilQuoteIs(s: string, start: nat, end: nat)
    requires start <= end <= |s| && (end < |s| ==> s[end] == QUOTE) && QUOTE !in s[start..end]
    ensures UntilQuote(s[start..]) == s[start..end]
    decreases end - start
  {
    if start < end {
      assert s[start..end] == [s[start]] + s[start + 1..end];
      assert s[start..][1..] == s[start + 1..];
      UntilQuoteIs(s, start + 1, end);
    }
  }

  method LocateValue(json: string, field: string) returns (start: Option<nat>)
    ensures start.None? ==> ValueText(json, field) == None
    ensures start.Some? ==> start.value <= |json| && ValueText(json, field) == Some(json[start.value..])
  {
    var pattern := [QUOTE] + field + [QUOTE];
    var pos := Find(json, pattern);
    if pos.None? {
      return None;
    }
    var colon := IndexOf(json, ':', pos.value + |pattern|);
    if colon.None? {
      return None;
    }
    var at := SkipSpacesFrom(json, colon.value + 1);
    return Some(at);
  }

  method ExtractStringField(json: string, field: string, size: nat) returns (out: Option<string>)
    ensures out == StringField(json, field, size)
  {
    var located := LocateValue(json, field);
    if located.None? {
      return None;
    }
    var start := located.value;
    if start == |json| || json[start] != QUOTE {
      return None;
    }
    start := start + 1;
    var end := IndexOf(json, QUOTE, start);
    assert json[start - 1..][1..] == json[start..];
    if end.None? {
      assert json[start..|json|] == json[start..];
      UntilQuoteIs(json, start, |json|);
      return None;
    }
    UntilQuoteIs(json, start, end.value);
    if end.value - start >= size {
      return None;
    }
    return Some(json[start..end.value]);
  }

  // ---------------------------------------------------------------- what a string field is

  lemma {:induction false} AfterHasPlace(s: string, pattern: string) returns (k: nat)
    requires After(s, pattern).Some?
    ensures StandsAt(s, pattern, k) && (forall j: nat :: j < k ==> !StandsAt(s, pattern, j))
    ensures After(s, pattern) == Some(s[k + |pattern|..])
    decreases |s|
  {
    if pattern <= s {
      assert s[0..] == s;
      return 0;
    }
    var i := AfterHasPlace(s[1..], pattern);
    k := i + 1;
    assert s[1..][i..] == s[k..] && s[1..][i + |pattern|..] == s[k + |pattern|..];
    forall j: nat | j < k ensures !StandsAt(s, pattern, j) {
      if j == 0 {
        assert s[0..] == s;
      } else {
        assert s[1..][j - 1..] == s[j..] && !StandsAt(s[1..], pattern, j - 1);
      }
    }
  }

  lemma {:induction false} PastHasPlace(s: string, c: char) returns (before: string)
    requires Past(s, c).Some?
    ensures s == before + ([c] + Past(s, c).value) && c !in before
    decreases |s|
  {
    if s[0] == c {
      before := "";
    } else {
      var rest := PastHasPlace(s[1..], c);
      before := [s[0]] + rest;
    }
  }

  ghost predicate AllSpaces(s: string)
  {
    forall i :: 0 <= i < |s| ==> IsSpace(s[i])
  }

  lemma {:induction false} SpacesAreSkipped(s: string) returns (spaces: string)
    ensures s == spaces + SkipSpaces(s) && AllSpaces(spaces)
    decreases |s|
  {
    if s != "" && IsSpace(s[0]) {
      var rest := SpacesAreSkipped(s[1..]);
      spaces := [s[0]] + rest;
    } else {
      spaces := "";
    }
  }

  lemma {:induction false} SkipsSpaces(spaces: string, t: string)
    requires AllSpaces(spaces) && t != "" && !IsSpace(t[0])
    ensures SkipSpaces(spaces + t) == t
    decreases |spaces|
  {
    if spaces == "" {
      assert spaces + t == t;
    } else {
      assert (spaces + t)[1..] == spaces[1..] + t;
      SkipsSpaces(spaces[1..], t);
    }
  }

  lemma CutsString(value: string, rest: string, size: nat)
    requires QUOTE !in value
    ensures CutString(Word(value) + rest, size) == if |value| < size then Some(value) else None
  {
    var t := value + ([QUOTE] + rest);
    assert (Word(value) + rest)[1..] == t && t[0..] == t && t[0..|value|] == value;
    UntilQuoteIs(t, 0, |value|);
  }

  lemma CutStringIs(t: string, size: nat) returns (rest: string)
    requires CutString(t, size).Some?
    ensures var value := CutString(t, size).value; t == Word(value) + rest && QUOTE !in value && |value| < size
  {
    var value := UntilQuote(t[1..]);
    rest := t[|value| + 2..];
    assert t[1..][..|value|] == value && t[|value| + 1] == QUOTE;
  }

  /**
    The line holds the field with this value: behind the first place where its quoted name
    stands come any text without a colon, a colon, white space, and the quoted value.
   */
  ghost predicate Layout(json: string, field: string, value: string, before: string, mid: string, spaces: string,
                         rest: string)
  {
    && json == before + (Word(field) + (mid + (":" + (spaces + (Word(value) + rest)))))
    && (forall k: nat :: k < |before| ==> !StandsAt(json, Word(field), k))
    && ':' !in mid && AllSpaces(spaces) && QUOTE !in value
  }

  lemma LayoutIsRead(json: string, field: string, size: nat, value: string, before: string, mid: string, spaces: string,
                     rest: string)
    requires Layout(json, field, value, before, mid, spaces, rest) && |value| < size
    ensures StringField(json, field, size) == Some(value)
  {
    var p, w := Word(field), Word(value) + rest;
    var u := spaces + w;
    var t := mid + (":" + u);
    assert json[|before|..] == p + t && json[|before| + |p|..] == t;
    AfterIsFirst(json, p, |before|);
    PastIsNext(mid, ':', u);
    assert mid + [':'] + u == t;
    assert w[0] == QUOTE;
    SkipsSpaces(spaces, w);
    CutsString(value, rest, size);
  }

  lemma ReadHasLayout(json: string, field: string, size: nat)
    returns (before: string, mid: string, spaces: string, rest: string)
    requires StringField(json, field, size).Some?
    ensures var value := StringField(json, field, size).value;
            Layout(json, field, value, before, mid, spaces, rest) && |value| < size
  {
    var k := AfterHasPlace(json, Word(field));
    before := json[..k];
    mid, spaces, rest := ValueHasLayout(json[k + |Word(field)|..], size);
    LayoutIs(json, field, StringField(json, field, size).value, k, mid, spaces, rest);
  }

  lemma LayoutIs(json: string, field: string, value: string, k: nat, mid: string, spaces: string, rest: string)
    requires StandsAt(json, Word(field), k) && forall j: nat :: j < k ==> !StandsAt(json, Word(field), j)
    requires json[k + |Word(field)|..] == mid + (":" + (spaces + (Word(value) + rest)))
    requires ':' !in mid && AllSpaces(spaces) && QUOTE !in value
    ensures Layout(json, field, value, json[..k], mid, spaces, rest)
  {
    CutAt(json, Word(field), k);
  }

  lemma CutAt(s: string, pattern: string, k: nat)
    requires StandsAt(s, pattern, k)
    ensures s == s[..k] + (pattern + s[k + |pattern|..])
  {
    assert s[k..] == pattern + s[k..][|pattern|..];
    assert s[k..][|pattern|..] == s[k + |pattern|..];
  }

  lemma ValueHasLayout(t: string, size: nat) returns (mid: string, spaces: string, rest: string)
    requires Past(t, ':').Some? && CutString(SkipSpaces(Past(t, ':').value), size).Some?
    ensures var value := CutString(SkipSpaces(Past(t, ':').value), size).value;
            && t == mid + (":" + (spaces + (Word(value) + rest)))
            && ':' !in mid && AllSpaces(spaces) && QUOTE !in value && |value| < size
  {
    mid := PastHasPlace(t, ':');
    var u := Past(t, ':').value;
    spaces := SpacesAreSkipped(u);
    rest := CutStringIs(SkipSpaces(u), size);
  }

  /** A string field is found exactly if the line has this layout with a value that fits the buffer. */
  lemma StringFieldIff(json: string, field: string, size: nat, value: string)
    ensures StringField(json, field, size) == Some(value)
            <==>
            |value| < size && exists before, mid, spaces, rest :: Layout(json, field, value, before, mid, spaces, rest)
  {
    if StringField(json, field, size) == Some(value) {
      var before, mid, spaces, rest := ReadHasLayout(json, field, size);
    } else if |value| < size
      && exists before, mid, spaces, rest :: Layout(json, field, value, before, mid, spaces, rest) {
      var before, mid, spaces, rest :| Layout(json, field, value, before, mid, spaces, rest);
      LayoutIsRead(json, field, size, value, before, mid, spaces, rest);
    }
  }

  // ---------------------------------------------------------------- numbers

  predicate IsDigit(c: char)
  {
    '0' <= c <= '9'
  }

  function LeadingDigits(t: string): string
  {
    if t != "" && IsDigit(t[0]) then [t[0]] + LeadingDigits(t[1..]) else ""
  }

  predicate Signed(t: string)
  {
    t != "" && (t[0] == '-' || t[0] == '+')
  }

  /** The text behind an optional sign. */
  function Unsigned(t: string): string
  {
    if Signed(t) then t[1..] else t
  }

  /** An unsigned conversion negates behind a minus sign; a number that is too large becomes the largest. */
  function Converted(t: string, n: nat, bound: nat): (r: nat)
    requires bound > 0
    ensures r < bound
  {
    if n >= bound then bound - 1 else if n > 0 && "-" <= t then bound - n else n
  }

  /** `%lu`: the decimal number in front of a text. */
  function LeadingNumber(t: string): (n: Option<nat>)
    ensures n.Some? ==> n.value < WORD
  {
    var d := LeadingDigits(Unsigned(t));
    if d == "" then None else Some(Converted(t, DigitsValue(d, 10), WORD))
  }

  /** `DvsExtractJsonUnsignedField`. */
  function NumberField(json: string, field: string): (n: Option<nat>)
    ensures n.Some? ==> n.value < WORD
  {
    match ValueText(json, field)
    case None => None
    case Some(t) => LeadingNumber(t)
  }

  method ExtractUnsignedField(json: string, field: string) returns (out: Option<nat>)
    ensures out == NumberField(json, field)
  {
    var located := LocateValue(json, field);
    if located.None? {
      return None;
    }
    return LeadingNumber(json[located.value..]);
  }

  // ---------------------------------------------------------------- the register list

  const MAX_REGISTERS: nat := 32
  const NAME_SIZE: nat := 16

  /** `DvsLowerAscii`. */
  function LowerAscii(s: string): (t: string)
    ensures |t| == |s| && forall i :: 0 <= i < |s| ==> t[i] == LowerChar(s[i])
  {
    seq(|s|, i requires 0 <= i < |s| => LowerChar(s[i]))
  }

  function SkipToName(t: string): (u: string)
    ensures |u| <= |t|
  {
    if t == "" || t[0] == ']' || t[0] == QUOTE then t else SkipToName(t[1..])
  }

  function Collected(names: seq<string>): Option<seq<string>>
  {
    if names == [] then None else Some(names)
  }

  /** What the loop meets next: the end of the list, an error, or a name and the text behind it. */
  datatype Scan = Finished | Malformed | Name(value: string, rest: string)

  /** A quoted name in front of a text. */
  function CutName(u: string, count: nat): (scan: Scan)
    requires u != ""
    ensures !scan.Finished? && (scan.Name? ==> |scan.rest| < |u|)
  {
    var value := UntilQuote(u[1..]);
    if |value| == |u| - 1 || value == "" || |value| >= NAME_SIZE || count >= MAX_REGISTERS then Malformed
    else Name(value, u[|value| + 2..])
  }

  function NextName(t: string, count: nat): (scan: Scan)
    ensures scan.Name? ==> |scan.rest| < |t|
  {
    if t == "" || t[0] == ']' then Finished
    else
      var u := SkipToName(t);
      if u == "" then Malformed else if u[0] == ']' then Finished else CutName(u, count)
  }

  /** The names in front of the next closing bracket, behind those already read. */
  function NameList(t: string, names: seq<string>): Option<seq<string>>
    decreases |t|
  {
    match NextName(t, |names|)
    case Finished => Collected(names)
    case Malformed => None
    case Name(value, rest) => NameList(rest, names + [LowerAscii(value)])
  }

  /** `DvsParseRegisterList`. */
  function RegisterList(json: string): Option<seq<string>>
  {
    match After(json, Word("registers"))
    case None => None
    case Some(t) => (match Past(Word("registers") + t, '[') case None => None case Some(u) => NameList(u, []))
  }

  method SkipToNameFrom(json: string, from: nat) returns (at: nat)
    requires from <= |json|
    ensures from <= at <= |json| && json[at..] == SkipToName(json[from..])
  {
    at := from;
    while at < |json| && json[at] != ']' && json[at] != QUOTE
      invariant from <= at <= |json| && SkipToName(json[from..]) == SkipToName(json[at..])
    {
      assert json[at..][1..] == json[at + 1..];
      at := at + 1;
    }
  }

  /** The name that starts at a quotation mark and the position behind it, if it is well formed. */
  method CutNameAt(json: string, at: nat, count: nat) returns (found: bool, name: string, next: nat)
    requires at < |json|
    ensures if found then at < next <= |json| && CutName(json[at..], count) == Name(name, json[next..])
            else CutName(json[at..], count) == Malformed
  {
    var quote := IndexOf(json, QUOTE, at + 1);
    assert json[at..][1..] == json[at + 1..];
    if quote.None? {
      assert json[at + 1..|json|] == json[at + 1..];
      UntilQuoteIs(json, at + 1, |json|);
      return false, "", at;
    }
    UntilQuoteIs(json, at + 1, quote.value);
    var len := quote.value - (at + 1);
    if len == 0 || len >= NAME_SIZE || count >= MAX_REGISTERS {
      return false, "", at;
    }
    assert json[at..][len + 2..] == json[quote.value + 1..];
    return true, json[at + 1..quote.value], quote.value + 1;
  }

  /** One turn of the loop. */
  method ReadName(json: string, from: nat, count: nat) returns (found: bool, bad: bool, name: string, next: nat)
    requires from <= |json|
    ensures found ==> !bad && from < next <= |json| && NextName(json[from..], count) == Name(name, json[next..])
    ensures !found ==> NextName(json[from..], count) == if bad then Malformed else Finished
  {
    if from == |json| || json[from] == ']' {
      return false, false, "", from;
    }
    var at := SkipToNameFrom(json, from);
    if at < |json| && json[at] == ']' {
      return false, false, "", from;
    }
    if at == |json| {
      return false, true, "", from;
    }
    found, name, next := CutNameAt(json, at, count);
    bad := !found;
  }

  method ReadNames(json: string, from: nat) returns (result: Option<seq<string>>)
    requires from <= |json|
    ensures result == NameList(json[from..], [])
  {
    var at, names := from, [];
    while true
      invariant from <= at <= |json| && NameList(json[at..], names) == NameList(json[from..], [])
      decreases |json| - at
    {
      var found, bad, name, next := ReadName(json, at, |names|);
      if bad {
        return None;
      }
      if !found {
        return if names == [] then None else Some(names);
      }
      names := names + [LowerAscii(name)];
      at := next;
    }
  }

  method ParseRegisterList(json: string) returns (result: Option<seq<string>>)
    ensures result == RegisterList(json)
  {
    var pattern := [QUOTE] + "registers" + [QUOTE];
    var pos := Find(json, pattern);
    if pos.None? {
      return None;
    }
    assert json[pos.value..] == pattern + json[pos.value + |pattern|..];
    var bracket := IndexOf(json, '[', pos.value);
    if bracket.None? {
      return None;
    }
    result := ReadNames(json, bracket.value + 1);
  }
}

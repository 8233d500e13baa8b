/**
  A reader for the XML that the writer produces: it goes through the bytes one at a time and
  keeps the elements still open and the tags, attributes and texts seen.  A text is reported
  without the spaces and newlines around it, and not at all if nothing else is left.
 */
module XmlScanner {
  import opened Common

  const NEWLINE: Byte := 0x0A
  const SPACE: Byte := 0x20
  const QUOTE: Byte := 0x22
  const SLASH: Byte := 0x2F
  const LESS: Byte := 0x3C
  const EQUALS: Byte := 0x3D
  const GREATER: Byte := 0x3E
  const QUESTION: Byte := 0x3F

  datatype XmlEvent =
    | Start(name: Bytes)
    | Attribute(name: Bytes, value: Bytes)
    | Words(text: Bytes)
    | End(name: Bytes)

  /** What opens and ends no element. */
  type InnerEvent = e: XmlEvent | e.Attribute? || e.Words? witness Words([])

  datatype Mode =
    | Content
    | Opening
    | Declaration
    | StartName(name: Bytes)
    | InTag
    | AttributeName(name: Bytes)
    | AfterEquals(name: Bytes)
    | Value(name: Bytes, value: Bytes)
    | Closing
    | EndName(name: Bytes)
    | Broken

  /** Where the reader is, and the characters read since the last tag. */
  datatype Scan = Scan(mode: Mode, open: seq<Bytes>, events: seq<XmlEvent>, text: Bytes)

  const BEGIN := Scan(Content, [], [], [])

  // ----- Texts

  predicate IsWhite(c: Byte) {
    c == SPACE || c == NEWLINE
  }

  predicate White(b: Bytes) {
    forall i :: 0 <= i < |b| ==> IsWhite(b[i])
  }

  function TrimLeft(b: Bytes): Bytes {
    if b != [] && IsWhite(b[0]) then TrimLeft(b[1..]) else b
  }

  function TrimRight(b: Bytes): Bytes {
    if b != [] && IsWhite(b[|b| - 1]) then TrimRight(b[..|b| - 1]) else b
  }

  function Trim(b: Bytes): Bytes {
    TrimRight(TrimLeft(b))
  }

  function TextEvents(text: Bytes): seq<InnerEvent> {
    if Trim(text) == [] then [] else [Words(Trim(text))]
  }

  lemma {:induction false} TrimLeftConcat(a: Bytes, b: Bytes)
    ensures TrimLeft(a + b) == if TrimLeft(a) == [] then TrimLeft(b) else TrimLeft(a) + b
    decreases |a|
  {
    if a == [] {
      assert a + b == b;
    } else {
      assert (a + b)[0] == a[0] && (a + b)[1..] == a[1..] + b;
      TrimLeftConcat(a[1..], b);
    }
  }

  lemma {:induction false} TrimLeftWhite(white: Bytes)
    requires White(white)
    ensures TrimLeft(white) == []
    decreases |white|
  {
    if white != [] {
      TrimLeftWhite(white[1..]);
    }
  }

  lemma {:induction false} TrimRightWhite(b: Bytes, white: Bytes)
    requires White(white)
    ensures TrimRight(b + white) == TrimRight(b)
    decreases |white|
  {
    if white == [] {
      assert b + white == b;
    } else {
      var n := |white| - 1;
      assert (b + white)[..|b| + n] == b + white[..n] && (b + white)[|b| + n] == white[n];
      TrimRightWhite(b, white[..n]);
    }
  }

  /** White space around a text does not change it. */
  lemma WhiteAround(before: Bytes, text: Bytes, after: Bytes)
    requires White(before) && White(after)
    ensures TextEvents(before + text) == TextEvents(text)
    ensures TextEvents(text + after) == TextEvents(text)
    ensures TextEvents(before) == []
  {
    hide TrimLeft, TrimRight;
    TrimLeftConcat(before, text);
    TrimLeftWhite(before);
    TrimLeftConcat(text, after);
    TrimLeftWhite(after);
    TrimRightWhite(TrimLeft(text), after);
    TrimRightWhite([], after);
    TrimRightWhite([], before);
    assert [] + after == after && TrimRight([]) == [] by { TrimNothing(); }
  }

  lemma TrimNothing()
    ensures TrimRight([]) == []
  {
  }

  // ----- One byte after another

  /** The text before a tag is complete. */
  function Flush(s: Scan): Scan {
    s.(events := s.events + TextEvents(s.text), text := [])
  }

  lemma FlushNothing(s: Scan)
    requires s.text == []
    ensures Flush(s) == s
  {
    WhiteAround([], [], []);
  }

  function Pop(s: Scan): Scan {
    if s.open == [] then s.(mode := Broken)
    else s.(mode := Content, open := s.open[..|s.open| - 1], events := s.events + [End(s.open[|s.open| - 1])])
  }

  /** If the output ended here: the name of a start tag is complete, and so is a text. */
  function Settle(s: Scan): Scan {
    if s.mode.StartName? then
      s.(mode := InTag, open := s.open + [s.mode.name], events := s.events + [Start(s.mode.name)])
    else if s.mode.Content? then Flush(s)
    else s
  }

  /** Between the parts of a tag. */
  function StepInTag(s: Scan, c: Byte): Scan {
    if c == SPACE then s.(mode := AttributeName([]))
    else if c == GREATER then s.(mode := Content)
    else if c == SLASH then s.(mode := Closing)
    else s.(mode := Broken)
  }

  function Step(s: Scan, c: Byte): Scan {
    match s.mode
    case Content => if c == LESS then Flush(s).(mode := Opening) else s.(text := s.text + [c])
    case Opening =>
      if c == QUESTION then s.(mode := Declaration)
      else if c == SLASH then s.(mode := EndName([]))
      else s.(mode := StartName([c]))
    case Declaration => if c == GREATER then s.(mode := Content) else s
    case StartName(name) =>
      if c == SPACE || c == GREATER || c == SLASH then StepInTag(Settle(s), c) else s.(mode := StartName(name + [c]))
    case InTag => StepInTag(s, c)
    case AttributeName(name) =>
      if c == EQUALS then s.(mode := AfterEquals(name)) else s.(mode := AttributeName(name + [c]))
    case AfterEquals(name) => if c == QUOTE then s.(mode := Value(name, [])) else s.(mode := Broken)
    case Value(name, value) =>
      if c == QUOTE then s.(mode := InTag, events := s.events + [Attribute(name, value)])
      else if c == LESS then s.(mode := Broken)
      else s.(mode := Value(name, value + [c]))
    case Closing => if c == GREATER then Pop(s) else s.(mode := Broken)
    case EndName(name) =>
      if c != GREATER then s.(mode := EndName(name + [c]))
      else if s.open != [] && s.open[|s.open| - 1] == name then Pop(s)
      else s.(mode := Broken)
    case Broken => s
  }

  function ScanAll(s: Scan, b: Bytes): Scan
    decreases |b|
  {
    if b == [] then s else ScanAll(Step(s, b[0]), b[1..])
  }

  // ----- Nesting, said without the scanner

  /** The elements left open by tags that nest; `None` if an end tag does not fit. */
  function OpenAfter(events: seq<XmlEvent>): Option<seq<Bytes>> {
    if events == [] then Some([])
    else
      match OpenAfter(events[..|events| - 1])
      case None => None
      case Some(open) =>
        match events[|events| - 1]
        case Start(name) => Some(open + [name])
        case Attribute(_, _) => Some(open)
        case Words(_) => Some(open)
        case End(name) =>
          if open != [] && open[|open| - 1] == name then Some(open[..|open| - 1]) else None
  }

  /** The elements a scan reports open are those its tags leave open. */
  predicate Nests(s: Scan) {
    OpenAfter(s.events) == Some(s.open)
  }

  /** Whatever bytes are read, the tags seen nest, and exactly the elements reported open are open. */
  lemma {:induction false} ScannedTagsNest(s: Scan, b: Bytes)
    requires Nests(s)
    ensures Nests(ScanAll(s, b))
    decreases |b|
  {
    if b != [] {
      StepNests(s, b[0]);
      ScannedTagsNest(Step(s, b[0]), b[1..]);
    }
  }

  lemma OneMoreEvent(events: seq<XmlEvent>, open: seq<Bytes>, e: XmlEvent)
    requires OpenAfter(events) == Some(open)
    ensures match e
            case Start(name) => OpenAfter(events + [e]) == Some(open + [name])
            case Attribute(_, _) => OpenAfter(events + [e]) == Some(open)
            case Words(_) => OpenAfter(events + [e]) == Some(open)
            case End(name) =>
              open != [] && open[|open| - 1] == name ==> OpenAfter(events + [e]) == Some(open[..|open| - 1])
  {
    assert (events + [e])[..|events|] == events;
  }

  lemma SettleAndPopNest(s: Scan)
    requires Nests(s)
    ensures Nests(Settle(s)) && Nests(Pop(s)) && Nests(Flush(s))
  {
    hide Trim;
    if TextEvents(s.text) == [] {
      assert s.events + [] == s.events;
    } else {
      OneMoreEvent(s.events, s.open, Words(Trim(s.text)));
    }
    if s.mode.StartName? {
      OneMoreEvent(s.events, s.open, Start(s.mode.name));
    }
    if s.open != [] {
      OneMoreEvent(s.events, s.open, End(s.open[|s.open| - 1]));
    }
  }

  lemma StepNests(s: Scan, c: Byte)
    requires Nests(s)
    ensures Nests(Step(s, c))
  {
    hide OpenAfter, Pop, Flush;
    SettleAndPopNest(s);
    if s.mode.Value? {
      OneMoreEvent(s.events, s.open, Attribute(s.mode.name, s.mode.value));
    }
  }

  // ----- Reading one piece of output

  lemma {:induction false} ScanConcat(s: Scan, a: Bytes, b: Bytes)
    ensures ScanAll(s, a + b) == ScanAll(ScanAll(s, a), b)
    decreases |a|
  {
    if a == [] {
      assert a + b == b;
    } else {
      assert (a + b)[0] == a[0] && (a + b)[1..] == a[1..] + b;
      ScanConcat(Step(s, a[0]), a[1..], b);
    }
  }

  lemma ScanOne(s: Scan, c: Byte)
    ensures ScanAll(s, [c]) == Step(s, c)
  {
    assert [c][1..] == [];
  }

  /** Letters, digits, `-`, `.`, `:`, `_` and everything outside ASCII; no byte that has a meaning in a tag. */
  predicate NameByte(c: Byte) {
    0x40 <= c || 0x30 <= c <= 0x3A || c == 0x2D || c == 0x2E
  }

  predicate IsName(name: Bytes) {
    name != [] && forall i :: 0 <= i < |name| ==> NameByte(name[i])
  }

  type Name = b: Bytes | IsName(b) witness [0x41]

  lemma {:induction false} ScanText(s: Scan, text: Bytes)
    requires s.mode == Content && LESS !in text
    ensures ScanAll(s, text) == s.(text := s.text + text)
    decreases |text|
  {
    if text == [] {
      assert s.text + text == s.text;
    } else {
      assert text[0] != LESS;
      ScanText(s.(text := s.text + [text[0]]), text[1..]);
      assert s.text + [text[0]] + text[1..] == s.text + text;
    }
  }

  lemma {:induction false} ScanRestOfName(s: Scan, rest: Bytes)
    requires s.mode.StartName? || s.mode.AttributeName? || s.mode.EndName?
    requires rest == [] || IsName(rest)
    ensures ScanAll(s, rest) == s.(mode := s.mode.(name := s.mode.name + rest))
    decreases |rest|
  {
    if rest == [] {
      assert s.mode.name + rest == s.mode.name;
    } else {
      var next := Step(s, rest[0]);
      ScanRestOfName(next, rest[1..]);
      assert s.mode.name + [rest[0]] + rest[1..] == s.mode.name + rest;
    }
  }

  /** `<name` opens a tag. */
  lemma ScanStart(s: Scan, name: Bytes)
    requires s.mode == Content && IsName(name)
    ensures ScanAll(s, [LESS] + name) == Flush(s).(mode := StartName(name))
  {
    var t := Flush(s);
    ScanConcat(s, [LESS], name);
    ScanOne(s, LESS);
    ScanConcat(t.(mode := Opening), [name[0]], name[1..]);
    ScanOne(t.(mode := Opening), name[0]);
    ScanRestOfName(t.(mode := StartName([name[0]])), name[1..]);
    assert [name[0]] + name[1..] == name;
  }

  lemma {:induction false} ScanValue(s: Scan, rest: Bytes)
    requires s.mode.Value? && LESS !in rest && QUOTE !in rest
    ensures ScanAll(s, rest) == s.(mode := Value(s.mode.name, s.mode.value + rest))
    decreases |rest|
  {
    if rest == [] {
      assert s.mode.value + rest == s.mode.value;
    } else {
      assert rest[0] != LESS && rest[0] != QUOTE;
      ScanValue(Step(s, rest[0]), rest[1..]);
      assert s.mode.value + [rest[0]] + rest[1..] == s.mode.value + rest;
    }
  }

  /** The bytes of one attribute. */
  function AttributeBytes(name: Bytes, value: Bytes): Bytes {
    [SPACE] + name + [EQUALS, QUOTE] + value + [QUOTE]
  }

  lemma ScanAttribute(s: Scan, name: Bytes, value: Bytes)
    requires s.mode.StartName? || s.mode.InTag?
    requires IsName(name) && LESS !in value && QUOTE !in value
    ensures ScanAll(s, AttributeBytes(name, value)) ==
            Settle(s).(events := Settle(s).events + [Attribute(name, value)])
  {
    var t := Settle(s);
    var b1, b2, b3 := [SPACE], [SPACE] + name, [SPACE] + name + [EQUALS, QUOTE];
    ScanConcat(s, b3 + value, [QUOTE]);
    ScanConcat(s, b3, value);
    ScanConcat(s, b2, [EQUALS, QUOTE]);
    ScanConcat(s, b1, name);
    ScanOne(s, SPACE);
    ScanRestOfName(t.(mode := AttributeName([])), name);
    assert [] + name == name;
    assert [EQUALS, QUOTE] == [EQUALS] + [QUOTE];
    var u := t.(mode := AttributeName(name));
    ScanConcat(u, [EQUALS], [QUOTE]);
    ScanOne(u, EQUALS);
    ScanOne(t.(mode := AfterEquals(name)), QUOTE);
    ScanValue(t.(mode := Value(name, [])), value);
    assert [] + value == value;
    ScanOne(t.(mode := Value(name, value)), QUOTE);
  }

  /** `/>` ends an open tag and its element. */
  lemma ScanSelfClose(s: Scan)
    requires s.mode.StartName? || s.mode.InTag?
    ensures ScanAll(s, [SLASH, GREATER]) == Pop(Settle(s))
  {
    assert [SLASH, GREATER] == [SLASH] + [GREATER];
    ScanConcat(s, [SLASH], [GREATER]);
    ScanOne(s, SLASH);
    ScanOne(Settle(s).(mode := Closing), GREATER);
  }

  /** `</name>` ends the innermost element if that is its name. */
  lemma ScanEnd(s: Scan, name: Bytes)
    requires s.mode == Content && IsName(name) && s.open != [] && s.open[|s.open| - 1] == name
    ensures ScanAll(s, [LESS, SLASH] + name + [GREATER]) == Pop(Flush(s))
  {
    var t := Flush(s);
    ScanConcat(s, [LESS, SLASH] + name, [GREATER]);
    ScanConcat(s, [LESS, SLASH], name);
    assert [LESS, SLASH] == [LESS] + [SLASH];
    ScanConcat(s, [LESS], [SLASH]);
    ScanOne(s, LESS);
    ScanOne(t.(mode := Opening), SLASH);
    ScanRestOfName(t.(mode := EndName([])), name);
    assert [] + name == name;
    ScanOne(t.(mode := EndName(name)), GREATER);
  }
}

/**
  `XmlWriter`: writes elements, attributes and text, keeping a stack of open elements and
  the indentation.  Its invariant reads back every byte written so far.
 */
module XmlWriter {
  import opened Common
  import opened XmlScanner
  import XmlEncode

  function Spaces(n: nat): (b: Bytes)
    ensures |b| == n && White(b)
  {
    seq(n, _ => SPACE)
  }

  /** `xml version="1.0" encoding="UTF-8"?` */
  const DECLARED: Bytes :=
    [0x78, 0x6D, 0x6C, SPACE]
    + [0x76, 0x65, 0x72, 0x73, 0x69, 0x6F, 0x6E, EQUALS, QUOTE, 0x31, 0x2E, 0x30, QUOTE, SPACE]
    + [0x65, 0x6E, 0x63, 0x6F, 0x64, 0x69, 0x6E, 0x67, EQUALS, QUOTE, 0x55, 0x54, 0x46, 0x2D, 0x38, QUOTE]
    + [QUESTION]

  const DECLARATION: Bytes := [LESS, QUESTION] + DECLARED + [GREATER] + [NEWLINE]

  const TRUE_TEXT: Bytes := [0x74, 0x72, 0x75, 0x65]
  const FALSE_TEXT: Bytes := [0x66, 0x61, 0x6C, 0x73, 0x65]

  lemma {:induction false} ScanDeclarationBody(s: Scan, b: Bytes)
    requires s.mode == Declaration && GREATER !in b
    ensures ScanAll(s, b) == s
    decreases |b|
  {
    if b != [] {
      assert b[0] != GREATER;
      ScanDeclarationBody(s, b[1..]);
    }
  }

  lemma ScanDeclaration()
    ensures ScanAll(BEGIN, DECLARATION) == BEGIN.(text := [NEWLINE])
  {
    hide ScanAll, TextEvents;
    ScanConcat(BEGIN, [LESS, QUESTION] + DECLARED + [GREATER], [NEWLINE]);
    ScanConcat(BEGIN, [LESS, QUESTION] + DECLARED, [GREATER]);
    ScanConcat(BEGIN, [LESS, QUESTION], DECLARED);
    assert [LESS, QUESTION] == [LESS] + [QUESTION];
    ScanConcat(BEGIN, [LESS], [QUESTION]);
    ScanOne(BEGIN, LESS);
    ScanOne(BEGIN.(mode := Opening), QUESTION);
    FlushNothing(BEGIN);
    ScanDeclarationBody(BEGIN.(mode := Declaration), DECLARED);
    ScanOne(BEGIN.(mode := Declaration), GREATER);
    ScanOne(BEGIN, NEWLINE);
  }

  /** What `writeAttribute` adds: nothing for an empty name or an empty value. */
  ghost function AttributeEvents(name: Bytes, value: Bytes): seq<InnerEvent> {
    if name == [] || value == [] then []
    else [Attribute(name, XmlEncode.Encoding(value, 0, XmlEncode.ForAttributes))]
  }

  /** What `writeText` adds as the first thing in an element. */
  ghost function WordEvents(text: Bytes): seq<InnerEvent> {
    TextEvents(XmlEncode.Encoding(text, 0, XmlEncode.ForTextNodes))
  }

  /** The tags and attributes among what a reader has seen. */
  function TagsOf(events: seq<XmlEvent>): seq<XmlEvent> {
    if events == [] then []
    else
      var n := |events| - 1;
      TagsOf(events[..n]) + if events[n].Words? then [] else [events[n]]
  }

  lemma TextHasNoTags(events: seq<XmlEvent>, text: Bytes)
    ensures TagsOf(events + TextEvents(text)) == TagsOf(events)
  {
    if Trim(text) == [] {
      assert events + TextEvents(text) == events;
    } else {
      assert (events + [Words(Trim(text))])[..|events|] == events;
    }
  }

  class XmlWriter {
    var tagIsOpen: bool
    var needsNewline: bool
    var tags: seq<Bytes>
    var indent: Bytes
    /** The bytes sent to the output stream. */
    var os: Bytes

    /** Where a reader of the output so far is. */
    ghost function Reader(): Scan
      reads this
    {
      ScanAll(BEGIN, os)
    }

    /** What a reader has seen so far. */
    ghost function Events(): seq<XmlEvent>
      reads this
    {
      Settle(ScanAll(BEGIN, os)).events
    }

    /**
      A reader of the output so far is between the parts of a tag or in content, as
      `tagIsOpen` says, and exactly the elements in `tags` are open to it.
     */
    ghost predicate Valid()
      reads this
    {
      && Settle(ScanAll(BEGIN, os)) == Scan(if tagIsOpen then InTag else Content, tags, Events(), [])
      && indent == Spaces(2 * |tags|)
      && (tagIsOpen ==> tags != [] && !needsNewline)
      && forall i :: 0 <= i < |tags| ==> IsName(tags[i])
    }

    /** What finishes a tag that is still open. */
    ghost function CloseBytes(): Bytes
      reads this
    {
      CloseBytesOf(tagIsOpen)
    }

    static ghost function CloseBytesOf(open: bool): Bytes {
      if open then [GREATER, NEWLINE] else []
    }

    ghost function NewlineBytes(): Bytes
      reads this
    {
      if needsNewline then [NEWLINE] else []
    }

    constructor ()
      ensures Valid() && tags == [] && Events() == [] && !tagIsOpen
    {
      tagIsOpen, needsNewline, tags, indent := false, false, [], [];
      os := DECLARATION;
      ScanDeclaration();
      WhiteAround([NEWLINE], [], []);
    }

    /** White space between tags and around texts means nothing to the reader. */
    ghost method WhiteSpace(before: Bytes, white: Bytes)
      requires ScanAll(BEGIN, before).mode == Content && White(white)
      ensures ScanAll(BEGIN, before + white).mode == Content
      ensures Settle(ScanAll(BEGIN, before + white)) == Settle(ScanAll(BEGIN, before))
      ensures White(ScanAll(BEGIN, before).text) ==> White(ScanAll(BEGIN, before + white).text)
    {
      var s := ScanAll(BEGIN, before);
      ScanConcat(BEGIN, before, white);
      assert LESS !in white;
      ScanText(s, white);
      WhiteAround([], s.text, white);
    }

    method EnsureTagClosed()
      requires Valid()
      modifies this
      ensures Valid() && !tagIsOpen && tags == old(tags) && Events() == old(Events())
      ensures os == old(os) + old(CloseBytes()) && needsNewline == old(needsNewline)
      ensures old(tagIsOpen) ==> White(ScanAll(BEGIN, os).text)
    {
      hide TextEvents;
      if tagIsOpen {
        ScanConcat(BEGIN, os, [GREATER]);
        ScanOne(ScanAll(BEGIN, os), GREATER);
        FlushNothing(ScanAll(BEGIN, os + [GREATER]));
        WhiteSpace(os + [GREATER], [NEWLINE]);
        assert os + [GREATER] + [NEWLINE] == os + [GREATER, NEWLINE];
        os := os + [GREATER, NEWLINE];
        tagIsOpen := false;
      }
    }

    method NewlineIfNecessary()
      requires Valid()
      modifies this
      ensures Valid() && !needsNewline && tags == old(tags) && tagIsOpen == old(tagIsOpen)
      ensures Events() == old(Events()) && os == old(os) + old(NewlineBytes())
    {
      if needsNewline {
        WhiteSpace(os, [NEWLINE]);
        os := os + [NEWLINE];
        needsNewline := false;
      }
    }

    method StartElement(name: Bytes)
      requires Valid() && IsName(name)
      modifies this
      ensures Valid() && tagIsOpen && tags == old(tags) + [name]
      ensures Events() == old(Events()) + [Start(name)] && !needsNewline
      ensures os == old(os) + old(CloseBytes()) + old(NewlineBytes()) + Spaces(2 * |old(tags)|) + [LESS] + name
    {
      hide ScanAll, TextEvents;
      EnsureTagClosed();
      NewlineIfNecessary();
      WhiteSpace(os, indent);
      ScanConcat(BEGIN, os + indent, [LESS] + name);
      ScanStart(ScanAll(BEGIN, os + indent), name);
      assert os + indent + ([LESS] + name) == os + indent + [LESS] + name;
      os := os + indent + [LESS] + name;
      tags := tags + [name];
      indent := indent + Spaces(2);
      tagIsOpen := true;
    }

    /** What a reader makes of the end of the innermost element, in either form. */
    ghost method EndRead(end: Bytes)
      requires Valid() && tags != []
      requires end == if tagIsOpen then [SLASH, GREATER]
                      else Spaces(2 * (|tags| - 1)) + [LESS, SLASH] + tags[|tags| - 1] + [GREATER]
      ensures ScanAll(BEGIN, os + end) == Pop(Settle(ScanAll(BEGIN, os)))
    {
      hide ScanAll, TextEvents, Pop;
      if tagIsOpen {
        ScanConcat(BEGIN, os, end);
        ScanSelfClose(ScanAll(BEGIN, os));
      } else {
        var white, name := Spaces(2 * (|tags| - 1)), tags[|tags| - 1];
        WhiteSpace(os, white);
        ScanConcat(BEGIN, os + white, [LESS, SLASH] + name + [GREATER]);
        assert os + white + ([LESS, SLASH] + name + [GREATER]) == os + end;
        ScanEnd(ScanAll(BEGIN, os + white), name);
      }
    }

    /** The newline after the end of an element. */
    ghost method EndSettled(before: Bytes, s: Scan)
      requires ScanAll(BEGIN, before) == Pop(s) && s.open != [] && s.text == []
      ensures Settle(ScanAll(BEGIN, before + [NEWLINE])) == Pop(s)
    {
      hide ScanAll, TextEvents;
      FlushNothing(Pop(s));
      WhiteSpace(before, [NEWLINE]);
    }

    method EndElement()
      requires Valid() && tags != []
      modifies this
      ensures Valid() && !tagIsOpen && tags == old(tags)[..|old(tags)| - 1]
      ensures Events() == old(Events()) + [End(old(tags)[|old(tags)| - 1])] && !needsNewline
      ensures os == old(os) + old(NewlineBytes())
                    + (if old(tagIsOpen) then [SLASH, GREATER]
                       else Spaces(2 * |tags|) + [LESS, SLASH] + old(tags)[|old(tags)| - 1] + [GREATER])
                    + [NEWLINE]
    {
      hide ScanAll, TextEvents, Settle;
      NewlineIfNecessary();
      ghost var s := Settle(ScanAll(BEGIN, os));
      ghost var end := if tagIsOpen then [SLASH, GREATER]
                       else Spaces(2 * (|tags| - 1)) + [LESS, SLASH] + tags[|tags| - 1] + [GREATER];
      EndRead(end);
      EndSettled(os + end, s);
      ghost var written := os;
      indent := indent[..|indent| - 2];
      assert indent == Spaces(2 * (|tags| - 1));
      if tagIsOpen {
        os := os + [SLASH, GREATER];
        tagIsOpen := false;
      } else {
        os := os + (indent + [LESS, SLASH] + tags[|tags| - 1] + [GREATER]);
      }
      assert os == written + end;
      os := os + [NEWLINE];
      tags := tags[..|tags| - 1];
      assert Settle(ScanAll(BEGIN, os)) == Pop(s);
    }

    ghost method AttributeWritten(name: Bytes, value: Bytes)
      requires Valid() && tagIsOpen && IsName(name) && LESS !in value && QUOTE !in value
      ensures Settle(ScanAll(BEGIN, os + AttributeBytes(name, value))) ==
              Scan(InTag, tags, Events() + [Attribute(name, value)], [])
    {
      ScanConcat(BEGIN, os, AttributeBytes(name, value));
      ScanAttribute(ScanAll(BEGIN, os), name, value);
    }

    method WriteAttribute(name: Bytes, attribute: Bytes)
      requires Valid() && tagIsOpen && (name == [] || IsName(name))
      modifies this
      ensures Valid() && tagIsOpen && tags == old(tags)
      ensures Events() == old(Events()) + AttributeEvents(name, attribute)
      ensures os == old(os) + if name == [] || attribute == [] then []
                              else AttributeBytes(name, XmlEncode.Encoding(attribute, 0, XmlEncode.ForAttributes))
    {
      if name != [] && attribute != [] {
        var value := XmlEncode.EncodeTo(attribute, XmlEncode.ForAttributes);
        XmlEncode.EncodingIsSafe(attribute, 0, XmlEncode.ForAttributes);
        AttributeWritten(name, value);
        os := os + AttributeBytes(name, value);
      }
    }

    /** Booleans are written even under an empty name, so here the name must be one. */
    method WriteBoolean(name: Bytes, attribute: bool)
      requires Valid() && tagIsOpen && IsName(name)
      modifies this
      ensures Valid() && tagIsOpen && tags == old(tags)
      ensures Events() == old(Events()) + [Attribute(name, if attribute then TRUE_TEXT else FALSE_TEXT)]
      ensures os == old(os) + AttributeBytes(name, if attribute then TRUE_TEXT else FALSE_TEXT)
    {
      var value := if attribute then TRUE_TEXT else FALSE_TEXT;
      AttributeWritten(name, value);
      os := os + AttributeBytes(name, value);
    }

    /** A text in an element: what was written before is white space, as far as the last tag. */
    ghost method TextWritten(before: Bytes, encoded: Bytes)
      requires ScanAll(BEGIN, before).mode == Content && LESS !in encoded
      ensures ScanAll(BEGIN, before + encoded).mode == Content
      ensures var s := ScanAll(BEGIN, before);
              && ScanAll(BEGIN, before + encoded) == s.(text := s.text + encoded)
              && Settle(ScanAll(BEGIN, before + encoded)).open == Settle(s).open
              && TagsOf(Settle(ScanAll(BEGIN, before + encoded)).events) == TagsOf(Settle(s).events)
              && (White(s.text) ==>
                    Settle(ScanAll(BEGIN, before + encoded)).events == Settle(s).events + TextEvents(encoded))
    {
      hide TextEvents, TagsOf;
      var s := ScanAll(BEGIN, before);
      TextHasNoTags(s.events, s.text);
      TextHasNoTags(s.events, s.text + encoded);
      ScanConcat(BEGIN, before, encoded);
      ScanText(s, encoded);
      if White(s.text) {
        WhiteAround(s.text, encoded, []);
      }
    }

    method WriteText(text: Bytes, indented: bool)
      requires Valid()
      modifies this
      ensures Valid() && tags == old(tags)
      ensures TagsOf(Events()) == TagsOf(old(Events()))
      ensures old(tagIsOpen) ==> Events() == old(Events()) + WordEvents(text)
      ensures !old(tagIsOpen) ==>
                var encoded := XmlEncode.Encoding(text, 0, XmlEncode.ForTextNodes);
                Reader() == old(Reader()).(text := old(Reader()).text + encoded)
      ensures tagIsOpen == (old(tagIsOpen) && text == [])
      ensures needsNewline == (old(needsNewline) || text != [])
      ensures os == old(os) + if text == [] then [] else
                      old(CloseBytes()) + (if old(tagIsOpen) && indented then Spaces(2 * |tags|) else [])
                      + XmlEncode.Encoding(text, 0, XmlEncode.ForTextNodes)
    {
      hide ScanAll, XmlEncode.Encoding, XmlEncode.IsControl, TextEvents, TagsOf;
      XmlEncode.EncodingIsSafe(text, 0, XmlEncode.ForTextNodes);
      WhiteAround([], [], []);
      assert Reader().text + [] == Reader().text;
      if text != [] {
        var tagWasOpen := tagIsOpen;
        EnsureTagClosed();
        if tagWasOpen && indented {
          WhiteSpace(os, indent);
          os := os + indent;
        }
        ghost var lead := CloseBytesOf(tagWasOpen) + if tagWasOpen && indented then Spaces(2 * |tags|) else [];
        assert os == old(os) + lead;
        assert !tagWasOpen ==> os == old(os);
        var encoded := XmlEncode.EncodeTo(text, XmlEncode.ForTextNodes);
        TextWritten(os, encoded);
        assert old(os) + (lead + encoded) == os + encoded;
        os := os + encoded;
        needsNewline := true;
      }
    }

    /** The destructor ends whatever is still open, so the whole output nests. */
    method Close()
      requires Valid()
      modifies this
      ensures Valid() && tags == [] && old(os) <= os
      ensures OpenAfter(Events()) == Some([])
    {
      while tags != []
        invariant Valid() && old(os) <= os
        decreases |tags|
      {
        EndElement();
      }
      TagsAreOpen();
    }

    /** The elements on the stack are those that the tags written leave open. */
    ghost method TagsAreOpen()
      requires Valid()
      ensures OpenAfter(Events()) == Some(tags)
    {
      assert Nests(BEGIN);
      ScannedTagsNest(BEGIN, os);
      SettleAndPopNest(ScanAll(BEGIN, os));
    }
  }
}

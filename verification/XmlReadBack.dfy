/**
  What a reader of a report sees that also expands entities: wherever nothing had to be
  hex-escaped, the original attribute values, and the original texts without the white space
  around them.  A reader that undoes escapes as well gets any text back, unless it held
  something that looks like an escape.
 */
module XmlReadBack {
  import opened Common
  import opened XmlEncode
  import opened XmlReport
  import opened XmlWriter
  import X = XmlScanner

  // ----- Expanding and trimming

  /** The character at the front of encoded text, and the number of bytes it takes up. */
  function Front(b: Bytes): (r: (Byte, nat))
    requires b != []
    ensures 0 < r.1 <= |b|
    ensures r.1 == 1 ==> r.0 == b[0]
    ensures r.1 > 1 ==> !X.IsWhite(r.0) && b[0] == AMPERSAND && b[r.1 - 1] == 0x3B
  {
    if LT_ENTITY <= b then (LESS, 4)
    else if AMP_ENTITY <= b then (AMPERSAND, 5)
    else if GT_ENTITY <= b then (GREATER, 4)
    else if QUOT_ENTITY <= b then (QUOTE, 6)
    else (b[0], 1)
  }

  lemma ExpandFront(b: Bytes)
    requires b != []
    ensures Expand(b) == [Front(b).0] + Expand(b[Front(b).1..])
  {
  }

  /** An entity ends in a semicolon, so white space behind `b` is not part of one. */
  lemma FrontBeforeWhite(b: Bytes, c: Byte)
    requires b != [] && X.IsWhite(c)
    ensures Front(b + [c]) == Front(b)
  {
    PrefixBeforeWhite(LT_ENTITY, b, c);
    PrefixBeforeWhite(AMP_ENTITY, b, c);
    PrefixBeforeWhite(GT_ENTITY, b, c);
    PrefixBeforeWhite(QUOT_ENTITY, b, c);
  }

  lemma PrefixBeforeWhite(entity: Bytes, b: Bytes, c: Byte)
    requires entity != [] && entity[|entity| - 1] == 0x3B && X.IsWhite(c)
    ensures entity <= b + [c] <==> entity <= b
  {
    if entity <= b + [c] {
      assert entity[|entity| - 1] == (b + [c])[|entity| - 1];
      assert |entity| <= |b|;
      assert (b + [c])[..|entity|] == b[..|entity|];
    }
  }

  lemma {:induction false} ExpandSnoc(b: Bytes, c: Byte)
    requires X.IsWhite(c)
    ensures Expand(b + [c]) == Expand(b) + [c]
    decreases |b|
  {
    hide Expand, Front;
    if b == [] {
      assert b + [c] == [c] + [];
      ExpandByte([c] + []);
      assert ([c] + [])[1..] == [];
      ExpandNothing();
    } else {
      var n := Front(b).1;
      FrontBeforeWhite(b, c);
      ExpandFront(b);
      ExpandFront(b + [c]);
      assert (b + [c])[n..] == b[n..] + [c];
      ExpandSnoc(b[n..], c);
    }
  }

  lemma ExpandNothing()
    ensures Expand([]) == []
  {
  }

  lemma {:induction false} LastExpanded(b: Bytes)
    requires b != [] && !X.IsWhite(b[|b| - 1])
    ensures Expand(b) != [] && !X.IsWhite(Expand(b)[|Expand(b)| - 1])
    decreases |b|
  {
    hide Expand, Front;
    var n := Front(b).1;
    ExpandFront(b);
    if n == |b| {
      assert b[n..] == [];
      ExpandNothing();
    } else {
      LastExpanded(b[n..]);
    }
  }

  lemma {:induction false} TrimLeftExpand(b: Bytes)
    ensures X.TrimLeft(Expand(b)) == Expand(X.TrimLeft(b))
    decreases |b|
  {
    hide Expand, Front;
    ExpandNothing();
    if b != [] {
      ExpandFront(b);
      if X.IsWhite(b[0]) {
        TrimLeftExpand(b[1..]);
        assert Expand(b)[1..] == Expand(b[1..]);
      }
    }
  }

  lemma {:induction false} TrimRightExpand(b: Bytes)
    ensures X.TrimRight(Expand(b)) == Expand(X.TrimRight(b))
    decreases |b|
  {
    hide Expand;
    ExpandNothing();
    if b != [] {
      var n := |b| - 1;
      if X.IsWhite(b[n]) {
        assert b == b[..n] + [b[n]];
        ExpandSnoc(b[..n], b[n]);
        TrimRightExpand(b[..n]);
        assert Expand(b)[..|Expand(b)| - 1] == Expand(b[..n]);
      } else {
        LastExpanded(b);
      }
    }
  }

  lemma ExpandTrim(b: Bytes)
    ensures Expand(X.Trim(b)) == X.Trim(Expand(b))
  {
    TrimLeftExpand(b);
    TrimRightExpand(X.TrimLeft(b));
  }

  lemma ExpandIsEmpty(b: Bytes)
    ensures Expand(b) == [] <==> b == []
  {
  }

  // ----- A reader that expands entities

  function ExpandEvent(e: X.XmlEvent): (r: X.XmlEvent)
    ensures e.Attribute? || e.Words? ==> r.Attribute? || r.Words?
  {
    match e
    case Attribute(name, value) => X.Attribute(name, Expand(value))
    case Words(text) => X.Words(Expand(text))
    case _ => e
  }

  function ExpandEvents(events: seq<X.XmlEvent>): seq<X.XmlEvent> {
    seq(|events|, i requires 0 <= i < |events| => ExpandEvent(events[i]))
  }

  function ExpandInner(events: seq<X.InnerEvent>): (r: seq<X.InnerEvent>)
    ensures r == ExpandEvents(events)
  {
    seq(|events|, i requires 0 <= i < |events| => ExpandEvent(events[i]))
  }

  lemma ExpandConcat(a: seq<X.XmlEvent>, b: seq<X.XmlEvent>)
    ensures ExpandEvents(a + b) == ExpandEvents(a) + ExpandEvents(b)
  {
  }

  /** Attribute values are read back as they were given. */
  lemma AttributeReadBack(name: Bytes, value: Bytes)
    requires NothingEscaped(value, 0, ForAttributes)
    ensures ExpandEvents(AttributeEvents(name, value)) ==
            if name == [] || value == [] then [] else [X.Attribute(name, value)]
  {
    ExpandInvertsEncode(value, 0, ForAttributes);
    assert value[0..] == value;
  }

  /** Texts are read back as they were given, without the white space around them. */
  lemma WordsReadBack(text: Bytes)
    requires NothingEscaped(text, 0, ForTextNodes)
    ensures ExpandEvents(WordEvents(text)) == X.TextEvents(text)
  {
    hide Expand, Encoding, NothingEscaped, X.Trim;
    var encoded := Encoding(text, 0, ForTextNodes);
    ExpandInvertsEncode(text, 0, ForTextNodes);
    assert text[0..] == text;
    ExpandTrim(encoded);
    ExpandIsEmpty(X.Trim(encoded));
  }

  // ----- Whole documents

  /** The element with its entities expanded. */
  function Original(e: Element): Element {
    Element(e.name, ExpandInner(e.attributes), OriginalAll(e.kids))
  }

  function OriginalAll(es: seq<Element>): seq<Element> {
    if es == [] then [] else [Original(es[0])] + OriginalAll(es[1..])
  }

  /** Reading a document and then expanding gives the document with its entities expanded. */
  lemma {:induction false} OriginalReadBack(e: Element)
    ensures ExpandEvents(Flatten(e)) == Flatten(Original(e))
    decreases e, 1
  {
    hide ExpandEvents;
    OriginalAllReadBack(e.kids);
    var start, end := [X.Start(e.name)], [X.End(e.name)];
    TagsStay(e.name);
    ExpandConcat(start, e.attributes);
    ExpandConcat(start + e.attributes, FlattenAll(e.kids));
    ExpandConcat(start + e.attributes + FlattenAll(e.kids), end);
  }

  lemma TagsStay(name: Bytes)
    ensures ExpandEvents([X.Start(name)]) == [X.Start(name)] && ExpandEvents([X.End(name)]) == [X.End(name)]
    ensures ExpandEvents([]) == []
  {
  }

  lemma {:induction false} OriginalAllReadBack(es: seq<Element>)
    ensures ExpandEvents(FlattenAll(es)) == FlattenAll(OriginalAll(es))
    decreases es, 0
  {
    hide ExpandEvents, Flatten, Original;
    TagsStay([]);
    if es != [] {
      OriginalReadBack(es[0]);
      OriginalAllReadBack(es[1..]);
      ExpandConcat(Flatten(es[0]), FlattenAll(es[1..]));
      assert OriginalAll(es)[1..] == OriginalAll(es[1..]);
    }
  }

  /** An element that holds a text holds the original text, without the white space around it. */
  lemma WordedReadBack(name: Bytes, text: CString)
    requires NothingEscaped(Ascii(text), 0, ForTextNodes)
    ensures Original(Worded(name, text)) == Element(name, X.TextEvents(Ascii(text)), [])
  {
    WordsReadBack(Ascii(text));
  }

  // ----- A reader that undoes escapes as well

  function Unescape(b: Bytes): Bytes
    decreases |b|
  {
    if b == [] then []
    else if IsEscape(b) then [EscapeValue(b)] + Unescape(b[4..])
    else [Front(b).0] + Unescape(b[Front(b).1..])
  }

  lemma UnescapeNothing()
    ensures Unescape([]) == []
  {
  }

  lemma UnescapeOne(b: Bytes)
    requires b != []
    ensures IsEscape(b) ==> Unescape(b) == [EscapeValue(b)] + Unescape(b[4..])
    ensures !IsEscape(b) ==> Unescape(b) == [Front(b).0] + Unescape(b[Front(b).1..])
    ensures b[0] != AMPERSAND ==> Front(b) == (b[0], 1)
  {
    hide Front;
    FrontOfPlain(b);
  }

  lemma FrontOfPlain(b: Bytes)
    requires b != []
    ensures b[0] != AMPERSAND ==> Front(b) == (b[0], 1)
  {
    assert LT_ENTITY[0] == AMP_ENTITY[0] == GT_ENTITY[0] == QUOT_ENTITY[0] == AMPERSAND;
  }

  /** Bytes that begin neither an escape nor an entity are kept. */
  lemma {:induction false} UnescapePlain(plain: Bytes, rest: Bytes)
    requires forall i :: 0 <= i < |plain| ==> plain[i] != 0x5C && plain[i] != AMPERSAND
    ensures Unescape(plain + rest) == plain + Unescape(rest)
    decreases |plain|
  {
    hide Unescape, Front;
    if plain == [] {
      assert plain + rest == rest;
    } else {
      var b := plain + rest;
      assert b[0] == plain[0] && b[1..] == plain[1..] + rest;
      UnescapeOne(b);
      UnescapePlain(plain[1..], rest);
    }
  }

  lemma UnescapeEntity(s: Bytes, idx: nat, forWhat: ForWhat, rest: Bytes)
    requires idx < |s| && UnitAt(s, idx, forWhat).Entity?
    ensures Unescape(UnitAt(s, idx, forWhat).text + rest) == [s[idx]] + Unescape(rest)
  {
    hide Unescape, IsEscape;
    var text := UnitAt(s, idx, forWhat).text;
    var b := text + rest;
    EntityFront(s, idx, forWhat, rest);
    EntityIsNoEscape(b);
    UnescapeOne(b);
    assert b[|text|..] == rest;
  }

  lemma EntityIsNoEscape(b: Bytes)
    requires b != [] && b[0] == AMPERSAND
    ensures !IsEscape(b)
  {
  }

  lemma EntityFront(s: Bytes, idx: nat, forWhat: ForWhat, rest: Bytes)
    requires idx < |s| && UnitAt(s, idx, forWhat).Entity?
    ensures var text := UnitAt(s, idx, forWhat).text;
            text != [] && text[0] == AMPERSAND && Front(text + rest) == (s[idx], |text|)
  {
    var text := UnitAt(s, idx, forWhat).text;
    var b := text + rest;
    assert b[..|text|] == text;
    if text != LT_ENTITY {
      assert b[1] != LT_ENTITY[1];
      if text != AMP_ENTITY {
        assert b[1] != AMP_ENTITY[1];
        if text != GT_ENTITY {
          assert b[1] != GT_ENTITY[1];
        }
      }
    }
  }

  /** A unit that is no backslash gives its own bytes back. */
  lemma UnescapeUnit(s: Bytes, idx: nat, forWhat: ForWhat, rest: Bytes)
    requires idx < |s| && s[idx] != 0x5C
    ensures var u := UnitAt(s, idx, forWhat);
            Unescape(TextOf(s, idx, u) + rest) == s[idx..idx + SizeOf(u)] + Unescape(rest)
  {
    hide Unescape, HexEscape, Acceptable, IsEscape, EscapeValue;
    var u := UnitAt(s, idx, forWhat);
    assert s[idx..idx + 1] == [s[idx]];
    if u.Entity? {
      UnescapeEntity(s, idx, forWhat, rest);
    } else if u.Escape? {
      EscapeReadsBack(s[idx], rest);
      var b := HexEscape(s[idx]) + rest;
      NotEmpty(b);
      UnescapeOne(b);
    } else {
      PlainBytes(s, idx, forWhat);
      UnescapePlain(TextOf(s, idx, u), rest);
    }
  }

  lemma NotEmpty(b: Bytes)
    requires IsEscape(b)
    ensures b != []
  {
  }

  /** Letters and digits are written as they are, and nothing else begins with one. */
  lemma PlainFirst(s: Bytes, idx: nat, forWhat: ForWhat, c: Byte)
    requires idx <= |s| && (0x30 <= c <= 0x39 || 0x41 <= c <= 0x5A || 0x61 <= c <= 0x7A)
    ensures var e := Encoding(s, idx, forWhat);
            && (e != [] && e[0] == c <==> idx < |s| && s[idx] == c)
            && (idx < |s| && s[idx] == c ==> e == [c] + Encoding(s, idx + 1, forWhat))
  {
    hide Encoding, Acceptable;
    if idx == |s| {
      NoUnits(s, forWhat);
    } else {
      EncodingStep(s, idx, forWhat);
      EncodingFirst(s, idx, forWhat);
    }
  }

  lemma EncodingFirst(s: Bytes, idx: nat, forWhat: ForWhat)
    requires idx < |s|
    ensures var u := UnitAt(s, idx, forWhat);
            var text := TextOf(s, idx, u);
            && text != []
            && text[0] == (if u.Entity? then AMPERSAND else if u.Escape? then 0x5C else s[idx])
            && (u.Plain? && s[idx] < 0x80 ==> text == [s[idx]])
  {
    hide Acceptable;
    if UnitAt(s, idx, forWhat).Plain? {
      PlainBytes(s, idx, forWhat);
    }
  }

  /** Something that looks like an escape stands at `i`. */
  predicate LooksEscaped(s: Bytes, i: nat) {
    i < |s| && IsEscape(s[i..])
  }

  /** Behind a backslash the output looks like an escape exactly if the input does. */
  lemma BackslashLooksEscaped(s: Bytes, idx: nat, forWhat: ForWhat)
    requires idx < |s| && s[idx] == 0x5C
    ensures var e := Encoding(s, idx, forWhat);
            && e == [0x5C] + Encoding(s, idx + 1, forWhat)
            && (IsEscape(e) <==> LooksEscaped(s, idx))
            && (LooksEscaped(s, idx) ==> e[4..] == Encoding(s, idx + 4, forWhat))
  {
    hide Encoding, IsEscape, BeginsWithDigits;
    var rest, t := Encoding(s, idx + 1, forWhat), s[idx + 1..];
    BackslashPlain(s, idx, forWhat);
    PlainFirst(s, idx + 1, forWhat, 0x78);
    assert s[idx..] == [0x5C] + t;
    if idx + 1 < |s| && s[idx + 1] == 0x78 {
      var hex, u := Encoding(s, idx + 2, forWhat), s[idx + 2..];
      assert rest == [0x78] + hex && t == [0x78] + u;
      TwoDigits(s, idx + 2, forWhat);
      DigitsDecide(hex);
      DigitsDecide(u);
      assert [0x5C] + rest == [0x5C, 0x78] + hex && [0x5C] + t == [0x5C, 0x78] + u;
    } else {
      NoEscapeBehind(rest);
      NoEscapeBehind(t);
    }
  }

  lemma DigitsDecide(hex: Bytes)
    ensures IsEscape([0x5C, 0x78] + hex) <==> BeginsWithDigits(hex)
    ensures BeginsWithDigits(hex) ==> |hex| >= 2 && ([0x5C, 0x78] + hex)[4..] == hex[2..]
  {
  }

  lemma NoEscapeBehind(rest: Bytes)
    requires rest == [] || rest[0] != 0x78
    ensures !IsEscape([0x5C] + rest)
  {
  }

  predicate BeginsWithDigits(b: Bytes) {
    |b| >= 2 && HexValue(b[0]).Some? && HexValue(b[1]).Some?
  }

  lemma BackslashPlain(s: Bytes, idx: nat, forWhat: ForWhat)
    requires idx < |s| && s[idx] == 0x5C
    ensures Encoding(s, idx, forWhat) == [0x5C] + Encoding(s, idx + 1, forWhat)
  {
    hide Encoding;
    EncodingStep(s, idx, forWhat);
    EncodingFirst(s, idx, forWhat);
  }

  lemma DigitFirst(s: Bytes, idx: nat, forWhat: ForWhat)
    requires idx <= |s|
    ensures var e := Encoding(s, idx, forWhat);
            && (e != [] && HexValue(e[0]).Some? <==> idx < |s| && HexValue(s[idx]).Some?)
            && (idx < |s| && HexValue(s[idx]).Some? ==> e == [s[idx]] + Encoding(s, idx + 1, forWhat))
  {
    hide Encoding;
    var e := Encoding(s, idx, forWhat);
    if e != [] && HexValue(e[0]).Some? {
      PlainFirst(s, idx, forWhat, e[0]);
    }
    if idx < |s| && HexValue(s[idx]).Some? {
      PlainFirst(s, idx, forWhat, s[idx]);
    }
  }

  lemma TwoDigits(s: Bytes, idx: nat, forWhat: ForWhat)
    requires idx <= |s|
    ensures var e := Encoding(s, idx, forWhat);
            && (BeginsWithDigits(e) <==> BeginsWithDigits(s[idx..]))
            && (BeginsWithDigits(s[idx..]) ==> e[2..] == Encoding(s, idx + 2, forWhat))
  {
    hide Encoding, HexValue;
    DigitFirst(s, idx, forWhat);
    if idx < |s| {
      DigitFirst(s, idx + 1, forWhat);
      assert s[idx..][0] == s[idx];
      assert idx + 1 < |s| ==> s[idx..][1] == s[idx + 1];
    }
  }

  /**
    From `idx` on at most as many bytes come back as there were, and the same ones exactly if
    nothing looks escaped.
   */
  lemma {:induction false} UnescapeFrom(s: Bytes, idx: nat, forWhat: ForWhat)
    requires idx <= |s|
    ensures |Unescape(Encoding(s, idx, forWhat))| <= |s| - idx
    ensures Unescape(Encoding(s, idx, forWhat)) == s[idx..] <==> forall i :: idx <= i < |s| ==> !LooksEscaped(s, i)
    decreases |s| - idx
  {
    hide Unescape, Encoding, UnitAt, TextOf, IsEscape, EscapeValue, LooksEscaped, Front;
    if idx == |s| {
      NoUnits(s, forWhat);
      UnescapeNothing();
    } else if s[idx] != 0x5C {
      var next := idx + SizeOf(UnitAt(s, idx, forWhat));
      UnescapeFrom(s, next, forWhat);
      NextUnit(s, idx, forWhat);
      UnescapeUnit(s, idx, forWhat, Encoding(s, next, forWhat));
      NothingInside(s, idx, forWhat);
      Joined(s[idx..next], Unescape(Encoding(s, next, forWhat)), s[next..]);
    } else {
      var e := Encoding(s, idx, forWhat);
      BackslashLooksEscaped(s, idx, forWhat);
      UnescapeOne(e);
      if LooksEscaped(s, idx) {
        EscapeSize(s, idx);
        UnescapeFrom(s, idx + 4, forWhat);
      } else {
        UnescapeFrom(s, idx + 1, forWhat);
        assert e[1..] == Encoding(s, idx + 1, forWhat);
        assert s[idx..] == [0x5C] + s[idx + 1..];
        Joined([0x5C], Unescape(Encoding(s, idx + 1, forWhat)), s[idx + 1..]);
      }
    }
  }

  lemma Joined(a: Bytes, b: Bytes, c: Bytes)
    ensures a + b == a + c <==> b == c
  {
    if a + b == a + c {
      assert b == (a + b)[|a|..] == (a + c)[|a|..] == c;
    }
  }

  lemma EscapeSize(s: Bytes, i: nat)
    requires LooksEscaped(s, i)
    ensures i + 4 <= |s|
  {
  }

  /** No escape begins inside a unit that does not begin with a backslash. */
  lemma NothingInside(s: Bytes, idx: nat, forWhat: ForWhat)
    requires idx < |s| && s[idx] != 0x5C
    ensures forall i :: idx <= i < idx + SizeOf(UnitAt(s, idx, forWhat)) ==> !LooksEscaped(s, i)
  {
    hide Acceptable;
    var u := UnitAt(s, idx, forWhat);
    if u.Plain? {
      PlainBytes(s, idx, forWhat);
      var text := TextOf(s, idx, u);
      assert |text| == u.size && forall i :: 0 <= i < |text| ==> text[i] == s[idx + i];
    }
    forall i | idx <= i < idx + SizeOf(u) ensures !LooksEscaped(s, i) {
      assert s[i] != 0x5C;
      assert s[i..][0] == s[i];
    }
  }

  /**
    Every text comes back from a reader that undoes entities and escapes, escaped bytes
    included, exactly if it holds no `\x` with two digits of its own.
   */
  lemma UnescapeReadsBack(s: Bytes, forWhat: ForWhat)
    ensures Unescape(Encoding(s, 0, forWhat)) == s <==> forall i :: 0 <= i < |s| ==> !LooksEscaped(s, i)
  {
    hide Unescape, Encoding, LooksEscaped;
    UnescapeFrom(s, 0, forWhat);
    assert s[0..] == s;
  }
}

// The tables of utf8tab.h and the checks of xmltok.c for UTF-8, and tags with malformed
// characters, which those checks let through.
module XmlUtf8 {
  import opened XmlTok
  import opened XmlContent
  import opened XmlReferences
  import opened XmlSyntax
  import opened XmlAscii
  import opened XmlAttributes
  import opened XmlGetAtts

  // asciitab.h and utf8tab.h
  function Utf8Type(b: byte): ByteType {
    if b < 0x80 then AsciiType(b)
    else if b < 0xC0 then Trail
    else if b < 0xE0 then Lead2
    else if b < 0xF0 then Lead3
    else if b < 0xF5 then Lead4
    else if b < 0xFE then NonXml
    else Malform
  }

  // UTF8_INVALID3 and UTF8_INVALID4; no character of two bytes is refused
  function Utf8Invalid(s: seq<byte>): bool {
    if |s| == 3 then
      if s[0] == 0xED then s[1] / 0x20 % 2 != 0 else s[0] == 0xEF && s[1] == 0xBF && (s[2] == 0xBF || s[2] == 0xBE)
    else |s| == 4 && s[0] == 0xF4 && s[1] / 0x10 % 4 != 0
  }

  // UTF-8, with any tables of name characters
  ghost predicate IsUtf8(enc: Encoding) {
    && (forall b: byte :: enc.typeOf(b) == Utf8Type(b))
    && (forall s: seq<byte> :: enc.isInvalid(s) == Utf8Invalid(s))
  }

  // <a b='?'> with a lead byte and a space for the "?"
  const COPIED: Bytes := [0x3C, 0x61, 0x20, 0x62, 0x3D, 0x27, 0xC3, 0x20, 0x27, 0x3E]

  // <a b='?'> with a line feed, a lead byte and two spaces
  const STORED: Bytes := [0x3C, 0x61, 0x20, 0x62, 0x3D, 0x27, 0x0A, 0xE3, 0x20, 0x20, 0x27, 0x3E]

  ghost predicate TagTypes(enc: Encoding) {
    && enc.typeOf(0x61) == enc.typeOf(0x62) == Hex && enc.typeOf(0x20) == Space && enc.typeOf(0x3D) == Equals
    && enc.typeOf(0x27) == Apos && enc.typeOf(0x3E) == Gt && enc.typeOf(0x0A) == Lf && enc.typeOf(0x78) == Nmstrt
    && enc.typeOf(0xC3) == Lead2 && enc.typeOf(0xE3) == Lead3
    && !enc.isInvalid([0xC3, 0x20]) && !enc.isInvalid([0xE3, 0x20, 0x20])
  }

  lemma ControlMarks(b: byte)
    requires b < 0x20
    ensures SameMark(AsciiType(b), b)
  {
  }

  lemma PunctuationMarks(b: byte)
    requires 0x20 <= b < 0x30
    ensures SameMark(AsciiType(b), b)
  {
    var t := AsciiType(b);
    if b < 0x28 {
      assert t == [Space, Excl, Quot, Num, Other, Percnt, Amp, Apos][b - 0x20];
    } else {
      assert t == [Lpar, Rpar, Ast, Plus, Comma, Minus, NameCh, Sol][b - 0x28];
    }
  }

  lemma DigitMarks(b: byte)
    requires 0x30 <= b < 0x41
    ensures SameMark(AsciiType(b), b)
  {
  }

  lemma LetterMarks(b: byte)
    requires 0x41 <= b < 0x80
    ensures SameMark(AsciiType(b), b)
  {
  }

  lemma Utf8Marks(b: byte)
    ensures SameMark(Utf8Type(b), b)
  {
    if b < 0x80 {
      hide AsciiType, SameMark;
      if b < 0x20 {
        ControlMarks(b);
      } else if b < 0x30 {
        PunctuationMarks(b);
      } else if b < 0x41 {
        DigitMarks(b);
      } else {
        LetterMarks(b);
      }
    }
  }

  // UTF-8 agrees with ASCII on the bytes of ASCII
  lemma Utf8Table(enc: Encoding)
    requires IsUtf8(enc)
    ensures AsciiTable(enc)
  {
    hide Utf8Type, SameMark;
    forall b: byte ensures SameMark(enc.typeOf(b), b) { Utf8Marks(b); }
  }

  lemma Utf8TagTypes(enc: Encoding)
    requires IsUtf8(enc)
    ensures TagTypes(enc)
  {
  }

  // What comes in front of a value, for a tag that begins like these.
  lemma NameScans(enc: Encoding, b: Bytes)
    requires TagTypes(enc) && 6 < |b| && b[..6] == COPIED[..6]
    ensures enc.ScanLt(b, 1) == enc.AttValue(b, Apos, 6)
    ensures Attributes(enc, b, TagStart, 1) == Attributes(enc, b, InValue(3, Apos, 6, true), 6)
  {
    hide Encoding.AttValue, Encoding.EmptyEnd, Encoding.ScanComment, Encoding.ScanPi, Encoding.ScanEndTag, Encoding.ScanCdataSection;
    assert b[1] == 0x61 && b[2] == 0x20 && b[3] == 0x62 && b[4] == 0x3D && b[5] == 0x27 by {
      assert forall i :: 0 <= i < 6 ==> b[i] == b[..6][i];
    }
    assert enc.AttAfterEquals(b, 5) == enc.AttValue(b, Apos, 6);
    assert enc.AttName(b, false, 4) == enc.AttAfterEquals(b, 5);
    assert enc.StartSpace(b, 3) == enc.AttName(b, false, 4);
    assert enc.StartName(b, false, 2) == enc.StartSpace(b, 3);
    NameAttributes(enc, b);
  }

  // one step of getAtts outside values, or in one and not at its end
  lemma NextAttributes(enc: Encoding, b: Bytes, p: Phase, i: nat, q: Phase, w: nat)
    requires i < |b| && !XmlGetAtts.AtEnd(enc, b, p, i) && (p.InValue? ==> enc.typeOf(b[i]) != p.quote)
    requires q == NextPhase(enc, b, p, i) && w == enc.Width(b, i)
    ensures Attributes(enc, b, p, i) == Attributes(enc, b, q, i + w)
  {
    hide Attributes, NextPhase, XmlGetAtts.AtEnd, Encoding.Width;
    AttributesStep(enc, b, p, i);
  }

  lemma NameAttributes(enc: Encoding, b: Bytes)
    requires TagTypes(enc) && 6 < |b| && b[1] == 0x61 && b[2] == 0x20 && b[3] == 0x62 && b[4] == 0x3D && b[5] == 0x27
    ensures Attributes(enc, b, TagStart, 1) == Attributes(enc, b, InValue(3, Apos, 6, true), 6)
  {
    hide Attributes, Alters;
    NextAttributes(enc, b, TagStart, 1, TagName(false), 1);
    NextAttributes(enc, b, TagName(false), 2, TagSpace, 1);
    NextAttributes(enc, b, TagSpace, 3, InAttName(3, false), 1);
    NextAttributes(enc, b, InAttName(3, false), 4, AfterEquals(3), 1);
    NextAttributes(enc, b, AfterEquals(3), 5, InValue(3, Apos, 6, true), 1);
  }

  // the end of a tag whose value ends at i
  lemma EndScans(enc: Encoding, b: Bytes, i: nat, plain: bool)
    requires TagTypes(enc) && i + 2 == |b| && b[i] == 0x27 && b[i + 1] == 0x3E
    ensures enc.AttValue(b, Apos, i) == Found(StartTagWithAtts, i + 2)
    ensures Attributes(enc, b, InValue(3, Apos, 6, plain), i) == [Attribute(3, 6, i, plain)]
  {
    assert enc.AttValueEnd(b, i + 1) == Found(StartTagWithAtts, i + 2);
    assert Attributes(enc, b, AfterValue, i + 1) == [];
  }

  // The scanner takes the lead byte and the space for a character, getAtts marks the value as
  // normalized, and its copy is not what storeAttributeValue makes of it.
  lemma MalformedCopied(c: Config, open: set<Bytes>)
    requires IsUtf8(c.external) && IsUtf8(c.internal)
    ensures c.external.ScanLt(COPIED, 1) == Found(StartTagWithAtts, 10) && Accepts(c.external, COPIED, TagStart, 1)
    ensures Attributes(c.external, COPIED, TagStart, 1) == [Attribute(3, 6, 8, true)]
    ensures Store(c, false, open, COPIED[6..8]) != Appended(COPIED[6..8])
  {
    hide AsciiTable, IsUtf8, Store, Accepts, Attributes, SpacesKept, Encoding.ScanLt;
    Utf8TagTypes(c.external);
    Utf8Table(c.external);
    Utf8Table(c.internal);
    CopiedTag(c.external, COPIED);
    CopiedDiffers(c, open, COPIED, Attribute(3, 6, 8, true));
  }

  lemma CopiedDiffers(c: Config, open: set<Bytes>, b: Bytes, a: Attribute)
    requires AsciiTables(c) && 8 < |b| && Accepts(c.external, b, TagStart, 1)
    requires Attributes(c.external, b, TagStart, 1) == [a] && a == Attribute(3, 6, 8, true) && b[7] == SPACE
    ensures Store(c, false, open, b[6..8]) != Appended(b[6..8])
  {
    hide Store, Accepts, Attributes, SpacesKept;
    assert a in Attributes(c.external, b, TagStart, 1);
    assert b[6..8][1] == b[7];
    CopiedAsStored(c, false, open, b, a);
  }

  lemma CopiedTag(enc: Encoding, b: Bytes)
    requires TagTypes(enc) && b == COPIED
    ensures enc.ScanLt(b, 1) == Found(StartTagWithAtts, 10) && Accepts(enc, b, TagStart, 1)
    ensures Attributes(enc, b, TagStart, 1) == [Attribute(3, 6, 8, true)]
  {
    hide TagTypes, Accepts, Encoding.ScanLt, Encoding.AttValue, Attributes;
    NameScans(enc, b);
    EndScans(enc, b, 8, true);
    CopiedScans(enc, b);
    CopiedAttributes(enc, b);
    StartAccepts(enc, b);
  }

  lemma StartAccepts(enc: Encoding, b: Bytes)
    requires 1 <= |b| && enc.ScanLt(b, 1) == Found(StartTagWithAtts, |b|)
    ensures Accepts(enc, b, TagStart, 1)
  {
    hide Encoding.ScanLt;
  }

  lemma CopiedScans(enc: Encoding, b: Bytes)
    requires TagTypes(enc) && b == COPIED
    ensures enc.AttValue(b, Apos, 6) == enc.AttValue(b, Apos, 8)
  {
    hide Encoding.AttValueEnd;
    assert b[6..8] == [0xC3, 0x20];
  }

  lemma CopiedAttributes(enc: Encoding, b: Bytes)
    requires TagTypes(enc) && b == COPIED
    ensures Attributes(enc, b, InValue(3, Apos, 6, true), 6) == Attributes(enc, b, InValue(3, Apos, 6, true), 8)
  {
    hide Attributes;
    NextAttributes(enc, b, InValue(3, Apos, 6, true), 6, InValue(3, Apos, 6, true), 2);
  }

  // A value that the scanner accepts and getAtts leaves to storeAttributeValue, which does not
  // make of it what section 3.3.3 asks for.
  lemma MalformedStored(c: Config, open: set<Bytes>)
    requires IsUtf8(c.external) && IsUtf8(c.internal)
    ensures c.external.ScanLt(STORED, 1) == Found(StartTagWithAtts, 12) && Accepts(c.external, STORED, TagStart, 1)
    ensures Attributes(c.external, STORED, TagStart, 1) == [Attribute(3, 6, 10, false)]
    ensures var v := Normalized(c, false, open, STORED[6..10]);
            v.Appended? && Store(c, false, open, STORED[6..10]) != Appended(Collapsed(v.pool))
  {
    hide AsciiTable, IsUtf8, Store, Normalized, Collapsed, Tidy, Accepts, Encoding.ScanLt, Encoding.AttValue, Attributes;
    var enc, b := c.external, STORED;
    Utf8TagTypes(enc);
    Utf8Table(enc);
    Utf8Table(c.internal);
    NameScans(enc, b);
    EndScans(enc, b, 10, false);
    StoredScans(enc, b);
    StoredAttributes(enc, b);
    StartAccepts(enc, b);
    StoredNormalized(c, open, b[6..10]);
    StoredUntidy(c, open, b[6..10]);
    StoreIsNormalized(c, false, open, b[6..10]);
  }

  lemma StoredScans(enc: Encoding, b: Bytes)
    requires TagTypes(enc) && b == STORED
    ensures enc.AttValue(b, Apos, 6) == enc.AttValue(b, Apos, 10)
  {
    hide Encoding.AttValueEnd, Encoding.ScanRef;
    assert b[7..10] == [0xE3, 0x20, 0x20];
    assert enc.CharStep(ValidChars, b, 7) == Advance(10);
    assert enc.AttValue(b, Apos, 7) == enc.AttValue(b, Apos, 10);
  }

  lemma StoredAttributes(enc: Encoding, b: Bytes)
    requires TagTypes(enc) && b == STORED
    ensures Attributes(enc, b, InValue(3, Apos, 6, true), 6) == Attributes(enc, b, InValue(3, Apos, 6, false), 10)
  {
    hide Attributes;
    NextAttributes(enc, b, InValue(3, Apos, 6, true), 6, InValue(3, Apos, 6, false), 1);
    NextAttributes(enc, b, InValue(3, Apos, 6, false), 7, InValue(3, Apos, 6, false), 3);
  }

  lemma StoredNormalized(c: Config, open: set<Bytes>, v: Bytes)
    requires TagTypes(c.external) && v == [0x0A, 0xE3, 0x20, 0x20]
    ensures Normalized(c, false, open, v).Appended?
  {
    hide Normalized, Encoding.Width;
    var rest := v[1..];
    WhiteIs(c, false, open, v);
    BrokenWidth(c.external, rest);
    CharIs(c, false, open, rest);
    assert rest[3..] == [];
    NothingNormalized(c, open);
  }

  lemma BrokenWidth(enc: Encoding, v: Bytes)
    requires |v| == 3 && enc.typeOf(v[0]) == Lead3
    ensures enc.Width(v, 0) == 3
  {
  }

  lemma StoredUntidy(c: Config, open: set<Bytes>, v: Bytes)
    requires TagTypes(c.external) && v == [0x0A, 0xE3, 0x20, 0x20]
    ensures !Tidy(c, false, open, v)
  {
    hide PieceOf, Encoding.AttributeValueTok;
    BlankFirst(c, open, v);
    assert v[1..] == [0xE3, SPACE, SPACE];
    BrokenUntidy(c, open);
  }

  lemma BlankFirst(c: Config, open: set<Bytes>, v: Bytes)
    requires v != [] && c.external.typeOf(v[0]) == Lf
    ensures c.external.AttributeValueTok(v, 0) == Found(DataNewline, 1) && PieceOf(c, open, DataNewline, v[..1]) == Blank
  {
  }
}

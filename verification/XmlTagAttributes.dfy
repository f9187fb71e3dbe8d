// getAtts finds the attributes that the grammar has in a tag: as many, in the same order, with
// their names and values at the same places, and marks a value as normalized exactly if a
// literal copy of it gets no character wrong.
module XmlTagAttributes {
  import opened XmlTok
  import opened XmlContent
  import opened XmlSyntax
  import opened XmlTags
  import opened XmlGetAtts

  // an attribute found by getAtts is this one of the grammar
  ghost predicate IsRead(enc: Encoding, b: Bytes, a: Attribute, s: Span) {
    && s.close < |b|
    && a.name == s.name && a.valuePtr == s.quote + 1 && a.valueEnd == s.close
    && (a.normalized <==> PlainFrom(enc, b, enc.typeOf(b[s.close]), s.quote + 1, s.quote + 1, s.close))
  }

  ghost predicate AreRead(enc: Encoding, b: Bytes, found: seq<Attribute>, atts: seq<Span>) {
    |found| == |atts| && forall k :: 0 <= k < |atts| ==> IsRead(enc, b, found[k], atts[k])
  }

  // ----- one character -----

  // outside values, and not at the end
  lemma Walks(enc: Encoding, b: Bytes, p: Phase, i: nat, w: nat)
    requires i < |b| && w == enc.Width(b, i) && !p.InValue? && !XmlGetAtts.AtEnd(enc, b, p, i)
    ensures Attributes(enc, b, p, i) == Attributes(enc, b, NextPhase(enc, b, p, i), i + w)
  {
    hide Attributes, NextPhase, XmlGetAtts.AtEnd, Encoding.Width;
    AttributesStep(enc, b, p, i);
  }

  lemma NameWidthIs(enc: Encoding, b: Bytes, i: nat, j: nat, w: nat)
    requires i < j <= |b| && 0 < w && (w == NameWidth(enc, b, i, j) || w == NameStartWidth(enc, b, i, j))
    ensures w == enc.Width(b, i) && i + w <= j
    ensures var t := enc.typeOf(b[i]); !t.White() && t !in {Gt, Sol, Equals, Colon, Semi, Num, Amp, Quot, Apos, Lt}
  {
  }

  // a phase that goes on over the characters of a name
  predicate Named(p: Phase) { p.TagName? || p.InAttName? || (p.InRef? && p.ref == InRefName) }

  lemma NameStays(enc: Encoding, b: Bytes, p: Phase, i: nat)
    requires i < |b| && Named(p)
    requires var t := enc.typeOf(b[i]); !t.White() && t !in {Gt, Sol, Equals, Colon, Semi, Num, Amp}
    ensures !XmlGetAtts.AtEnd(enc, b, p, i) && NextPhase(enc, b, p, i) == p
  {
  }

  lemma {:induction false} NameWalks(enc: Encoding, b: Bytes, p: Phase, i: nat, j: nat)
    requires i <= j <= |b| && Named(p) && NameRest(enc, b, i, j)
    ensures Attributes(enc, b, p, i) == Attributes(enc, b, p, j)
    decreases j - i
  {
    hide Attributes, NextPhase, XmlGetAtts.AtEnd, Encoding.Width, NameWidth, Named;
    if i < j {
      var w := NameWidth(enc, b, i, j);
      NameWidthIs(enc, b, i, j, w);
      NameStays(enc, b, p, i);
      NamedIs(p);
      Walks(enc, b, p, i, w);
      NameWalks(enc, b, p, i + w, j);
    }
  }

  lemma NamedIs(p: Phase)
    requires Named(p)
    ensures !p.InValue?
  {
  }

  // the phase behind the first character of a name
  function Begun(p: Phase, i: nat): Phase {
    match p
    case TagStart => TagName(false)
    case TagColon => TagName(true)
    case TagSpace => InAttName(i, false)
    case NextAtt => InAttName(i, false)
    case AttColon(name) => InAttName(name, true)
    case InRef(_, name, quote, from) => InRef(InRefName, name, quote, from)
    case _ => p
  }

  predicate Begins(p: Phase) { p.TagStart? || p.TagColon? || p.TagSpace? || p.NextAtt? || p.AttColon? || (p.InRef? && p.ref == RefStart) }

  lemma FirstWalks(enc: Encoding, b: Bytes, p: Phase, i: nat)
    requires i < |b| && Begins(p)
    requires var t := enc.typeOf(b[i]); !t.White() && t !in {Gt, Sol, Equals, Colon, Semi, Num, Amp}
    ensures !XmlGetAtts.AtEnd(enc, b, p, i) && NextPhase(enc, b, p, i) == Begun(p, i) && Named(Begun(p, i)) && !p.InValue?
  {
  }

  lemma NcNameWalks(enc: Encoding, b: Bytes, p: Phase, i: nat, j: nat)
    requires i <= j <= |b| && Begins(p) && NcName(enc, b, i, j)
    ensures Attributes(enc, b, p, i) == Attributes(enc, b, Begun(p, i), j)
  {
    hide Attributes, NextPhase, XmlGetAtts.AtEnd, Encoding.Width, NameStartWidth, NameRest, Begins, Begun, Named;
    var w := NameStartWidth(enc, b, i, j);
    NameWidthIs(enc, b, i, j, w);
    FirstWalks(enc, b, p, i);
    Walks(enc, b, p, i, w);
    NameWalks(enc, b, Begun(p, i), i + w, j);
  }

  lemma ColonWalks(enc: Encoding, b: Bytes, p: Phase, i: nat)
    requires i < |b| && enc.typeOf(b[i]) == Colon && (p.TagName? || p.InAttName?)
    ensures Attributes(enc, b, p, i) == Attributes(enc, b, if p.TagName? then TagColon else AttColon(p.name), i + 1)
  {
    hide Attributes;
    Walks(enc, b, p, i, 1);
  }

  // a name in front of an attribute, or the tag's
  lemma QNameWalks(enc: Encoding, b: Bytes, p: Phase, i: nat, j: nat) returns (hadColon: bool)
    requires i <= j <= |b| && (p == TagStart || p == TagSpace || p == NextAtt) && QName(enc, b, i, j)
    ensures Attributes(enc, b, p, i) == Attributes(enc, b, if p == TagStart then TagName(hadColon) else InAttName(i, hadColon), j)
  {
    hide Attributes, NcName;
    if NcName(enc, b, i, j) {
      hadColon := false;
      NcNameWalks(enc, b, p, i, j);
    } else {
      var k :| i < k < j && Prefixed(enc, b, i, k, j);
      hadColon := true;
      NcNameWalks(enc, b, p, i, k);
      ColonWalks(enc, b, Begun(p, i), k);
      NcNameWalks(enc, b, if p == TagStart then TagColon else AttColon(i), k + 1, j);
    }
  }

  // white space, from the phase it leads to on
  lemma {:induction false} WhiteWalks(enc: Encoding, b: Bytes, p: Phase, i: nat, j: nat)
    requires i <= j <= |b| && (p.TagSpace? || p.BeforeEquals? || p.AfterEquals? || p.NextAtt?) && White(enc, b, i, j)
    ensures Attributes(enc, b, p, i) == Attributes(enc, b, p, j)
    decreases j - i
  {
    hide Attributes;
    if i < j {
      Walks(enc, b, p, i, 1);
      WhiteWalks(enc, b, p, i + 1, j);
    }
  }

  lemma ByteWalks(enc: Encoding, b: Bytes, p: Phase, i: nat)
    requires AsciiTable(enc) && i < |b|
    ensures enc.typeOf(b[i]).White() && p.TagName? ==> Attributes(enc, b, p, i) == Attributes(enc, b, TagSpace, i + 1)
    ensures enc.typeOf(b[i]).White() && p.AfterValue? ==> Attributes(enc, b, p, i) == Attributes(enc, b, NextAtt, i + 1)
    ensures enc.typeOf(b[i]).White() && p.InAttName? ==> Attributes(enc, b, p, i) == Attributes(enc, b, BeforeEquals(p.name), i + 1)
    ensures b[i] == 0x3D && (p.InAttName? || p.BeforeEquals?) ==> Attributes(enc, b, p, i) == Attributes(enc, b, AfterEquals(p.name), i + 1)
    ensures b[i] in QUOTES && p.AfterEquals? ==>
              Attributes(enc, b, p, i) == Attributes(enc, b, InValue(p.name, enc.typeOf(b[i]), i + 1, true), i + 1)
    ensures b[i] in {0x3E, 0x2F} && (p.TagName? || p.TagSpace? || p.AfterValue? || p.NextAtt?) ==> Attributes(enc, b, p, i) == []
  {
    hide AsciiTable, Attributes;
    TagMarks(enc, b[i]);
    AttributesStep(enc, b, p, i);
  }

  // ----- references and values -----

  // characters of a reference that are not its end
  lemma {:induction false} DigitsWalk(enc: Encoding, b: Bytes, p: Phase, i: nat, j: nat) returns (ref: RefPhase)
    requires i <= j <= |b| && p.InRef? && forall k :: i <= k < j ==> enc.typeOf(b[k]) in {Digit, Hex, Nmstrt, Num}
    ensures Attributes(enc, b, p, i) == Attributes(enc, b, InRef(ref, p.name, p.quote, p.from), j)
    decreases j - i
  {
    hide Attributes;
    if i < j {
      Walks(enc, b, p, i, 1);
      ref := DigitsWalk(enc, b, NextPhase(enc, b, p, i), i + 1, j);
    } else {
      ref := p.ref;
    }
  }

  lemma SemiWalks(enc: Encoding, b: Bytes, p: Phase, i: nat)
    requires AsciiTable(enc) && i < |b| && p.InRef? && b[i] == 0x3B
    ensures Attributes(enc, b, p, i) == Attributes(enc, b, InValue(p.name, p.quote, p.from, false), i + 1)
  {
    hide AsciiTable, Attributes;
    RefMarks(enc, b[i]);
    Walks(enc, b, p, i, 1);
  }

  lemma CharRefBytes(enc: Encoding, b: Bytes, i: nat, m: nat)
    requires AsciiTable(enc) && i <= m <= |b| && IsCharRef(b, i, m)
    ensures i + 4 <= m && b[m - 1] == 0x3B && forall k :: i + 1 <= k < m - 1 ==> enc.typeOf(b[k]) in {Digit, Hex, Nmstrt, Num}
  {
    hide AsciiTable;
    forall k | i + 1 <= k < m - 1 ensures enc.typeOf(b[k]) in {Digit, Hex, Nmstrt, Num} { RefMarks(enc, b[k]); }
  }

  lemma EntityRefBytes(enc: Encoding, b: Bytes, i: nat, m: nat)
    requires i <= m <= |b| && IsEntityRef(enc, b, i, m)
    ensures i + 3 <= m && b[m - 1] == 0x3B && NcName(enc, b, i + 1, m - 1)
  {
    hide NcName;
  }

  lemma ReferenceWalks(enc: Encoding, b: Bytes, name: nat, quote: ByteType, from: nat, i: nat, m: nat)
    requires AsciiTable(enc) && i < m <= |b| && IsReference(enc, b, i, m)
    ensures Attributes(enc, b, InRef(RefStart, name, quote, from), i + 1) == Attributes(enc, b, InValue(name, quote, from, false), m)
  {
    hide AsciiTable, Attributes, NcName, IsCharRef, IsEntityRef;
    var p := InRef(RefStart, name, quote, from);
    if IsCharRef(b, i, m) {
      CharRefBytes(enc, b, i, m);
      var ref := DigitsWalk(enc, b, p, i + 1, m - 1);
      SemiWalks(enc, b, InRef(ref, name, quote, from), m - 1);
    } else {
      EntityRefBytes(enc, b, i, m);
      NcNameWalks(enc, b, p, i + 1, m - 1);
      SemiWalks(enc, b, InRef(InRefName, name, quote, from), m - 1);
    }
  }

  // one character of a value, or the "&" of a reference in it
  lemma ValueWalk(enc: Encoding, b: Bytes, quote: byte, name: nat, from: nat, plain: bool, i: nat, j: nat)
    requires AsciiTable(enc) && i < j <= |b| && quote in QUOTES && b[i] != quote && b[i] != 0x3C
    ensures var open := enc.typeOf(quote);
            var altered := Alters(enc, b, open, from, i);
            && (b[i] == 0x26 ==>
                  && Attributes(enc, b, InValue(name, open, from, plain), i) == Attributes(enc, b, InRef(RefStart, name, open, from), i + 1)
                  && !PlainFrom(enc, b, open, from, i, j))
            && (b[i] != 0x26 && 0 < XmlSyntax.CharWidth(enc, b, i, j) ==>
                  var k := i + XmlSyntax.CharWidth(enc, b, i, j);
                  && Attributes(enc, b, InValue(name, open, from, plain), i) == Attributes(enc, b, InValue(name, open, from, plain && !altered), k)
                  && PlainFrom(enc, b, open, from, i, j) == (!altered && PlainFrom(enc, b, open, from, k, j)))
  {
    hide AsciiTable, Attributes;
    TagMarks(enc, b[i]);
    TagMarks(enc, quote);
    AttributesStep(enc, b, InValue(name, enc.typeOf(quote), from, plain), i);
  }

  lemma {:induction false} ValueWalks(enc: Encoding, b: Bytes, quote: byte, name: nat, from: nat, plain: bool, i: nat, j: nat)
    requires AsciiTable(enc) && i <= j <= |b| && quote in QUOTES && Value(enc, b, quote, i, j)
    ensures var open := enc.typeOf(quote);
            Attributes(enc, b, InValue(name, open, from, plain), i)
            == Attributes(enc, b, InValue(name, open, from, plain && PlainFrom(enc, b, open, from, i, j)), j)
    decreases j - i
  {
    hide AsciiTable, Attributes, XmlSyntax.CharWidth, Alters, PlainFrom, IsReference;
    var open := enc.typeOf(quote);
    if i < j {
      ValueWalk(enc, b, quote, name, from, plain, i, j);
      if b[i] == 0x26 {
        var m :| i < m <= j && IsReference(enc, b, i, m) && Value(enc, b, quote, m, j);
        ReferenceWalks(enc, b, name, open, from, i, m);
        ValueWalks(enc, b, quote, name, from, false, m, j);
      } else {
        ValueWalks(enc, b, quote, name, from, plain && !Alters(enc, b, open, from, i), i + XmlSyntax.CharWidth(enc, b, i, j), j);
      }
    } else {
      NothingAltered(enc, b, open, from, i);
    }
  }

  lemma NothingAltered(enc: Encoding, b: Bytes, open: ByteType, from: nat, i: nat)
    ensures PlainFrom(enc, b, open, from, i, i)
  {
  }

  lemma ValueCloses(enc: Encoding, b: Bytes, name: nat, from: nat, plain: bool, i: nat)
    requires AsciiTable(enc) && i < |b| && b[i] in QUOTES
    ensures Attributes(enc, b, InValue(name, enc.typeOf(b[i]), from, plain), i) == [Attribute(name, from, i, plain)] + Attributes(enc, b, AfterValue, i + 1)
  {
    hide AsciiTable, Attributes, Alters;
    TagMarks(enc, b[i]);
    AttributesStep(enc, b, InValue(name, enc.typeOf(b[i]), from, plain), i);
  }

  // ----- the attributes -----

  lemma AttributeWalks(enc: Encoding, b: Bytes, p: Phase, from: nat, s: Span) returns (a: Attribute)
    requires AsciiTable(enc) && (p.TagName? || p.AfterValue?) && IsAttribute(enc, b, from, s)
    ensures IsRead(enc, b, a, s) && Attributes(enc, b, p, from) == [a] + Attributes(enc, b, AfterValue, s.close + 1)
  {
    hide *;
    AttributeIs(enc, b, from, s);
    WhiteAt(enc, b, from, s.name);
    ByteWalks(enc, b, p, from);
    var q := if p.TagName? then TagSpace else NextAtt;
    WhiteWalks(enc, b, q, from + 1, s.name);
    var hadColon := QNameWalks(enc, b, q, s.name, s.nameEnd);
    var inName := InAttName(s.name, hadColon);
    ByteWalks(enc, b, inName, s.nameEnd);
    if s.nameEnd < s.equals {
      WhiteAt(enc, b, s.nameEnd, s.equals);
      WhiteWalks(enc, b, BeforeEquals(s.name), s.nameEnd + 1, s.equals);
      ByteWalks(enc, b, BeforeEquals(s.name), s.equals);
    }
    WhiteWalks(enc, b, AfterEquals(s.name), s.equals + 1, s.quote);
    ByteWalks(enc, b, AfterEquals(s.name), s.quote);
    var plain := PlainFrom(enc, b, enc.typeOf(b[s.quote]), s.quote + 1, s.quote + 1, s.close);
    ValueWalks(enc, b, b[s.quote], s.name, s.quote + 1, true, s.quote + 1, s.close);
    ValueCloses(enc, b, s.name, s.quote + 1, plain, s.close);
    a := Attribute(s.name, s.quote + 1, s.close, plain);
    ReadIs(enc, b, a, s);
  }

  lemma ReadIs(enc: Encoding, b: Bytes, a: Attribute, s: Span)
    requires s.close < |b| && a == Attribute(s.name, s.quote + 1, s.close, PlainFrom(enc, b, enc.typeOf(b[s.close]), s.quote + 1, s.quote + 1, s.close))
    ensures IsRead(enc, b, a, s)
  {
    hide PlainFrom;
  }

  lemma TagCloses(enc: Encoding, b: Bytes, p: Phase, q: nat, n: nat, empty: bool)
    requires AsciiTable(enc) && (p.TagName? || p.AfterValue?) && IsTagEnd(enc, b, q, n, empty) && n <= |b|
    ensures Attributes(enc, b, p, q) == []
  {
    hide *;
    var e := if empty then n - 2 else n - 1;
    TagEndBytes(enc, b, q, n, empty);
    ByteWalks(enc, b, p, q);
    if q < e {
      var p' := if p.TagName? then TagSpace else NextAtt;
      WhiteAt(enc, b, q, e);
      WhiteWalks(enc, b, p', q + 1, e);
      ByteWalks(enc, b, p', e);
    }
  }

  lemma TagEndBytes(enc: Encoding, b: Bytes, q: nat, n: nat, empty: bool)
    requires IsTagEnd(enc, b, q, n, empty) && n <= |b|
    ensures var e := if empty then n - 2 else n - 1; q <= e < n && b[e] in {0x3E, 0x2F} && White(enc, b, q, e)
  {
    hide White;
  }

  lemma {:induction false} AttributesWalk(enc: Encoding, b: Bytes, p: Phase, from: nat, atts: seq<Span>, q: nat, n: nat, empty: bool)
    requires AsciiTable(enc) && (p.TagName? || p.AfterValue?) && n <= |b|
    requires AreAttributes(enc, b, from, atts, q) && IsTagEnd(enc, b, q, n, empty)
    ensures AreRead(enc, b, Attributes(enc, b, p, from), atts)
    decreases |atts|
  {
    hide AsciiTable, Attributes, IsAttribute, IsTagEnd, IsRead;
    if atts == [] {
      TagCloses(enc, b, p, q, n, empty);
    } else {
      var a := AttributeWalks(enc, b, p, from, atts[0]);
      AttributesWalk(enc, b, AfterValue, atts[0].close + 1, atts[1..], q, n, empty);
    }
  }

  // getAtts finds the attributes of the grammar.
  lemma TagAttributes(enc: Encoding, b: Bytes, k: nat, atts: seq<Span>, q: nat, n: nat, empty: bool)
    requires AsciiTable(enc) && TagParts(enc, b, 0, k, atts, q, n, empty)
    ensures AreRead(enc, b, Attributes(enc, b, TagStart, 1), atts)
  {
    hide AsciiTable, Attributes, QName, AreAttributes, IsTagEnd, AreRead;
    var hadColon := QNameWalks(enc, b, TagStart, 1, k);
    AttributesWalk(enc, b, TagName(hadColon), k, atts, q, n, empty);
  }

  // So the scanner's token says whether there are any.
  lemma TokenTellsAttributes(enc: Encoding, b: Bytes, tok: Token, n: nat)
    requires AsciiTable(enc) && enc.ContentTok(b, 0) == Found(tok, n) && tok.IsStartOrEmpty()
    ensures tok in {StartTagWithAtts, EmptyElementWithAtts} <==> Attributes(enc, b, TagStart, 1) != []
  {
    hide AsciiTable, Attributes, TagParts, IsMarkup, Encoding.ContentTok;
    MarkupIffFound(enc, b, 0, n, tok);
    var k: nat, atts: seq<Span>, q: nat, empty: bool := PartsOf(enc, b, tok, n);
    TagAttributes(enc, b, k, atts, q, n, empty);
  }

  lemma PartsOf(enc: Encoding, b: Bytes, tok: Token, n: nat) returns (k: nat, atts: seq<Span>, q: nat, empty: bool)
    requires n <= |b| && IsMarkup(enc, b, 0, n, tok) && tok.IsStartOrEmpty()
    ensures TagParts(enc, b, 0, k, atts, q, n, empty) && (atts != [] <==> tok in {StartTagWithAtts, EmptyElementWithAtts})
  {
    hide TagParts;
    empty := tok in {EmptyElementWithAtts, EmptyElementNoAtts};
    var withAtts := tok in {StartTagWithAtts, EmptyElementWithAtts};
    assert IsTag(enc, b, 0, n, withAtts, empty);
    k, atts, q :| TagParts(enc, b, 0, k, atts, q, n, empty) && withAtts == (atts != []);
  }
}

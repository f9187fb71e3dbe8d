// Start tags and empty-element tags of section 3.1 of XML 1.0, and what the scanners find of
// them: where the grammar has a tag, with those attributes and that end, there is the token.
module XmlTags {
  import opened Collections
  import opened XmlTok
  import opened XmlSyntax

  const QUOTES: set<byte> := {0x22, 0x27}

  // AttValue of section 2.3, without its quotes
  ghost predicate Value(enc: Encoding, b: seq<byte>, quote: byte, i: nat, j: nat)
    requires i <= j <= |b|
    decreases j - i
  {
    i == j ||
    (b[i] != quote && b[i] != 0x3C
     && if b[i] == 0x26 then exists m :: i < m <= j && IsReference(enc, b, i, m) && Value(enc, b, quote, m, j)
        else var w := CharWidth(enc, b, i, j); 0 < w && Value(enc, b, quote, i + w, j))
  }

  // where the parts of an attribute are
  datatype Span = Span(name: nat, nameEnd: nat, equals: nat, quote: nat, close: nat)

  // white space from from on, and an attribute behind it
  ghost predicate IsAttribute(enc: Encoding, b: seq<byte>, from: nat, a: Span) {
    && from < a.name <= a.nameEnd <= a.equals < a.quote < a.close < |b|
    && White(enc, b, from, a.name) && QName(enc, b, a.name, a.nameEnd)
    && White(enc, b, a.nameEnd, a.equals) && b[a.equals] == 0x3D && White(enc, b, a.equals + 1, a.quote)
    && b[a.quote] in QUOTES && Value(enc, b, b[a.quote], a.quote + 1, a.close) && b[a.close] == b[a.quote]
  }

  ghost predicate AreAttributes(enc: Encoding, b: seq<byte>, from: nat, atts: seq<Span>, to: nat)
    decreases |atts|
  {
    if atts == [] then from == to
    else IsAttribute(enc, b, from, atts[0]) && AreAttributes(enc, b, atts[0].close + 1, atts[1..], to)
  }

  // the end of a tag: white space, and "/" if the element is empty
  predicate IsTagEnd(enc: Encoding, b: seq<byte>, q: nat, n: nat, empty: bool) {
    var e := if empty then n - 2 else n - 1;
    q <= e < n <= |b| && b[n - 1] == GT && (empty ==> b[n - 2] == 0x2F) && White(enc, b, q, e)
  }

  // a tag from p to n, with the name up to k and the attributes up to q
  ghost predicate TagParts(enc: Encoding, b: seq<byte>, p: nat, k: nat, atts: seq<Span>, q: nat, n: nat, empty: bool) {
    && p + 1 < k < n <= |b| && b[p] == 0x3C && QName(enc, b, p + 1, k)
    && AreAttributes(enc, b, k, atts, q) && k <= q && IsTagEnd(enc, b, q, n, empty)
  }

  ghost predicate IsTag(enc: Encoding, b: seq<byte>, p: nat, n: nat, withAtts: bool, empty: bool) {
    exists k: nat, atts: seq<Span>, q: nat :: TagParts(enc, b, p, k, atts, q, n, empty) && withAtts == (atts != [])
  }

  function TagToken(withAtts: bool, empty: bool): Token {
    if empty then (if withAtts then EmptyElementWithAtts else EmptyElementNoAtts)
    else if withAtts then StartTagWithAtts else StartTagNoAtts
  }

  // ----- the scanners, one step each -----

  lemma StartNameAt(enc: Encoding, b: seq<byte>, hadColon: bool, k: nat)
    requires AsciiTable(enc) && k < |b|
    ensures enc.StartName(b, hadColon, k).Found? && !enc.CharStep(NameChars, b, k).Advance? ==>
              enc.typeOf(b[k]).White() || enc.typeOf(b[k]) == Colon || b[k] == GT || b[k] == 0x2F
    ensures enc.typeOf(b[k]).White() ==> enc.StartName(b, hadColon, k) == enc.StartSpace(b, k + 1)
    ensures b[k] == GT ==> enc.StartName(b, hadColon, k) == Found(StartTagNoAtts, k + 1)
    ensures b[k] == 0x2F ==> enc.StartName(b, hadColon, k) == enc.EmptyEnd(b, EmptyElementNoAtts, k + 1)
  {
    hide AsciiTable, Encoding.CharStep, Encoding.StartSpace, Encoding.EmptyEnd;
    TagMarks(enc, b[k]);
    if enc.typeOf(b[k]).White() || enc.typeOf(b[k]) in {Gt, Sol} { MarkUnlisted(enc, b, k); }
  }

  lemma StartNameColon(enc: Encoding, b: seq<byte>, hadColon: bool, k: nat)
    requires k < |b| && enc.typeOf(b[k]) == Colon
    ensures k + 1 < |b| && !hadColon && enc.CharStep(NmstrtChars, b, k + 1).Advance? ==>
              enc.StartName(b, hadColon, k) == enc.StartName(b, true, enc.CharStep(NmstrtChars, b, k + 1).next)
    ensures enc.StartName(b, hadColon, k).Found? ==> k + 1 < |b| && !hadColon && enc.CharStep(NmstrtChars, b, k + 1).Advance?
  {
    ColonUnlisted(enc, b, k);
    hide Encoding.CharStep, Encoding.StartSpace, Encoding.EmptyEnd;
  }

  lemma AttNameAt(enc: Encoding, b: seq<byte>, hadColon: bool, k: nat)
    requires AsciiTable(enc) && k < |b|
    ensures enc.AttName(b, hadColon, k).Found? && !enc.CharStep(NameChars, b, k).Advance? ==>
              enc.typeOf(b[k]).White() || enc.typeOf(b[k]) == Colon || b[k] == 0x3D
    ensures enc.typeOf(b[k]).White() ==> enc.AttName(b, hadColon, k) == enc.AttBeforeEquals(b, k + 1)
    ensures b[k] == 0x3D ==> enc.AttName(b, hadColon, k) == enc.AttAfterEquals(b, k + 1)
  {
    hide AsciiTable, Encoding.CharStep, Encoding.AttBeforeEquals, Encoding.AttAfterEquals;
    TagMarks(enc, b[k]);
    if enc.typeOf(b[k]).White() || enc.typeOf(b[k]) == Equals { MarkUnlisted(enc, b, k); }
  }

  lemma AttNameColon(enc: Encoding, b: seq<byte>, hadColon: bool, k: nat)
    requires k < |b| && enc.typeOf(b[k]) == Colon
    ensures k + 1 < |b| && !hadColon && enc.CharStep(NmstrtChars, b, k + 1).Advance? ==>
              enc.AttName(b, hadColon, k) == enc.AttName(b, true, enc.CharStep(NmstrtChars, b, k + 1).next)
    ensures enc.AttName(b, hadColon, k).Found? ==> k + 1 < |b| && !hadColon && enc.CharStep(NmstrtChars, b, k + 1).Advance?
  {
    ColonUnlisted(enc, b, k);
    hide Encoding.CharStep, Encoding.AttBeforeEquals, Encoding.AttAfterEquals;
  }

  // after white space; the scanners differ only in what they make of the end of the tag
  lemma SpaceAt(enc: Encoding, b: seq<byte>, j: nat)
    requires AsciiTable(enc) && j < |b| && !enc.typeOf(b[j]).White()
    ensures enc.CharStep(NmstrtChars, b, j).Advance? ==>
              var m := enc.CharStep(NmstrtChars, b, j).next;
              enc.StartSpace(b, j) == enc.AttName(b, false, m) && enc.AttNext(b, j) == enc.AttName(b, false, m)
    ensures !enc.CharStep(NmstrtChars, b, j).Advance? && (enc.StartSpace(b, j).Found? || enc.AttNext(b, j).Found?) ==> b[j] == GT || b[j] == 0x2F
    ensures b[j] == GT ==> enc.StartSpace(b, j) == Found(StartTagNoAtts, j + 1) && enc.AttNext(b, j) == Found(StartTagWithAtts, j + 1)
    ensures b[j] == 0x2F ==> enc.StartSpace(b, j) == enc.EmptyEnd(b, EmptyElementNoAtts, j + 1)
                             && enc.AttNext(b, j) == enc.EmptyEnd(b, EmptyElementWithAtts, j + 1)
  {
    hide AsciiTable, Encoding.CharStep, Encoding.AttName, Encoding.EmptyEnd;
    TagMarks(enc, b[j]);
    if enc.typeOf(b[j]) in {Gt, Sol} { MarkUnlisted(enc, b, j); }
  }

  lemma EqualsAt(enc: Encoding, b: seq<byte>, j: nat)
    requires AsciiTable(enc) && j < |b| && !enc.typeOf(b[j]).White()
    ensures b[j] == 0x3D ==> enc.AttBeforeEquals(b, j) == enc.AttAfterEquals(b, j + 1)
    ensures enc.AttBeforeEquals(b, j).Found? ==> b[j] == 0x3D
    ensures b[j] in QUOTES ==> enc.AttAfterEquals(b, j) == enc.AttValue(b, enc.typeOf(b[j]), j + 1)
    ensures enc.AttAfterEquals(b, j).Found? ==> b[j] in QUOTES
  {
    hide AsciiTable, Encoding.AttValue;
    TagMarks(enc, b[j]);
  }

  lemma ValueEndAt(enc: Encoding, b: seq<byte>, i: nat)
    requires AsciiTable(enc) && i < |b|
    ensures enc.typeOf(b[i]).White() ==> enc.AttValueEnd(b, i) == enc.AttNext(b, i + 1)
    ensures b[i] == GT ==> enc.AttValueEnd(b, i) == Found(StartTagWithAtts, i + 1)
    ensures b[i] == 0x2F ==> enc.AttValueEnd(b, i) == enc.EmptyEnd(b, EmptyElementWithAtts, i + 1)
    ensures enc.AttValueEnd(b, i).Found? ==> enc.typeOf(b[i]).White() || b[i] == GT || b[i] == 0x2F
  {
    hide AsciiTable, Encoding.AttNext, Encoding.EmptyEnd;
    TagMarks(enc, b[i]);
  }

  lemma NeedsByte(enc: Encoding, b: seq<byte>)
    ensures !enc.AttValueEnd(b, |b|).Found? && !enc.AttNext(b, |b|).Found? && !enc.StartSpace(b, |b|).Found?
    ensures !enc.AttBeforeEquals(b, |b|).Found? && !enc.AttAfterEquals(b, |b|).Found?
    ensures forall h :: !enc.AttName(b, h, |b|).Found? && !enc.StartName(b, h, |b|).Found?
    ensures forall t :: !enc.AttValue(b, t, |b|).Found?
  {
  }

  lemma EmptyEndIs(enc: Encoding, b: seq<byte>, tok: Token, i: nat)
    requires i <= |b| && tok in {EmptyElementWithAtts, EmptyElementNoAtts}
    ensures i < |b| && b[i] == GT ==> enc.EmptyEnd(b, tok, i) == Found(tok, i + 1)
    ensures enc.EmptyEnd(b, tok, i).Found? ==> i < |b| && b[i] == GT
  {
  }

  // ----- names -----

  lemma StartQNameSkips(enc: Encoding, b: seq<byte>, i: nat, k: nat) returns (m: nat, hadColon: bool)
    requires i <= k <= |b| && QName(enc, b, i, k)
    ensures i < m <= k && enc.CharStep(NmstrtChars, b, i) == Advance(m)
    ensures enc.StartName(b, false, m) == enc.StartName(b, hadColon, k) && enc.AttName(b, false, m) == enc.AttName(b, hadColon, k)
  {
    hide NcName, NameRest, Encoding.CharStep, Encoding.StartName, Encoding.AttName;
    if NcName(enc, b, i, k) {
      m := NameStarts(enc, b, i, k);
      hadColon := false;
      StartNameSkips(enc, b, false, m, k);
      AttNameSkips(enc, b, false, m, k);
    } else {
      var c :| i < c < k && Prefixed(enc, b, i, c, k);
      m := NameStarts(enc, b, i, c);
      hadColon := true;
      StartNameSkips(enc, b, false, m, c);
      AttNameSkips(enc, b, false, m, c);
      StartNameColon(enc, b, false, c);
      AttNameColon(enc, b, false, c);
      var l := NameStarts(enc, b, c + 1, k);
      StartNameSkips(enc, b, true, l, k);
      AttNameSkips(enc, b, true, l, k);
    }
  }

  lemma FoundStartName(enc: Encoding, b: seq<byte>, i: nat, m: nat) returns (k: nat, hadColon: bool)
    requires AsciiTable(enc) && i < |b| && enc.CharStep(NmstrtChars, b, i) == Advance(m) && enc.StartName(b, false, m).Found?
    ensures i < m <= k < |b| && QName(enc, b, i, k) && enc.StartName(b, false, m) == enc.StartName(b, hadColon, k)
    ensures enc.typeOf(b[k]).White() || b[k] == GT || b[k] == 0x2F
  {
    hide AsciiTable, NcName, NameRest, Encoding.CharStep, Encoding.StartName;
    k := FoundName(enc, b, i, m);
    hadColon := false;
    StartNameSkips(enc, b, false, m, k);
    NeedsByte(enc, b);
    StartNameAt(enc, b, false, k);
    if enc.typeOf(b[k]) == Colon {
      var c := k;
      StartNameColon(enc, b, false, c);
      var l := enc.CharStep(NmstrtChars, b, c + 1).next;
      k := FoundName(enc, b, c + 1, l);
      hadColon := true;
      StartNameSkips(enc, b, true, l, k);
      StartNameAt(enc, b, true, k);
      if enc.typeOf(b[k]) == Colon { StartNameColon(enc, b, true, k); }
      assert Prefixed(enc, b, i, c, k);
    }
  }

  lemma FoundAttName(enc: Encoding, b: seq<byte>, i: nat, m: nat) returns (k: nat, hadColon: bool)
    requires AsciiTable(enc) && i < |b| && enc.CharStep(NmstrtChars, b, i) == Advance(m) && enc.AttName(b, false, m).Found?
    ensures i < m <= k < |b| && QName(enc, b, i, k) && enc.AttName(b, false, m) == enc.AttName(b, hadColon, k)
    ensures enc.typeOf(b[k]).White() || b[k] == 0x3D
  {
    hide AsciiTable, NcName, NameRest, Encoding.CharStep, Encoding.AttName;
    k := FoundName(enc, b, i, m);
    hadColon := false;
    AttNameSkips(enc, b, false, m, k);
    NeedsByte(enc, b);
    AttNameAt(enc, b, false, k);
    if enc.typeOf(b[k]) == Colon {
      var c := k;
      AttNameColon(enc, b, false, c);
      var l := enc.CharStep(NmstrtChars, b, c + 1).next;
      k := FoundName(enc, b, c + 1, l);
      hadColon := true;
      AttNameSkips(enc, b, true, l, k);
      AttNameAt(enc, b, true, k);
      if enc.typeOf(b[k]) == Colon { AttNameColon(enc, b, true, k); }
      assert Prefixed(enc, b, i, c, k);
    }
  }

  // ----- values -----

  lemma ValueStep(enc: Encoding, b: seq<byte>, quote: byte, i: nat)
    requires AsciiTable(enc) && i < |b| && quote in QUOTES
    ensures var open, step := enc.typeOf(quote), enc.CharStep(ValidChars, b, i);
            && (b[i] == quote ==> enc.AttValue(b, open, i) == enc.AttValueEnd(b, i + 1))
            && (b[i] != quote && step.Advance? ==> b[i] !in {0x26, 0x3C} && enc.AttValue(b, open, i) == enc.AttValue(b, open, step.next))
            && (b[i] != quote && step.Unlisted? && b[i] !in {0x26, 0x3C} ==> enc.AttValue(b, open, i) == enc.AttValue(b, open, i + 1))
            && (b[i] == 0x26 && enc.ScanRef(b, i + 1).Found? ==> enc.AttValue(b, open, i) == enc.AttValue(b, open, enc.ScanRef(b, i + 1).next))
            && (b[i] != quote && enc.AttValue(b, open, i).Found? ==>
                  step.Advance? || (step.Unlisted? && b[i] != 0x3C && (b[i] == 0x26 ==> enc.ScanRef(b, i + 1).Found?)))
  {
    hide AsciiTable, Encoding.CharStep, Encoding.ScanRef, Encoding.AttValueEnd;
    TagMarks(enc, b[i]);
    TagMarks(enc, quote);
    if enc.CharStep(ValidChars, b, i).Advance? { LeadIsOther(enc, b, i); }
    if b[i] in {0x26, 0x3C} { MarkUnlisted(enc, b, i); }
  }

  lemma {:induction false} ValueSkips(enc: Encoding, b: seq<byte>, quote: byte, i: nat, j: nat)
    requires AsciiTable(enc) && i <= j <= |b| && quote in QUOTES && Value(enc, b, quote, i, j)
    ensures enc.AttValue(b, enc.typeOf(quote), i) == enc.AttValue(b, enc.typeOf(quote), j)
    decreases j - i
  {
    hide AsciiTable, CharWidth, Encoding.CharStep, Encoding.ScanRef, Encoding.AttValue, IsCharRef, IsEntityRef;
    if i < j {
      ValueStep(enc, b, quote, i);
      if b[i] == 0x26 {
        var m :| i < m <= j && IsReference(enc, b, i, m) && Value(enc, b, quote, m, j);
        if IsCharRef(b, i, m) { CharRefFound(enc, b, i, m); } else { EntityRefFound(enc, b, i, m); }
        ValueSkips(enc, b, quote, m, j);
      } else {
        CharSteps(enc, b, i, j);
        ValueSkips(enc, b, quote, i + CharWidth(enc, b, i, j), j);
      }
    }
  }

  lemma {:induction false} FoundValue(enc: Encoding, b: seq<byte>, quote: byte, i: nat) returns (j: nat)
    requires AsciiTable(enc) && i <= |b| && quote in QUOTES && enc.AttValue(b, enc.typeOf(quote), i).Found?
    ensures i <= j < |b| && Value(enc, b, quote, i, j) && b[j] == quote
    ensures enc.AttValue(b, enc.typeOf(quote), i) == enc.AttValueEnd(b, j + 1)
    decreases |b| - i
  {
    hide AsciiTable, CharWidth, Encoding.CharStep, Encoding.ScanRef, Encoding.AttValue, Encoding.AttValueEnd, IsCharRef, IsEntityRef;
    NeedsByte(enc, b);
    ValueStep(enc, b, quote, i);
    if b[i] == quote {
      j := i;
    } else if b[i] == 0x26 {
      var m := enc.ScanRef(b, i + 1).next;
      FoundRef(enc, b, i);
      j := FoundValue(enc, b, quote, m);
      assert IsReference(enc, b, i, m);
    } else {
      var step := enc.CharStep(ValidChars, b, i);
      j := FoundValue(enc, b, quote, if step.Advance? then step.next else i + 1);
      CharSteps(enc, b, i, j);
    }
  }

  // ----- attributes -----

  lemma AttributeIs(enc: Encoding, b: seq<byte>, from: nat, a: Span)
    requires IsAttribute(enc, b, from, a)
    ensures from < a.name <= a.nameEnd <= a.equals < a.quote < a.close < |b|
    ensures White(enc, b, from, a.name) && QName(enc, b, a.name, a.nameEnd)
    ensures White(enc, b, a.nameEnd, a.equals) && b[a.equals] == 0x3D && White(enc, b, a.equals + 1, a.quote)
    ensures b[a.quote] in QUOTES && Value(enc, b, b[a.quote], a.quote + 1, a.close) && b[a.close] == b[a.quote]
  {
    hide White, QName, Value;
  }

  lemma AttributeMade(enc: Encoding, b: seq<byte>, from: nat, a: Span)
    requires from < a.name <= a.nameEnd <= a.equals < a.quote < a.close < |b|
    requires White(enc, b, from, a.name) && QName(enc, b, a.name, a.nameEnd)
    requires White(enc, b, a.nameEnd, a.equals) && b[a.equals] == 0x3D && White(enc, b, a.equals + 1, a.quote)
    requires b[a.quote] in QUOTES && Value(enc, b, b[a.quote], a.quote + 1, a.close) && b[a.close] == b[a.quote]
    ensures IsAttribute(enc, b, from, a)
  {
    hide White, QName, Value;
  }

  // the bytes that end names and tags are no white space
  lemma NoSpace(enc: Encoding, c: byte)
    requires AsciiTable(enc) && (c in {GT, 0x2F, 0x3D} || c in QUOTES)
    ensures !enc.typeOf(c).White()
  {
    hide AsciiTable;
    TagMarks(enc, c);
  }

  // the equals sign and the value
  lemma RestSkips(enc: Encoding, b: seq<byte>, hadColon: bool, from: nat, a: Span)
    requires AsciiTable(enc) && IsAttribute(enc, b, from, a)
    ensures enc.AttName(b, hadColon, a.nameEnd) == enc.AttValueEnd(b, a.close + 1)
  {
    hide *;
    AttributeIs(enc, b, from, a);
    NoSpace(enc, b[a.equals]);
    NoSpace(enc, b[a.quote]);
    AttNameAt(enc, b, hadColon, a.nameEnd);
    if a.nameEnd < a.equals {
      WhiteAt(enc, b, a.nameEnd, a.equals);
      SpaceSkips(enc, b, a.nameEnd + 1, a.equals);
      EqualsAt(enc, b, a.equals);
    }
    SpaceSkips(enc, b, a.equals + 1, a.quote);
    EqualsAt(enc, b, a.quote);
    ValueSkips(enc, b, b[a.quote], a.quote + 1, a.close);
    ValueStep(enc, b, b[a.quote], a.close);
  }

  lemma AttributeSkips(enc: Encoding, b: seq<byte>, hadColon: bool, from: nat, a: Span)
    requires AsciiTable(enc) && IsAttribute(enc, b, from, a)
    ensures enc.StartName(b, hadColon, from) == enc.AttValueEnd(b, a.close + 1)
    ensures enc.AttValueEnd(b, from) == enc.AttValueEnd(b, a.close + 1)
  {
    hide *;
    AttributeIs(enc, b, from, a);
    StartNameAt(enc, b, hadColon, from);
    ValueEndAt(enc, b, from);
    WhiteAt(enc, b, from, a.name);
    SpaceSkips(enc, b, from + 1, a.name);
    var m, h := StartQNameSkips(enc, b, a.name, a.nameEnd);
    NotWhite(enc, b, a.name);
    SpaceAt(enc, b, a.name);
    RestSkips(enc, b, h, from, a);
  }

  lemma NotWhite(enc: Encoding, b: seq<byte>, i: nat)
    requires i < |b| && enc.CharStep(NmstrtChars, b, i).Advance?
    ensures !enc.typeOf(b[i]).White()
  {
  }

  lemma AttributesAre(enc: Encoding, b: seq<byte>, from: nat, atts: seq<Span>, to: nat)
    requires AreAttributes(enc, b, from, atts, to)
    ensures if atts == [] then from == to
            else IsAttribute(enc, b, from, atts[0]) && AreAttributes(enc, b, atts[0].close + 1, atts[1..], to)
  {
    hide IsAttribute;
  }

  lemma {:induction false} AttributesSkip(enc: Encoding, b: seq<byte>, from: nat, atts: seq<Span>, to: nat)
    requires AsciiTable(enc) && from <= |b| && AreAttributes(enc, b, from, atts, to)
    ensures to <= |b| && enc.AttValueEnd(b, from) == enc.AttValueEnd(b, to)
    decreases |atts|
  {
    hide *;
    AttributesAre(enc, b, from, atts, to);
    if atts != [] {
      InBuffer(enc, b, from, atts[0]);
      AttributeSkips(enc, b, false, from, atts[0]);
      AttributesSkip(enc, b, atts[0].close + 1, atts[1..], to);
    }
  }

  lemma InBuffer(enc: Encoding, b: seq<byte>, from: nat, a: Span)
    requires IsAttribute(enc, b, from, a)
    ensures from < a.close < |b|
  {
  }

  // ----- where the grammar has a tag there is its token -----

  lemma TagEndIs(enc: Encoding, b: seq<byte>, q: nat, n: nat, empty: bool)
    requires IsTagEnd(enc, b, q, n, empty)
    ensures var e := if empty then n - 2 else n - 1;
            && q <= e < n <= |b| && b[n - 1] == GT && (empty ==> b[n - 2] == 0x2F) && White(enc, b, q, e)
    ensures TagToken(true, false) == StartTagWithAtts && TagToken(false, false) == StartTagNoAtts
    ensures TagToken(true, true) == EmptyElementWithAtts && TagToken(false, true) == EmptyElementNoAtts
  {
    hide White;
  }

  lemma EndAfterValue(enc: Encoding, b: seq<byte>, q: nat, n: nat, empty: bool)
    requires AsciiTable(enc) && IsTagEnd(enc, b, q, n, empty) && n <= |b|
    ensures enc.AttValueEnd(b, q) == Found(TagToken(true, empty), n)
  {
    hide *;
    var e := if empty then n - 2 else n - 1;
    TagEndIs(enc, b, q, n, empty);
    ValueEndAt(enc, b, q);
    NoSpace(enc, b[e]);
    if q < e {
      WhiteAt(enc, b, q, e);
      SpaceSkips(enc, b, q + 1, e);
      SpaceAt(enc, b, e);
    }
    if empty { EmptyEndIs(enc, b, EmptyElementWithAtts, n - 1); }
  }

  lemma EndAfterName(enc: Encoding, b: seq<byte>, hadColon: bool, q: nat, n: nat, empty: bool)
    requires AsciiTable(enc) && IsTagEnd(enc, b, q, n, empty) && n <= |b|
    ensures enc.StartName(b, hadColon, q) == Found(TagToken(false, empty), n)
  {
    hide *;
    var e := if empty then n - 2 else n - 1;
    TagEndIs(enc, b, q, n, empty);
    StartNameAt(enc, b, hadColon, q);
    NoSpace(enc, b[e]);
    if q < e {
      WhiteAt(enc, b, q, e);
      SpaceSkips(enc, b, q + 1, e);
      SpaceAt(enc, b, e);
    }
    if empty { EmptyEndIs(enc, b, EmptyElementNoAtts, n - 1); }
  }

  lemma TagFound(enc: Encoding, b: seq<byte>, p: nat, n: nat, withAtts: bool, empty: bool)
    requires AsciiTable(enc) && IsTag(enc, b, p, n, withAtts, empty)
    ensures p + 1 <= |b| && enc.ScanLt(b, p + 1) == Found(TagToken(withAtts, empty), n)
  {
    hide *;
    var k, atts, q := PartsOfTag(enc, b, p, n, withAtts, empty);
    var m, h := StartQNameSkips(enc, b, p + 1, k);
    ScanLtName(enc, b, p + 1);
    AttributesAre(enc, b, k, atts, q);
    if atts == [] {
      EndAfterName(enc, b, h, q, n, empty);
    } else {
      InBuffer(enc, b, k, atts[0]);
      AttributeSkips(enc, b, h, k, atts[0]);
      AttributesSkip(enc, b, atts[0].close + 1, atts[1..], q);
      EndAfterValue(enc, b, q, n, empty);
    }
  }

  lemma PartsOfTag(enc: Encoding, b: seq<byte>, p: nat, n: nat, withAtts: bool, empty: bool) returns (k: nat, atts: seq<Span>, q: nat)
    requires IsTag(enc, b, p, n, withAtts, empty)
    ensures withAtts == (atts != []) && p + 1 < k < n <= |b| && k <= q && QName(enc, b, p + 1, k)
    ensures AreAttributes(enc, b, k, atts, q) && IsTagEnd(enc, b, q, n, empty)
  {
    hide QName, AreAttributes, IsTagEnd;
    k, atts, q :| TagParts(enc, b, p, k, atts, q, n, empty) && withAtts == (atts != []);
  }

  lemma ScanLtName(enc: Encoding, b: seq<byte>, i: nat)
    requires i < |b| && enc.CharStep(NmstrtChars, b, i).Advance?
    ensures enc.ScanLt(b, i) == enc.StartName(b, false, enc.CharStep(NmstrtChars, b, i).next)
  {
    hide Encoding.CharStep, Encoding.StartName;
  }

  // ----- what is found is a tag of the grammar -----

  // an attribute whose name begins at name, behind white space from from on
  lemma FoundAttribute(enc: Encoding, b: seq<byte>, from: nat, name: nat, m: nat) returns (a: Span)
    requires AsciiTable(enc) && from < name < |b| && White(enc, b, from, name)
    requires enc.CharStep(NmstrtChars, b, name) == Advance(m) && enc.AttName(b, false, m).Found?
    ensures IsAttribute(enc, b, from, a) && enc.AttName(b, false, m) == enc.AttValueEnd(b, a.close + 1)
  {
    hide *;
    var k, h := FoundAttName(enc, b, name, m);
    AttNameAt(enc, b, h, k);
    NeedsByte(enc, b);
    var e := k;
    if enc.typeOf(b[k]).White() {
      e := WhiteEnd(enc, b, k + 1);
      WhiteMore(enc, b, k, e);
      SpaceSkips(enc, b, k + 1, e);
      EqualsAt(enc, b, e);
    }
    var q := WhiteEnd(enc, b, e + 1);
    SpaceSkips(enc, b, e + 1, q);
    EqualsAt(enc, b, q);
    var c := FoundValue(enc, b, b[q], q + 1);
    NoWhite(enc, b, e);
    a := Span(name, k, e, q, c);
    AttributeMade(enc, b, from, a);
  }

  lemma OneMoreAttribute(enc: Encoding, b: seq<byte>, from: nat, a: Span, rest: seq<Span>, q: nat)
    requires IsAttribute(enc, b, from, a) && AreAttributes(enc, b, a.close + 1, rest, q)
    ensures AreAttributes(enc, b, from, [a] + rest, q)
  {
    hide IsAttribute;
    assert ([a] + rest)[1..] == rest;
  }

  lemma NoAttributes(enc: Encoding, b: seq<byte>, q: nat)
    ensures AreAttributes(enc, b, q, [], q)
  {
  }

  // what follows a value, or the name
  lemma {:induction false} FoundAttributes(enc: Encoding, b: seq<byte>, from: nat) returns (atts: seq<Span>, q: nat, n: nat, empty: bool)
    requires AsciiTable(enc) && from <= |b| && enc.AttValueEnd(b, from).Found?
    ensures AreAttributes(enc, b, from, atts, q) && from <= q < n <= |b| && IsTagEnd(enc, b, q, n, empty)
    ensures enc.AttValueEnd(b, from) == Found(TagToken(true, empty), n)
    decreases |b| - from
  {
    hide *;
    NeedsByte(enc, b);
    ValueEndAt(enc, b, from);
    if enc.typeOf(b[from]).White() {
      var j := WhiteEnd(enc, b, from + 1);
      WhiteMore(enc, b, from, j);
      SpaceSkips(enc, b, from + 1, j);
      SpaceAt(enc, b, j);
      if enc.CharStep(NmstrtChars, b, j).Advance? {
        var a := FoundAttribute(enc, b, from, j, enc.CharStep(NmstrtChars, b, j).next);
        InBuffer(enc, b, from, a);
        var rest;
        rest, q, n, empty := FoundAttributes(enc, b, a.close + 1);
        atts := [a] + rest;
        OneMoreAttribute(enc, b, from, a, rest, q);
      } else {
        atts, q := [], from;
        NoAttributes(enc, b, q);
        n, empty := FoundEnd(enc, b, from, j, EmptyElementWithAtts);
      }
    } else {
      atts, q := [], from;
      NoAttributes(enc, b, q);
      NoWhite(enc, b, from);
      n, empty := FoundEnd(enc, b, from, from, EmptyElementWithAtts);
    }
  }

  // the end of the tag at e
  lemma FoundEnd(enc: Encoding, b: seq<byte>, q: nat, e: nat, tok: Token) returns (n: nat, empty: bool)
    requires q <= e < |b| && White(enc, b, q, e) && tok in {EmptyElementWithAtts, EmptyElementNoAtts}
    requires b[e] == GT || (b[e] == 0x2F && enc.EmptyEnd(b, tok, e + 1).Found?)
    ensures IsTagEnd(enc, b, q, n, empty) && q < n <= |b| && empty == (b[e] != GT)
    ensures if empty then enc.EmptyEnd(b, tok, e + 1) == Found(tok, n) else n == e + 1
    ensures TagToken(tok == EmptyElementWithAtts, true) == tok && TagToken(true, false) == StartTagWithAtts && TagToken(false, false) == StartTagNoAtts
  {
    hide Encoding.EmptyEnd;
    EmptyEndIs(enc, b, tok, e + 1);
    empty := b[e] != GT;
    n := if empty then e + 2 else e + 1;
  }

  lemma FoundTag(enc: Encoding, b: seq<byte>, p: nat)
    requires AsciiTable(enc) && p + 1 < |b| && b[p] == 0x3C && enc.CharStep(NmstrtChars, b, p + 1).Advance? && enc.ScanLt(b, p + 1).Found?
    ensures var r := enc.ScanLt(b, p + 1);
            exists withAtts: bool, empty: bool :: IsTag(enc, b, p, r.next, withAtts, empty) && r.tok == TagToken(withAtts, empty)
  {
    hide *;
    var r := enc.ScanLt(b, p + 1);
    var m := enc.CharStep(NmstrtChars, b, p + 1).next;
    ScanLtName(enc, b, p + 1);
    var k, h := FoundStartName(enc, b, p + 1, m);
    StartNameAt(enc, b, h, k);
    NeedsByte(enc, b);
    if enc.typeOf(b[k]).White() {
      var j := WhiteEnd(enc, b, k + 1);
      WhiteMore(enc, b, k, j);
      SpaceSkips(enc, b, k + 1, j);
      SpaceAt(enc, b, j);
      if enc.CharStep(NmstrtChars, b, j).Advance? {
        var a := FoundAttribute(enc, b, k, j, enc.CharStep(NmstrtChars, b, j).next);
        InBuffer(enc, b, k, a);
        var rest, q, n, empty := FoundAttributes(enc, b, a.close + 1);
        OneMoreAttribute(enc, b, k, a, rest, q);
        MakeTag(enc, b, p, k, [a] + rest, q, n, empty);
      } else {
        var n, empty := FoundEnd(enc, b, k, j, EmptyElementNoAtts);
        NoAttributes(enc, b, k);
        MakeTag(enc, b, p, k, [], k, n, empty);
      }
    } else {
      NoWhite(enc, b, k);
      NoAttributes(enc, b, k);
      var n, empty := FoundEnd(enc, b, k, k, EmptyElementNoAtts);
      MakeTag(enc, b, p, k, [], k, n, empty);
    }
  }

  lemma MakeTag(enc: Encoding, b: seq<byte>, p: nat, k: nat, atts: seq<Span>, q: nat, n: nat, empty: bool)
    requires p + 1 < k <= q < n <= |b| && b[p] == 0x3C && QName(enc, b, p + 1, k) && IsTagEnd(enc, b, q, n, empty)
    requires AreAttributes(enc, b, k, atts, q)
    ensures IsTag(enc, b, p, n, atts != [], empty)
  {
    hide QName, IsAttribute;
    assert TagParts(enc, b, p, k, atts, q, n, empty);
  }

  // ----- markup -----

  const MARKUP: set<Token> := {StartTagWithAtts, StartTagNoAtts, EmptyElementWithAtts, EmptyElementNoAtts, EndTag,
                               Comment, Pi, XmlDecl, CdataSectOpen, EntityRef, CharRef}

  // The bytes from p to n are this piece of markup of XML 1.0.
  ghost predicate IsMarkup(enc: Encoding, b: seq<byte>, p: nat, n: nat, tok: Token)
    requires p <= n <= |b|
  {
    match tok
    case StartTagWithAtts => IsTag(enc, b, p, n, true, false)
    case StartTagNoAtts => IsTag(enc, b, p, n, false, false)
    case EmptyElementWithAtts => IsTag(enc, b, p, n, true, true)
    case EmptyElementNoAtts => IsTag(enc, b, p, n, false, true)
    case EndTag => IsEndTag(enc, b, p, n)
    case Comment => IsComment(enc, b, p, n)
    case Pi => IsPi(enc, b, p, n, false)
    case XmlDecl => IsPi(enc, b, p, n, true)
    case CdataSectOpen => IsOpener(b, p, n)
    case EntityRef => IsEntityRef(enc, b, p, n)
    case CharRef => IsCharRef(b, p, n)
    case _ => false
  }

  // what a "<" leads to
  lemma LtAt(enc: Encoding, b: seq<byte>, p: nat)
    requires AsciiTable(enc) && p < |b| && b[p] == 0x3C
    ensures enc.ContentTok(b, p) == enc.ScanLt(b, p + 1)
    ensures p + 1 < |b| && b[p + 1] == 0x2F ==> enc.ScanLt(b, p + 1) == enc.ScanEndTag(b, p + 2)
    ensures p + 1 < |b| && b[p + 1] == 0x3F ==> enc.ScanLt(b, p + 1) == enc.ScanPi(b, p + 2)
    ensures p + 2 < |b| && b[p + 1] == 0x21 && b[p + 2] == MINUS ==> enc.ScanLt(b, p + 1) == enc.ScanComment(b, p + 3)
    ensures p + 2 < |b| && b[p + 1] == 0x21 && b[p + 2] == 0x5B ==> enc.ScanLt(b, p + 1) == enc.ScanCdataSection(b, p + 3)
    ensures enc.ScanLt(b, p + 1).Found? ==>
              || (p + 1 < |b| && (enc.CharStep(NmstrtChars, b, p + 1).Advance? || b[p + 1] in {0x2F, 0x3F}))
              || (p + 2 < |b| && b[p + 1] == 0x21 && b[p + 2] in {MINUS, 0x5B})
  {
    hide AsciiTable, Encoding.CharStep, Encoding.StartName, Encoding.ScanEndTag, Encoding.ScanPi, Encoding.ScanComment,
      Encoding.ScanCdataSection;
    TagMarks(enc, b[p]);
    MarkUnlisted(enc, b, p);
    if p + 1 < |b| {
      TagMarks(enc, b[p + 1]);
      OtherMarks(enc, b[p + 1]);
      if b[p + 1] in {0x2F, 0x3F, 0x21} { MarkUnlisted(enc, b, p + 1); }
    }
    if p + 2 < |b| { OtherMarks(enc, b[p + 2]); }
  }

  lemma AmpAt(enc: Encoding, b: seq<byte>, p: nat)
    requires AsciiTable(enc) && p < |b| && b[p] == 0x26
    ensures enc.ContentTok(b, p) == enc.ScanRef(b, p + 1)
  {
    hide AsciiTable, Encoding.CharStep, Encoding.ScanRef;
    TagMarks(enc, b[p]);
    MarkUnlisted(enc, b, p);
  }

  // a token of markup begins with "<" or "&"
  lemma OtherToken(enc: Encoding, b: seq<byte>, p: nat)
    requires AsciiTable(enc) && p < |b| && b[p] !in {0x3C, 0x26}
    ensures var r := enc.ContentTok(b, p); r.Found? ==> r.tok in {DataChars, DataNewline}
  {
    hide AsciiTable, Encoding.CharStep, Encoding.ScanRef, Encoding.ScanLt;
    TagMarks(enc, b[p]);
  }

  lemma FoundIsMarkup(enc: Encoding, b: seq<byte>, p: nat)
    requires AsciiTable(enc) && p < |b| && b[p] in {0x3C, 0x26} && enc.ContentTok(b, p).Found?
    ensures var r := enc.ContentTok(b, p); r.next <= |b| && p <= r.next && r.tok in MARKUP && IsMarkup(enc, b, p, r.next, r.tok)
  {
    hide AsciiTable, IsTag, IsEndTag, IsComment, IsPi, IsOpener, IsEntityRef, IsCharRef, Encoding.CharStep, Encoding.ScanRef, Encoding.ScanLt,
      Encoding.ScanEndTag, Encoding.ScanPi, Encoding.ScanCdataSection, Encoding.CommentBody, Encoding.ContentTok;
    if b[p] == 0x26 {
      AmpAt(enc, b, p);
      FoundRef(enc, b, p);
    } else {
      LtAt(enc, b, p);
      if enc.CharStep(NmstrtChars, b, p + 1).Advance? {
        FoundTag(enc, b, p);
      } else if b[p + 1] == 0x2F {
        FoundEndTag(enc, b, p);
      } else if b[p + 1] == 0x3F {
        FoundIsPi(enc, b, p);
      } else if b[p + 2] == MINUS {
        FoundIsComment(enc, b, p);
      } else {
        OpenerIs(enc, b, p);
      }
    }
  }

  lemma FoundIsComment(enc: Encoding, b: seq<byte>, p: nat)
    requires AsciiTable(enc) && p + 2 < |b| && b[p] == 0x3C && b[p + 1] == 0x21 && b[p + 2] == MINUS && enc.ScanComment(b, p + 3).Found?
    ensures var r := enc.ScanComment(b, p + 3); r.tok == Comment && IsComment(enc, b, p, r.next)
  {
    hide AsciiTable, Encoding.CommentBody, CommentText;
    var n := FoundComment(enc, b, p + 4);
  }

  lemma MarkupIsFound(enc: Encoding, b: seq<byte>, p: nat, n: nat, tok: Token)
    requires AsciiTable(enc) && p <= n <= |b| && IsMarkup(enc, b, p, n, tok)
    ensures p < |b| && b[p] in {0x3C, 0x26} && enc.ContentTok(b, p) == Found(tok, n)
  {
    hide AsciiTable, IsTag, IsEndTag, IsComment, IsPi, IsOpener, IsEntityRef, IsCharRef, Encoding.CharStep, Encoding.ScanRef, Encoding.ScanLt,
      Encoding.ScanEndTag, Encoding.ScanPi, Encoding.ScanCdataSection, Encoding.ScanComment, Encoding.ContentTok;
    MarkupStarts(enc, b, p, n, tok);
    if b[p] == 0x3C { LtAt(enc, b, p); } else { AmpAt(enc, b, p); }
    match tok
    case EndTag =>
      var k: nat := EndTagName(enc, b, p, n);
      EndTagFound(enc, b, p, n, k);
    case Comment => CommentFound(enc, b, p, n);
    case Pi => PiFound(enc, b, p, n, false);
    case XmlDecl => PiFound(enc, b, p, n, true);
    case CdataSectOpen => OpenerIs(enc, b, p);
    case EntityRef => EntityRefFound(enc, b, p, n);
    case CharRef => CharRefFound(enc, b, p, n);
    case StartTagWithAtts => TagFound(enc, b, p, n, true, false);
    case StartTagNoAtts => TagFound(enc, b, p, n, false, false);
    case EmptyElementWithAtts => TagFound(enc, b, p, n, true, true);
    case EmptyElementNoAtts => TagFound(enc, b, p, n, false, true);
    case _ =>
  }

  lemma EndTagName(enc: Encoding, b: seq<byte>, p: nat, n: nat) returns (k: nat)
    requires p <= n <= |b| && IsEndTag(enc, b, p, n)
    ensures EndTagParts(enc, b, p, k, n)
  {
    hide EndTagParts;
    k :| EndTagParts(enc, b, p, k, n);
  }

  // the first bytes of markup
  lemma MarkupStarts(enc: Encoding, b: seq<byte>, p: nat, n: nat, tok: Token)
    requires p <= n <= |b| && IsMarkup(enc, b, p, n, tok)
    ensures p + 2 < n && b[p] == if tok in {EntityRef, CharRef} then 0x26 else 0x3C
    ensures tok == EndTag ==> b[p + 1] == 0x2F
    ensures tok in {Pi, XmlDecl} ==> b[p + 1] == 0x3F
    ensures tok == Comment ==> b[p + 1] == 0x21 && b[p + 2] == MINUS
    ensures tok == CdataSectOpen ==> n == p + 9 && b[p + 1] == 0x21 && b[p + 2] == 0x5B
    ensures tok.IsStartOrEmpty() ==> IsTag(enc, b, p, n, tok in {StartTagWithAtts, EmptyElementWithAtts}, tok in {EmptyElementWithAtts, EmptyElementNoAtts})
  {
    hide QName, White, IsAttribute, AreAttributes, LooseName, CommentText, PiText, NcName, Lower;
    if tok == CdataSectOpen {
      var s := b[p..n];
      assert s[0] == b[p] && s[1] == b[p + 1] && s[2] == b[p + 2];
    }
  }

  // The scanner finds markup exactly where the grammar has it.
  lemma MarkupIffFound(enc: Encoding, b: seq<byte>, p: nat, n: nat, tok: Token)
    requires AsciiTable(enc) && p <= n <= |b| && tok in MARKUP
    ensures enc.ContentTok(b, p) == Found(tok, n) <==> IsMarkup(enc, b, p, n, tok)
  {
    hide AsciiTable, IsMarkup, Encoding.ContentTok;
    if IsMarkup(enc, b, p, n, tok) {
      MarkupIsFound(enc, b, p, n, tok);
    } else if enc.ContentTok(b, p) == Found(tok, n) {
      NothingAtEnd(enc, b);
      if b[p] in {0x3C, 0x26} { FoundIsMarkup(enc, b, p); } else { OtherToken(enc, b, p); }
    }
  }

  lemma NothingAtEnd(enc: Encoding, b: seq<byte>)
    ensures enc.ContentTok(b, |b|) == Nothing
  {
  }
}

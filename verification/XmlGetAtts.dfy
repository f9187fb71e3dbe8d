// getAtts (xmltok_impl.c) reads a start tag a second time, with three states where the
// scanner of the tag has a dozen.  It finds the attributes the scanner passed over, inside
// the tag; and a value it marks as normalized needs no storeAttributeValue.
module XmlGetAtts {
  import opened Collections
  import opened XmlTok
  import opened XmlContent
  import opened XmlAttributes
  import opened XmlReferences
  import opened XmlSyntax

  // ATTRIBUTE, with positions in the tag for its pointers
  datatype Attribute = Attribute(name: nat, valuePtr: nat, valueEnd: nat, normalized: bool)

  // ----- where the scanner is in a tag -----

  datatype RefPhase = RefStart | InRefName | InCharRef | InDecimal | HexStart | InHex

  datatype Phase =
    | TagStart
    | TagName(hadColon: bool)
    | TagColon
    | TagSpace
    | InAttName(name: nat, hadColon: bool)
    | AttColon(name: nat)
    | BeforeEquals(name: nat)
    | AfterEquals(name: nat)
    | InValue(name: nat, quote: ByteType, from: nat, plain: bool)
    | InRef(ref: RefPhase, name: nat, quote: ByteType, from: nat)
    | AfterValue
    | NextAtt

  function RefScan(enc: Encoding, b: Bytes, ref: RefPhase, i: nat): Scan
    requires i <= |b|
  {
    match ref
    case RefStart => enc.ScanRef(b, i)
    case InRefName => enc.RefName(b, i)
    case InCharRef => enc.ScanCharRef(b, i)
    case InDecimal => enc.DecDigits(b, i)
    case HexStart => enc.ScanHexCharRef(b, i)
    case InHex => enc.HexDigits(b, i)
  }

  // what the scanner will answer for the tag
  function Scanner(enc: Encoding, b: Bytes, p: Phase, i: nat): Scan
    requires i <= |b|
  {
    match p
    case TagStart => enc.ScanLt(b, i)
    case TagName(hadColon) => enc.StartName(b, hadColon, i)
    case TagColon =>
      if i == |b| then Partial else
      (match enc.CharStep(NmstrtChars, b, i)
       case Advance(j) => enc.StartName(b, true, j)
       case Halt(r) => r
       case Unlisted => Invalid(i))
    case TagSpace => enc.StartSpace(b, i)
    case InAttName(_, hadColon) => enc.AttName(b, hadColon, i)
    case AttColon(_) =>
      if i == |b| then Partial else
      (match enc.CharStep(NmstrtChars, b, i)
       case Advance(j) => enc.AttName(b, true, j)
       case Halt(r) => r
       case Unlisted => Invalid(i))
    case BeforeEquals(_) => enc.AttBeforeEquals(b, i)
    case AfterEquals(_) => enc.AttAfterEquals(b, i)
    case InValue(_, quote, _, _) => enc.AttValue(b, quote, i)
    case InRef(ref, _, quote, _) =>
      var r := RefScan(enc, b, ref, i);
      if r.Found? && r.next <= |b| then enc.AttValue(b, quote, r.next) else r
    case AfterValue => enc.AttValueEnd(b, i)
    case NextAtt => enc.AttNext(b, i)
  }

  predicate Accepts(enc: Encoding, b: Bytes, p: Phase, i: nat)
    requires i <= |b|
  {
    && Scanner(enc, b, p, i).Found? && Scanner(enc, b, p, i).tok.IsStartOrEmpty()
    && (p.InValue? || p.InRef? ==> p.quote in {Quot, Apos})
  }

  // the byte that ends the tag, or the "/" before it
  predicate AtEnd(enc: Encoding, b: Bytes, p: Phase, i: nat)
    requires i < |b|
  {
    enc.typeOf(b[i]) in {Gt, Sol} && (p.TagName? || p.TagSpace? || p.AfterValue? || p.NextAtt?)
  }

  // A character of a value that a literal copy of the value would get wrong: a reference, a
  // line end, or a white space character other than a single space between two others.
  predicate Alters(enc: Encoding, b: Bytes, quote: ByteType, from: nat, i: nat)
    requires i < |b|
  {
    || enc.typeOf(b[i]) in {Amp, Cr, Lf}
    || (enc.typeOf(b[i]) == Space &&
        (i == from || b[i] != SPACE || i + 1 == |b| || b[i + 1] == SPACE || enc.typeOf(b[i + 1]) == quote))
  }

  function NextPhase(enc: Encoding, b: Bytes, p: Phase, i: nat): Phase
    requires i < |b|
  {
    var t := enc.typeOf(b[i]);
    match p
    case TagStart => TagName(false)
    case TagName(hadColon) => if t.White() then TagSpace else if t == Colon then TagColon else p
    case TagColon => TagName(true)
    case TagSpace => if t.White() then TagSpace else InAttName(i, false)
    case InAttName(name, _) =>
      if t.White() then BeforeEquals(name) else if t == Equals then AfterEquals(name)
      else if t == Colon then AttColon(name) else p
    case AttColon(name) => InAttName(name, true)
    case BeforeEquals(name) => if t == Equals then AfterEquals(name) else p
    case AfterEquals(name) => if t.White() then p else InValue(name, t, i + 1, true)
    case InValue(name, quote, from, plain) =>
      if t == quote then AfterValue
      else if t == Amp then InRef(RefStart, name, quote, from)
      else InValue(name, quote, from, plain && !Alters(enc, b, quote, from, i))
    case InRef(ref, name, quote, from) =>
      if t == Semi then InValue(name, quote, from, false)
      else
        var next := if ref == RefStart && t == Num then InCharRef
                    else if ref == RefStart || ref == InRefName then InRefName
                    else if ref == InCharRef && b[i] == LOWER_X then HexStart
                    else if ref == InCharRef || ref == InDecimal then InDecimal
                    else InHex;
        InRef(next, name, quote, from)
    case AfterValue => NextAtt
    case NextAtt => if t.White() then NextAtt else InAttName(i, false)
  }

  // the attributes from here on
  function Attributes(enc: Encoding, b: Bytes, p: Phase, i: nat): seq<Attribute>
    decreases |b| - i
  {
    if i >= |b| || AtEnd(enc, b, p, i) then [] else
    var closed := if p.InValue? && enc.typeOf(b[i]) == p.quote then [Attribute(p.name, p.from, i, p.plain)] else [];
    closed + Attributes(enc, b, NextPhase(enc, b, p, i), i + enc.Width(b, i))
  }

  // ----- the scanner, a character at a time -----

  lemma CharWidth(enc: Encoding, cls: CharClass, b: Bytes, i: nat)
    requires i < |b|
    ensures var s, t := enc.CharStep(cls, b, i), enc.typeOf(b[i]);
            && (s.Advance? ==> s.next == i + enc.Width(b, i))
            && (s.Advance? ==> !t.White() && t !in {Gt, Sol, Equals, Quot, Apos, Amp, Semi, Num, Lt, Colon})
            && (s.Advance? && cls == NmstrtChars ==> StartsName(t))
            && (s.Unlisted? ==> t !in {Lead2, Lead3, Lead4})
  {
  }

  lemma OneByte(enc: Encoding, b: Bytes, i: nat)
    requires i < |b| && enc.typeOf(b[i]) !in {Lead2, Lead3, Lead4}
    ensures enc.Width(b, i) == 1
  {
  }

  // What the byte at i can be, when the scanner is to find the tag to go on there; a value
  // does not end with the buffer.
  ghost predicate Possible(enc: Encoding, b: Bytes, p: Phase, i: nat)
    requires i < |b|
  {
    var t := enc.typeOf(b[i]);
    match p
    case TagStart => StartsName(t)
    case TagName(_) => t !in {Quot, Apos, Amp}
    case TagColon => StartsName(t)
    case TagSpace => t.White() || t in {Gt, Sol} || StartsName(t)
    case InAttName(_, _) => t !in {Quot, Apos, Amp, Gt, Sol}
    case AttColon(_) => StartsName(t)
    case BeforeEquals(_) => t.White() || t == Equals
    case AfterEquals(_) => t.White() || t in {Quot, Apos}
    case InValue(_, quote, _, _) => t != Lt && (t != quote ==> i + enc.Width(b, i) < |b|)
    case InRef(_, _, _, _) => t !in {Quot, Apos, Amp, Lt} && !t.White()
    case AfterValue => t.White() || t in {Gt, Sol}
    case NextAtt => t.White() || t in {Gt, Sol} || StartsName(t)
  }

  predicate StartsName(t: ByteType) { t in {Lead2, Lead3, Lead4, NonAscii, Nmstrt, Hex} }

  // the scanner takes one step along the tag
  ghost predicate Stepped(enc: Encoding, b: Bytes, p: Phase, i: nat)
    requires i <= |b|
  {
    && i < |b| && Possible(enc, b, p, i)
    && (AtEnd(enc, b, p, i) ||
        var (q, j) := (NextPhase(enc, b, p, i), i + enc.Width(b, i));
        Scanner(enc, b, q, j) == Scanner(enc, b, p, i) && Accepts(enc, b, q, j))
  }

  lemma StartNameIs(enc: Encoding, b: Bytes, hadColon: bool, i: nat)
    requires i <= |b| && enc.StartName(b, hadColon, i).Found?
    ensures i < |b|
    ensures var t, j := enc.typeOf(b[i]), i + enc.Width(b, i);
            && t !in {Quot, Apos, Amp}
            && enc.StartName(b, hadColon, i) ==
               if t.White() then enc.StartSpace(b, j)
               else if t == Colon then Scanner(enc, b, TagColon, j)
               else if t == Gt then Found(StartTagNoAtts, j)
               else if t == Sol then enc.EmptyEnd(b, EmptyElementNoAtts, j)
               else enc.StartName(b, hadColon, j)
  {
    hide Encoding.CharStep, Encoding.Width, Encoding.StartSpace, Encoding.EmptyEnd;
    if i < |b| {
      CharWidth(enc, NameChars, b, i);
      if enc.typeOf(b[i]) !in {Lead2, Lead3, Lead4} { OneByte(enc, b, i); }
    }
  }

  lemma TagNameSteps(enc: Encoding, b: Bytes, p: Phase, i: nat)
    requires i <= |b| && Accepts(enc, b, p, i) && p.TagName?
    ensures Stepped(enc, b, p, i)
  {
    hide Encoding.CharStep, Encoding.Width, Encoding.StartSpace, Encoding.StartName, Encoding.EmptyEnd, Encoding.AttName,
      Encoding.AttBeforeEquals, Encoding.AttAfterEquals, Encoding.AttValue, Encoding.AttValueEnd, Encoding.AttNext,
      Encoding.ScanLt, RefScan;
    StartNameIs(enc, b, p.hadColon, i);
  }

  lemma TagColonSteps(enc: Encoding, b: Bytes, p: Phase, i: nat)
    requires i <= |b| && Accepts(enc, b, p, i) && (p.TagColon? || p.AttColon?)
    ensures Stepped(enc, b, p, i)
  {
    hide Encoding.CharStep, Encoding.Width, Encoding.StartName, Encoding.StartSpace, Encoding.AttName,
      Encoding.AttBeforeEquals, Encoding.AttAfterEquals, Encoding.AttValue, Encoding.AttValueEnd,
      Encoding.AttNext, Encoding.ScanLt, Encoding.EmptyEnd, RefScan;
    if i < |b| {
      CharWidth(enc, NmstrtChars, b, i);
      if enc.typeOf(b[i]) !in {Lead2, Lead3, Lead4} { OneByte(enc, b, i); }
    }
  }

  lemma TagSpaceSteps(enc: Encoding, b: Bytes, p: Phase, i: nat)
    requires i <= |b| && Accepts(enc, b, p, i) && p.TagSpace?
    ensures Stepped(enc, b, p, i)
  {
    hide Encoding.CharStep, Encoding.Width, Encoding.StartName, Encoding.AttName, Encoding.AttBeforeEquals,
      Encoding.AttAfterEquals, Encoding.AttValue, Encoding.AttValueEnd, Encoding.AttNext, Encoding.ScanLt,
      Encoding.EmptyEnd, RefScan;
    if i < |b| {
      CharWidth(enc, NmstrtChars, b, i);
      if enc.typeOf(b[i]) !in {Lead2, Lead3, Lead4} { OneByte(enc, b, i); }
    }
  }

  lemma AttNameSteps(enc: Encoding, b: Bytes, p: Phase, i: nat)
    requires i <= |b| && Accepts(enc, b, p, i) && p.InAttName?
    ensures Stepped(enc, b, p, i)
  {
    hide Encoding.CharStep, Encoding.Width, Encoding.StartName, Encoding.StartSpace, Encoding.AttBeforeEquals,
      Encoding.AttAfterEquals, Encoding.AttValue, Encoding.AttValueEnd, Encoding.AttNext, Encoding.ScanLt,
      Encoding.EmptyEnd, RefScan;
    if i < |b| {
      CharWidth(enc, NameChars, b, i);
      if enc.typeOf(b[i]) !in {Lead2, Lead3, Lead4} { OneByte(enc, b, i); }
    }
  }

  lemma EqualsSteps(enc: Encoding, b: Bytes, p: Phase, i: nat)
    requires i <= |b| && Accepts(enc, b, p, i) && (p.BeforeEquals? || p.AfterEquals?)
    ensures Stepped(enc, b, p, i)
  {
    hide Encoding.CharStep, Encoding.Width, Encoding.StartName, Encoding.StartSpace, Encoding.AttName,
      Encoding.AttValue, Encoding.AttValueEnd, Encoding.AttNext, Encoding.ScanLt, Encoding.EmptyEnd, RefScan;
    if i < |b| {
      if enc.typeOf(b[i]) !in {Lead2, Lead3, Lead4} { OneByte(enc, b, i); }
    }
  }

  lemma AfterValueSteps(enc: Encoding, b: Bytes, p: Phase, i: nat)
    requires i <= |b| && Accepts(enc, b, p, i) && p.AfterValue?
    ensures Stepped(enc, b, p, i)
  {
    hide Encoding.CharStep, Encoding.Width, Encoding.StartName, Encoding.StartSpace, Encoding.AttName,
      Encoding.AttBeforeEquals, Encoding.AttAfterEquals, Encoding.AttValue, Encoding.AttNext, Encoding.ScanLt,
      Encoding.EmptyEnd, RefScan;
    if i < |b| {
      if enc.typeOf(b[i]) !in {Lead2, Lead3, Lead4} { OneByte(enc, b, i); }
    }
  }

  lemma NextAttSteps(enc: Encoding, b: Bytes, p: Phase, i: nat)
    requires i <= |b| && Accepts(enc, b, p, i) && p.NextAtt?
    ensures Stepped(enc, b, p, i)
  {
    hide Encoding.CharStep, Encoding.Width, Encoding.StartName, Encoding.StartSpace, Encoding.AttName,
      Encoding.AttBeforeEquals, Encoding.AttAfterEquals, Encoding.AttValue, Encoding.AttValueEnd,
      Encoding.ScanLt, Encoding.EmptyEnd, RefScan;
    if i < |b| {
      CharWidth(enc, NmstrtChars, b, i);
      if enc.typeOf(b[i]) !in {Lead2, Lead3, Lead4} { OneByte(enc, b, i); }
    }
  }

  // "x" is a letter, as in every encoding that extends ASCII
  predicate AsciiX(enc: Encoding) { enc.typeOf(LOWER_X) == Nmstrt }

  lemma TableHasX(enc: Encoding)
    requires AsciiTable(enc)
    ensures AsciiX(enc)
  {
    assert SameMark(enc.typeOf(LOWER_X), LOWER_X);
  }

  // the same along a reference, up to the semicolon
  ghost predicate RefStepped(enc: Encoding, b: Bytes, ref: RefPhase, i: nat)
    requires i <= |b|
  {
    && i < |b| && Possible(enc, b, InRef(ref, 0, Quot, 0), i)
    && var p, j := NextPhase(enc, b, InRef(ref, 0, Quot, 0), i), i + enc.Width(b, i);
       var r := RefScan(enc, b, ref, i);
       if p.InRef? then j <= |b| && RefScan(enc, b, p.ref, j) == r else r.Found? && r.next == j
  }

  lemma RefNameSteps(enc: Encoding, b: Bytes, ref: RefPhase, i: nat)
    requires i <= |b| && RefScan(enc, b, ref, i).Found? && (ref == RefStart || ref == InRefName)
    ensures RefStepped(enc, b, ref, i)
  {
    hide Encoding.CharStep, Encoding.Width, Encoding.ScanCharRef;
    if i < |b| {
      CharWidth(enc, if ref == InRefName then NameChars else NmstrtChars, b, i);
      if enc.typeOf(b[i]) !in {Lead2, Lead3, Lead4} { OneByte(enc, b, i); }
    }
  }

  lemma RefDigitSteps(enc: Encoding, b: Bytes, ref: RefPhase, i: nat)
    requires i <= |b| && RefScan(enc, b, ref, i).Found? && ref != RefStart && ref != InRefName
    requires AsciiX(enc)
    ensures RefStepped(enc, b, ref, i)
  {
    hide Encoding.Width;
    if i < |b| {
      if enc.typeOf(b[i]) !in {Lead2, Lead3, Lead4} { OneByte(enc, b, i); }
    }
  }

  lemma InRefSteps(enc: Encoding, b: Bytes, p: Phase, i: nat)
    requires i <= |b| && Accepts(enc, b, p, i) && p.InRef? && AsciiX(enc)
    ensures Stepped(enc, b, p, i)
  {
    hide RefScan, Encoding.AttValue, Encoding.Width;
    if p.ref == RefStart || p.ref == InRefName { RefNameSteps(enc, b, p.ref, i); } else { RefDigitSteps(enc, b, p.ref, i); }
  }

  lemma InValueSteps(enc: Encoding, b: Bytes, p: Phase, i: nat)
    requires i <= |b| && Accepts(enc, b, p, i) && p.InValue?
    ensures Stepped(enc, b, p, i)
  {
    hide Encoding.CharStep, Encoding.Width, Encoding.AttValueEnd, Encoding.ScanRef;
    if i < |b| {
      CharWidth(enc, ValidChars, b, i);
      if enc.typeOf(b[i]) !in {Lead2, Lead3, Lead4} { OneByte(enc, b, i); }
    }
  }

  // What follows "<!" or "<?" or "</" is no start tag.
  lemma {:induction false} CommentIs(enc: Encoding, b: Bytes, i: nat)
    requires i <= |b|
    ensures enc.CommentBody(b, i).Found? ==> enc.CommentBody(b, i).tok == Comment
    decreases |b| - i
  {
    hide Encoding.CharStep;
    if i < |b| {
      CommentIs(enc, b, i + 1);
      var s := enc.CharStep(ValidChars, b, i);
      if s.Advance? { CommentIs(enc, b, s.next); }
    }
  }

  lemma {:induction false} PiBodyIs(enc: Encoding, b: Bytes, i: nat, tok: Token)
    requires i <= |b| && tok in {Pi, XmlDecl}
    ensures enc.PiBody(b, tok, i).Found? ==> enc.PiBody(b, tok, i).tok == tok
    decreases |b| - i
  {
    hide Encoding.CharStep;
    if i < |b| {
      PiBodyIs(enc, b, i + 1, tok);
      var s := enc.CharStep(ValidChars, b, i);
      if s.Advance? { PiBodyIs(enc, b, s.next, tok); }
    }
  }

  lemma {:induction false} PiIs(enc: Encoding, b: Bytes, target: nat, i: nat)
    requires target <= i <= |b|
    ensures enc.PiTarget(b, target, i).Found? ==> enc.PiTarget(b, target, i).tok in {Pi, XmlDecl}
    decreases |b| - i
  {
    hide Encoding.CharStep, Encoding.PiBody, PiToken;
    if i < |b| {
      var s := enc.CharStep(NameChars, b, i);
      if s.Advance? { PiIs(enc, b, target, s.next); }
      var tok := PiToken(b[target..i]);
      if tok.Some? { PiBodyIs(enc, b, i + 1, tok.value); }
    }
  }

  lemma {:induction false} EndTagSpaceIs(enc: Encoding, b: Bytes, i: nat)
    requires i <= |b|
    ensures enc.EndTagSpace(b, i).Found? ==> enc.EndTagSpace(b, i).tok == EndTag
    decreases |b| - i
  {
    if i < |b| { EndTagSpaceIs(enc, b, i + 1); }
  }

  lemma {:induction false} EndTagIs(enc: Encoding, b: Bytes, i: nat)
    requires i <= |b|
    ensures enc.EndTagName(b, i).Found? ==> enc.EndTagName(b, i).tok == EndTag
    decreases |b| - i
  {
    hide Encoding.CharStep, Encoding.EndTagSpace;
    if i < |b| {
      EndTagIs(enc, b, i + 1);
      EndTagSpaceIs(enc, b, i + 1);
      var s := enc.CharStep(NameChars, b, i);
      if s.Advance? { EndTagIs(enc, b, s.next); }
    }
  }

  lemma {:induction false} CdataIs(enc: Encoding, b: Bytes, i: nat, k: nat)
    requires i + 6 <= |b| && k <= 6
    ensures enc.MatchCdata(b, i, k).Found? ==> enc.MatchCdata(b, i, k).tok == CdataSectOpen
    decreases 6 - k
  {
    if k < 6 { CdataIs(enc, b, i, k + 1); }
  }

  lemma OthersAre(enc: Encoding, b: Bytes, i: nat)
    requires i <= |b|
    ensures enc.ScanComment(b, i).Found? ==> enc.ScanComment(b, i).tok == Comment
    ensures enc.ScanCdataSection(b, i).Found? ==> enc.ScanCdataSection(b, i).tok == CdataSectOpen
    ensures enc.ScanPi(b, i).Found? ==> enc.ScanPi(b, i).tok in {Pi, XmlDecl}
    ensures enc.ScanEndTag(b, i).Found? ==> enc.ScanEndTag(b, i).tok == EndTag
  {
    hide Encoding.CharStep, Encoding.CommentBody, Encoding.PiTarget, Encoding.MatchCdata, Encoding.EndTagName;
    if i < |b| {
      CommentIs(enc, b, i + 1);
      if i + 6 <= |b| { CdataIs(enc, b, i, 0); }
      var s := enc.CharStep(NmstrtChars, b, i);
      if s.Advance? {
        PiIs(enc, b, i, s.next);
        EndTagIs(enc, b, s.next);
      }
    }
  }

  lemma StartIs(enc: Encoding, b: Bytes, i: nat)
    requires i <= |b| && enc.ScanLt(b, i).Found? && enc.ScanLt(b, i).tok.IsStartOrEmpty()
    ensures i < |b|
    ensures var s := enc.CharStep(NmstrtChars, b, i); s.Advance? && enc.ScanLt(b, i) == enc.StartName(b, false, s.next)
  {
    hide Encoding.CharStep, Encoding.StartName, Encoding.ScanComment, Encoding.ScanPi, Encoding.ScanCdataSection, Encoding.ScanEndTag;
    if i < |b| {
      OthersAre(enc, b, i + 1);
      if i + 1 < |b| { OthersAre(enc, b, i + 2); }
    }
  }

  lemma TagStartSteps(enc: Encoding, b: Bytes, i: nat)
    requires i <= |b| && Accepts(enc, b, TagStart, i)
    ensures Stepped(enc, b, TagStart, i)
  {
    hide Encoding.CharStep, Encoding.StartName, Encoding.Width, Encoding.ScanLt;
    StartIs(enc, b, i);
    CharWidth(enc, NmstrtChars, b, i);
  }

  // The scanner that has found a tag ahead takes one step towards its end.
  lemma Steps(enc: Encoding, b: Bytes, p: Phase, i: nat)
    requires AsciiX(enc) && i <= |b| && Accepts(enc, b, p, i)
    ensures Stepped(enc, b, p, i)
  {
    hide Scanner, Stepped;
    match p
    case TagStart => TagStartSteps(enc, b, i);
    case TagName(_) => TagNameSteps(enc, b, p, i);
    case TagColon => TagColonSteps(enc, b, p, i);
    case TagSpace => TagSpaceSteps(enc, b, p, i);
    case InAttName(_, _) => AttNameSteps(enc, b, p, i);
    case AttColon(_) => TagColonSteps(enc, b, p, i);
    case BeforeEquals(_) => EqualsSteps(enc, b, p, i);
    case AfterEquals(_) => EqualsSteps(enc, b, p, i);
    case InValue(_, _, _, _) => InValueSteps(enc, b, p, i);
    case InRef(_, _, _, _) => InRefSteps(enc, b, p, i);
    case AfterValue => AfterValueSteps(enc, b, p, i);
    case NextAtt => NextAttSteps(enc, b, p, i);
  }

  // ----- getAtts -----

  datatype TagState = Between | Naming | Quoting

  // where getAtts is, with opentype and the attribute it is working on
  datatype Reader = Reader(state: TagState, opentype: ByteType, a: Attribute)

  // the reader's place when the scanner is at p
  ghost predicate Follows(p: Phase, r: Reader) {
    match p
    case TagStart => r.state == Naming
    case TagName(_) => r.state == Naming
    case TagColon => r.state == Naming
    case TagSpace => r.state == Between
    case InAttName(name, _) => r.state == Naming && r.a.name == name && r.a.normalized
    case AttColon(name) => r.state == Naming && r.a.name == name && r.a.normalized
    case BeforeEquals(name) => r.state == Between && r.a.name == name && r.a.normalized
    case AfterEquals(name) => r.state != Quoting && r.a.name == name && r.a.normalized
    case InValue(name, quote, from, plain) =>
      r.state == Quoting && r.opentype == quote && r.a.name == name && r.a.valuePtr == from && r.a.normalized == plain
    case InRef(_, name, quote, from) =>
      r.state == Quoting && r.opentype == quote && r.a.name == name && r.a.valuePtr == from && !r.a.normalized
    case AfterValue => r.state == Between
    case NextAtt => r.state == Between
  }

  // What one character does to the reader.
  function Read(enc: Encoding, b: Bytes, i: nat, r: Reader): Reader
    requires i < |b|
  {
    var t := enc.typeOf(b[i]);
    if StartsName(t) then
      if r.state == Between then Reader(Naming, r.opentype, r.a.(name := i, normalized := true)) else r
    else if t in {Quot, Apos} then
      if r.state != Quoting then Reader(Quoting, t, r.a.(valuePtr := i + 1))
      else if t == r.opentype then Reader(Between, r.opentype, r.a.(valueEnd := i))
      else r
    else if t == Amp then r.(a := r.a.(normalized := false))
    else if t.White() then
      if r.state == Naming then r.(state := Between)
      else if r.state == Quoting && Alters(enc, b, r.opentype, r.a.valuePtr, i) then r.(a := r.a.(normalized := false))
      else r
    else r
  }

  // the reader has come to the end of a value
  predicate Closes(enc: Encoding, b: Bytes, i: nat, r: Reader)
    requires i < |b|
  {
    r.state == Quoting && enc.typeOf(b[i]) in {Quot, Apos} && enc.typeOf(b[i]) == r.opentype
  }

  predicate Returns(enc: Encoding, b: Bytes, i: nat, r: Reader)
    requires i < |b|
  {
    enc.typeOf(b[i]) in {Gt, Sol} && r.state != Quoting
  }

  // The reader keeps up with the scanner: it returns where the tag ends, and closes a value
  // where the scanner does.
  ghost predicate ReadsAlong(enc: Encoding, b: Bytes, p: Phase, i: nat, r: Reader)
    requires i < |b|
  {
    && (Returns(enc, b, i, r) <==> AtEnd(enc, b, p, i))
    && (!AtEnd(enc, b, p, i) ==> Follows(NextPhase(enc, b, p, i), Read(enc, b, i, r)))
    && (!AtEnd(enc, b, p, i) ==> (Closes(enc, b, i, r) <==> p.InValue? && enc.typeOf(b[i]) == p.quote))
    && (Closes(enc, b, i, r) && p.InValue? ==> Read(enc, b, i, r).a == Attribute(p.name, p.from, i, p.plain))
  }

  lemma ReadInTag(enc: Encoding, b: Bytes, p: Phase, i: nat, r: Reader)
    requires i < |b| && Possible(enc, b, p, i) && Follows(p, r) && !p.InValue? && !p.InRef? && !p.InAttName? && !p.AttColon?
    ensures ReadsAlong(enc, b, p, i, r)
  {
    hide Encoding.Width;
  }

  lemma ReadInName(enc: Encoding, b: Bytes, p: Phase, i: nat, r: Reader)
    requires i < |b| && Possible(enc, b, p, i) && Follows(p, r) && (p.InAttName? || p.AttColon?)
    ensures ReadsAlong(enc, b, p, i, r)
  {
    hide Encoding.Width;
  }

  lemma ReadInValue(enc: Encoding, b: Bytes, p: Phase, i: nat, r: Reader)
    requires i < |b| && Possible(enc, b, p, i) && Follows(p, r) && (p.InValue? || p.InRef?) && p.quote in {Quot, Apos}
    ensures ReadsAlong(enc, b, p, i, r)
  {
    hide Encoding.Width;
  }

  // The attributes from one character on.
  lemma AttributesStep(enc: Encoding, b: Bytes, p: Phase, i: nat)
    requires i < |b|
    ensures var rest := Attributes(enc, b, NextPhase(enc, b, p, i), i + enc.Width(b, i));
            Attributes(enc, b, p, i) ==
            if AtEnd(enc, b, p, i) then []
            else if p.InValue? && enc.typeOf(b[i]) == p.quote then [Attribute(p.name, p.from, i, p.plain)] + rest
            else rest
  {
    hide Encoding.Width, AtEnd, NextPhase;
  }

  // One round of getAtts' loop.
  method ReadByte(enc: Encoding, b: Bytes, ptr: nat, state: TagState, opentype: ByteType, nAtts: nat,
                  attsMax: nat, atts: array<Attribute>, ghost a: Attribute)
    returns (state': TagState, opentype': ByteType, nAtts': nat)
    requires ptr < |b| && (state == Quoting && enc.typeOf(b[ptr]) == Space ==> ptr + 1 < |b|)
    requires attsMax <= atts.Length && (nAtts < attsMax ==> atts[nAtts] == a)
    modifies atts
    ensures var r := Reader(state, opentype, a);
            var r' := Read(enc, b, ptr, r);
            && state' == r'.state && opentype' == r'.opentype
            && nAtts' == (if Closes(enc, b, ptr, r) then nAtts + 1 else nAtts)
            && (nAtts < attsMax ==> atts[nAtts] == r'.a)
    ensures forall k :: 0 <= k < atts.Length && k != nAtts ==> atts[k] == old(atts[k])
  {
    state', opentype', nAtts' := state, opentype, nAtts;
    var t := enc.typeOf(b[ptr]);
    var stored := nAtts < attsMax;
    if StartsName(t) {
      if state == Between {
        if stored { atts[nAtts] := atts[nAtts].(name := ptr, normalized := true); }
        state' := Naming;
      }
    } else if t == Quot || t == Apos {
      if state != Quoting {
        if stored { atts[nAtts] := atts[nAtts].(valuePtr := ptr + 1); }
        state', opentype' := Quoting, t;
      } else if opentype == t {
        state' := Between;
        if stored { atts[nAtts] := atts[nAtts].(valueEnd := ptr); }
        nAtts' := nAtts + 1;
      }
    } else if t == Amp {
      if stored { atts[nAtts] := atts[nAtts].(normalized := false); }
    } else if t == Space {
      if state == Naming {
        state' := Between;
      } else if state == Quoting && stored && atts[nAtts].normalized &&
                (ptr == atts[nAtts].valuePtr || b[ptr] != SPACE || b[ptr + 1] == SPACE || enc.typeOf(b[ptr + 1]) == opentype) {
        atts[nAtts] := atts[nAtts].(normalized := false);
      }
    } else if t == Cr || t == Lf {
      if state == Naming {
        state' := Between;
      } else if state == Quoting && stored {
        atts[nAtts] := atts[nAtts].(normalized := false);
      }
    }
  }

  // getAtts, on a tag that the scanner has accepted: the number of its attributes, and the
  // first attsMax of them.
  method GetAtts(enc: Encoding, b: Bytes, attsMax: nat, atts: array<Attribute>) returns (nAtts: nat)
    requires AsciiX(enc) && 1 <= |b| && Accepts(enc, b, TagStart, 1) && attsMax <= atts.Length
    modifies atts
    ensures nAtts == |Attributes(enc, b, TagStart, 1)|
    ensures forall k :: 0 <= k < nAtts && k < attsMax ==> atts[k] == Attributes(enc, b, TagStart, 1)[k]
  {
    hide Accepts, Encoding.Width, Attributes, NextPhase, Possible, AtEnd, Follows, Read, Closes, Stepped;
    var state, opentype, ptr := Naming, Quot, 1;
    nAtts := 0;
    ghost var p, done, rest := TagStart, [], Attributes(enc, b, TagStart, 1);
    ghost var a := if 0 < attsMax then atts[0] else Attribute(0, 0, 0, true);
    StartFollows(Reader(state, opentype, a));
    while true
      invariant ptr <= |b| && Accepts(enc, b, p, ptr) && Follows(p, Reader(state, opentype, a))
      invariant nAtts == |done| && rest == Attributes(enc, b, p, ptr) && Attributes(enc, b, TagStart, 1) == done + rest
      invariant nAtts < attsMax ==> atts[nAtts] == a
      invariant forall k :: 0 <= k < nAtts && k < attsMax ==> atts[k] == done[k]
      decreases |b| - ptr
    {
      ghost var r := Reader(state, opentype, a);
      ghost var following := if nAtts + 1 < attsMax then atts[nAtts + 1] else a;
      ghost var r', rest' := Round(enc, b, p, ptr, r, following);
      if (enc.typeOf(b[ptr]) == Gt || enc.typeOf(b[ptr]) == Sol) && state != Quoting { return nAtts; }
      state, opentype, nAtts := ReadByte(enc, b, ptr, state, opentype, nAtts, attsMax, atts, a);
      if nAtts > |done| {
        Regroup(done, r'.a, rest');
        done, a := done + [r'.a], following;
      } else {
        a := r'.a;
      }
      p, ptr, rest := NextPhase(enc, b, p, ptr), ptr + enc.Width(b, ptr), rest';
    }
  }

  lemma Regroup(done: seq<Attribute>, a: Attribute, rest: seq<Attribute>)
    ensures done + ([a] + rest) == (done + [a]) + rest
  {
  }

  // Both take a step, or the tag ends here; after a value nothing is left of its attribute.
  lemma Round(enc: Encoding, b: Bytes, p: Phase, i: nat, r: Reader, following: Attribute) returns (r': Reader, rest: seq<Attribute>)
    requires AsciiX(enc) && i <= |b| && Accepts(enc, b, p, i) && Follows(p, r)
    ensures i < |b| && r' == Read(enc, b, i, r)
    ensures r.state == Quoting && enc.typeOf(b[i]) == Space ==> i + 1 < |b|
    ensures if Returns(enc, b, i, r) then Attributes(enc, b, p, i) == []
            else
              var (q, j) := (NextPhase(enc, b, p, i), i + enc.Width(b, i));
              && Accepts(enc, b, q, j) && rest == Attributes(enc, b, q, j)
              && (if Closes(enc, b, i, r) then Follows(q, r'.(a := following)) else Follows(q, r'))
              && Attributes(enc, b, p, i) == if Closes(enc, b, i, r) then [r'.a] + rest else rest
  {
    hide Scanner, Encoding.Width, Attributes, NextPhase, Possible, AtEnd, Follows, Read, Closes, Returns;
    Steps(enc, b, p, i);
    AttributesStep(enc, b, p, i);
    if p.InValue? || p.InRef? {
      ReadInValue(enc, b, p, i, r);
    } else if p.InAttName? || p.AttColon? {
      ReadInName(enc, b, p, i, r);
    } else {
      ReadInTag(enc, b, p, i, r);
    }
    r' := Read(enc, b, i, r);
    rest := if Returns(enc, b, i, r) then [] else Attributes(enc, b, NextPhase(enc, b, p, i), i + enc.Width(b, i));
    if r.state == Quoting && enc.typeOf(b[i]) == Space { LookAhead(enc, b, p, i, r); }
    if Closes(enc, b, i, r) { ClosedFollows(enc, b, p, i, r, following); }
  }

  lemma StartFollows(r: Reader)
    requires r.state == Naming
    ensures Follows(TagStart, r)
  {
  }

  // after a value nothing is left of the attribute
  lemma ClosedFollows(enc: Encoding, b: Bytes, p: Phase, i: nat, r: Reader, a: Attribute)
    requires i < |b| && Closes(enc, b, i, r) && Follows(p, r) && Possible(enc, b, p, i)
    requires p.InValue? || p.InRef? ==> p.quote in {Quot, Apos}
    ensures Follows(NextPhase(enc, b, p, i), Read(enc, b, i, r).(a := a))
  {
  }

  // a space in a value is not the last byte of the buffer
  lemma LookAhead(enc: Encoding, b: Bytes, p: Phase, i: nat, r: Reader)
    requires i < |b| && Possible(enc, b, p, i) && Follows(p, r) && r.state == Quoting && enc.typeOf(b[i]) == Space
    requires p.InValue? || p.InRef? ==> p.quote in {Quot, Apos}
    ensures i + 1 < |b|
  {
  }

  // ----- the values that are copied as they are -----

  // the characters of a value from k on, in the tag, none of which a copy gets wrong
  predicate PlainFrom(enc: Encoding, b: Bytes, quote: ByteType, from: nat, k: nat, to: nat)
    decreases |b| - k
  {
    if k >= |b| || k >= to then k == to
    else
      && !Alters(enc, b, quote, from, k) && enc.typeOf(b[k]) != Lt && enc.typeOf(b[k]) != quote
      && PlainFrom(enc, b, quote, from, k + enc.Width(b, k), to)
  }

  lemma {:induction false} PlainMore(enc: Encoding, b: Bytes, quote: ByteType, from: nat, k: nat, to: nat)
    requires to < |b| && PlainFrom(enc, b, quote, from, k, to)
    requires !Alters(enc, b, quote, from, to) && enc.typeOf(b[to]) != Lt && enc.typeOf(b[to]) != quote
    ensures PlainFrom(enc, b, quote, from, k, to + enc.Width(b, to))
    decreases |b| - k
  {
    hide Alters;
    if k < to {
      PlainMore(enc, b, quote, from, k + enc.Width(b, k), to);
    } else {
      var j := to + enc.Width(b, to);
      assert PlainFrom(enc, b, quote, from, j, j);
    }
  }

  // what is known of a value when the scanner has got to i
  ghost predicate PlainSoFar(enc: Encoding, b: Bytes, p: Phase, i: nat) {
    && (p.InValue? || p.InRef? ==> p.quote in {Quot, Apos} && p.from <= i)
    && (p.InValue? && p.plain ==> PlainFrom(enc, b, p.quote, p.from, p.from, i))
  }

  ghost predicate PlainValue(enc: Encoding, b: Bytes, a: Attribute) {
    && a.valuePtr <= a.valueEnd < |b|
    && var quote := enc.typeOf(b[a.valueEnd]);
       && quote in {Quot, Apos}
       && (a.normalized ==> PlainFrom(enc, b, quote, a.valuePtr, a.valuePtr, a.valueEnd))
  }

  lemma {:induction false} ValuesPlain(enc: Encoding, b: Bytes, p: Phase, i: nat)
    requires AsciiX(enc) && i <= |b| && Accepts(enc, b, p, i) && PlainSoFar(enc, b, p, i)
    ensures forall a <- Attributes(enc, b, p, i) :: PlainValue(enc, b, a)
    decreases |b| - i
  {
    hide Scanner, Encoding.Width, Attributes, NextPhase, AtEnd, PlainFrom, Alters, Possible;
    Steps(enc, b, p, i);
    AttributesStep(enc, b, p, i);
    if !AtEnd(enc, b, p, i) {
      PlainNext(enc, b, p, i);
      ValuesPlain(enc, b, NextPhase(enc, b, p, i), i + enc.Width(b, i));
    }
  }

  lemma PlainNext(enc: Encoding, b: Bytes, p: Phase, i: nat)
    requires i < |b| && Possible(enc, b, p, i) && PlainSoFar(enc, b, p, i) && !AtEnd(enc, b, p, i)
    ensures PlainSoFar(enc, b, NextPhase(enc, b, p, i), i + enc.Width(b, i))
  {
    hide Alters, PlainFrom;
    if p.InValue? && p.plain && enc.typeOf(b[i]) != p.quote && !Alters(enc, b, p.quote, p.from, i) {
      PlainMore(enc, b, p.quote, p.from, p.from, i);
    }
    if p.AfterEquals? {
      OneByte(enc, b, i);
      assert PlainFrom(enc, b, enc.typeOf(b[i]), i + 1, i + 1, i + 1) by { PlainNothing(enc, b, enc.typeOf(b[i]), i + 1); }
    }
  }

  lemma PlainNothing(enc: Encoding, b: Bytes, quote: ByteType, k: nat)
    ensures PlainFrom(enc, b, quote, k, k, k)
  {
  }

  // The first pass leaves such a value as it is,
  lemma {:induction false} PlainNormalized(c: Config, open: set<Bytes>, b: Bytes, quote: ByteType, from: nat, k: nat, to: nat)
    requires k <= to < |b| && c.external.typeOf(b[to]) == quote && PlainFrom(c.external, b, quote, from, k, to)
    ensures Normalized(c, false, open, b[k..to]) == Appended(b[k..to])
    decreases |b| - k
  {
    hide Normalized;
    var enc := c.external;
    if k == to {
      assert b[k..to] == [];
      NothingNormalized(c, open);
    } else {
      var j, v := k + enc.Width(b, k), b[k..to];
      PlainWithin(enc, b, quote, from, j, to);
      PlainNormalized(c, open, b, quote, from, j, to);
      assert v[0] == b[k] && v[..j - k] == b[k..j] && v[j - k..] == b[j..to] && b[k..j] + b[j..to] == v;
      assert enc.Width(v, 0) == j - k;
      PlainChar(c, open, v);
    }
  }

  lemma PlainWithin(enc: Encoding, b: Bytes, quote: ByteType, from: nat, k: nat, to: nat)
    requires PlainFrom(enc, b, quote, from, k, to)
    ensures k <= to
  {
  }

  lemma PlainChar(c: Config, open: set<Bytes>, v: Bytes)
    requires v != [] && c.external.typeOf(v[0]) !in {Amp, Lt, Cr, Lf}
    requires c.external.typeOf(v[0]) == Space ==> v[0] == SPACE
    ensures var w := c.external.Width(v, 0); Normalized(c, false, open, v) == Before(v[..w], Normalized(c, false, open, v[w..]))
  {
    hide Normalized, Before;
    if c.external.typeOf(v[0]) == Space {
      WhiteIs(c, false, open, v);
      assert v[..1] == [SPACE];
    } else {
      CharIs(c, false, open, v);
    }
  }

  // ----- what the code would have stored -----

  // what a character of a run of data characters begins with
  predicate IsData(t: ByteType) { t != Amp && t != Lt && t != Cr && t != Lf && t != Space }

  // The characters of v from k on, as a value that is marked as normalized has them.
  predicate PlainChars(enc: Encoding, v: Bytes, k: nat)
    decreases |v| - k
  {
    k < |v| ==>
      && (enc.typeOf(v[k]) == Space ==> v[k] == SPACE)
      && (enc.typeOf(v[k]) != Space ==> IsData(enc.typeOf(v[k])))
      && PlainChars(enc, v, k + enc.Width(v, k))
  }

  lemma {:induction false} PlainIsChars(enc: Encoding, b: Bytes, quote: ByteType, from: nat, k: nat, to: nat)
    requires from <= k <= to < |b| && enc.typeOf(b[to]) == quote && PlainFrom(enc, b, quote, from, k, to)
    ensures PlainChars(enc, b[from..to], k - from)
    decreases |b| - k
  {
    hide Encoding.Width;
    if k < to {
      var j := k + enc.Width(b, k);
      PlainWithin(enc, b, quote, from, j, to);
      WidthWithin(enc, b, from, k, to);
      PlainIsChars(enc, b, quote, from, j, to);
    }
  }

  lemma WidthWithin(enc: Encoding, b: Bytes, from: nat, k: nat, to: nat)
    requires from <= k < to <= |b| && k + enc.Width(b, k) <= to
    ensures enc.Width(b[from..to], k - from) == enc.Width(b, k)
  {
  }

  // White space characters from k on that are kept: each has something in front of it that is
  // no space byte.
  predicate SpacesKept(enc: Encoding, v: Bytes, k: nat)
    decreases |v| - k
  {
    k < |v| ==>
      && (enc.typeOf(v[k]) == Space ==> 0 < k && v[k - 1] != SPACE)
      && SpacesKept(enc, v, k + enc.Width(v, k))
  }

  // a run found in what is behind w, as a run found in the whole
  function Behind(w: nat, r: Scan): Scan {
    match r
    case Found(tok, next) => Found(tok, w + next)
    case Invalid(at) => Invalid(w + at)
    case _ => r
  }

  lemma {:induction false} RunFrom(enc: Encoding, b: Bytes, w: nat, i: nat)
    requires w + i <= |b|
    ensures enc.ValueChars(b, w + i) == Behind(w, enc.ValueChars(b[w..], i))
    decreases |b| - i
  {
    hide Encoding.Width, Encoding.ValueChars;
    ValueCharsAt(enc, b, w + i);
    ValueCharsAt(enc, b[w..], i);
    if w + i < |b| {
      assert b[w..][i] == b[w + i];
      WidthFrom(enc, b, w, i);
      var j := i + enc.Width(b, w + i);
      RunFrom(enc, b, w, j);
    }
  }

  // The code appends a run; that is the same as appending its first character, and the rest.
  lemma CharAppended(c: Config, open: set<Bytes>, b: Bytes, q: Bytes)
    requires b != [] && IsData(c.external.typeOf(b[0]))
    ensures var w := c.external.Width(b, 0);
            Append(c, false, false, open, b, q) == Append(c, false, false, open, b[w..], q + b[..w])
  {
    hide Append, Encoding.Width, Encoding.ValueChars;
    var enc := c.external;
    var w := enc.Width(b, 0);
    ValueCharsAt(enc, b, w);
    if w < |b| && IsData(enc.typeOf(b[w])) {
      RestAppended(c, open, b, q);
    } else {
      RunAppended(c, open, b, q);
      if w < |b| && enc.typeOf(b[w]) == Lt { LtAppended(c, open, b[w..], q + b[..w]); }
    }
  }

  // the case that the run goes on behind the character
  lemma RestAppended(c: Config, open: set<Bytes>, b: Bytes, q: Bytes)
    requires b != [] && IsData(c.external.typeOf(b[0]))
    requires var w := c.external.Width(b, 0); w < |b| && IsData(c.external.typeOf(b[w]))
    ensures var w := c.external.Width(b, 0);
            Append(c, false, false, open, b, q) == Append(c, false, false, open, b[w..], q + b[..w])
  {
    hide Append, IsData, Encoding.Width, Encoding.ValueChars;
    var enc := c.external;
    var w := enc.Width(b, 0);
    var rest := b[w..];
    RunGoesOn(enc, b, w);
    RunAppended(c, open, b, q);
    RunAppended(c, open, rest, q + b[..w]);
    var r := enc.ValueChars(rest, enc.Width(rest, 0));
    if r.Found? { Regrouped(b, q, w, w + r.next); }
  }

  lemma RunGoesOn(enc: Encoding, b: Bytes, w: nat)
    requires w < |b| && IsData(enc.typeOf(b[w]))
    ensures b[w..][0] == b[w]
    ensures enc.ValueChars(b, w) == Behind(w, enc.ValueChars(b[w..], enc.Width(b[w..], 0)))
  {
    hide Encoding.Width, Encoding.ValueChars;
    ValueCharsAt(enc, b, w);
    WidthFrom(enc, b, w, 0);
    RunFrom(enc, b, w, enc.Width(b, w));
  }

  lemma Regrouped(b: Bytes, q: Bytes, w: nat, n: nat)
    requires w <= n <= |b|
    ensures q + b[..w] + b[w..][..n - w] == q + b[..n] && b[w..][n - w..] == b[n..]
  {
  }

  lemma RunAppended(c: Config, open: set<Bytes>, b: Bytes, q: Bytes)
    requires b != [] && IsData(c.external.typeOf(b[0]))
    ensures var r := c.external.ValueChars(b, c.external.Width(b, 0));
            Append(c, false, false, open, b, q)
            == if r.Found? then Append(c, false, false, open, b[r.next..], q + b[..r.next]) else Rejected(InvalidToken)
  {
    hide Encoding.Width, Encoding.ValueChars, Encoding.ScanRef, PieceOf;
    var r := c.external.ValueChars(b, c.external.Width(b, 0));
    if r.Found? { TextIsPiece(c, open, b[..r.next]); }
  }

  lemma LtAppended(c: Config, open: set<Bytes>, b: Bytes, q: Bytes)
    requires b != [] && c.external.typeOf(b[0]) == Lt
    ensures Append(c, false, false, open, b, q) == Rejected(InvalidToken)
  {
    hide Encoding.ValueChars, Encoding.ScanRef, PieceOf;
  }

  lemma SpaceAppended(c: Config, open: set<Bytes>, b: Bytes, q: Bytes)
    requires b != [] && c.external.typeOf(b[0]) == Space
    ensures Append(c, false, false, open, b, q) == Append(c, false, false, open, b[1..], WithSpace(false, q))
  {
    hide Encoding.ValueChars, Encoding.ScanRef;
  }

  // All characters from k on are appended to q, but for the white space that is not kept.
  ghost predicate KeptIn(enc: Encoding, v: Bytes, k: nat, q: Bytes, a: Value)
    requires k <= |v|
  {
    && a.Appended? && |a.pool| <= |q| + |v| - k
    && (q == v[..k] ==> if SpacesKept(enc, v, k) then a.pool == v else |a.pool| < |v|)
  }

  lemma KeptSpace(enc: Encoding, v: Bytes, k: nat, q: Bytes, a: Value)
    requires k < |v| && enc.typeOf(v[k]) == Space && v[k] == SPACE && KeptIn(enc, v, k + 1, WithSpace(false, q), a)
    ensures KeptIn(enc, v, k, q, a)
  {
    SpaceWidth(enc, v, k);
    assert q == v[..k] && !Redundant(false, q) ==> WithSpace(false, q) == v[..k + 1];
  }

  lemma KeptOther(enc: Encoding, v: Bytes, k: nat, q: Bytes, a: Value)
    requires k < |v| && enc.typeOf(v[k]) != Space
    requires var j := k + enc.Width(v, k); KeptIn(enc, v, j, q + v[k..j], a)
    ensures KeptIn(enc, v, k, q, a)
  {
    hide Encoding.Width;
    var j := k + enc.Width(v, k);
    assert v[..k] + v[k..j] == v[..j];
  }

  lemma {:induction false} CharsAppended(c: Config, open: set<Bytes>, v: Bytes, k: nat, q: Bytes)
    requires k <= |v| && PlainChars(c.external, v, k)
    ensures KeptIn(c.external, v, k, q, Append(c, false, false, open, v[k..], q))
    decreases |v| - k
  {
    hide Append, Encoding.Width, KeptIn, IsData, WithSpace;
    var enc, b := c.external, v[k..];
    if k == |v| {
      NothingAppended(c, open, q);
      assert v[k..] == [];
      KeptAll(enc, v, q);
    } else {
      WidthFrom(enc, v, k, 0);
      var w := enc.Width(v, k);
      assert b[w..] == v[k + w..] && b[..w] == v[k..k + w];
      if enc.typeOf(v[k]) == Space {
        SpaceAppended(c, open, b, q);
        SpaceWidth(enc, v, k);
        CharsAppended(c, open, v, k + 1, WithSpace(false, q));
        KeptSpace(enc, v, k, q, Append(c, false, false, open, b, q));
      } else {
        CharAppended(c, open, b, q);
        CharsAppended(c, open, v, k + w, q + b[..w]);
        KeptOther(enc, v, k, q, Append(c, false, false, open, b, q));
      }
    }
  }

  lemma KeptAll(enc: Encoding, v: Bytes, q: Bytes)
    ensures KeptIn(enc, v, |v|, q, Appended(q))
  {
    assert v[..|v|] == v;
  }

  lemma SpaceWidth(enc: Encoding, v: Bytes, k: nat)
    requires k < |v| && enc.typeOf(v[k]) == Space
    ensures enc.Width(v, k) == 1
  {
  }

  lemma NothingAppended(c: Config, open: set<Bytes>, q: Bytes)
    ensures Append(c, false, false, open, [], q) == Appended(q)
  {
  }

  // and so does the second: no space is at an end or beside another.
  lemma {:induction false} PlainSpaces(enc: Encoding, b: Bytes, quote: ByteType, from: nat, k: nat, to: nat, i: nat)
    requires SpacesApart(enc, b) && k <= i < to < |b| && PlainFrom(enc, b, quote, from, k, to) && b[i] == SPACE
    ensures enc.typeOf(b[i]) == Space && !Alters(enc, b, quote, from, i)
    decreases |b| - k
  {
    hide Alters;
    if i != k {
      var j := k + enc.Width(b, k);
      PlainSpaces(enc, b, quote, from, j, to, i);
    }
  }

  predicate SingleSpaces(v: Bytes) {
    && (v != [] ==> v[0] != SPACE && v[|v| - 1] != SPACE)
    && forall i :: 0 <= i < |v| - 1 ==> !(v[i] == SPACE && v[i + 1] == SPACE)
  }

  lemma {:induction false} SingleSpacesSqueezed(v: Bytes)
    requires v != [] ==> v[0] != SPACE
    requires forall i :: 0 <= i < |v| - 1 ==> !(v[i] == SPACE && v[i + 1] == SPACE)
    ensures Squeezed(v) == v
  {
    if v != [] {
      var less := v[..|v| - 1];
      SingleSpacesSqueezed(less);
      assert v == less + [v[|v| - 1]];
    }
  }

  lemma PlainSingle(enc: Encoding, b: Bytes, a: Attribute)
    requires SpacesApart(enc, b) && PlainValue(enc, b, a) && a.normalized
    ensures SingleSpaces(b[a.valuePtr..a.valueEnd])
  {
    hide PlainFrom, SpacesApart;
    var v, from, to := b[a.valuePtr..a.valueEnd], a.valuePtr, a.valueEnd;
    forall i | 0 <= i < |v| && v[i] == SPACE
      ensures 0 < i < |v| - 1 && v[i + 1] != SPACE
    {
      PlainSpaces(enc, b, enc.typeOf(b[to]), from, from, to, from + i);
      assert from + i + 1 != to && (i + 1 < |v| ==> v[i + 1] == b[from + i + 1]);
    }
  }

  // storeAtts copies a value that getAtts has marked as normalized.  That is what
  // storeAttributeValue would have made of it: for CDATA always, and for other types exactly if
  // no space byte that ends a character stands in front of white space or at the end.
  lemma CopiedAsStored(c: Config, isCdata: bool, open: set<Bytes>, b: Bytes, a: Attribute)
    requires AsciiTables(c) && 1 <= |b| && Accepts(c.external, b, TagStart, 1)
    requires a in Attributes(c.external, b, TagStart, 1) && a.normalized
    ensures a.valuePtr <= a.valueEnd <= |b|
    ensures var v := b[a.valuePtr..a.valueEnd];
            Store(c, isCdata, open, v) == Appended(v)
            <==> isCdata || (SpacesKept(c.external, v, 0) && (v != [] ==> v[|v| - 1] != SPACE))
  {
    hide AsciiTable, Accepts, Attributes, Normalized, PlainFrom, Append, Collapsed, PlainChars, SpacesKept, Tidy;
    TableHasX(c.external);
    SpaceIsWhite(c.external);
    ValuesPlain(c.external, b, TagStart, 1);
    var v, from, to := b[a.valuePtr..a.valueEnd], a.valuePtr, a.valueEnd;
    if isCdata {
      PlainNormalized(c, open, b, c.external.typeOf(b[to]), from, from, to);
      StoreIsNormalized(c, isCdata, open, v);
    } else {
      PlainIsChars(c.external, b, c.external.typeOf(b[to]), from, from, to);
      assert v[0..] == v && v[..0] == [];
      CharsAppended(c, open, v, 0, []);
    }
  }

  // In a well formed encoding that is every value: the copy is what would have been stored.
  lemma CopiedWhenApart(c: Config, isCdata: bool, open: set<Bytes>, b: Bytes, a: Attribute)
    requires 1 <= |b| && Accepts(c.external, b, TagStart, 1)
    requires a in Attributes(c.external, b, TagStart, 1) && a.normalized
    requires AsciiTables(c) && AllApart(c, b)
    ensures a.valuePtr <= a.valueEnd <= |b|
    ensures Store(c, isCdata, open, b[a.valuePtr..a.valueEnd]) == Appended(b[a.valuePtr..a.valueEnd])
  {
    hide AsciiTable, Accepts, Attributes, Normalized, PlainFrom, Store, Collapsed, SpacesApart, EntitiesApart, Tidy;
    TableHasX(c.external);
    ValuesPlain(c.external, b, TagStart, 1);
    var v := b[a.valuePtr..a.valueEnd];
    PlainNormalized(c, open, b, c.external.typeOf(b[a.valueEnd]), a.valuePtr, a.valuePtr, a.valueEnd);
    PlainSingle(c.external, b, a);
    SingleSpacesSqueezed(v);
    ChopIsCollapsed(v);
    ApartWithin(c.external, b, a.valuePtr, a.valueEnd);
    ApartIsTidy(c, false, open, v);
    StoreIsNormalized(c, isCdata, open, v);
  }

  lemma ApartWithin(enc: Encoding, b: Bytes, from: nat, to: nat)
    requires SpacesApart(enc, b) && from <= to <= |b|
    ensures SpacesApart(enc, b[from..to])
  {
    var v := b[from..to];
    forall i, k | 0 <= i < k < |v| && k < i + enc.Width(v, i)
      ensures v[k] != SPACE
    {
      assert enc.Width(v, i) <= enc.Width(b, from + i);
      assert v[k] == b[from + k];
    }
  }
}

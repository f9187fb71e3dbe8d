// What a parser reports of a document's bytes, and whether it accepts them, from the grammar
// of XML 1.0 alone; and that doContent, cdataSectionProcessor and epilogProcessor do exactly
// that.
//
// Character data is taken byte by byte (Flat), because expat may cut a run of it anywhere.
module XmlReports {
  import opened Collections
  import opened XmlTok
  import opened XmlChars
  import opened XmlContent
  import opened XmlSyntax
  import opened XmlTags
  import opened XmlReferences
  import opened XmlNesting
  import opened XmlChunks
  import opened XmlChunkRuns

  // ----- what there is to tell -----

  // Malformed: the bytes are no text, markup or end of such
  datatype Verdict = Accepted | Malformed | Refused(error: Error)

  datatype Account = Account(events: seq<Event>, verdict: Verdict)
  {
    function After(earlier: seq<Event>): Account { Account(earlier + events, verdict) }
  }

  // Where some content stands: in an entity's text or not, the entities open, whether it is
  // the document element's, the open tags, and how many of them were opened in it.
  datatype Scope = Scope(inEntity: bool, open: set<Bytes>, root: bool, tags: seq<Tag>, own: nat)
  {
    predicate Valid() { own <= |tags| }

    function EncodingOf(c: Config): Encoding { if inEntity then c.internal else c.external }
  }

  const WHITE: set<byte> := {0x20, 0x09, 0x0D, 0x0A}

  // "]]>" from i on
  predicate Closes(b: Bytes, i: nat) {
    i + 3 <= |b| && b[i] == 0x5D && b[i + 1] == 0x5D && b[i + 2] == 0x3E
  }

  // Section 2.11: carriage return and line feed, or either alone, end a line.
  function LineEnd(b: Bytes): nat
    requires b != []
  {
    if b[0] == 0x0D then (if 1 < |b| && b[1] == 0x0A then 2 else 1) else if b[0] == 0x0A then 1 else 0
  }

  // a line end, or a character (section 2.2)
  function UnitWidth(enc: Encoding, b: Bytes): (w: nat)
    requires b != []
    ensures w <= |b|
  {
    if 0 < LineEnd(b) then LineEnd(b) else CharWidth(enc, b, 0, |b|)
  }

  function UnitText(b: Bytes, w: nat): Bytes
    requires b != [] && w <= |b|
  {
    if 0 < LineEnd(b) then [0x0A] else b[..w]
  }

  ghost predicate Markup(enc: Encoding, b: Bytes, n: nat, tok: Token) {
    0 < n <= |b| && tok in MARKUP && IsMarkup(enc, b, 0, n, tok)
  }

  function EndVerdict(s: Scope): Verdict {
    if s.root then Refused(NoElements) else if 0 < s.own then Refused(AsyncEntity) else Accepted
  }

  ghost function Told(c: Config, s: Scope, b: Bytes): Account
    requires s.Valid()
    decreases c.entities.Keys - s.open, |b|, 2
  {
    var enc := s.EncodingOf(c);
    if b == [] then Account([], EndVerdict(s))
    else if b[0] == 0x3C || b[0] == 0x26 then
      if exists n: nat, tok: Token :: Markup(enc, b, n, tok) then
        var n: nat, tok: Token :| Markup(enc, b, n, tok);
        ToldMarkup(c, s, b, n, tok)
      else Account([], Malformed)
    else if Closes(b, 0) then Account([], Malformed)
    else
      var w := UnitWidth(enc, b);
      if w == 0 then Account([], Malformed) else Told(c, s, b[w..]).After(Bytewise(UnitText(b, w)))
  }

  // inside a CDATA section everything but its end is text (section 2.7)
  ghost function ToldSection(c: Config, s: Scope, b: Bytes): Account
    requires s.Valid()
    decreases c.entities.Keys - s.open, |b|, 0
  {
    if Closes(b, 0) then Told(c, s, b[3..]).After([EndCdata])
    else if b == [] then Account([], Malformed)
    else
      var w := UnitWidth(s.EncodingOf(c), b);
      if w == 0 then Account([], Malformed) else ToldSection(c, s, b[w..]).After(Bytewise(UnitText(b, w)))
  }

  ghost function ToldMarkup(c: Config, s: Scope, b: Bytes, n: nat, tok: Token): Account
    requires s.Valid() && Markup(s.EncodingOf(c), b, n, tok)
    decreases c.entities.Keys - s.open, |b|, 1
  {
    if tok == Comment then Told(c, s, b[n..]).After([Event.CommentText(b[..n])])
    else if tok == Pi then Told(c, s, b[n..]).After([ProcessingInstruction(b[..n])])
    else if tok == XmlDecl then Account([], Refused(MisplacedXmlPi))
    else if tok == CdataSectOpen then ToldSection(c, s, b[n..]).After([StartCdata])
    else if tok == EndTag then ToldEndTag(c, s, b, n)
    else if tok.IsStartOrEmpty() then ToldTag(c, s, b, n, tok)
    else ToldReference(c, s, b, n)
  }

  // the name in a tag
  ghost function TagName(enc: Encoding, b: Bytes, n: nat): Bytes
    requires n <= |b| && exists k: nat, atts: seq<Span>, q: nat, empty: bool :: TagParts(enc, b, 0, k, atts, q, n, empty)
  {
    var k: nat, atts: seq<Span>, q: nat, empty: bool :| TagParts(enc, b, 0, k, atts, q, n, empty);
    b[1..k]
  }

  ghost function EndTagName(enc: Encoding, b: Bytes, n: nat): Bytes
    requires n <= |b| && IsEndTag(enc, b, 0, n)
  {
    var k: nat :| EndTagParts(enc, b, 0, k, n);
    b[2..k]
  }

  lemma TagHasName(enc: Encoding, b: Bytes, n: nat, tok: Token)
    requires Markup(enc, b, n, tok) && tok.IsStartOrEmpty()
    ensures exists k: nat, atts: seq<Span>, q: nat, empty: bool :: TagParts(enc, b, 0, k, atts, q, n, empty)
  {
    hide TagParts;
    var withAtts, empty := tok in {StartTagWithAtts, EmptyElementWithAtts}, tok in {EmptyElementWithAtts, EmptyElementNoAtts};
    assert IsTag(enc, b, 0, n, withAtts, empty);
    var k: nat, atts: seq<Span>, q: nat :| TagParts(enc, b, 0, k, atts, q, n, empty) && withAtts == (atts != []);
  }

  // Start tags and empty elements; what is wrong with a tag's attributes is a parameter.
  ghost function ToldTag(c: Config, s: Scope, b: Bytes, n: nat, tok: Token): Account
    requires s.Valid() && Markup(s.EncodingOf(c), b, n, tok) && tok.IsStartOrEmpty()
    decreases c.entities.Keys - s.open, |b|, 0
  {
    TagHasName(s.EncodingOf(c), b, n, tok);
    var name := TagName(s.EncodingOf(c), b, n);
    var code := c.tagError(s.EncodingOf(c), b[..n], s.open, s.tags);
    if code.Some? then Account([], Refused(BadTag(code.value)))
    else if tok == StartTagWithAtts || tok == StartTagNoAtts then
      Told(c, s.(tags := [Tag(name, b[..n])] + s.tags, own := s.own + 1), b[n..]).After([StartElement(name, b[..n])])
    else
      (if s.root && s.own == 0 then ToldMisc(c.external, b[n..]) else Told(c, s, b[n..])).After([StartElement(name, b[..n]), EndElement(name)])
  }

  // An end tag ends the element opened last, and one that was opened in the same text.
  ghost function ToldEndTag(c: Config, s: Scope, b: Bytes, n: nat): Account
    requires s.Valid() && Markup(s.EncodingOf(c), b, n, EndTag)
    decreases c.entities.Keys - s.open, |b|, 0
  {
    var name := EndTagName(s.EncodingOf(c), b, n);
    if s.own == 0 then Account([], Refused(AsyncEntity))
    else if name != s.tags[0].name then Account([], Refused(TagMismatch))
    else
      (if s.root && s.own == 1 then ToldMisc(c.external, b[n..]) else Told(c, s.(tags := s.tags[1..], own := s.own - 1), b[n..]))
      .After([EndElement(name)])
  }

  // A reference is replaced by what it stands for.
  ghost function ToldReference(c: Config, s: Scope, b: Bytes, n: nat): Account
    requires s.Valid() && 0 < n <= |b|
    decreases c.entities.Keys - s.open, |b|, 0
  {
    match Means(s.EncodingOf(c), b, 0, n)
    case Character(text) => Told(c, s, b[n..]).After(Bytewise(text))
    case NoCharacter => Account([], Refused(BadCharRef))
    case NoReference => Account([], Malformed)
    case Declared(name) =>
      if name !in c.entities then
        if c.complete || c.standalone then Account([], Refused(UndefinedEntity)) else Told(c, s, b[n..])
      else if name in s.open then Account([], Refused(RecursiveEntityRef))
      else
        match c.entities[name]
        case Entity(_, true) => Account([], Refused(BinaryEntityRef))
        case Entity(Some(text), false) =>
          var inner := Told(c, Scope(true, s.open + {name}, false, s.tags, 0), text);
          if inner.verdict == Accepted then Told(c, s, b[n..]).After(inner.events) else inner
        case Entity(None, false) =>
          if !c.hasEntityHandler then Told(c, s, b[n..])
          else if !c.entityHandler(name, s.open + {name}) then Account([], Refused(ExternalEntityHandling))
          else Told(c, s, b[n..]).After([ExternalEntityRef(name, s.open + {name})])
  }

  // Misc (production 27), any number of times
  ghost function ToldMisc(enc: Encoding, b: Bytes): Account
    decreases |b|
  {
    if b == [] then Account([], Accepted)
    else if b[0] in WHITE then ToldMisc(enc, b[1..])
    else if exists n: nat :: 0 < n <= |b| && IsComment(enc, b, 0, n) then
      var n: nat :| 0 < n <= |b| && IsComment(enc, b, 0, n);
      ToldMisc(enc, b[n..]).After([Event.CommentText(b[..n])])
    else if exists n: nat :: 0 < n <= |b| && IsPi(enc, b, 0, n, false) then
      var n: nat :| 0 < n <= |b| && IsPi(enc, b, 0, n, false);
      ToldMisc(enc, b[n..]).After([ProcessingInstruction(b[..n])])
    else Account([], Malformed)
  }

  // ----- agreement -----

  // the errors of malformed bytes
  const LEXICAL: set<Error> := {InvalidToken, UnclosedToken, PartialCharacter, UnclosedCdataSection, JunkAfterDocElement}

  // A run is as told: accepted or not, with the error if there is a choice, and with exactly
  // the events told if it is accepted.
  predicate Agrees(r: Result, t: Account) {
    match t.verdict
    case Accepted => r.out.Ready? && Flat(r.events) == t.events
    case Malformed => r.out.Failed? && r.out.error in LEXICAL
    case Refused(error) => r.out == Failed(error)
  }

  lemma AgreesAfter(r: Result, t: Account, events: seq<Event>, flat: seq<Event>)
    requires Agrees(r, t) && Flat(events) == flat
    ensures Agrees(r.After(events), t.After(flat))
  {
    hide Flat;
    FlatConcat(events, r.events);
  }

  lemma FlatOne(e: Event)
    ensures Flat([e]) == if e.CharacterData? then Bytewise(e.data) else [e]
  {
    assert [e][1..] == [];
    assert Flat([e]) == (if e.CharacterData? then Bytewise(e.data) else [e]) + Flat([]);
  }

  lemma AfterNothing(t: Account)
    ensures t.After([]) == t
  {
    assert [] + t.events == t.events;
  }

  lemma AfterTwice(t: Account, x: Bytes, y: Bytes)
    ensures t.After(Bytewise(y)).After(Bytewise(x)) == t.After(Bytewise(x + y))
  {
    assert Bytewise(x + y) == Bytewise(x) + Bytewise(y);
    assert Bytewise(x) + (Bytewise(y) + t.events) == Bytewise(x + y) + t.events;
  }

  // ----- text -----

  lemma ClosesFrom(b: Bytes, i: nat)
    requires i <= |b|
    ensures Closes(b[i..], 0) == Closes(b, i)
  {
  }

  lemma WidthFrom(enc: Encoding, b: Bytes, i: nat)
    requires i < |b|
    ensures CharWidth(enc, b[i..], 0, |b| - i) == CharWidth(enc, b, i, |b|)
  {
    var w := LeadWidth(enc.typeOf(b[i]));
    if i + w <= |b| { assert b[i..][0..w] == b[i..i + w]; }
  }

  // one unit of text, in content and in a section
  lemma ToldUnit(c: Config, s: Scope, b: Bytes)
    requires s.Valid() && b != []
    ensures var w := UnitWidth(s.EncodingOf(c), b);
            && (b[0] !in {0x3C, 0x26} && !Closes(b, 0) ==>
                  Told(c, s, b) == if w == 0 then Account([], Malformed) else Told(c, s, b[w..]).After(Bytewise(UnitText(b, w))))
            && (!Closes(b, 0) ==>
                  ToldSection(c, s, b) == if w == 0 then Account([], Malformed) else ToldSection(c, s, b[w..]).After(Bytewise(UnitText(b, w))))
            && (Closes(b, 0) ==> Told(c, s, b) == Account([], Malformed))
  {
    hide UnitWidth, UnitText, ToldMarkup, Bytewise;
  }

  lemma ToldChar(c: Config, s: Scope, b: Bytes, i: nat)
    requires s.Valid() && i < |b| && b[i] !in {0x0D, 0x0A} && !Closes(b, i)
    ensures var w := CharWidth(s.EncodingOf(c), b, i, |b|);
            && (b[i] !in {0x3C, 0x26} ==>
                  Told(c, s, b[i..]) == if w == 0 then Account([], Malformed) else Told(c, s, b[i + w..]).After(Bytewise(b[i..i + w])))
            && ToldSection(c, s, b[i..]) == if w == 0 then Account([], Malformed) else ToldSection(c, s, b[i + w..]).After(Bytewise(b[i..i + w]))
  {
    hide *;
    var w := CharWidth(s.EncodingOf(c), b, i, |b|);
    WidthFrom(s.EncodingOf(c), b, i);
    ClosesFrom(b, i);
    ToldUnit(c, s, b[i..]);
    UnitIsChar(s.EncodingOf(c), b[i..]);
    assert b[i..][0] == b[i] && b[i..][w..] == b[i + w..] && b[i..][..w] == b[i..i + w];
  }

  lemma UnitIsChar(enc: Encoding, b: Bytes)
    requires b != [] && b[0] !in {0x0D, 0x0A}
    ensures UnitWidth(enc, b) == CharWidth(enc, b, 0, |b|) && UnitText(b, UnitWidth(enc, b)) == b[..UnitWidth(enc, b)]
  {
    hide CharWidth;
  }

  // one step of the scanner of a run
  lemma CharsStep(enc: Encoding, b: Bytes, i: nat)
    requires i < |b|
    ensures var r, step, t := enc.ContentChars(b, i), enc.CharStep(ValidChars, b, i), enc.typeOf(b[i]);
            && (step.Advance? ==> r == enc.ContentChars(b, step.next))
            && (step.Halt? ==> r == Found(DataChars, i))
            && (step.Unlisted? && t in {Lt, Amp, Cr, Lf} ==> r == Found(DataChars, i))
            && (step.Unlisted? && t == Rsqb && i + 3 <= |b| && b[i + 1] == 0x5D && b[i + 2] == 0x3E ==> r.Invalid?)
            && (step.Unlisted? && t !in {Lt, Amp, Cr, Lf} ==>
                  r == Found(DataChars, i) || r == enc.ContentChars(b, i + 1) || (t == Rsqb && i + 3 <= |b| && b[i + 1] == 0x5D && b[i + 2] == 0x3E))
  {
    hide Encoding.CharStep;
  }

  lemma CharsAt(enc: Encoding, b: Bytes, i: nat)
    requires AsciiTable(enc) && i < |b|
    ensures var r, w := enc.ContentChars(b, i), CharWidth(enc, b, i, |b|);
            || r == Found(DataChars, i)
            || (Closes(b, i) && r.Invalid?)
            || (b[i] !in {0x3C, 0x26, 0x0D, 0x0A} && !Closes(b, i) && 0 < w && r == enc.ContentChars(b, i + w))
  {
    hide *;
    hide CharWidth;
    CharsStep(enc, b, i);
    CharSteps(enc, b, i, |b|);
    ClosesIs(b, i);
    if enc.CharStep(ValidChars, b, i).Advance? {
      LeadIsOther(enc, b, i);
    } else {
      TextMarks(enc, b[i]);
    }
  }

  lemma TextMarks(enc: Encoding, c: byte)
    requires AsciiTable(enc)
    ensures enc.typeOf(c) in {Lt, Amp, Cr, Lf} <==> c in {0x3C, 0x26, 0x0D, 0x0A}
    ensures enc.typeOf(c) == Rsqb <==> c == 0x5D
  {
    hide AsciiTable;
    OtherMarks(enc, c);
    TagMarks(enc, c);
  }

  lemma ClosesIs(b: Bytes, i: nat)
    ensures Closes(b, i) <==> i + 3 <= |b| && b[i] == 0x5D && b[i + 1] == 0x5D && b[i + 2] == 0x3E
  {
  }

  // a run of character data is its characters
  lemma {:induction false} TextRun(c: Config, s: Scope, b: Bytes, i: nat)
    requires s.Valid() && AsciiTable(s.EncodingOf(c)) && i <= |b|
    ensures var r := s.EncodingOf(c).ContentChars(b, i);
            && (r.Found? ==> Told(c, s, b[i..]) == Told(c, s, b[r.next..]).After(Bytewise(b[i..r.next])))
            && (r.Invalid? ==> Told(c, s, b[i..]).verdict == Malformed)
    decreases |b| - i
  {
    hide *;
    var enc := s.EncodingOf(c);
    var r := enc.ContentChars(b, i);
    if r == Found(DataChars, i) {
      NothingBetween(c, s, b, i);
    } else if i == |b| {
      NoChars(enc, b);
    } else {
      CharsAt(enc, b, i);
      if Closes(b, i) {
        ClosesFrom(b, i);
        ToldUnit(c, s, b[i..]);
      } else {
        var w := CharWidth(enc, b, i, |b|);
        ToldChar(c, s, b, i);
        TextRun(c, s, b, i + w);
        if r.Found? {
          AfterTwice(Told(c, s, b[r.next..]), b[i..i + w], b[i + w..r.next]);
          assert b[i..i + w] + b[i + w..r.next] == b[i..r.next];
        } else {
          SameVerdict(Told(c, s, b[i + w..]), Bytewise(b[i..i + w]));
        }
      }
    }
  }

  lemma SameVerdict(t: Account, events: seq<Event>)
    ensures t.After(events).verdict == t.verdict
  {
  }

  lemma NoChars(enc: Encoding, b: Bytes)
    ensures enc.ContentChars(b, |b|) == Found(DataChars, |b|) && enc.CdataChars(b, |b|) == Found(DataChars, |b|)
  {
  }

  lemma NothingBetween(c: Config, s: Scope, b: Bytes, i: nat)
    requires s.Valid() && i <= |b|
    ensures Told(c, s, b[i..]) == Told(c, s, b[i..]).After(Bytewise(b[i..i]))
    ensures ToldSection(c, s, b[i..]) == ToldSection(c, s, b[i..]).After(Bytewise(b[i..i]))
  {
    hide Told, ToldSection;
    assert Bytewise(b[i..i]) == [];
    AfterNothing(Told(c, s, b[i..]));
    AfterNothing(ToldSection(c, s, b[i..]));
  }

  lemma ToldEnd(c: Config, s: Scope)
    requires s.Valid()
    ensures Told(c, s, []) == Account([], EndVerdict(s)) && ToldSection(c, s, []) == Account([], Malformed)
  {
    hide EndVerdict, ToldMarkup;
  }

  // brackets at the end of the bytes, which the scanners keep for the next call
  predicate Brackets(b: Bytes) { b == [0x5D] || b == [0x5D, 0x5D] }

  lemma BracketsIs(b: Bytes)
    ensures Brackets(b) <==> 1 <= |b| <= 2 && b[0] == 0x5D && (|b| == 2 ==> b[1] == 0x5D)
  {
  }

  lemma ToldBrackets(c: Config, s: Scope, b: Bytes)
    requires s.Valid() && AsciiTable(s.EncodingOf(c)) && Brackets(b)
    ensures Told(c, s, b) == Account(Bytewise(b), EndVerdict(s)) && ToldSection(c, s, b).verdict == Malformed
  {
    hide *;
    hide CharWidth;
    assert b[0..] == b;
    BracketsIs(b);
    ClosesIs(b, 0);
    ClosesIs(b, 1);
    BracketWidth(s.EncodingOf(c), b, 0);
    ToldChar(c, s, b, 0);
    ToldEnd(c, s);
    SameVerdict(ToldSection(c, s, b[1..]), Bytewise(b[0..1]));
    if |b| == 2 {
      BracketWidth(s.EncodingOf(c), b, 1);
      ToldChar(c, s, b, 1);
      assert b[2..] == [];
      SameVerdict(ToldSection(c, s, []), Bytewise(b[1..2]));
      AfterTwice(Told(c, s, []), b[0..1], b[1..2]);
      assert b[0..1] + b[1..2] == b;
    } else {
      assert b[1..] == [] && b[0..1] == b;
    }
    EndAfter(s, b);
  }

  lemma EndAfter(s: Scope, data: Bytes)
    ensures Account([], EndVerdict(s)).After(Bytewise(data)) == Account(Bytewise(data), EndVerdict(s))
  {
    assert Bytewise(data) + [] == Bytewise(data);
  }

  lemma BracketWidth(enc: Encoding, b: Bytes, i: nat)
    requires AsciiTable(enc) && i < |b| && b[i] == 0x5D
    ensures CharWidth(enc, b, i, |b|) == 1
  {
    hide AsciiTable;
    OtherMarks(enc, 0x5D);
  }

  // the first token of some text
  lemma ContentStep(enc: Encoding, b: Bytes)
    requires b != []
    ensures var r, step, t := enc.ContentTok(b, 0), enc.CharStep(ValidChars, b, 0), enc.typeOf(b[0]);
            && (step.Advance? ==> r == enc.ContentChars(b, step.next))
            && (step.Halt? ==> r == step.r)
            && (step.Unlisted? && t !in {Lt, Amp, Cr, Lf, Rsqb} ==> r == enc.ContentChars(b, 1))
            && (step.Unlisted? && t == Rsqb ==>
                  if 1 < |b| && b[1] != 0x5D then r == enc.ContentChars(b, 1)
                  else if |b| < 3 then r == TrailingRsqb
                  else if b[2] == 0x3E then r.Invalid? else r == enc.ContentChars(b, 1))
  {
    hide Encoding.CharStep, Encoding.ContentChars, Encoding.ScanLt, Encoding.ScanRef;
  }

  lemma SectionStep(enc: Encoding, b: Bytes)
    requires b != []
    ensures var r, step, t := enc.CdataSectionTok(b, 0), enc.CharStep(ValidChars, b, 0), enc.typeOf(b[0]);
            && (step.Advance? ==> r == enc.CdataChars(b, step.next))
            && (step.Halt? ==> r == step.r)
            && (step.Unlisted? && t !in {Cr, Lf, Rsqb} ==> r == enc.CdataChars(b, 1))
            && (step.Unlisted? && t == Rsqb ==>
                  if 1 < |b| && b[1] != 0x5D then r == enc.CdataChars(b, 1)
                  else if |b| < 3 then r == Partial
                  else if b[2] == 0x3E then r == Found(CdataSectClose, 3) else r == enc.CdataChars(b, 1))
  {
    hide Encoding.CharStep, Encoding.CdataChars;
  }

  // a character that is no mark
  lemma FirstChar(enc: Encoding, b: Bytes)
    requires AsciiTable(enc) && b != []
    ensures var step, w := enc.CharStep(ValidChars, b, 0), CharWidth(enc, b, 0, |b|);
            && (w == 0 ==> step.Halt? && step.r in {PartialChar, Invalid(0)})
            && (0 < w ==> (step == Advance(w) && b[0] != 0x5D) || (w == 1 && step.Unlisted?))
            && (step.Unlisted? ==> w == 1)
  {
    hide AsciiTable, CharWidth, Encoding.CharStep;
    CharSteps(enc, b, 0, |b|);
    if enc.CharStep(ValidChars, b, 0).Advance? { LeadIsOther(enc, b, 0); }
  }

  lemma ContentStarts(enc: Encoding, b: Bytes)
    requires AsciiTable(enc) && b != [] && b[0] !in {0x3C, 0x26, 0x0D, 0x0A}
    ensures var r, w := enc.ContentTok(b, 0), CharWidth(enc, b, 0, |b|);
            if Closes(b, 0) then r.Invalid?
            else if w == 0 then r in {PartialChar, Invalid(0)}
            else r == enc.ContentChars(b, w) || (r == TrailingRsqb && Brackets(b))
  {
    hide *;
    hide CharWidth;
    ContentStep(enc, b);
    FirstChar(enc, b);
    OtherMarks(enc, b[0]);
    TagMarks(enc, b[0]);
    if b[0] == 0x5D { MarkUnlisted(enc, b, 0); }
    ClosesIs(b, 0);
    BracketsIs(b);
  }

  lemma SectionStarts(enc: Encoding, b: Bytes)
    requires AsciiTable(enc) && b != [] && b[0] !in {0x0D, 0x0A}
    ensures var r, w := enc.CdataSectionTok(b, 0), CharWidth(enc, b, 0, |b|);
            if Closes(b, 0) then r == Found(CdataSectClose, 3)
            else if w == 0 then r in {PartialChar, Invalid(0)}
            else r == enc.CdataChars(b, w) || (r == Partial && Brackets(b))
  {
    hide *;
    hide CharWidth;
    SectionStep(enc, b);
    FirstChar(enc, b);
    OtherMarks(enc, b[0]);
    if b[0] == 0x5D { MarkUnlisted(enc, b, 0); }
    ClosesIs(b, 0);
    BracketsIs(b);
  }

  lemma LineStarts(enc: Encoding, b: Bytes)
    requires AsciiTable(enc) && b != [] && b[0] in {0x0D, 0x0A}
    ensures var w := LineEnd(b);
            && (enc.ContentTok(b, 0) == if b == [0x0D] then TrailingCr else Found(DataNewline, w))
            && (enc.CdataSectionTok(b, 0) == if b == [0x0D] then Partial else Found(DataNewline, w))
            && UnitWidth(enc, b) == w && UnitText(b, w) == [0x0A] && 0 < w && !Closes(b, 0)
  {
    hide AsciiTable, Encoding.CharStep, Encoding.ScanLt, Encoding.ScanRef, CharWidth;
    OtherMarks(enc, b[0]);
    OtherUnlisted(enc, b);
    if 1 < |b| { OtherMarks(enc, b[1]); }
  }

  lemma OtherUnlisted(enc: Encoding, b: Bytes)
    requires b != [] && enc.typeOf(b[0]) in {Cr, Lf}
    ensures enc.CharStep(ValidChars, b, 0) == Unlisted
  {
  }

  // What is told of text, token by token.
  lemma ToldText(c: Config, s: Scope, b: Bytes)
    requires s.Valid() && AsciiTable(s.EncodingOf(c)) && b != [] && b[0] !in {0x3C, 0x26}
    ensures var r, t := s.EncodingOf(c).ContentTok(b, 0), Told(c, s, b);
            && (r.Found? ==>
                  || (r.tok == DataChars && t == Told(c, s, b[r.next..]).After(Bytewise(b[..r.next])))
                  || (r.tok == DataNewline && t == Told(c, s, b[r.next..]).After(Bytewise([0x0A]))))
            && (r.TrailingCr? ==> t == Account(Bytewise([0x0A]), EndVerdict(s)))
            && (r.TrailingRsqb? ==> t == Account(Bytewise(b), EndVerdict(s)))
            && (r.Invalid? || r.Partial? || r.PartialChar? ==> t.verdict == Malformed)
            && !r.Nothing?
  {
    hide *;
    var enc := s.EncodingOf(c);
    var r := enc.ContentTok(b, 0);
    ToldUnit(c, s, b);
    if b[0] in {0x0D, 0x0A} {
      LineStarts(enc, b);
      if b == [0x0D] {
        assert LineEnd(b) == 1 by { LoneReturn(); }
        assert b[1..] == [];
        ToldEnd(c, s);
        EndAfter(s, [0x0A]);
      }
    } else {
      var w := CharWidth(enc, b, 0, |b|);
      ContentStarts(enc, b);
      assert b[0..] == b;
      if r.TrailingRsqb? {
        ToldBrackets(c, s, b);
      } else if !Closes(b, 0) && w != 0 {
        ToldChar(c, s, b, 0);
        TextRun(c, s, b, w);
        if r.Found? {
          AfterTwice(Told(c, s, b[r.next..]), b[0..w], b[w..r.next]);
          assert b[0..w] + b[w..r.next] == b[..r.next];
        } else {
          SameVerdict(Told(c, s, b[w..]), Bytewise(b[0..w]));
        }
        RunToken(enc, b, w);
      } else {
        UnitIsChar(enc, b);
      }
    }
  }

  lemma RunToken(enc: Encoding, b: Bytes, i: nat)
    requires i <= |b|
    ensures var r := enc.ContentChars(b, i); r.Invalid? || (r.Found? && r.tok == DataChars && i <= r.next <= |b|)
  {
  }

  lemma LoneReturn()
    ensures LineEnd([0x0D]) == 1
  {
  }

  // ----- CDATA sections -----

  lemma SectionCharsStep(enc: Encoding, b: Bytes, i: nat)
    requires i < |b|
    ensures var r, step, t := enc.CdataChars(b, i), enc.CharStep(ValidChars, b, i), enc.typeOf(b[i]);
            && (step.Advance? ==> r == enc.CdataChars(b, step.next))
            && (step.Halt? || t in {Cr, Lf, Rsqb} ==> step.Advance? || r == Found(DataChars, i))
            && (step.Unlisted? && t !in {Cr, Lf, Rsqb} ==> r == enc.CdataChars(b, i + 1))
  {
    hide Encoding.CharStep;
  }

  lemma SectionAt(enc: Encoding, b: Bytes, i: nat)
    requires AsciiTable(enc) && i < |b|
    ensures var r, w := enc.CdataChars(b, i), CharWidth(enc, b, i, |b|);
            || r == Found(DataChars, i)
            || (b[i] !in {0x0D, 0x0A} && !Closes(b, i) && 0 < w && r == enc.CdataChars(b, i + w))
  {
    hide *;
    hide CharWidth;
    SectionCharsStep(enc, b, i);
    CharSteps(enc, b, i, |b|);
    OtherMarks(enc, b[i]);
    ClosesIs(b, i);
    if enc.CharStep(ValidChars, b, i).Advance? { LeadIsOther(enc, b, i); }
  }

  lemma {:induction false} SectionRun(c: Config, s: Scope, b: Bytes, i: nat)
    requires s.Valid() && AsciiTable(s.EncodingOf(c)) && i <= |b|
    ensures var r := s.EncodingOf(c).CdataChars(b, i);
            ToldSection(c, s, b[i..]) == ToldSection(c, s, b[r.next..]).After(Bytewise(b[i..r.next]))
    decreases |b| - i
  {
    hide *;
    var enc := s.EncodingOf(c);
    var r := enc.CdataChars(b, i);
    if r == Found(DataChars, i) {
      NothingBetween(c, s, b, i);
    } else if i == |b| {
      NoChars(enc, b);
    } else {
      var w := CharWidth(enc, b, i, |b|);
      SectionAt(enc, b, i);
      ToldChar(c, s, b, i);
      SectionRun(c, s, b, i + w);
      AfterTwice(ToldSection(c, s, b[r.next..]), b[i..i + w], b[i + w..r.next]);
      assert b[i..i + w] + b[i + w..r.next] == b[i..r.next];
    }
  }

  // one token of a section
  lemma ToldSectionToken(c: Config, s: Scope, b: Bytes)
    requires s.Valid() && AsciiTable(s.EncodingOf(c))
    ensures var r, t := s.EncodingOf(c).CdataSectionTok(b, 0), ToldSection(c, s, b);
            && (r.Found? && r.tok == CdataSectClose ==> t == Told(c, s, b[r.next..]).After([EndCdata]))
            && (r.Found? && r.tok != CdataSectClose ==>
                  t == ToldSection(c, s, b[r.next..]).After(Bytewise(if r.tok == DataNewline then [0x0A] else b[..r.next])))
            && (!r.Found? ==> t.verdict == Malformed)
  {
    hide *;
    var enc := s.EncodingOf(c);
    var r := enc.CdataSectionTok(b, 0);
    if b == [] {
      ToldEnd(c, s);
      NoToken(enc);
    } else {
      ToldUnit(c, s, b);
      if b[0] in {0x0D, 0x0A} {
        LineStarts(enc, b);
        if b == [0x0D] {
          LoneReturn();
          assert b[1..] == [];
          ToldEnd(c, s);
          SameVerdict(ToldSection(c, s, []), Bytewise([0x0A]));
        }
      } else {
        SectionStarts(enc, b);
        assert b[0..] == b;
        if Closes(b, 0) {
          ToldCloser(c, s, b);
        } else if CharWidth(enc, b, 0, |b|) == 0 {
          UnitIsChar(enc, b);
        } else if r == Partial {
          ToldBrackets(c, s, b);
        } else {
          ToldSectionRun(c, s, b, CharWidth(enc, b, 0, |b|));
        }
      }
    }
  }

  lemma ToldCloser(c: Config, s: Scope, b: Bytes)
    requires s.Valid() && Closes(b, 0)
    ensures ToldSection(c, s, b) == Told(c, s, b[3..]).After([EndCdata])
  {
    hide Told, UnitWidth, UnitText, Bytewise;
  }

  lemma ToldSectionRun(c: Config, s: Scope, b: Bytes, w: nat)
    requires s.Valid() && AsciiTable(s.EncodingOf(c)) && b != [] && b[0] !in {0x0D, 0x0A} && !Closes(b, 0)
    requires w == CharWidth(s.EncodingOf(c), b, 0, |b|) && 0 < w
    ensures var r := s.EncodingOf(c).CdataChars(b, w);
            r.tok == DataChars && ToldSection(c, s, b) == ToldSection(c, s, b[r.next..]).After(Bytewise(b[..r.next]))
  {
    hide *;
    var r := s.EncodingOf(c).CdataChars(b, w);
    assert b[0..] == b;
    ToldChar(c, s, b, 0);
    SectionRun(c, s, b, w);
    AfterTwice(ToldSection(c, s, b[r.next..]), b[0..w], b[w..r.next]);
    assert b[0..w] + b[w..r.next] == b[..r.next];
  }

  lemma NoToken(enc: Encoding)
    ensures enc.CdataSectionTok([], 0) == Nothing && enc.ContentTok([], 0) == Nothing && enc.PrologTok([], 0) == Nothing
  {
  }

  lemma CdataStep(enc: Encoding, b: Bytes)
    ensures var r, v := enc.CdataSectionTok(b, 0), Cdata(enc, b, true);
            && (!r.Found? ==> v.Inside? && v.events == [] && v.out.Failed? && v.out.error in LEXICAL)
            && (r.Found? && r.tok == CdataSectClose ==> v == Closed([EndCdata], b[r.next..]))
            && (r.Found? && r.tok != CdataSectClose ==>
                  v == Cdata(enc, b[r.next..], true).After([CharacterData(if r.tok == DataNewline then [0x0A] else b[..r.next])]))
  {
    hide Encoding.CdataSectionTok;
  }

  // doCdataSection reports a section as told.
  lemma {:induction false} SectionTold(c: Config, s: Scope, b: Bytes)
    requires s.Valid() && AsciiTable(s.EncodingOf(c))
    ensures var v, t := Cdata(s.EncodingOf(c), b, true), ToldSection(c, s, b);
            if v.Closed? then t == Told(c, s, v.rest).After(Flat(v.events))
            else t.verdict == Malformed && v.out.Failed? && v.out.error in LEXICAL
    decreases |b|
  {
    hide AsciiTable, Told, ToldSection, Cdata, Encoding.CdataSectionTok, Flat, Bytewise;
    var enc := s.EncodingOf(c);
    var r := enc.CdataSectionTok(b, 0);
    CdataStep(enc, b);
    ToldSectionToken(c, s, b);
    if r.Found? {
      if r.tok == CdataSectClose {
        FlatOne(EndCdata);
      } else {
        var text := if r.tok == DataNewline then [0x0A] else b[..r.next];
        SectionTold(c, s, b[r.next..]);
        FlatOne(CharacterData(text));
        var v := Cdata(enc, b[r.next..], true);
        if v.Closed? {
          FlatConcat([CharacterData(text)], v.events);
          AfterBoth(Told(c, s, v.rest), Bytewise(text), Flat(v.events));
        } else {
          SameVerdict(ToldSection(c, s, b[r.next..]), Bytewise(text));
        }
      }
    }
  }

  lemma AfterBoth(t: Account, x: seq<Event>, y: seq<Event>)
    ensures t.After(y).After(x) == t.After(x + y)
  {
    assert x + (y + t.events) == (x + y) + t.events;
  }

  // ----- names in tags -----

  // the length that XmlNameLength finds grows by each character of a name, and by each colon
  lemma NameGrows(enc: Encoding, b: Bytes, i: nat, j: nat, n: nat, w: nat)
    requires i < j <= n <= |b| && 0 < w && i + w <= j
    requires w == NameWidth(enc, b, i, j) || w == NameStartWidth(enc, b, i, j) || (enc.typeOf(b[i]) == Colon && w == 1)
    ensures NameLength(enc, b[i..n]) == w + NameLength(enc, b[i + w..n])
  {
    var s := b[i..n];
    assert s[0] == b[i] && s[w..] == b[i + w..n];
  }

  lemma {:induction false} RestLength(enc: Encoding, b: Bytes, i: nat, j: nat, n: nat)
    requires i <= j <= n <= |b| && (NameRest(enc, b, i, j) || LooseRest(enc, b, i, j))
    ensures NameLength(enc, b[i..n]) == j - i + NameLength(enc, b[j..n])
    decreases j - i
  {
    hide NameLength, NameWidth;
    if i < j {
      var w := if NameRest(enc, b, i, j) then NameWidth(enc, b, i, j)
               else if enc.typeOf(b[i]) == Colon then 1 else NameWidth(enc, b, i, j);
      NameGrows(enc, b, i, j, n, w);
      RestLength(enc, b, i + w, j, n);
    }
  }

  lemma NcLength(enc: Encoding, b: Bytes, i: nat, j: nat, n: nat)
    requires i <= j <= n <= |b| && (NcName(enc, b, i, j) || LooseName(enc, b, i, j))
    ensures NameLength(enc, b[i..n]) == j - i + NameLength(enc, b[j..n])
  {
    hide NameLength, NameStartWidth, NameRest, LooseRest;
    var w := NameStartWidth(enc, b, i, j);
    NameGrows(enc, b, i, j, n, w);
    RestLength(enc, b, i + w, j, n);
  }

  lemma QLength(enc: Encoding, b: Bytes, i: nat, j: nat, n: nat)
    requires i <= j <= n <= |b| && QName(enc, b, i, j)
    ensures NameLength(enc, b[i..n]) == j - i + NameLength(enc, b[j..n])
  {
    hide NameLength, NcName, LooseName, NameStartWidth, NameWidth;
    if NcName(enc, b, i, j) {
      NcLength(enc, b, i, j, n);
    } else {
      var k :| i < k < j && Prefixed(enc, b, i, k, j);
      NcLength(enc, b, i, k, n);
      NameGrows(enc, b, k, k + 1, n, 1);
      NcLength(enc, b, k + 1, j, n);
    }
  }

  lemma NameStops(enc: Encoding, b: Bytes, k: nat, n: nat)
    requires AsciiTable(enc) && k < n <= |b| && (enc.typeOf(b[k]).White() || b[k] in {0x3E, 0x2F})
    ensures NameLength(enc, b[k..n]) == 0
  {
    hide AsciiTable;
    TagMarks(enc, b[k]);
    assert b[k..n][0] == b[k];
  }

  lemma NameAtIs(enc: Encoding, b: Bytes, n: nat, i: nat, k: nat)
    requires i <= k <= n <= |b| && NameLength(enc, b[i..n]) == k - i
    ensures NameAt(enc, b[..n], i) == b[i..k]
  {
    assert b[..n][i..] == b[i..n];
  }

  // a name in a tag ends in front of white space, "/" or ">"
  lemma AfterName(enc: Encoding, b: Bytes, k: nat, atts: seq<Span>, q: nat, n: nat, empty: bool)
    requires TagParts(enc, b, 0, k, atts, q, n, empty)
    ensures k < n <= |b| && (enc.typeOf(b[k]).White() || b[k] in {0x3E, 0x2F})
  {
    hide QName, Value;
    if atts != [] {
      AttributeIs(enc, b, k, atts[0]);
      WhiteAt(enc, b, k, atts[0].name);
    } else if k < (if empty then n - 2 else n - 1) {
      WhiteAt(enc, b, k, if empty then n - 2 else n - 1);
    }
  }

  lemma NamePart(enc: Encoding, b: Bytes, n: nat) returns (k: nat, atts: seq<Span>, q: nat, empty: bool)
    requires n <= |b| && exists k: nat, atts: seq<Span>, q: nat, empty: bool :: TagParts(enc, b, 0, k, atts, q, n, empty)
    ensures TagParts(enc, b, 0, k, atts, q, n, empty) && 1 < k < n && QName(enc, b, 1, k) && TagName(enc, b, n) == b[1..k]
  {
    hide QName, IsTagEnd, IsAttribute;
    k, atts, q, empty :| TagParts(enc, b, 0, k, atts, q, n, empty) && TagName(enc, b, n) == b[1..k];
  }

  // The name reported for a tag is the name the grammar finds in it.
  lemma TagNameIs(enc: Encoding, b: Bytes, n: nat, tok: Token)
    requires AsciiTable(enc) && Markup(enc, b, n, tok) && tok.IsStartOrEmpty()
    ensures exists k: nat, atts: seq<Span>, q: nat, empty: bool :: TagParts(enc, b, 0, k, atts, q, n, empty)
    ensures NameAt(enc, b[..n], 1) == TagName(enc, b, n)
  {
    hide AsciiTable, TagParts, NameLength, NameAt, QName;
    TagHasName(enc, b, n, tok);
    var k, atts, q, empty := NamePart(enc, b, n);
    AfterName(enc, b, k, atts, q, n, empty);
    QLength(enc, b, 1, k, n);
    NameStops(enc, b, k, n);
    NameAtIs(enc, b, n, 1, k);
  }

  lemma EndTagNameIs(enc: Encoding, b: Bytes, n: nat)
    requires AsciiTable(enc) && n <= |b| && IsEndTag(enc, b, 0, n)
    ensures NameAt(enc, b[..n], 2) == EndTagName(enc, b, n)
  {
    hide AsciiTable, EndTagParts, NameLength, NameAt;
    var k := EndNamePart(enc, b, n);
    AfterEndName(enc, b, k, n);
    NcLength(enc, b, 2, k, n);
    NameStops(enc, b, k, n);
    NameAtIs(enc, b, n, 2, k);
  }

  lemma EndNamePart(enc: Encoding, b: Bytes, n: nat) returns (k: nat)
    requires n <= |b| && IsEndTag(enc, b, 0, n)
    ensures EndTagParts(enc, b, 0, k, n) && 2 < k < n && EndTagName(enc, b, n) == b[2..k]
  {
    hide LooseName;
    k :| EndTagParts(enc, b, 0, k, n) && EndTagName(enc, b, n) == b[2..k];
  }

  lemma AfterEndName(enc: Encoding, b: Bytes, k: nat, n: nat)
    requires n <= |b| && EndTagParts(enc, b, 0, k, n)
    ensures 2 < k < n <= |b| && LooseName(enc, b, 2, k) && (enc.typeOf(b[k]).White() || b[k] == 0x3E)
  {
    hide LooseName;
  }

  // ----- markup -----

  lemma ToldChoice(c: Config, s: Scope, b: Bytes)
    requires s.Valid() && b != [] && b[0] in {0x3C, 0x26}
    ensures (exists n: nat, tok: Token :: Markup(s.EncodingOf(c), b, n, tok)) ==>
              exists n: nat, tok: Token :: Markup(s.EncodingOf(c), b, n, tok) && Told(c, s, b) == ToldMarkup(c, s, b, n, tok)
    ensures !(exists n: nat, tok: Token :: Markup(s.EncodingOf(c), b, n, tok)) ==> Told(c, s, b) == Account([], Malformed)
  {
    hide Markup, ToldMarkup, UnitWidth, UnitText, Bytewise;
  }

  lemma ScansMarkup(enc: Encoding, b: Bytes)
    requires AsciiTable(enc) && b != [] && b[0] in {0x3C, 0x26}
    ensures enc.ContentTok(b, 0) !in {Nothing, TrailingCr, TrailingRsqb}
  {
    hide AsciiTable, Encoding.ContentTok, Encoding.ScanLt, Encoding.ScanRef;
    if b[0] == 0x3C { LtAt(enc, b, 0); } else { AmpAt(enc, b, 0); }
  }

  // What is told of markup is told of the token that is found.
  lemma ToldAtMarkup(c: Config, s: Scope, b: Bytes)
    requires s.Valid() && AsciiTable(s.EncodingOf(c)) && b != [] && b[0] in {0x3C, 0x26}
    ensures var r := s.EncodingOf(c).ContentTok(b, 0);
            if r.Found? then Markup(s.EncodingOf(c), b, r.next, r.tok) && Told(c, s, b) == ToldMarkup(c, s, b, r.next, r.tok)
            else Told(c, s, b) == Account([], Malformed) && r !in {Nothing, TrailingCr, TrailingRsqb}
  {
    hide AsciiTable, IsMarkup, Encoding.ContentTok, Told, ToldMarkup;
    var enc := s.EncodingOf(c);
    var r := enc.ContentTok(b, 0);
    ScansMarkup(enc, b);
    ToldChoice(c, s, b);
    if r.Found? {
      FoundIsMarkup(enc, b, 0);
      assert Markup(enc, b, r.next, r.tok);
      var n: nat, tok: Token :| Markup(enc, b, n, tok) && Told(c, s, b) == ToldMarkup(c, s, b, n, tok);
      MarkupIsFound(enc, b, 0, n, tok);
    } else if exists n: nat, tok: Token :: Markup(enc, b, n, tok) {
      var n: nat, tok: Token :| Markup(enc, b, n, tok);
      MarkupIsFound(enc, b, 0, n, tok);
    }
  }

  // ----- after the document element -----

  lemma {:induction false} LitToken(enc: Encoding, b: Bytes, open: ByteType, i: nat)
    requires i <= |b|
    ensures enc.ScanLit(b, open, i).Found? ==> enc.ScanLit(b, open, i).tok == Literal
    decreases |b| - i
  {
    hide Encoding.CharStep;
    if i < |b| {
      var step := enc.CharStep(ValidChars, b, i);
      LitToken(enc, b, open, if step.Advance? then step.next else i + 1);
    }
  }

  // white space, markup, or something else
  lemma PrologWhite(enc: Encoding, b: Bytes)
    requires b != [] && enc.typeOf(b[0]).White()
    ensures enc.PrologTok(b, 0) == if enc.typeOf(b[0]) == Cr && |b| == 1 then TrailingCr else enc.WhiteRun(b, 1)
  {
    hide Encoding.WhiteRun;
  }

  lemma PrologMarkup(enc: Encoding, b: Bytes)
    requires b != [] && enc.typeOf(b[0]) == Lt
    ensures var r := enc.PrologTok(b, 0);
            if |b| == 1 then r == Partial
            else if enc.typeOf(b[1]) == Excl then r == enc.ScanDecl(b, 2)
            else if enc.typeOf(b[1]) == Quest then r == enc.ScanPi(b, 2)
            else r.Invalid? || (r.Found? && r.tok == InstanceStart)
  {
    hide Encoding.ScanDecl, Encoding.ScanPi;
  }

  lemma PrologOther(enc: Encoding, b: Bytes)
    requires b != [] && !enc.typeOf(b[0]).White() && enc.typeOf(b[0]) != Lt
    ensures var r := enc.PrologTok(b, 0);
            !r.Nothing? && !r.TrailingCr? && (r.Found? ==> r.tok !in {PrologS, Pi, Comment})
  {
    hide Encoding.ScanLit, Encoding.ScanPercent, Encoding.PrologName, Encoding.ScanPoundName, Encoding.PrologLead;
    LitToken(enc, b, Quot, 1);
    LitToken(enc, b, Apos, 1);
    PoundToken(enc, b, 1);
    LeadToken(enc, b, 1);
    LeadToken(enc, b, 2);
    LeadToken(enc, b, 3);
    LeadToken(enc, b, 4);
  }

  lemma PrologStarts(enc: Encoding, b: Bytes)
    requires AsciiTable(enc) && b != []
    ensures var r := enc.PrologTok(b, 0);
            && (b[0] in WHITE ==> r == if b == [0x0D] then TrailingCr else enc.WhiteRun(b, 1))
            && (b[0] == 0x3C && 1 < |b| && b[1] == 0x21 ==> r == enc.ScanDecl(b, 2))
            && (b[0] == 0x3C && 1 < |b| && b[1] == 0x3F ==> r == enc.ScanPi(b, 2))
            && (b[0] == 0x3C && !(1 < |b| && b[1] in {0x21, 0x3F}) && r.Found? ==> r.tok == InstanceStart)
            && (b[0] !in WHITE ==> !r.TrailingCr?)
            && (b[0] !in WHITE && b[0] != 0x3C && r.Found? ==> r.tok !in {PrologS, Pi, Comment})
            && !r.Nothing?
  {
    hide AsciiTable, Encoding.PrologTok, Encoding.WhiteRun, Encoding.ScanDecl, Encoding.ScanPi;
    OtherMarks(enc, b[0]);
    TagMarks(enc, b[0]);
    SpaceMark(enc, b[0]);
    if enc.typeOf(b[0]).White() {
      PrologWhite(enc, b);
    } else if b[0] == 0x3C {
      PrologMarkup(enc, b);
      if 1 < |b| {
        OtherMarks(enc, b[1]);
        if b[1] == 0x21 { DeclStarts(enc, b); }
      }
    } else {
      PrologOther(enc, b);
    }
  }

  lemma SpaceMark(enc: Encoding, c: byte)
    requires AsciiTable(enc)
    ensures enc.typeOf(c) == Space <==> c == 0x20 || c == 0x09
  {
    assert SameMark(enc.typeOf(c), c);
  }

  lemma PoundToken(enc: Encoding, b: Bytes, i: nat)
    requires i <= |b|
    ensures enc.ScanPoundName(b, i).Found? ==> enc.ScanPoundName(b, i).tok == PoundName
  {
    hide Encoding.CharStep, Encoding.PoundNameRest;
  }

  lemma LeadToken(enc: Encoding, b: Bytes, n: nat)
    requires b != [] && 0 < n
    ensures enc.PrologLead(b, 0, n).Found? ==> enc.PrologLead(b, 0, n).tok !in {PrologS, Pi, Comment, InstanceStart}
    ensures !enc.PrologLead(b, 0, n).TrailingCr? && !enc.PrologLead(b, 0, n).Nothing?
  {
    hide Encoding.PrologName;
  }

  // after "<!"
  lemma DeclStarts(enc: Encoding, b: Bytes)
    requires AsciiTable(enc) && 2 <= |b|
    ensures var r := enc.ScanDecl(b, 2);
            && (2 < |b| && b[2] == 0x2D ==> r == enc.ScanComment(b, 3))
            && (!(2 < |b| && b[2] == 0x2D) && r.Found? ==> r.tok !in {PrologS, Pi, Comment})
            && !r.TrailingCr? && !r.Nothing?
  {
    hide AsciiTable, Encoding.ScanComment, Encoding.DeclName;
    if 2 < |b| { OtherMarks(enc, b[2]); }
  }

  lemma ToldWhite(enc: Encoding, b: Bytes)
    requires b != [] && b[0] in WHITE
    ensures ToldMisc(enc, b) == ToldMisc(enc, b[1..])
  {
    hide IsComment, IsPi;
  }

  lemma {:induction false} WhiteTold(enc: Encoding, b: Bytes, i: nat)
    requires AsciiTable(enc) && i <= |b|
    ensures ToldMisc(enc, b[i..]) == ToldMisc(enc, b[enc.WhiteRun(b, i).next..])
    decreases |b| - i
  {
    hide AsciiTable, ToldMisc, Encoding.WhiteRun;
    WhiteRunAt(enc, b, i);
    if enc.WhiteRun(b, i).next != i {
      assert b[i..][0] == b[i] && b[i..][1..] == b[i + 1..];
      ToldWhite(enc, b[i..]);
      WhiteTold(enc, b, i + 1);
    }
  }

  lemma WhiteRunAt(enc: Encoding, b: Bytes, i: nat)
    requires AsciiTable(enc) && i <= |b|
    ensures enc.WhiteRun(b, i) == Found(PrologS, i) || (i < |b| && b[i] in WHITE && enc.WhiteRun(b, i) == enc.WhiteRun(b, i + 1))
  {
    hide AsciiTable;
    if i < |b| {
      OtherMarks(enc, b[i]);
      SpaceMark(enc, b[i]);
    }
  }

  lemma ToldComment(enc: Encoding, b: Bytes, n: nat)
    requires AsciiTable(enc) && n <= |b| && IsComment(enc, b, 0, n)
    ensures ToldMisc(enc, b) == ToldMisc(enc, b[n..]).After([Event.CommentText(b[..n])])
  {
    hide AsciiTable, IsPi, IsComment, Encoding.ScanComment;
    CommentBytes(enc, b, n);
    var m: nat :| 0 < m <= |b| && IsComment(enc, b, 0, m) && ToldMisc(enc, b) == ToldMisc(enc, b[m..]).After([Event.CommentText(b[..m])]);
    CommentFound(enc, b, 0, n);
    CommentFound(enc, b, 0, m);
  }

  lemma CommentBytes(enc: Encoding, b: Bytes, n: nat)
    requires n <= |b| && IsComment(enc, b, 0, n)
    ensures 7 <= n && b[0] == 0x3C && b[1] == 0x21 && b[2] == 0x2D && b[0] !in WHITE
  {
    hide XmlSyntax.CommentText;
  }

  lemma PiBytes(enc: Encoding, b: Bytes, n: nat)
    requires n <= |b| && IsPi(enc, b, 0, n, false)
    ensures 4 < n && b[0] == 0x3C && b[1] == 0x3F && b[0] !in WHITE
  {
    hide NcName, PiText, Lower;
  }

  lemma ToldPi(enc: Encoding, b: Bytes, n: nat)
    requires AsciiTable(enc) && n <= |b| && IsPi(enc, b, 0, n, false)
    ensures ToldMisc(enc, b) == ToldMisc(enc, b[n..]).After([ProcessingInstruction(b[..n])])
  {
    hide AsciiTable, IsPi, IsComment, Encoding.ScanPi;
    PiBytes(enc, b, n);
    forall m: nat | m <= |b| ensures !IsComment(enc, b, 0, m) { if IsComment(enc, b, 0, m) { CommentBytes(enc, b, m); } }
    var m: nat :| 0 < m <= |b| && IsPi(enc, b, 0, m, false) && ToldMisc(enc, b) == ToldMisc(enc, b[m..]).After([ProcessingInstruction(b[..m])]);
    PiFound(enc, b, 0, n, false);
    PiFound(enc, b, 0, m, false);
  }

  lemma ToldElse(enc: Encoding, b: Bytes)
    requires b != [] && b[0] !in WHITE
    requires forall n: nat :: 0 < n <= |b| ==> !IsComment(enc, b, 0, n) && !IsPi(enc, b, 0, n, false)
    ensures ToldMisc(enc, b) == Account([], Malformed)
  {
    hide IsPi, IsComment;
  }

  // What is told of the epilog, token by token.
  lemma ToldMiscToken(enc: Encoding, b: Bytes)
    requires AsciiTable(enc)
    ensures var r, t := enc.PrologTok(b, 0), ToldMisc(enc, b);
            && (r.Nothing? || r.TrailingCr? ==> t == Account([], Accepted))
            && (r.Found? && r.tok == PrologS ==> t == ToldMisc(enc, b[r.next..]))
            && (r.Found? && r.tok == Pi ==> t == ToldMisc(enc, b[r.next..]).After([ProcessingInstruction(b[..r.next])]))
            && (r.Found? && r.tok == Comment ==> t == ToldMisc(enc, b[r.next..]).After([Event.CommentText(b[..r.next])]))
            && ((r.Found? && r.tok !in {PrologS, Pi, Comment}) || r.Invalid? || r.Partial? || r.PartialChar? ==> t == Account([], Malformed))
  {
    hide AsciiTable, ToldMisc, Encoding.PrologTok, Encoding.ScanDecl, Encoding.ScanPi, Encoding.WhiteRun, Encoding.ScanComment, IsComment, IsPi;
    if b == [] {
      NoToken(enc);
      NothingTold(enc);
    } else {
      PrologStarts(enc, b);
      if b[0] in WHITE {
        ToldWhite(enc, b);
        if b == [0x0D] { assert b[1..] == []; NothingTold(enc); } else { WhiteTold(enc, b, 1); }
      } else {
        ToldMarkupToken(enc, b);
      }
    }
  }

  lemma NothingTold(enc: Encoding)
    ensures ToldMisc(enc, []) == Account([], Accepted)
  {
  }

  lemma ToldMarkupToken(enc: Encoding, b: Bytes)
    requires AsciiTable(enc) && b != [] && b[0] !in WHITE
    ensures var r, t := enc.PrologTok(b, 0), ToldMisc(enc, b);
            if r.Found? && r.tok == Pi then t == ToldMisc(enc, b[r.next..]).After([ProcessingInstruction(b[..r.next])])
            else if r.Found? && r.tok == Comment then t == ToldMisc(enc, b[r.next..]).After([Event.CommentText(b[..r.next])])
            else (r.Found? ==> r.tok != PrologS) && t == Account([], Malformed)
  {
    hide AsciiTable, ToldMisc, Encoding.PrologTok, Encoding.ScanDecl, Encoding.ScanPi, Encoding.WhiteRun, Encoding.ScanComment, IsComment, IsPi;
    var r := enc.PrologTok(b, 0);
    PrologStarts(enc, b);
    if b[0] == 0x3C && 1 < |b| && b[1] == 0x21 { DeclStarts(enc, b); }
    if b[0] == 0x3C && 1 < |b| && b[1] == 0x3F && r.Found? { FoundIsPi(enc, b, 0); }
    if b[0] == 0x3C && 2 < |b| && b[1] == 0x21 && b[2] == 0x2D && r.Found? { FoundIsComment(enc, b, 0); }
    if r.Found? && r.tok == Pi {
      ToldPi(enc, b, r.next);
    } else if r.Found? && r.tok == Comment {
      ToldComment(enc, b, r.next);
    } else {
      forall n: nat | 0 < n <= |b| ensures !IsComment(enc, b, 0, n) && !IsPi(enc, b, 0, n, false) {
        if IsComment(enc, b, 0, n) { CommentBytes(enc, b, n); CommentFound(enc, b, 0, n); }
        if IsPi(enc, b, 0, n, false) { PiBytes(enc, b, n); PiFound(enc, b, 0, n, false); }
      }
      ToldElse(enc, b);
    }
  }

  lemma EpilogStep(c: Config, st: State, b: Bytes)
    ensures var r, v, st' := c.external.PrologTok(b, 0), Epilog(c, st, b, true), st.(processor := EpilogProcessor);
            && (r.Nothing? || r.TrailingCr? ==> v.events == [] && v.out == Ready([]))
            && (r.Found? && r.tok == PrologS ==> v == Epilog(c, st', b[r.next..], true))
            && (r.Found? && r.tok == Pi ==> v == Epilog(c, st', b[r.next..], true).After([ProcessingInstruction(b[..r.next])]))
            && (r.Found? && r.tok == Comment ==> v == Epilog(c, st', b[r.next..], true).After([Event.CommentText(b[..r.next])]))
            && ((r.Found? && r.tok !in {PrologS, Pi, Comment}) || r.Invalid? || r.Partial? || r.PartialChar? ==>
                  v.out.Failed? && v.out.error in LEXICAL)
  {
    hide Encoding.PrologTok;
  }

  // epilogProcessor reports what follows the document element as told.
  lemma {:induction false} EpilogTold(c: Config, st: State, b: Bytes)
    requires AsciiTable(c.external)
    ensures Agrees(Epilog(c, st, b, true), ToldMisc(c.external, b))
    decreases |b|
  {
    hide AsciiTable, ToldMisc, Epilog, Encoding.PrologTok, Flat;
    var r, st' := c.external.PrologTok(b, 0), st.(processor := EpilogProcessor);
    EpilogStep(c, st, b);
    ToldMiscToken(c.external, b);
    FlatNothing();
    if r.Found? && r.tok in {PrologS, Pi, Comment} {
      EpilogTold(c, st', b[r.next..]);
      if r.tok == Pi {
        EventAgrees(Epilog(c, st', b[r.next..], true), ToldMisc(c.external, b[r.next..]), ProcessingInstruction(b[..r.next]));
      } else if r.tok == Comment {
        EventAgrees(Epilog(c, st', b[r.next..], true), ToldMisc(c.external, b[r.next..]), Event.CommentText(b[..r.next]));
      }
    }
  }

  lemma FlatNothing()
    ensures Flat([]) == []
  {
  }

  // ----- one token of doContent -----

  function ScopeOf(start: int, inEntity: bool, open: set<Bytes>, st: State): Scope
    requires Above(start, st)
  {
    Scope(inEntity, open, start == 0, st.stack, st.level - start)
  }

  lemma ScopeIs(c: Config, start: int, inEntity: bool, open: set<Bytes>, st: State)
    requires Above(start, st)
    ensures var s := ScopeOf(start, inEntity, open, st);
            && s.Valid() && s.EncodingOf(c) == (if inEntity then c.internal else c.external)
            && s.inEntity == inEntity && s.open == open && s.root == (start == 0) && s.tags == st.stack && s.own == st.level - start
            && 0 <= st.level - start <= |st.stack|
  {
  }

  lemma EndAgrees(start: int, inEntity: bool, open: set<Bytes>, st: State, events: seq<Event>, flat: seq<Event>)
    requires Above(start, st) && Flat(events) == flat
    ensures Agrees(AtEnd(start, st, events), Account(flat, EndVerdict(ScopeOf(start, inEntity, open, st))))
  {
    hide Flat;
  }

  lemma ContentEnds(c: Config, start: int, inEntity: bool, open: set<Bytes>, st: State, b: Bytes)
    ensures var r, v := (if inEntity then c.internal else c.external).ContentTok(b, 0), Content(c, start, inEntity, open, st, b, true);
            && (r.Nothing? ==> v == AtEnd(start, st, []))
            && (r.TrailingCr? ==> v == AtEnd(start, st, [CharacterData([0x0A])]))
            && (r.TrailingRsqb? ==> v == AtEnd(start, st, [CharacterData(b)]))
            && (r.Invalid? || r.Partial? || r.PartialChar? ==> v.out.Failed? && v.out.error in LEXICAL)
  {
    hide Encoding.ContentTok, AtEnd, Resolve, TokenStep;
  }

  // a token that involves no other bytes
  lemma ContentToken(c: Config, start: int, inEntity: bool, open: set<Bytes>, st: State, b: Bytes, tok: Token, n: nat)
    requires (if inEntity then c.internal else c.external).ContentTok(b, 0) == Found(tok, n) && tok != EntityRef && tok != CdataSectOpen
    ensures var r := TokenStep(c, if inEntity then c.internal else c.external, start, open, st, tok, b[..n]);
            var v := Content(c, start, inEntity, open, st, b, true);
            && (r.GoOn? ==> v == Content(c, start, inEntity, open, r.st, b[n..], true).After(r.events))
            && (r.Document? ==> v == Epilog(c, r.st, b[n..], true).After(r.events))
            && (r.Stop? ==> v.out == Failed(r.error))
  {
    hide Encoding.ContentTok, AtEnd, Resolve, TokenStep, Epilog;
  }

  lemma PlainStep(c: Config, enc: Encoding, start: int, open: set<Bytes>, st: State, tok: Token, raw: Bytes)
    ensures var r := TokenStep(c, enc, start, open, st, tok, raw);
            && (tok == XmlDecl ==> r == Stop(st, MisplacedXmlPi))
            && (tok == DataNewline ==> r == GoOn(st, [CharacterData([0x0A])]))
            && (tok == DataChars ==> r == GoOn(st, [CharacterData(raw)]))
            && (tok == Pi ==> r == GoOn(st, [ProcessingInstruction(raw)]))
            && (tok == Comment ==> r == GoOn(st, [Event.CommentText(raw)]))
            && (tok == CharRef ==>
                  r == if CharRefNumber(raw) < 0 then Stop(st, BadCharRef) else GoOn(st, [CharacterData(Utf8Encode(CharRefNumber(raw)))]))
            && (tok == EndTag ==> r == EndingTag(enc, start, st, raw))
            && (tok == StartTagWithAtts || tok == StartTagNoAtts ==> r == StartTag(c, enc, open, st, raw))
            && (tok == EmptyElementWithAtts || tok == EmptyElementNoAtts ==> r == EmptyElement(c, enc, open, st, raw))
  {
    hide StartTag, EmptyElement, EndingTag, CharRefNumber, Utf8Encode;
  }

  lemma ToldMarkupIs(c: Config, s: Scope, b: Bytes, n: nat, tok: Token)
    requires s.Valid() && Markup(s.EncodingOf(c), b, n, tok)
    ensures var t := ToldMarkup(c, s, b, n, tok);
            && (tok == XmlDecl ==> t == Account([], Refused(MisplacedXmlPi)))
            && (tok == Comment ==> t == Told(c, s, b[n..]).After([Event.CommentText(b[..n])]))
            && (tok == Pi ==> t == Told(c, s, b[n..]).After([ProcessingInstruction(b[..n])]))
            && (tok == CdataSectOpen ==> t == ToldSection(c, s, b[n..]).After([StartCdata]))
            && (tok == EndTag ==> t == ToldEndTag(c, s, b, n))
            && (tok.IsStartOrEmpty() ==> t == ToldTag(c, s, b, n, tok))
            && (tok == CharRef || tok == EntityRef ==> t == ToldReference(c, s, b, n))
  {
    hide Told, ToldSection, ToldEndTag, ToldTag, ToldReference;
  }

  // before the document element only its tag can be found
  lemma TagFirst(enc: Encoding, b: Bytes, n: nat, tok: Token)
    requires AsciiTable(enc) && BeginsElement(enc, b) && Markup(enc, b, n, tok)
    ensures tok.IsStartOrEmpty()
  {
    hide AsciiTable, IsMarkup;
    MarkupStarts(enc, b, 0, n, tok);
    TagMarks(enc, b[0]);
    TagMarks(enc, b[1]);
    OtherMarks(enc, b[1]);
  }

  lemma ElementBegins(enc: Encoding, b: Bytes)
    requires AsciiTable(enc) && BeginsElement(enc, b)
    ensures b != [] && b[0] == 0x3C
  {
    hide AsciiTable;
    TagMarks(enc, b[0]);
  }

  // ----- the run is as told -----

  // What doContent, and all that it calls, make of some bytes after which nothing follows:
  // they are accepted exactly if they are told to be, with the error told if there is a
  // choice, and with the events told.
  lemma {:induction false} ContentTold(c: Config, start: int, inEntity: bool, open: set<Bytes>, st: State, b: Bytes)
    requires AsciiTables(c) && 0 <= start && Above(start, st)
    requires 0 < st.level || BeginsElement(if inEntity then c.internal else c.external, b)
    ensures Agrees(Content(c, start, inEntity, open, st, b, true), Told(c, ScopeOf(start, inEntity, open, st), b))
    decreases c.entities.Keys - open, |b|, 3
  {
    hide *;
    hide Flat;
    var enc, s := if inEntity then c.internal else c.external, ScopeOf(start, inEntity, open, st);
    ScopeIs(c, start, inEntity, open, st);
    TablesAre(c);
    if 0 >= st.level { ElementBegins(enc, b); }
    if b == [] {
      NoToken(enc);
      FlatNothing();
      ToldEnd(c, s);
      ContentEnds(c, start, inEntity, open, st, b);
      EndAgrees(start, inEntity, open, st, [], []);
    } else if b[0] == 0x3C || b[0] == 0x26 {
      MarkupTold(c, start, inEntity, open, st, b);
    } else {
      TextTold(c, start, inEntity, open, st, b);
    }
  }

  lemma TablesAre(c: Config)
    requires AsciiTables(c)
    ensures AsciiTable(c.internal) && AsciiTable(c.external)
  {
  }

  // text
  lemma {:induction false} TextTold(c: Config, start: int, inEntity: bool, open: set<Bytes>, st: State, b: Bytes)
    requires AsciiTables(c) && 0 <= start && Above(start, st) && 0 < st.level
    requires b != [] && b[0] !in {0x3C, 0x26}
    ensures Agrees(Content(c, start, inEntity, open, st, b, true), Told(c, ScopeOf(start, inEntity, open, st), b))
    decreases c.entities.Keys - open, |b|, 2
  {
    hide *;
    hide Flat;
    var enc, s := if inEntity then c.internal else c.external, ScopeOf(start, inEntity, open, st);
    var r := enc.ContentTok(b, 0);
    ScopeIs(c, start, inEntity, open, st);
    TablesAre(c);
    ToldText(c, s, b);
    ContentEnds(c, start, inEntity, open, st, b);
    if r.Found? {
      var data := if r.tok == DataNewline then [0x0A] else b[..r.next];
      PlainStep(c, enc, start, open, st, r.tok, b[..r.next]);
      ContentToken(c, start, inEntity, open, st, b, r.tok, r.next);
      ContentTold(c, start, inEntity, open, st, b[r.next..]);
      FlatOne(CharacterData(data));
      AgreesAfter(Content(c, start, inEntity, open, st, b[r.next..], true), Told(c, s, b[r.next..]), [CharacterData(data)], Bytewise(data));
    } else if r.TrailingCr? {
      FlatOne(CharacterData([0x0A]));
      EndAgrees(start, inEntity, open, st, [CharacterData([0x0A])], Bytewise([0x0A]));
    } else if r.TrailingRsqb? {
      FlatOne(CharacterData(b));
      EndAgrees(start, inEntity, open, st, [CharacterData(b)], Bytewise(b));
    } else {
      BothMalformed(Content(c, start, inEntity, open, st, b, true), Told(c, s, b));
    }
  }

  lemma BothMalformed(r: Result, t: Account)
    requires r.out.Failed? && r.out.error in LEXICAL && t.verdict == Malformed
    ensures Agrees(r, t)
  {
  }

  lemma BothRefused(r: Result, error: Error)
    requires r.out == Failed(error)
    ensures Agrees(r, Account([], Refused(error)))
  {
  }

  // markup
  lemma {:induction false} MarkupTold(c: Config, start: int, inEntity: bool, open: set<Bytes>, st: State, b: Bytes)
    requires AsciiTables(c) && 0 <= start && Above(start, st)
    requires 0 < st.level || BeginsElement(if inEntity then c.internal else c.external, b)
    requires b != [] && b[0] in {0x3C, 0x26}
    ensures Agrees(Content(c, start, inEntity, open, st, b, true), Told(c, ScopeOf(start, inEntity, open, st), b))
    decreases c.entities.Keys - open, |b|, 2
  {
    hide *;
    hide Flat;
    var enc, s := if inEntity then c.internal else c.external, ScopeOf(start, inEntity, open, st);
    var r := enc.ContentTok(b, 0);
    ScopeIs(c, start, inEntity, open, st);
    TablesAre(c);
    ToldAtMarkup(c, s, b);
    ContentEnds(c, start, inEntity, open, st, b);
    if !r.Found? {
      BothMalformed(Content(c, start, inEntity, open, st, b, true), Told(c, s, b));
    } else {
      if 0 >= st.level { TagFirst(enc, b, r.next, r.tok); }
      ToldMarkupIs(c, s, b, r.next, r.tok);
      MarkupProgress(enc, b, r.next, r.tok);
      if r.tok.IsStartOrEmpty() {
        TagTold(c, start, inEntity, open, st, b, r.tok, r.next);
      } else if r.tok == EndTag {
        EndTagTold(c, start, inEntity, open, st, b, r.next);
      } else if r.tok == CharRef || r.tok == EntityRef {
        ReferenceTold(c, start, inEntity, open, st, b, r.tok, r.next);
      } else if r.tok == CdataSectOpen {
        SectionInContent(c, start, inEntity, open, st, b, r.next);
      } else {
        PlainTold(c, start, inEntity, open, st, b, r.tok, r.next);
      }
    }
  }

  lemma MarkupProgress(enc: Encoding, b: Bytes, n: nat, tok: Token)
    requires Markup(enc, b, n, tok)
    ensures 0 < n <= |b|
    ensures tok.IsStartOrEmpty() || tok in {EndTag, CharRef, EntityRef, CdataSectOpen, Comment, Pi, XmlDecl}
  {
    hide IsMarkup;
  }

  // comments, processing instructions and declarations
  lemma {:induction false} PlainTold(c: Config, start: int, inEntity: bool, open: set<Bytes>, st: State, b: Bytes, tok: Token, n: nat)
    requires AsciiTables(c) && 0 <= start && Above(start, st) && 0 < st.level
    requires (if inEntity then c.internal else c.external).ContentTok(b, 0) == Found(tok, n) && 0 < n <= |b| && tok in {Comment, Pi, XmlDecl}
    requires Markup(ScopeOf(start, inEntity, open, st).EncodingOf(c), b, n, tok)
    ensures Agrees(Content(c, start, inEntity, open, st, b, true), ToldMarkup(c, ScopeOf(start, inEntity, open, st), b, n, tok))
    decreases c.entities.Keys - open, |b|, 1
  {
    hide *;
    hide Flat;
    var enc, s := if inEntity then c.internal else c.external, ScopeOf(start, inEntity, open, st);
    ScopeIs(c, start, inEntity, open, st);
    PlainStep(c, enc, start, open, st, tok, b[..n]);
    ContentToken(c, start, inEntity, open, st, b, tok, n);
    ToldMarkupIs(c, s, b, n, tok);
    if tok == XmlDecl {
      BothRefused(Content(c, start, inEntity, open, st, b, true), MisplacedXmlPi);
    } else {
      var event := if tok == Comment then Event.CommentText(b[..n]) else ProcessingInstruction(b[..n]);
      ContentTold(c, start, inEntity, open, st, b[n..]);
      EventAgrees(Content(c, start, inEntity, open, st, b[n..], true), Told(c, s, b[n..]), event);
    }
  }

  // a CDATA section in content
  lemma ContentSection(c: Config, start: int, inEntity: bool, open: set<Bytes>, st: State, b: Bytes, n: nat)
    requires (if inEntity then c.internal else c.external).ContentTok(b, 0) == Found(CdataSectOpen, n)
    ensures var r, v := Cdata(if inEntity then c.internal else c.external, b[n..], true), Content(c, start, inEntity, open, st, b, true);
            && (r.Closed? ==> v == Content(c, start, inEntity, open, st, r.rest, true).After([StartCdata] + r.events))
            && (r.Inside? ==> v.out == r.out)
  {
    hide Encoding.ContentTok, AtEnd, Resolve, TokenStep, Epilog, Cdata;
  }

  lemma {:induction false} SectionInContent(c: Config, start: int, inEntity: bool, open: set<Bytes>, st: State, b: Bytes, n: nat)
    requires AsciiTables(c) && 0 <= start && Above(start, st) && 0 < st.level
    requires (if inEntity then c.internal else c.external).ContentTok(b, 0) == Found(CdataSectOpen, n) && 0 < n <= |b|
    ensures Agrees(Content(c, start, inEntity, open, st, b, true),
                   ToldSection(c, ScopeOf(start, inEntity, open, st), b[n..]).After([StartCdata]))
    decreases c.entities.Keys - open, |b|, 1
  {
    hide *;
    hide Flat;
    var enc, s := if inEntity then c.internal else c.external, ScopeOf(start, inEntity, open, st);
    var r := Cdata(enc, b[n..], true);
    ScopeIs(c, start, inEntity, open, st);
    TablesAre(c);
    ContentSection(c, start, inEntity, open, st, b, n);
    SectionTold(c, s, b[n..]);
    if r.Closed? {
      ContentTold(c, start, inEntity, open, st, r.rest);
      FlatOne(StartCdata);
      FlatConcat([StartCdata], r.events);
      AfterBoth(Told(c, s, r.rest), [StartCdata], Flat(r.events));
      AgreesAfter(Content(c, start, inEntity, open, st, r.rest, true), Told(c, s, r.rest), [StartCdata] + r.events, [StartCdata] + Flat(r.events));
    } else {
      SameVerdict(ToldSection(c, s, b[n..]), [StartCdata]);
      BothMalformed(Content(c, start, inEntity, open, st, b, true), ToldSection(c, s, b[n..]).After([StartCdata]));
    }
  }

  // ----- tags -----

  lemma TagStep(c: Config, enc: Encoding, open: set<Bytes>, st: State, raw: Bytes)
    ensures var name, code, r := NameAt(enc, raw, 1), c.tagError(enc, raw, open, st.stack), StartTag(c, enc, open, st, raw);
            if code.Some? then r.Stop? && r.error == BadTag(code.value)
            else r == GoOn(State(st.processor, st.level + 1, [Tag(name, raw)] + st.stack), [StartElement(name, raw)])
    ensures var name, code, r := NameAt(enc, raw, 1), c.tagError(enc, raw, open, st.stack), EmptyElement(c, enc, open, st, raw);
            var events := [StartElement(name, raw), EndElement(name)];
            if code.Some? then r.Stop? && r.error == BadTag(code.value)
            else r == if st.level == 0 then Document(st, events) else GoOn(st, events)
  {
    hide NameAt;
  }

  lemma ToldTagIs(c: Config, s: Scope, b: Bytes, n: nat, tok: Token)
    requires s.Valid() && AsciiTable(s.EncodingOf(c)) && Markup(s.EncodingOf(c), b, n, tok) && tok.IsStartOrEmpty()
    ensures var raw := b[..n];
            var name, code, t := NameAt(s.EncodingOf(c), raw, 1), c.tagError(s.EncodingOf(c), raw, s.open, s.tags), ToldTag(c, s, b, n, tok);
            var inside := s.(tags := [Tag(name, raw)] + s.tags, own := s.own + 1);
            if code.Some? then t == Account([], Refused(BadTag(code.value)))
            else if tok == StartTagWithAtts || tok == StartTagNoAtts then t == Told(c, inside, b[n..]).After([StartElement(name, raw)])
            else t == (if s.root && s.own == 0 then ToldMisc(c.external, b[n..]) else Told(c, s, b[n..])).After([StartElement(name, raw), EndElement(name)])
  {
    hide AsciiTable, NameAt, TagName, Told, ToldMisc, Markup;
    TagNameIs(s.EncodingOf(c), b, n, tok);
  }

  lemma FlatTwo(x: Event, y: Event)
    requires !x.CharacterData? && !y.CharacterData?
    ensures Flat([x, y]) == [x, y]
  {
    hide Flat;
    FlatOne(x);
    FlatOne(y);
    FlatConcat([x], [y]);
    assert [x] + [y] == [x, y];
  }

  // a start tag, or an empty element's, in content
  lemma ContentTag(c: Config, start: int, inEntity: bool, open: set<Bytes>, st: State, b: Bytes, tok: Token, n: nat)
    requires (if inEntity then c.internal else c.external).ContentTok(b, 0) == Found(tok, n) && n <= |b| && tok.IsStartOrEmpty()
    ensures var enc, raw, v := if inEntity then c.internal else c.external, b[..n], Content(c, start, inEntity, open, st, b, true);
            var name, code := NameAt(enc, raw, 1), c.tagError(enc, raw, open, st.stack);
            var st' := State(st.processor, st.level + 1, [Tag(name, raw)] + st.stack);
            if code.Some? then v.out == Failed(BadTag(code.value))
            else if tok == StartTagWithAtts || tok == StartTagNoAtts then
              v == Content(c, start, inEntity, open, st', b[n..], true).After([StartElement(name, raw)])
            else
              v == (if st.level == 0 then Epilog(c, st, b[n..], true)
                    else Content(c, start, inEntity, open, st, b[n..], true)).After([StartElement(name, raw), EndElement(name)])
  {
    hide *;
    var enc := if inEntity then c.internal else c.external;
    TagTokens(tok);
    PlainStep(c, enc, start, open, st, tok, b[..n]);
    ContentToken(c, start, inEntity, open, st, b, tok, n);
    TagStep(c, enc, open, st, b[..n]);
  }

  lemma {:induction false} TagTold(c: Config, start: int, inEntity: bool, open: set<Bytes>, st: State, b: Bytes, tok: Token, n: nat)
    requires AsciiTables(c) && 0 <= start && Above(start, st)
    requires (if inEntity then c.internal else c.external).ContentTok(b, 0) == Found(tok, n) && 0 < n <= |b| && tok.IsStartOrEmpty()
    requires Markup(ScopeOf(start, inEntity, open, st).EncodingOf(c), b, n, tok)
    ensures Agrees(Content(c, start, inEntity, open, st, b, true), ToldTag(c, ScopeOf(start, inEntity, open, st), b, n, tok))
    decreases c.entities.Keys - open, |b|, 1
  {
    hide *;
    hide Flat;
    var s, raw := ScopeOf(start, inEntity, open, st), b[..n];
    ScopeIs(c, start, inEntity, open, st);
    TablesAre(c);
    var name, code := NameAt(s.EncodingOf(c), raw, 1), c.tagError(s.EncodingOf(c), raw, open, st.stack);
    ContentTag(c, start, inEntity, open, st, b, tok, n);
    ToldTagIs(c, s, b, n, tok);
    if code.Some? {
      BothRefused(Content(c, start, inEntity, open, st, b, true), BadTag(code.value));
    } else if tok == StartTagWithAtts || tok == StartTagNoAtts {
      var st' := State(st.processor, st.level + 1, [Tag(name, raw)] + st.stack);
      StartScope(start, inEntity, open, st, Tag(name, raw));
      ContentTold(c, start, inEntity, open, st', b[n..]);
      EventAgrees(Content(c, start, inEntity, open, st', b[n..], true), Told(c, ScopeOf(start, inEntity, open, st'), b[n..]), StartElement(name, raw));
    } else {
      NonNegative(start, st);
      if st.level == 0 {
        EpilogTold(c, st, b[n..]);
        ElementAgrees(Epilog(c, st, b[n..], true), ToldMisc(c.external, b[n..]), name, raw);
      } else {
        ContentTold(c, start, inEntity, open, st, b[n..]);
        ElementAgrees(Content(c, start, inEntity, open, st, b[n..], true), Told(c, s, b[n..]), name, raw);
      }
    }
  }

  // the state after a start tag, and after an end tag
  lemma StartScope(start: int, inEntity: bool, open: set<Bytes>, st: State, tag: Tag)
    requires 0 <= start && Above(start, st)
    ensures var st' := State(st.processor, st.level + 1, [tag] + st.stack);
            && 0 < st'.level && Above(start, st') && ScopeOf(start, inEntity, open, st').Valid()
            && var s := ScopeOf(start, inEntity, open, st);
               ScopeOf(start, inEntity, open, st') == s.(tags := [tag] + s.tags, own := s.own + 1)
  {
  }

  lemma EndScope(start: int, inEntity: bool, open: set<Bytes>, st: State)
    requires 0 <= start && Above(start, st) && start < st.level
    ensures st.stack != []
    ensures var st' := State(st.processor, st.level - 1, st.stack[1..]);
            && Above(start, st') && ScopeOf(start, inEntity, open, st').Valid() && ScopeOf(start, inEntity, open, st).own == st.level - start
            && (ScopeOf(start, inEntity, open, st).root && st.level - start == 1 <==> st.level == 1)
            && var s := ScopeOf(start, inEntity, open, st);
               ScopeOf(start, inEntity, open, st') == s.(tags := s.tags[1..], own := s.own - 1)
  {
  }

  lemma EventAgrees(r: Result, t: Account, event: Event)
    requires Agrees(r, t) && !event.CharacterData?
    ensures Agrees(r.After([event]), t.After([event]))
  {
    hide Agrees, Flat;
    FlatOne(event);
    AgreesAfter(r, t, [event], [event]);
  }

  lemma ElementAgrees(r: Result, t: Account, name: Bytes, raw: Bytes)
    requires Agrees(r, t)
    ensures Agrees(r.After([StartElement(name, raw), EndElement(name)]), t.After([StartElement(name, raw), EndElement(name)]))
  {
    hide Agrees, Flat;
    FlatTwo(StartElement(name, raw), EndElement(name));
    AgreesAfter(r, t, [StartElement(name, raw), EndElement(name)], [StartElement(name, raw), EndElement(name)]);
  }

  lemma TagTokens(tok: Token)
    ensures tok.IsStartOrEmpty() <==> tok in {StartTagWithAtts, StartTagNoAtts, EmptyElementWithAtts, EmptyElementNoAtts}
  {
  }

  lemma AboveIs(start: int, st: State)
    ensures Above(start, st) <==> 0 <= st.level - start <= |st.stack|
  {
  }

  lemma NonNegative(start: int, st: State)
    requires 0 <= start && Above(start, st)
    ensures 0 <= start <= st.level
  {
  }

  lemma EndTagStep(enc: Encoding, start: int, st: State, raw: Bytes)
    requires Above(start, st)
    ensures var name, r := NameAt(enc, raw, 2), EndingTag(enc, start, st, raw);
            if st.level == start then r.Stop? && r.error == AsyncEntity
            else if st.stack == [] then false
            else if name != st.stack[0].name then r.Stop? && r.error == TagMismatch
            else
              var st' := State(st.processor, st.level - 1, st.stack[1..]);
              r == if st.level == 1 then Document(st', [EndElement(name)]) else GoOn(st', [EndElement(name)])
  {
    hide NameAt;
  }

  lemma ToldEndTagIs(c: Config, s: Scope, b: Bytes, n: nat)
    requires s.Valid() && AsciiTable(s.EncodingOf(c)) && Markup(s.EncodingOf(c), b, n, EndTag)
    ensures var name, t := NameAt(s.EncodingOf(c), b[..n], 2), ToldEndTag(c, s, b, n);
            if s.own == 0 then t == Account([], Refused(AsyncEntity))
            else if name != s.tags[0].name then t == Account([], Refused(TagMismatch))
            else t == (if s.root && s.own == 1 then ToldMisc(c.external, b[n..])
                       else Told(c, s.(tags := s.tags[1..], own := s.own - 1), b[n..])).After([EndElement(name)])
  {
    hide AsciiTable, NameAt, EndTagName, Told, ToldMisc;
    EndTagNameIs(s.EncodingOf(c), b, n);
  }

  // an end tag in content
  lemma ContentEndTag(c: Config, start: int, inEntity: bool, open: set<Bytes>, st: State, b: Bytes, n: nat)
    requires Above(start, st) && (if inEntity then c.internal else c.external).ContentTok(b, 0) == Found(EndTag, n) && n <= |b|
    ensures var v, name := Content(c, start, inEntity, open, st, b, true), NameAt(if inEntity then c.internal else c.external, b[..n], 2);
            if st.level == start then v.out == Failed(AsyncEntity)
            else if st.stack == [] then false
            else if name != st.stack[0].name then v.out == Failed(TagMismatch)
            else
              var st' := State(st.processor, st.level - 1, st.stack[1..]);
              v == (if st.level == 1 then Epilog(c, st', b[n..], true)
                    else Content(c, start, inEntity, open, st', b[n..], true)).After([EndElement(name)])
  {
    hide *;
    var enc := if inEntity then c.internal else c.external;
    PlainStep(c, enc, start, open, st, EndTag, b[..n]);
    ContentToken(c, start, inEntity, open, st, b, EndTag, n);
    EndTagStep(enc, start, st, b[..n]);
  }

  lemma {:induction false} EndTagTold(c: Config, start: int, inEntity: bool, open: set<Bytes>, st: State, b: Bytes, n: nat)
    requires AsciiTables(c) && 0 <= start && Above(start, st) && 0 < st.level
    requires (if inEntity then c.internal else c.external).ContentTok(b, 0) == Found(EndTag, n) && 0 < n <= |b|
    requires Markup(ScopeOf(start, inEntity, open, st).EncodingOf(c), b, n, EndTag)
    ensures Agrees(Content(c, start, inEntity, open, st, b, true), ToldEndTag(c, ScopeOf(start, inEntity, open, st), b, n))
    decreases c.entities.Keys - open, |b|, 1
  {
    hide *;
    hide Flat;
    var s := ScopeOf(start, inEntity, open, st);
    var name := NameAt(s.EncodingOf(c), b[..n], 2);
    ScopeIs(c, start, inEntity, open, st);
    TablesAre(c);
    ContentEndTag(c, start, inEntity, open, st, b, n);
    ToldEndTagIs(c, s, b, n);
    if st.level == start {
      BothRefused(Content(c, start, inEntity, open, st, b, true), AsyncEntity);
    } else if name != st.stack[0].name {
      BothRefused(Content(c, start, inEntity, open, st, b, true), TagMismatch);
    } else {
      var st' := State(st.processor, st.level - 1, st.stack[1..]);
      EndScope(start, inEntity, open, st);
      if st.level == 1 {
        EpilogTold(c, st', b[n..]);
        EventAgrees(Epilog(c, st', b[n..], true), ToldMisc(c.external, b[n..]), EndElement(name));
      } else {
        ContentTold(c, start, inEntity, open, st', b[n..]);
        EventAgrees(Content(c, start, inEntity, open, st', b[n..], true), Told(c, ScopeOf(start, inEntity, open, st'), b[n..]), EndElement(name));
      }
    }
  }

  // ----- references -----

  lemma ContentReference(c: Config, start: int, inEntity: bool, open: set<Bytes>, st: State, b: Bytes, n: nat)
    requires (if inEntity then c.internal else c.external).ContentTok(b, 0) == Found(EntityRef, n)
    ensures var name := ReferenceName(b[..n]);
            var r, v, rest := Resolve(c, open, name), Content(c, start, inEntity, open, st, b, true), Content(c, start, inEntity, open, st, b[n..], true);
            && (r.Characters? ==> v == rest.After([CharacterData(r.data)]))
            && (r.Skip? ==> v == rest)
            && (r.HandlerCall? ==> v == rest.After([ExternalEntityRef(name, open + {name})]))
            && (r.Refuse? ==> v.out == Failed(r.error))
            && (r.Expand? ==>
                  var inner := Content(c, st.level, true, open + {name}, st, r.text, true);
                  && (inner.out.Failed? ==> v == inner)
                  && (inner.out.Ready? && inner.st == st ==> v == rest.After(inner.events)))
  {
    hide Encoding.ContentTok, AtEnd, Resolve, TokenStep, Epilog, Cdata, ReferenceName;
  }

  // what the declarations say of a name, for the code and for the telling
  lemma DeclaredIs(c: Config, s: Scope, b: Bytes, n: nat, name: Bytes)
    requires s.Valid() && 0 < n <= |b| && Means(s.EncodingOf(c), b, 0, n) == Declared(name) && PredefinedEntity(name) == None
    ensures var r, t, rest := Resolve(c, s.open, name), ToldReference(c, s, b, n), Told(c, s, b[n..]);
            && !r.Characters?
            && (r.Skip? ==> t == rest)
            && (r.HandlerCall? ==> t == rest.After([ExternalEntityRef(name, s.open + {name})]))
            && (r.Refuse? ==> t == Account([], Refused(r.error)))
            && (r.Expand? ==>
                  var inner := Told(c, Scope(true, s.open + {name}, false, s.tags, 0), r.text);
                  t == if inner.verdict == Accepted then rest.After(inner.events) else inner)
  {
    hide Means, PredefinedEntity, Told;
  }

  lemma ToldCharacter(c: Config, s: Scope, b: Bytes, n: nat)
    requires s.Valid() && 0 < n <= |b|
    ensures var m, t := Means(s.EncodingOf(c), b, 0, n), ToldReference(c, s, b, n);
            && (m.Character? ==> t == Told(c, s, b[n..]).After(Bytewise(m.text)))
            && (m.NoCharacter? ==> t == Account([], Refused(BadCharRef)))
  {
    hide Means, Told, Bytewise;
  }

  lemma PredefinedResolves(c: Config, open: set<Bytes>, name: Bytes)
    requires PredefinedEntity(name).Some?
    ensures Resolve(c, open, name) == Characters([PredefinedEntity(name).value])
  {
    hide PredefinedEntity;
  }

  lemma RefScanned(enc: Encoding, b: Bytes, tok: Token, n: nat)
    requires AsciiTable(enc) && b != [] && enc.ContentTok(b, 0) == Found(tok, n) && tok in {CharRef, EntityRef} && Markup(enc, b, n, tok)
    ensures b[0] == 0x26 && enc.ScanRef(b, 1) == Found(tok, n)
  {
    hide AsciiTable, IsMarkup, Encoding.ContentTok, Encoding.ScanRef;
    MarkupStarts(enc, b, 0, n, tok);
    AmpAt(enc, b, 0);
  }

  lemma {:induction false} ReferenceTold(c: Config, start: int, inEntity: bool, open: set<Bytes>, st: State, b: Bytes, tok: Token, n: nat)
    requires AsciiTables(c) && 0 <= start && Above(start, st) && 0 < st.level
    requires (if inEntity then c.internal else c.external).ContentTok(b, 0) == Found(tok, n) && 0 < n <= |b| && tok in {CharRef, EntityRef}
    requires Markup(ScopeOf(start, inEntity, open, st).EncodingOf(c), b, n, tok)
    ensures Agrees(Content(c, start, inEntity, open, st, b, true), ToldReference(c, ScopeOf(start, inEntity, open, st), b, n))
    decreases c.entities.Keys - open, |b|, 1
  {
    hide *;
    hide Flat;
    var enc, s, raw := if inEntity then c.internal else c.external, ScopeOf(start, inEntity, open, st), b[..n];
    ScopeIs(c, start, inEntity, open, st);
    TablesAre(c);
    RefScanned(enc, b, tok, n);
    ReferenceMeans(enc, b, 0);
    assert b[0..n] == raw;
    ToldCharacter(c, s, b, n);
    var v, rest, t := Content(c, start, inEntity, open, st, b, true), Content(c, start, inEntity, open, st, b[n..], true), Told(c, s, b[n..]);
    ContentTold(c, start, inEntity, open, st, b[n..]);
    if tok == CharRef {
      PlainStep(c, enc, start, open, st, CharRef, raw);
      ContentToken(c, start, inEntity, open, st, b, CharRef, n);
      if CharRefNumber(raw) < 0 {
        BothRefused(v, BadCharRef);
      } else {
        DataAgrees(rest, t, Utf8Encode(CharRefNumber(raw)));
      }
    } else {
      var name := ReferenceName(raw);
      ContentReference(c, start, inEntity, open, st, b, n);
      if PredefinedEntity(name).Some? {
        PredefinedResolves(c, open, name);
        DataAgrees(rest, t, [PredefinedEntity(name).value]);
      } else {
        var r := Resolve(c, open, name);
        DeclaredIs(c, s, b, n, name);
        if r.Refuse? {
          BothRefused(v, r.error);
        } else if r.HandlerCall? {
          EventAgrees(rest, t, ExternalEntityRef(name, open + {name}));
        } else if r.Expand? {
          ExpansionTold(c, start, inEntity, open, st, b, n, name);
        }
      }
    }
  }

  lemma DataAgrees(r: Result, t: Account, data: Bytes)
    requires Agrees(r, t)
    ensures Agrees(r.After([CharacterData(data)]), t.After(Bytewise(data)))
  {
    hide Agrees, Flat, Bytewise;
    FlatOne(CharacterData(data));
    AgreesAfter(r, t, [CharacterData(data)], Bytewise(data));
  }

  lemma {:induction false} ExpansionTold(c: Config, start: int, inEntity: bool, open: set<Bytes>, st: State, b: Bytes, n: nat, name: Bytes)
    requires AsciiTables(c) && 0 <= start && Above(start, st) && 0 < st.level
    requires (if inEntity then c.internal else c.external).ContentTok(b, 0) == Found(EntityRef, n) && 0 < n <= |b|
    requires name == ReferenceName(b[..n]) && Resolve(c, open, name).Expand? && PredefinedEntity(name) == None
    requires Means(ScopeOf(start, inEntity, open, st).EncodingOf(c), b, 0, n) == Declared(name)
    requires Agrees(Content(c, start, inEntity, open, st, b[n..], true), Told(c, ScopeOf(start, inEntity, open, st), b[n..]))
    ensures Agrees(Content(c, start, inEntity, open, st, b, true), ToldReference(c, ScopeOf(start, inEntity, open, st), b, n))
    decreases c.entities.Keys - open, |b|, 0
  {
    hide *;
    hide Flat;
    var s, text := ScopeOf(start, inEntity, open, st), Resolve(c, open, name).text;
    ScopeIs(c, start, inEntity, open, st);
    ContentReference(c, start, inEntity, open, st, b, n);
    DeclaredIs(c, s, b, n, name);
    ResolveExpands(c, open, name);
    AboveIs(start, st);
    AboveIs(st.level, st);
    ScopeIs(c, st.level, true, open + {name}, st);
    ContentTold(c, st.level, true, open + {name}, st, text);
    var inner, told := Content(c, st.level, true, open + {name}, st, text, true), Told(c, ScopeOf(st.level, true, open + {name}, st), text);
    ExpansionRestoresState(c, open + {name}, st, text);
    InnerAgrees(inner, told);
    if inner.out.Ready? {
      AgreesAfter(Content(c, start, inEntity, open, st, b[n..], true), Told(c, s, b[n..]), inner.events, told.events);
    }
  }

  lemma InnerAgrees(r: Result, t: Account)
    requires Agrees(r, t)
    ensures r.out.Ready? <==> t.verdict == Accepted
    ensures r.out.Ready? ==> Flat(r.events) == t.events
  {
  }

  // ----- documents and entities, in any number of pieces -----

  lemma SameAgrees(f: Result, g: Result, t: Account)
    requires Same(f, g) && Agrees(f, t)
    ensures Agrees(g, t)
  {
    hide Flat;
  }

  // From the first tag on, a document that is given to XML_Parse in any pieces is accepted
  // exactly if it is told to be, and all that is told of it is reported, in order, and
  // nothing else.
  lemma DocumentTold(c: Config, open: set<Bytes>, chunks: seq<Bytes>)
    requires AsciiTables(c) && chunks != [] && BeginsElement(c.external, Concat(chunks))
    ensures Agrees(ParseAll(c, open, AT_START, [], chunks), Told(c, Scope(false, open, true, [], 0), Concat(chunks)))
  {
    hide AsciiTables, BeginsElement, Content, Told, Same, ParseAll, Flat;
    var b := Concat(chunks);
    DocumentChunksFromStart(c, open, chunks);
    ContentTold(c, 0, false, open, AT_START, b);
    SameAgrees(Process(c, open, AT_START, b, true), ParseAll(c, open, AT_START, [], chunks), Told(c, Scope(false, open, true, [], 0), b));
  }

  // The same of an external parsed entity that is not cut inside a CDATA section.
  lemma EntityTold(c: Config, open: set<Bytes>, chunks: seq<Bytes>)
    requires AsciiTables(c) && chunks != [] && !CutInCdata(c.external, [], chunks)
    ensures Agrees(ParseAll(c, open, ENTITY_START, [], chunks), Told(c, Scope(false, open, false, [], 0), Concat(chunks)))
  {
    hide AsciiTables, Content, Told, Same, ParseAll, Flat, CutInCdata;
    var b := Concat(chunks);
    assert [] + b == b;
    EntityChunks(c, open, ENTITY_START, [], chunks);
    ContentTold(c, 1, false, open, ENTITY_START, b);
    SameAgrees(Process(c, open, ENTITY_START, b, true), ParseAll(c, open, ENTITY_START, [], chunks), Told(c, Scope(false, open, false, [], 0), b));
  }
}

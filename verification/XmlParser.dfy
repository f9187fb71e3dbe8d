// The parser object of xmlparse.c while it parses content: XML_Parse, XML_ParseBuffer and
// XML_GetBuffer with their buffer, and the processors, which update the parser in place.
// Each method is proved against the function of XmlContent that it computes; what the
// whole runs of those functions do is proved in XmlNesting and XmlChunkRuns.
module XmlParser {
  import opened Collections
  import opened XmlTok
  import opened XmlChars
  import opened XmlContent
  import opened XmlScanners
  import opened XmlChunks
  import XmlChunkRuns

  const INIT_BUFFER_SIZE := 1024

  // ----- one round of each processor's loop -----

  lemma CdataRound(enc: Encoding, whole: CdataResult, done: seq<Event>, d: Bytes, tok: Token, n: nat, final: bool)
    requires whole == Cdata(enc, d, final).After(done)
    requires n <= |d| && enc.CdataSectionTok(d, 0) == Found(tok, n) && tok != CdataSectClose
    ensures whole == Cdata(enc, d[n..], final)
                       .After(done + [CharacterData(if tok == DataNewline then [LINE_FEED] else d[..n])])
  {
    hide Encoding.CdataSectionTok;
    var event := CharacterData(if tok == DataNewline then [LINE_FEED] else d[..n]);
    var tail := Cdata(enc, d[n..], final);
    assert Cdata(enc, d, final) == tail.After([event]);
    assert done + ([event] + tail.events) == done + [event] + tail.events;
  }

  // the outcome of a scan that ends the bytes of a CDATA section
  function CdataStop(t: Scan, d: Bytes, final: bool): Outcome {
    match t
    case Invalid(_) => Failed(InvalidToken)
    case PartialChar => if final then Failed(PartialCharacter) else Ready(d)
    case _ => if final then Failed(UnclosedCdataSection) else Ready(d)
  }

  lemma CdataEnds(enc: Encoding, whole: CdataResult, done: seq<Event>, d: Bytes, final: bool)
    requires whole == Cdata(enc, d, final).After(done)
    ensures var t := enc.CdataSectionTok(d, 0);
            && (!t.Found? ==> whole == Inside(done, CdataStop(t, d, final)))
            && (t.Found? && t.tok == CdataSectClose ==> whole == Closed(done + [EndCdata], d[t.next..]))
  {
    hide Encoding.CdataSectionTok;
    assert done + [] == done;
  }

  // doContent when no token is found
  lemma ContentEnds(c: Config, start: int, inEntity: bool, open: set<Bytes>, st: State, d: Bytes, final: bool, done: seq<Event>)
    ensures var t := (if inEntity then c.internal else c.external).ContentTok(d, 0);
            var r := Content(c, start, inEntity, open, st, d, final).After(done);
            match t
            case Found(_, _) => true
            case Invalid(_) => r == Result(st, done, Failed(InvalidToken))
            case Partial => r == Result(st, done, if final then Failed(UnclosedToken) else Ready(d))
            case PartialChar => r == Result(st, done, if final then Failed(PartialCharacter) else Ready(d))
            case Nothing => r == if final then AtEnd(start, st, done) else Result(st, done, Ready(d))
            case TrailingCr =>
              r == if final then AtEnd(start, st, done + [CharacterData([LINE_FEED])]) else Result(st, done, Ready(d))
            case TrailingRsqb =>
              r == if final then AtEnd(start, st, done + [CharacterData(d)]) else Result(st, done, Ready(d))
  {
    hide Encoding.ContentTok;
    assert done + [] == done;
  }

  function EpilogEvents(tok: Token, raw: Bytes): seq<Event> {
    if tok == Pi then [ProcessingInstruction(raw)] else if tok == Comment then [CommentText(raw)] else []
  }

  lemma EpilogEnds(c: Config, whole: Result, done: seq<Event>, st: State, d: Bytes, final: bool)
    requires whole == Epilog(c, st, d, final).After(done) && st.processor == EpilogProcessor
    ensures var t := c.external.PrologTok(d, 0);
            match t
            case Nothing => whole == Result(st, done, Ready([]))
            case TrailingCr => whole == Result(st, done, Ready([]))
            case Invalid(_) => whole == Result(st, done, Failed(InvalidToken))
            case Partial => whole == Result(st, done, if final then Failed(UnclosedToken) else Ready(d))
            case PartialChar => whole == Result(st, done, if final then Failed(PartialCharacter) else Ready(d))
            case TrailingRsqb => whole == Result(st, done, Failed(JunkAfterDocElement))
            case Found(tok, _) =>
              tok !in {PrologS, Pi, Comment} ==> whole == Result(st, done, Failed(JunkAfterDocElement))
  {
    hide Encoding.PrologTok;
    assert done + [] == done && st.(processor := EpilogProcessor) == st;
  }

  lemma EpilogRound(c: Config, whole: Result, done: seq<Event>, st: State, d: Bytes, tok: Token, n: nat, final: bool)
    requires whole == Epilog(c, st, d, final).After(done) && st.processor == EpilogProcessor
    requires n <= |d| && c.external.PrologTok(d, 0) == Found(tok, n) && tok in {PrologS, Pi, Comment}
    ensures whole == Epilog(c, st, d[n..], final).After(done + EpilogEvents(tok, d[..n]))
  {
    hide Encoding.PrologTok;
    assert st.(processor := EpilogProcessor) == st;
    var tail := Epilog(c, st, d[n..], final);
    AfterAfter(tail, [], []);
    assert Epilog(c, st, d, final) == tail.After(EpilogEvents(tok, d[..n]));
    AfterAfter(tail, done, EpilogEvents(tok, d[..n]));
  }

  class Parser {
    const c: Config
    var processor: Processor
    var tagLevel: int
    var tagStack: seq<Tag>
    var open: set<Bytes>       // the entities whose open flag is set
    var events: seq<Event>     // the handler calls so far
    var errorCode: Option<Error>

    var buffer: array<byte>
    var bufferPtr: nat
    var bufferEnd: nat

    ghost predicate Valid()
      reads this
    {
      bufferPtr <= bufferEnd <= buffer.Length
    }

    ghost function St(): State
      reads this`processor, this`tagLevel, this`tagStack
    {
      State(processor, tagLevel, tagStack)
    }

    // the bytes that have been passed in but not yet parsed
    ghost function Pending(): Bytes
      requires Valid()
      reads this, buffer
    {
      buffer[bufferPtr..bufferEnd]
    }

    // XML_ParserCreate or XML_ExternalEntityParserCreate, at the start of the content
    constructor (c: Config, processor: Processor, tagLevel: int, open: set<Bytes>)
      ensures Valid() && Pending() == [] && fresh(buffer)
      ensures this.c == c && St() == State(processor, tagLevel, []) && this.open == open
      ensures events == [] && errorCode == None
    {
      this.c := c;
      this.processor, this.tagLevel, this.tagStack := processor, tagLevel, [];
      this.open, this.events, this.errorCode := open, [], None;
      this.buffer := new byte[0];
      this.bufferPtr, this.bufferEnd := 0, 0;
    }

    // ----- the processors -----

    // What a processor answers: an error, or the position it stopped at.
    static function Answer(b: Bytes, error: Option<Error>, next: nat): Outcome
      requires next <= |b|
    {
      if error.Some? then Failed(error.value) else Ready(b[next..])
    }

    // The parser has gone from st and the earlier events to what r says.
    ghost predicate Reached(r: Result, earlier: seq<Event>, b: Bytes, error: Option<Error>, next: nat)
      requires next <= |b|
      reads this`processor, this`tagLevel, this`tagStack, this`events
    {
      St() == r.st && events == earlier + r.events && Answer(b, error, next) == r.out
    }

    ghost predicate Stepped(r: StepResult, earlier: seq<Event>, error: Option<Error>, ended: bool)
      reads this`processor, this`tagLevel, this`tagStack, this`events
    {
      St() == r.st &&
      match r
      case GoOn(_, ev) => error == None && !ended && events == earlier + ev
      case Document(_, ev) => error == None && ended && events == earlier + ev
      case Stop(_, e) => error == Some(e) && events == earlier
    }

    method DoStartTag(enc: Encoding, raw: Bytes) returns (error: Option<Error>)
      modifies this`tagLevel, this`tagStack, this`events
      ensures Stepped(StartTag(c, enc, open, old(St()), raw), old(events), error, false)
    {
      var name, outer := NameAt(enc, raw, 1), tagStack;
      tagStack := [Tag(name, raw)] + tagStack;
      tagLevel := tagLevel + 1;
      var code := c.tagError(enc, raw, open, outer);
      if code.Some? { return Some(BadTag(code.value)); }
      events := events + [StartElement(name, raw)];
      return None;
    }

    method DoEmptyElement(enc: Encoding, raw: Bytes) returns (error: Option<Error>, ended: bool)
      modifies this`events
      ensures Stepped(EmptyElement(c, enc, open, old(St()), raw), old(events), error, ended)
    {
      var name := NameAt(enc, raw, 1);
      var code := c.tagError(enc, raw, open, tagStack);
      if code.Some? { return Some(BadTag(code.value)), false; }
      events := events + [StartElement(name, raw)];
      events := events + [EndElement(name)];
      assert events == old(events) + [StartElement(name, raw), EndElement(name)];
      return None, tagLevel == 0;
    }

    method DoEndTag(enc: Encoding, start: int, raw: Bytes) returns (error: Option<Error>, ended: bool)
      modifies this`tagLevel, this`tagStack, this`events
      ensures Stepped(EndingTag(enc, start, old(St()), raw), old(events), error, ended)
    {
      if tagLevel == start { return Some(AsyncEntity), false; }
      if tagStack == [] { return Some(NoOpenTag), false; }
      var tag := tagStack[0];
      tagStack := tagStack[1..];
      if NameAt(enc, raw, 2) != tag.name { return Some(TagMismatch), false; }
      tagLevel := tagLevel - 1;
      events := events + [EndElement(tag.name)];
      return None, tagLevel == 0;
    }

    // the cases of doContent's switch that involve no other bytes than the token's
    method DoToken(enc: Encoding, start: int, tok: Token, raw: Bytes) returns (error: Option<Error>, ended: bool)
      modifies this`tagLevel, this`tagStack, this`events
      ensures Stepped(TokenStep(c, enc, start, open, old(St()), tok, raw), old(events), error, ended)
    {
      hide StartTag, EmptyElement, EndingTag, CharRefNumber, Utf8Encode;
      error, ended := None, false;
      assert old(events) + [] == old(events);
      match tok {
        case StartTagWithAtts => error := DoStartTag(enc, raw);
        case StartTagNoAtts => error := DoStartTag(enc, raw);
        case EmptyElementWithAtts => error, ended := DoEmptyElement(enc, raw);
        case EmptyElementNoAtts => error, ended := DoEmptyElement(enc, raw);
        case EndTag => error, ended := DoEndTag(enc, start, raw);
        case CharRef =>
          var n := CharRefNumber(raw);
          if n < 0 { return Some(BadCharRef), false; }
          events := events + [CharacterData(Utf8Encode(n))];
        case XmlDecl => return Some(MisplacedXmlPi), false;
        case DataNewline => events := events + [CharacterData([LINE_FEED])];
        case DataChars => events := events + [CharacterData(raw)];
        case Pi => events := events + [ProcessingInstruction(raw)];
        case Comment => events := events + [CommentText(raw)];
        case _ =>
      }
    }

    // The loop of doCdataSection from position start; closed says that the section has
    // been closed, with next behind its end.
    method DoCdataSection(enc: Encoding, b: Bytes, start: nat, final: bool)
      returns (closed: bool, error: Option<Error>, next: nat)
      requires start <= |b|
      modifies this`events
      ensures next <= |b|
      ensures var r := Cdata(enc, b[start..], final);
              && events == old(events) + r.events
              && (if closed then r == Closed(r.events, b[next..]) else r == Inside(r.events, Answer(b, error, next)))
    {
      hide Cdata, Encoding.CdataSectionTok;
      ghost var whole := Cdata(enc, b[start..], final);
      ghost var done: seq<Event> := [];
      var s := start;
      assert whole.After([]) == whole by { CdataAfterNothing(whole); }
      while true
        invariant start <= s <= |b| && events == old(events) + done
        invariant whole == Cdata(enc, b[s..], final).After(done)
        decreases |b| - s
      {
        CdataEnds(enc, whole, done, b[s..], final);
        var tok := CdataSectionTokLoop(enc, b[s..]);
        if tok.Invalid? { return false, Some(InvalidToken), s; }
        if tok.PartialChar? { return false, if final then Some(PartialCharacter) else None, s; }
        if !tok.Found? { return false, if final then Some(UnclosedCdataSection) else None, s; }
        var kind, n := tok.tok, tok.next;
        assert b[s..][n..] == b[s + n..] && b[s..][..n] == b[s..s + n];
        if kind == CdataSectClose {
          events := events + [EndCdata];
          return true, None, s + n;
        }
        CdataRound(enc, whole, done, b[s..], kind, n, final);
        var event := CharacterData(if kind == DataNewline then [LINE_FEED] else b[s..s + n]);
        events := events + [event];
        done := done + [event];
        s := s + n;
      }
    }

    // epilogProcessor from position start
    method DoEpilog(b: Bytes, start: nat, final: bool) returns (error: Option<Error>, next: nat)
      requires start <= |b|
      modifies this`processor, this`events
      ensures next <= |b|
      ensures Reached(Epilog(c, old(St()), b[start..], final), old(events), b, error, next)
    {
      hide Epilog, Encoding.PrologTok;
      ghost var whole := Epilog(c, St(), b[start..], final);
      ghost var done: seq<Event> := [];
      EpilogIgnoresProcessor(c, St(), b[start..], final);
      AfterAfter(whole, [], []);
      processor := EpilogProcessor;
      var s := start;
      while true
        invariant start <= s <= |b| && events == old(events) + done
        invariant St() == old(St()).(processor := EpilogProcessor)
        invariant whole == Epilog(c, St(), b[s..], final).After(done)
        decreases |b| - s
      {
        EpilogEnds(c, whole, done, St(), b[s..], final);
        var tok := c.external.PrologTok(b[s..], 0);
        assert b[|b|..] == [];
        if tok.TrailingCr? || tok.Nothing? { return None, |b|; }
        if tok.Invalid? { return Some(InvalidToken), s; }
        if tok.Partial? { return if final then Some(UnclosedToken) else None, s; }
        if tok.PartialChar? { return if final then Some(PartialCharacter) else None, s; }
        if !tok.Found? || tok.tok !in {PrologS, Pi, Comment} { return Some(JunkAfterDocElement), s; }
        var kind, n := tok.tok, tok.next;
        assert b[s..][n..] == b[s + n..] && b[s..][..n] == b[s..s + n];
        if kind == Pi {
          events := events + [ProcessingInstruction(b[s..s + n])];
        } else if kind == Comment {
          events := events + [CommentText(b[s..s + n])];
        }
        EpilogRound(c, whole, done, St(), b[s..], kind, n, final);
        done := done + EpilogEvents(kind, b[s..s + n]);
        s := s + n;
      }
    }

    // The expansion of an internal entity: the entity is open while its text is parsed,
    // and closed again whatever comes of it.
    method DoInternalEntity(name: Bytes, text: Bytes) returns (error: Option<Error>)
      requires name in c.entities && name !in open
      modifies this`processor, this`tagLevel, this`tagStack, this`events, this`open
      ensures open == old(open)
      ensures var r := Content(c, old(tagLevel), true, old(open) + {name}, old(St()), text, true);
              && St() == r.st && events == old(events) + r.events
              && error == (if r.out.Failed? then Some(r.out.error) else None)
      decreases c.entities.Keys - open, 0
    {
      hide Content;
      ghost var r := Content(c, tagLevel, true, open + {name}, St(), text, true);
      open := open + {name};
      assert name in c.entities.Keys - old(open) && text[0..] == text;
      var next;
      error, next := DoContent(tagLevel, true, text, true);
      assert r.After(old(events)) == Result(St(), events, Answer(text, error, next));
      open := open - {name};
    }

    // What is left of a run of doContent on b after some events, with s the position.
    ghost function Rest(start: int, inEntity: bool, b: Bytes, s: nat, final: bool, earlier: seq<Event>): Result
      requires s <= |b|
      reads this`processor, this`tagLevel, this`tagStack, this`open
    {
      Content(c, start, inEntity, open, St(), b[s..], final).After(earlier)
    }

    // doContent's case of an entity reference that ends at position to
    method DoReference(start: int, inEntity: bool, b: Bytes, s: nat, to: nat, final: bool) returns (error: Option<Error>)
      requires s <= to <= |b|
      requires (if inEntity then c.internal else c.external).ContentTok(b[s..], 0) == Found(EntityRef, to - s)
      modifies this`processor, this`tagLevel, this`tagStack, this`events, this`open
      ensures open == old(open)
      ensures old(Rest(start, inEntity, b, s, final, events))
              == if error.Some? then Result(St(), events, Failed(error.value))
                 else Rest(start, inEntity, b, to, final, events)
      decreases c.entities.Keys - open, 1
    {
      hide Encoding.ContentTok, Cdata, Epilog, TokenStep, Resolve;
      assert b[s..][to - s..] == b[to..] && b[s..][..to - s] == b[s..to];
      var name := ReferenceName(b[s..to]);
      ghost var after := Content(c, start, inEntity, open, St(), b[to..], final);
      match Resolve(c, open, name) {
        case Characters(data) =>
          AfterAfter(after, events, [CharacterData(data)]);
          events := events + [CharacterData(data)];
        case Skip =>
        case HandlerCall =>
          AfterAfter(after, events, [ExternalEntityRef(name, open + {name})]);
          events := events + [ExternalEntityRef(name, open + {name})];
        case Refuse(e) =>
          assert events + [] == events;
          return Some(e);
        case Expand(text) =>
          ghost var inner := Content(c, tagLevel, true, open + {name}, St(), text, true);
          error := DoInternalEntity(name, text);
          if error == None {
            AfterAfter(Content(c, start, inEntity, open, St(), b[to..], final), old(events), inner.events);
          }
          return;
      }
      return None;
    }

    // doContent's cases of a CDATA section that is opened between s and to; next is where
    // the run goes on, if it does
    method DoSection(start: int, inEntity: bool, b: Bytes, s: nat, to: nat, final: bool)
      returns (closed: bool, error: Option<Error>, next: nat)
      requires s <= to <= |b|
      requires (if inEntity then c.internal else c.external).ContentTok(b[s..], 0) == Found(CdataSectOpen, to - s)
      modifies this`processor, this`events
      ensures next <= |b| && (closed ==> to < next)
      ensures old(Rest(start, inEntity, b, s, final, events))
              == if closed then Rest(start, inEntity, b, next, final, events)
                 else Result(St(), events, Answer(b, error, next))
    {
      hide Encoding.ContentTok, Cdata, Epilog, TokenStep, Resolve;
      assert b[s..][to - s..] == b[to..];
      var enc := if inEntity then c.internal else c.external;
      ghost var r := Cdata(enc, b[to..], final);
      events := events + [StartCdata];
      closed, error, next := DoCdataSection(enc, b, to, final);
      assert events == old(events) + ([StartCdata] + r.events);
      if closed {
        assert |b[next..]| < |b[to..]|;
        AfterAfter(Content(c, start, inEntity, open, St(), b[next..], final), old(events), [StartCdata] + r.events);
      } else {
        processor := CdataProcessor;
      }
    }

    // doContent's other tokens; ended says that the document element has ended, so that
    // epilogProcessor has taken over
    method DoOther(start: int, inEntity: bool, b: Bytes, s: nat, kind: Token, to: nat, final: bool)
      returns (error: Option<Error>, ended: bool, next: nat)
      requires s <= to <= |b| && kind != EntityRef && kind != CdataSectOpen
      requires (if inEntity then c.internal else c.external).ContentTok(b[s..], 0) == Found(kind, to - s)
      modifies this`processor, this`tagLevel, this`tagStack, this`events
      ensures next <= |b|
      ensures old(Rest(start, inEntity, b, s, final, events))
              == if ended || error.Some? then Result(St(), events, Answer(b, error, next))
                 else Rest(start, inEntity, b, to, final, events)
    {
      hide Encoding.ContentTok, Cdata, Epilog, TokenStep, Resolve;
      assert b[s..][to - s..] == b[to..] && b[s..][..to - s] == b[s..to];
      var enc := if inEntity then c.internal else c.external;
      ghost var r := TokenStep(c, enc, start, open, St(), kind, b[s..to]);
      error, ended := DoToken(enc, start, kind, b[s..to]);
      next := to;
      if error.Some? {
        assert old(events) + [] == old(events);
      } else if ended {
        AfterAfter(Epilog(c, St(), b[to..], final), old(events), r.events);
        error, next := DoEpilog(b, to, final);
      } else {
        AfterAfter(Content(c, start, inEntity, open, St(), b[to..], final), old(events), r.events);
      }
    }

    // doContent's cases of a token that is not complete, from s to the end
    method DoEnd(start: int, inEntity: bool, b: Bytes, s: nat, tok: Scan, final: bool) returns (error: Option<Error>, next: nat)
      requires s <= |b| && !tok.Found?
      requires tok == (if inEntity then c.internal else c.external).ContentTok(b[s..], 0)
      modifies this`events
      ensures next <= |b|
      ensures old(Rest(start, inEntity, b, s, final, events)) == Result(St(), events, Answer(b, error, next))
    {
      hide Content, Encoding.ContentTok;
      ContentEnds(c, start, inEntity, open, St(), b[s..], final, events);
      assert b[|b|..] == [];
      match tok {
        case Nothing =>
          if !final { return None, s; }
          return AtEndError(start), |b|;
        case TrailingCr =>
          if !final { return None, s; }
          events := events + [CharacterData([LINE_FEED])];
          return AtEndError(start), |b|;
        case TrailingRsqb =>
          if !final { return None, s; }
          events := events + [CharacterData(b[s..])];
          return AtEndError(start), |b|;
        case Invalid(_) => return Some(InvalidToken), s;
        case Partial => return if final then Some(UnclosedToken) else None, s;
        case PartialChar => return if final then Some(PartialCharacter) else None, s;
      }
    }

    // doContent
    method DoContent(start: int, inEntity: bool, b: Bytes, final: bool) returns (error: Option<Error>, next: nat)
      modifies this`processor, this`tagLevel, this`tagStack, this`events, this`open
      ensures next <= |b|
      ensures open == old(open)
      ensures old(Rest(start, inEntity, b, 0, final, events)) == Result(St(), events, Answer(b, error, next))
      decreases c.entities.Keys - open, 2
    {
      hide Rest, Encoding.ContentTok;
      var enc := if inEntity then c.internal else c.external;
      ghost var whole := Rest(start, inEntity, b, 0, final, events);
      var s := 0;
      while true
        invariant s <= |b| && open == old(open)
        invariant whole == Rest(start, inEntity, b, s, final, events)
        decreases |b| - s
      {
        var tok := ContentTokLoop(enc, b[s..]);
        if !tok.Found? {
          error, next := DoEnd(start, inEntity, b, s, tok, final);
          return;
        }
        var kind, n := tok.tok, tok.next;
        if kind == EntityRef {
          error := DoReference(start, inEntity, b, s, s + n, final);
          if error.Some? { return error, s; }
          s := s + n;
        } else if kind == CdataSectOpen {
          var closed;
          closed, error, next := DoSection(start, inEntity, b, s, s + n, final);
          if !closed { return; }
          s := next;
        } else {
          var ended;
          error, ended, next := DoOther(start, inEntity, b, s, kind, s + n, final);
          if ended || error.Some? { return; }
          s := s + n;
        }
      }
    }

    function AtEndError(start: int): Option<Error>
      reads this`tagLevel
    {
      if start == 0 then Some(NoElements) else if tagLevel != start then Some(AsyncEntity) else None
    }

    // cdataSectionProcessor
    method DoCdataThenContent(b: Bytes, final: bool) returns (error: Option<Error>, next: nat)
      modifies this`processor, this`tagLevel, this`tagStack, this`events, this`open
      ensures next <= |b|
      ensures open == old(open)
      ensures Reached(CdataThenContent(c, old(open), old(St()), b, final), old(events), b, error, next)
    {
      hide Cdata, Content;
      ghost var r := Cdata(c.external, b, final);
      assert b[0..] == b;
      var closed;
      closed, error, next := DoCdataSection(c.external, b, 0, final);
      if closed {
        var from := next;
        processor := ContentProcessor;
        ghost var tail := Content(c, 0, false, open, St(), b[from..], final);
        assert b[from..][0..] == b[from..];
        error, next := DoContent(0, false, b[from..], final);
        AfterAfter(tail, old(events), r.events);
        assert b[from..][next..] == b[from + next..];
        next := from + next;
      }
    }

    // the call through parser->processor
    method CallProcessor(b: Bytes, final: bool) returns (error: Option<Error>, next: nat)
      modifies this`processor, this`tagLevel, this`tagStack, this`events, this`open, this`errorCode
      ensures next <= |b|
      ensures open == old(open)
      ensures Reached(Process(c, old(open), old(St()), b, final), old(events), b, error, next)
      ensures errorCode == error
    {
      hide Content, CdataThenContent, Epilog;
      assert b[0..] == b;
      match processor {
        case ContentProcessor => error, next := DoContent(0, false, b, final);
        case ExternalContentProcessor => error, next := DoContent(1, false, b, final);
        case CdataProcessor => error, next := DoCdataThenContent(b, final);
        case EpilogProcessor => error, next := DoEpilog(b, 0, final);
      }
      errorCode := error;
    }

    // ----- the buffer -----

    // XML_GetBuffer: room for len bytes behind bufferEnd, with what is pending kept
    method GetBuffer(len: nat)
      requires Valid()
      modifies this`buffer, this`bufferPtr, this`bufferEnd, buffer
      ensures Valid() && (buffer == old(buffer) || fresh(buffer))
      ensures Pending() == old(Pending())
      ensures bufferEnd + len <= buffer.Length
    {
      if len > buffer.Length - bufferEnd {
        var kept := bufferEnd - bufferPtr;
        var neededSize := len + kept;
        if neededSize <= buffer.Length {
          forall k | 0 <= k < kept { buffer[k] := buffer[bufferPtr + k]; }
        } else {
          var bufferSize := buffer.Length - bufferPtr;
          if bufferSize == 0 { bufferSize := INIT_BUFFER_SIZE; }
          bufferSize := bufferSize * 2;
          while bufferSize < neededSize
            invariant 0 < bufferSize
            decreases neededSize - bufferSize
          {
            bufferSize := bufferSize * 2;
          }
          var newBuf := new byte[bufferSize];
          forall k | 0 <= k < kept { newBuf[k] := buffer[bufferPtr + k]; }
          buffer := newBuf;
        }
        bufferPtr, bufferEnd := 0, kept;
      }
    }

    // What a call that passes data in comes to: the processor has run on what was pending
    // and the data, and keeps what it could not parse if more is to come.
    twostate predicate Parsed(data: Bytes, final: bool, ok: bool)
      requires old(Valid())
      reads this, buffer
    {
      var r := Process(c, old(open), old(St()), old(Pending()) + data, final);
      && Valid() && open == old(open)
      && St() == r.st && events == old(events) + r.events
      && ok == r.out.Ready?
      && errorCode == (if r.out.Failed? then Some(r.out.error) else None)
      && (ok && !final ==> Pending() == r.out.rest)
    }

    // XML_ParseBuffer, for len bytes that have been put behind bufferEnd
    method ParseBuffer(len: nat, final: bool) returns (ok: bool)
      requires Valid() && bufferEnd + len <= buffer.Length
      modifies this
      ensures buffer == old(buffer)
      ensures Parsed(old(buffer[bufferEnd..bufferEnd + len]), final, ok)
    {
      hide Process;
      var start := bufferPtr;
      var b := buffer[start..bufferEnd + len];
      assert b == Pending() + buffer[bufferEnd..bufferEnd + len];
      bufferEnd := bufferEnd + len;
      var error, next := CallProcessor(b, final);
      ok := error == None;
      if ok && !final {
        bufferPtr := start + next;
        assert Pending() == b[next..];
      }
    }

    // XML_Parse
    method Parse(data: Bytes, final: bool) returns (ok: bool)
      requires Valid()
      modifies this, buffer
      ensures Valid() && (buffer == old(buffer) || fresh(buffer))
      ensures data == [] && !final ==>
                ok && St() == old(St()) && events == old(events) && open == old(open) && Pending() == old(Pending())
      ensures data != [] || final ==> Parsed(data, final, ok)
    {
      hide Process;
      var error, next;
      if data == [] {
        if !final { return true; }
        assert Pending() + [] == Pending();
        error, next := CallProcessor(buffer[bufferPtr..bufferEnd], true);
        return error == None;
      }
      if bufferPtr == bufferEnd {
        assert Pending() + data == data;
        error, next := CallProcessor(data, final);
        if error.Some? || final { return error == None; }
        KeepLeftOver(data, next);
        return true;
      }
      PutBehind(data);
      ok := ParseBuffer(|data|, final);
    }

    // what the processor has not parsed of the data goes to the start of the empty buffer
    method KeepLeftOver(data: Bytes, next: nat)
      requires Valid() && bufferPtr == bufferEnd && next <= |data|
      modifies this`buffer, this`bufferPtr, this`bufferEnd, buffer
      ensures Valid() && (buffer == old(buffer) || fresh(buffer))
      ensures Pending() == data[next..]
    {
      var left := |data| - next;
      if left != 0 {
        if left > buffer.Length { buffer := new byte[|data| * 2]; }
        forall k | 0 <= k < left { buffer[k] := data[next + k]; }
        bufferPtr, bufferEnd := 0, left;
      }
    }

    // the data goes behind what is pending
    method PutBehind(data: Bytes)
      requires Valid()
      modifies this`buffer, this`bufferPtr, this`bufferEnd, buffer
      ensures Valid() && (buffer == old(buffer) || fresh(buffer))
      ensures Pending() == old(Pending()) && bufferEnd + |data| <= buffer.Length
      ensures buffer[bufferEnd..bufferEnd + |data|] == data
    {
      GetBuffer(|data|);
      ghost var pending := Pending();
      forall k | 0 <= k < |data| { buffer[bufferEnd + k] := data[k]; }
      assert Pending() == pending;
    }

    // A client that passes its input in pieces: the parser runs as ParseAll says, so what
    // is proved of that holds of it, whatever the pieces are.
    method ParsePieces(pieces: seq<Bytes>) returns (ok: bool)
      requires Valid() && pieces != []
      modifies this, buffer
      ensures Valid() && open == old(open)
      ensures var r := XmlChunkRuns.ParseAll(c, old(open), old(St()), old(Pending()), pieces);
              && St() == r.st && events == old(events) + r.events && ok == r.out.Ready?
              && (!ok ==> errorCode == Some(r.out.error))
    {
      hide Process;
      ghost var whole := XmlChunkRuns.ParseAll(c, open, St(), Pending(), pieces).After(events);
      var k := 0;
      while k < |pieces| - 1
        invariant 0 <= k < |pieces| && Valid() && open == old(open)
        invariant buffer == old(buffer) || fresh(buffer)
        invariant whole == XmlChunkRuns.ParseAll(c, open, St(), Pending(), pieces[k..]).After(events)
      {
        assert pieces[k..][1..] == pieces[k + 1..];
        ghost var r := Process(c, open, St(), Pending() + pieces[k], false);
        ghost var before := events;
        ok := Parse(pieces[k], false);
        if !ok { return; }
        if pieces[k] != [] {
          AfterAfter(XmlChunkRuns.ParseAll(c, open, St(), Pending(), pieces[k + 1..]), before, r.events);
        }
        k := k + 1;
      }
      assert pieces[k..] == [pieces[k]];
      ok := Parse(pieces[k], true);
    }
  }
}

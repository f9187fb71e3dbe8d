// What the content, CDATA and epilog processors of xmlparse.c do with the bytes they are
// given, as functions of the parser state and of those bytes.  A processor is handed the
// bytes between its s and end pointers; "final" says that nextPtr is null, so that
// nothing will follow.  The loops that update the parser in place are in XmlParser.
//
// All handlers but the default handler are taken to be set, and each call of one is an
// Event.  The attributes of a tag are left to the parameter tagError, which may use
// everything storeAtts can see: the encoding, the tag's bytes, the open entities and the open tags.
module XmlContent {
  import opened Collections
  import opened XmlTok
  import opened XmlChars

  type Bytes = seq<byte>

  // ENTITY: a text makes it internal, a notation makes it unparsed
  datatype Entity = Entity(text: Option<Bytes>, notation: bool)

  datatype Error =
    | NoElements | InvalidToken | UnclosedToken | PartialCharacter | TagMismatch | JunkAfterDocElement
    | UndefinedEntity | RecursiveEntityRef | AsyncEntity | BadCharRef | BinaryEntityRef
    | ExternalEntityHandling | MisplacedXmlPi | UnclosedCdataSection
    | AttributeExternalEntityRef | BadTag(code: nat)
    | NoOpenTag  // the C code follows a null tagStack here

  datatype Event =
    | StartElement(name: Bytes, tag: Bytes)
    | EndElement(endName: Bytes)
    | CharacterData(data: Bytes)
    | ProcessingInstruction(pi: Bytes)
    | CommentText(comment: Bytes)
    | StartCdata
    | EndCdata
    | ExternalEntityRef(entity: Bytes, open: set<Bytes>)

  datatype Tag = Tag(name: Bytes, raw: Bytes)

  datatype Processor = ContentProcessor | ExternalContentProcessor | CdataProcessor | EpilogProcessor

  // Everything about a parser that stays the same while it parses content.
  datatype Config = Config(
    external: Encoding,
    internal: Encoding,
    entities: map<Bytes, Entity>,
    complete: bool,
    standalone: bool,
    hasEntityHandler: bool,
    entityHandler: (Bytes, set<Bytes>) -> bool,
    tagError: (Encoding, Bytes, set<Bytes>, seq<Tag>) -> Option<nat>)

  datatype State = State(processor: Processor, level: int, stack: seq<Tag>)

  // Ready: no error; the bytes from here on are still to be parsed
  datatype Outcome = Ready(rest: Bytes) | Failed(error: Error)

  datatype Result = Result(st: State, events: seq<Event>, out: Outcome)
  {
    function After(earlier: seq<Event>): Result { Result(st, earlier + events, out) }
  }

  function NameLength(enc: Encoding, s: Bytes): (n: nat)
    ensures n <= |s|
    decreases |s|
  {
    if s == [] then 0 else
    var t := enc.typeOf(s[0]);
    var w := if t == Lead2 then 2 else if t == Lead3 then 3 else if t == Lead4 then 4
             else if t in {NonAscii, Nmstrt, Colon, Hex, Digit, NameCh, Minus} then 1 else 0;
    if w == 0 then 0 else if |s| < w then |s| else w + NameLength(enc, s[w..])
  }

  function PredefinedEntity(name: Bytes): Option<byte> {
    if name == [0x6C, 0x74] then Some(0x3C)
    else if name == [0x67, 0x74] then Some(0x3E)
    else if name == [0x61, 0x6D, 0x70] then Some(0x26)
    else if name == [0x71, 0x75, 0x6F, 0x74] then Some(0x22)
    else if name == [0x61, 0x70, 0x6F, 0x73] then Some(0x27)
    else None
  }

  // ----- one token -----

  // What becomes of a token that involves no other bytes than its own.
  datatype StepResult =
    | GoOn(st: State, events: seq<Event>)
    | Document(st: State, events: seq<Event>)  // the document element has ended
    | Stop(st: State, error: Error)

  // the name that starts k bytes into a tag
  function NameAt(enc: Encoding, raw: Bytes, k: nat): Bytes {
    if |raw| < k then [] else raw[k..][..NameLength(enc, raw[k..])]
  }

  // the name between "&" and ";"
  function ReferenceName(raw: Bytes): Bytes {
    if |raw| < 2 then [] else raw[1..|raw| - 1]
  }

  function StartTag(c: Config, enc: Encoding, open: set<Bytes>, st: State, raw: Bytes): StepResult {
    var name := NameAt(enc, raw, 1);
    var st' := st.(level := st.level + 1, stack := [Tag(name, raw)] + st.stack);
    match c.tagError(enc, raw, open, st.stack)
    case Some(code) => Stop(st', BadTag(code))
    case None => GoOn(st', [StartElement(name, raw)])
  }

  function EmptyElement(c: Config, enc: Encoding, open: set<Bytes>, st: State, raw: Bytes): StepResult {
    var name := NameAt(enc, raw, 1);
    var events := [StartElement(name, raw), EndElement(name)];
    match c.tagError(enc, raw, open, st.stack)
    case Some(code) => Stop(st, BadTag(code))
    case None => if st.level == 0 then Document(st, events) else GoOn(st, events)
  }

  function EndingTag(enc: Encoding, start: int, st: State, raw: Bytes): StepResult {
    if st.level == start then Stop(st, AsyncEntity)
    else if st.stack == [] then Stop(st, NoOpenTag)
    else
      var popped := st.(stack := st.stack[1..]);
      if NameAt(enc, raw, 2) != st.stack[0].name then Stop(popped, TagMismatch)
      else
        var st' := popped.(level := st.level - 1);
        var events := [EndElement(st.stack[0].name)];
        if st'.level == 0 then Document(st', events) else GoOn(st', events)
  }

  function TokenStep(c: Config, enc: Encoding, start: int, open: set<Bytes>, st: State, tok: Token, raw: Bytes): StepResult
  {
    match tok
    case StartTagWithAtts => StartTag(c, enc, open, st, raw)
    case StartTagNoAtts => StartTag(c, enc, open, st, raw)
    case EmptyElementWithAtts => EmptyElement(c, enc, open, st, raw)
    case EmptyElementNoAtts => EmptyElement(c, enc, open, st, raw)
    case EndTag => EndingTag(enc, start, st, raw)
    case CharRef =>
      if CharRefNumber(raw) < 0 then Stop(st, BadCharRef)
      else GoOn(st, [CharacterData(Utf8Encode(CharRefNumber(raw)))])
    case XmlDecl => Stop(st, MisplacedXmlPi)
    case DataNewline => GoOn(st, [CharacterData([LINE_FEED])])
    case DataChars => GoOn(st, [CharacterData(raw)])
    case Pi => GoOn(st, [ProcessingInstruction(raw)])
    case Comment => GoOn(st, [CommentText(raw)])
    case _ => GoOn(st, [])
  }

  // What an entity reference in content asks for.
  datatype Reference =
    | Characters(data: Bytes)
    | Expand(text: Bytes)
    | HandlerCall
    | Skip
    | Refuse(error: Error)

  function Resolve(c: Config, open: set<Bytes>, name: Bytes): (r: Reference)
    ensures r.Expand? ==> name in c.entities && name !in open
  {
    match PredefinedEntity(name)
    case Some(ch) => Characters([ch])
    case None =>
      if name !in c.entities then
        if c.complete || c.standalone then Refuse(UndefinedEntity) else Skip
      else if name in open then Refuse(RecursiveEntityRef)
      else if c.entities[name].notation then Refuse(BinaryEntityRef)
      else if c.entities[name].text.Some? then Expand(c.entities[name].text.value)
      else if !c.hasEntityHandler then Skip
      else if c.entityHandler(name, open + {name}) then HandlerCall
      else Refuse(ExternalEntityHandling)
  }

  // ----- the processors -----

  // The end of the bytes, when nothing will follow.
  function AtEnd(start: int, st: State, events: seq<Event>): Result {
    Result(st, events,
           if start == 0 then Failed(NoElements)
           else if st.level != start then Failed(AsyncEntity)
           else Ready([]))
  }

  // doContent.  It is the loop of the document's content (start 0), of an external parsed
  // entity's content (start 1), and of an internal entity's text (inEntity; start is the
  // level of the reference).
  function Content(c: Config, start: int, inEntity: bool, open: set<Bytes>, st: State, b: Bytes, final: bool): (r: Result)
    decreases c.entities.Keys - open, |b|
  {
    var enc := if inEntity then c.internal else c.external;
    match enc.ContentTok(b, 0)
    case Nothing => if final then AtEnd(start, st, []) else Result(st, [], Ready(b))
    case TrailingCr => if final then AtEnd(start, st, [CharacterData([LINE_FEED])]) else Result(st, [], Ready(b))
    case TrailingRsqb => if final then AtEnd(start, st, [CharacterData(b)]) else Result(st, [], Ready(b))
    case Invalid(_) => Result(st, [], Failed(InvalidToken))
    case Partial => Result(st, [], if final then Failed(UnclosedToken) else Ready(b))
    case PartialChar => Result(st, [], if final then Failed(PartialCharacter) else Ready(b))
    case Found(tok, next) =>
      if tok == EntityRef then
        var name := ReferenceName(b[..next]);
        (match Resolve(c, open, name)
         case Characters(data) =>
           Content(c, start, inEntity, open, st, b[next..], final).After([CharacterData(data)])
         case Skip => Content(c, start, inEntity, open, st, b[next..], final)
         case HandlerCall =>
           Content(c, start, inEntity, open, st, b[next..], final).After([ExternalEntityRef(name, open + {name})])
         case Refuse(error) => Result(st, [], Failed(error))
         case Expand(text) =>
           var inner := Content(c, st.level, true, open + {name}, st, text, true);
           if inner.out.Failed? then inner
           else Content(c, start, inEntity, open, inner.st, b[next..], final).After(inner.events))
      else if tok == CdataSectOpen then
        (match Cdata(enc, b[next..], final)
         case Closed(events, rest) =>
           Content(c, start, inEntity, open, st, rest, final).After([StartCdata] + events)
         case Inside(events, out) => Result(st.(processor := CdataProcessor), [StartCdata] + events, out))
      else
        match TokenStep(c, enc, start, open, st, tok, b[..next])
        case GoOn(st', events) => Content(c, start, inEntity, open, st', b[next..], final).After(events)
        case Document(st', events) => Epilog(c, st', b[next..], final).After(events)
        case Stop(st', error) => Result(st', [], Failed(error))
  }

  // doCdataSection: the section was closed with rest to follow, or its end was not reached
  datatype CdataResult =
    | Closed(events: seq<Event>, rest: Bytes)
    | Inside(events: seq<Event>, out: Outcome)
  {
    function After(earlier: seq<Event>): (r: CdataResult) {
      if Closed? then Closed(earlier + events, rest) else Inside(earlier + events, out)
    }
  }

  function Cdata(enc: Encoding, b: Bytes, final: bool): (r: CdataResult)
    ensures r.Closed? ==> |r.rest| < |b|
    decreases |b|
  {
    match enc.CdataSectionTok(b, 0)
    case Nothing => Inside([], if final then Failed(UnclosedCdataSection) else Ready(b))
    case Partial => Inside([], if final then Failed(UnclosedCdataSection) else Ready(b))
    case PartialChar => Inside([], if final then Failed(PartialCharacter) else Ready(b))
    case Invalid(_) => Inside([], Failed(InvalidToken))
    case Found(tok, next) =>
      if tok == CdataSectClose then Closed([EndCdata], b[next..])
      else
        var data := if tok == DataNewline then [LINE_FEED] else b[..next];
        Cdata(enc, b[next..], final).After([CharacterData(data)])
  }

  // cdataSectionProcessor: it goes on with contentProcessor, whatever it came from
  function CdataThenContent(c: Config, open: set<Bytes>, st: State, b: Bytes, final: bool): Result {
    match Cdata(c.external, b, final)
    case Closed(events, rest) =>
      Content(c, 0, false, open, st.(processor := ContentProcessor), rest, final).After(events)
    case Inside(events, out) => Result(st, events, out)
  }

  // epilogProcessor
  function Epilog(c: Config, st: State, b: Bytes, final: bool): Result
    decreases |b|
  {
    var st' := st.(processor := EpilogProcessor);
    match c.external.PrologTok(b, 0)
    case Nothing => Result(st', [], Ready([]))
    case TrailingCr => Result(st', [], Ready([]))
    case Invalid(_) => Result(st', [], Failed(InvalidToken))
    case Partial => Result(st', [], if final then Failed(UnclosedToken) else Ready(b))
    case PartialChar => Result(st', [], if final then Failed(PartialCharacter) else Ready(b))
    case TrailingRsqb => Result(st', [], Failed(JunkAfterDocElement))
    case Found(tok, next) =>
      if tok == PrologS then Epilog(c, st', b[next..], final)
      else if tok == Pi then Epilog(c, st', b[next..], final).After([ProcessingInstruction(b[..next])])
      else if tok == Comment then Epilog(c, st', b[next..], final).After([CommentText(b[..next])])
      else Result(st', [], Failed(JunkAfterDocElement))
  }

  // The call of parser->processor in XML_Parse and XML_ParseBuffer.
  function Process(c: Config, open: set<Bytes>, st: State, b: Bytes, final: bool): Result {
    match st.processor
    case ContentProcessor => Content(c, 0, false, open, st, b, final)
    case ExternalContentProcessor => Content(c, 1, false, open, st, b, final)
    case CdataProcessor => CdataThenContent(c, open, st, b, final)
    case EpilogProcessor => Epilog(c, st, b, final)
  }
}

// Element events are properly nested, however many entities the tags come from: an
// internal entity's text can neither close a tag that was open at its reference nor
// leave one open.
module XmlNesting {
  import opened Collections
  import opened XmlTok
  import opened XmlContent

  // The elements open after some events (innermost first), or None if an end tag did not
  // match the innermost open start tag.
  function Track(events: seq<Event>, open: seq<Bytes>): Option<seq<Bytes>> {
    if events == [] then Some(open) else
    match events[0]
    case StartElement(name, _) => Track(events[1..], [name] + open)
    case EndElement(name) =>
      if open == [] || open[0] != name then None else Track(events[1..], open[1..])
    case _ => Track(events[1..], open)
  }

  lemma TrackConcat(a: seq<Event>, b: seq<Event>, open: seq<Bytes>)
    ensures Track(a + b, open) == if Track(a, open).None? then None else Track(b, Track(a, open).value)
    decreases |a|
  {
    if a == [] {
      assert a + b == b;
    } else {
      assert (a + b)[1..] == a[1..] + b;
    }
  }

  // Elements further out do not matter to events that never reach them.
  lemma TrackFrame(events: seq<Event>, open: seq<Bytes>, outer: seq<Bytes>)
    requires Track(events, open).Some?
    ensures Track(events, open + outer) == Some(Track(events, open).value + outer)
    decreases |events|
  {
    if events == [] {
    } else {
      match events[0]
      case StartElement(name, _) =>
        assert [name] + open + outer == [name] + (open + outer);
        TrackFrame(events[1..], [name] + open, outer);
      case EndElement(_) =>
        assert (open + outer)[1..] == open[1..] + outer;
        TrackFrame(events[1..], open[1..], outer);
      case _ => TrackFrame(events[1..], open, outer);
    }
  }

  function Names(stack: seq<Tag>): (r: seq<Bytes>)
    ensures |r| == |stack| && forall k :: 0 <= k < |r| ==> r[k] == stack[k].name
  {
    seq(|stack|, k requires 0 <= k < |stack| => stack[k].name)
  }

  // Elements have been opened since the level was start, and the stack holds their tags.
  predicate Above(start: int, st: State) {
    0 <= st.level - start <= |st.stack|
  }

  // the names of the elements opened since then, and the tags below them
  function Own(start: int, st: State): seq<Bytes>
    requires Above(start, st)
  {
    Names(st.stack[..st.level - start])
  }

  function Below(start: int, st: State): seq<Tag>
    requires Above(start, st)
  {
    st.stack[st.level - start..]
  }

  // What holds between a state, the events that follow, and the state after them.
  predicate Nested(start: int, st: State, events: seq<Event>, st': State)
    requires Above(start, st)
  {
    && Above(start, st')
    && Track(events, Own(start, st)) == Some(Own(start, st'))
    && Below(start, st') == Below(start, st)
  }

  // What holds of a run of a processor that starts in st: the events follow the element
  // stack and never reach an element that was open before, even if the run fails; a run
  // that started below the document element leaves the processor alone, unless it stops
  // inside a CDATA section, and at the end of the bytes has closed what it opened; the
  // document element is only left for the epilog.
  predicate RunNests(start: int, st: State, r: Result, final: bool)
    requires Above(start, st)
  {
    && Track(r.events, Own(start, st)).Some?
    && (r.out.Ready? ==> Nested(start, st, r.events, r.st))
    && (r.out.Ready? ==>
          || r.st.processor == st.processor
          || (r.st.processor == CdataProcessor && !final)
          || (start == 0 && r.st.processor == EpilogProcessor))
    && (r.out.Ready? && final ==> r.st.level == start && (start == 0 ==> r.st.processor == EpilogProcessor))
    && (r.out.Ready? && 0 < st.level ==> 0 < r.st.level || r.st.processor == EpilogProcessor)
  }

  lemma RunAfter(start: int, st: State, events: seq<Event>, st': State, r: Result, final: bool)
    requires Above(start, st) && Nested(start, st, events, st')
    requires st'.processor == st.processor || (start == 0 && st'.processor == EpilogProcessor)
    requires 0 < st.level ==> 0 < st'.level
    requires RunNests(start, st', r, final)
    ensures RunNests(start, st, r.After(events), final)
  {
    TrackConcat(events, r.events, Own(start, st));
  }

  lemma StartTagNests(c: Config, enc: Encoding, start: int, open: set<Bytes>, st: State, raw: Bytes)
    requires Above(start, st)
    ensures var r := StartTag(c, enc, open, st, raw);
            !r.Stop? ==> Nested(start, st, r.events, r.st) && r.st.processor == st.processor
  {
    var r := StartTag(c, enc, open, st, raw);
    if !r.Stop? {
      assert Own(start, r.st) == [r.events[0].name] + Own(start, st);
      assert Below(start, r.st) == Below(start, st);
      assert r.events[1..] == [];
    }
  }

  lemma EmptyElementNests(c: Config, enc: Encoding, open: set<Bytes>, st: State, raw: Bytes, own: seq<Bytes>)
    ensures var r := EmptyElement(c, enc, open, st, raw);
            !r.Stop? ==> r.st == st && Track(r.events, own) == Some(own)
  {
    var r := EmptyElement(c, enc, open, st, raw);
    if !r.Stop? {
      var name := r.events[0].name;
      assert r.events[1..] == [EndElement(name)] && r.events[1..][1..] == [];
      assert ([name] + own)[1..] == own;
      assert Track([EndElement(name)], [name] + own) == Track([], own);
    }
  }

  lemma EndingTagNests(enc: Encoding, start: int, st: State, raw: Bytes)
    requires Above(start, st)
    ensures var r := EndingTag(enc, start, st, raw);
            !r.Stop? ==> Nested(start, st, r.events, r.st) && r.st.processor == st.processor
  {
    var r := EndingTag(enc, start, st, raw);
    if !r.Stop? {
      assert Own(start, st)[1..] == Own(start, r.st);
      assert Below(start, r.st) == Below(start, st);
      assert r.events[1..] == [];
    }
  }

  lemma StepNests(c: Config, enc: Encoding, start: int, open: set<Bytes>, st: State, tok: Token, raw: Bytes)
    requires Above(start, st)
    ensures var r := TokenStep(c, enc, start, open, st, tok, raw);
            !r.Stop? ==> Nested(start, st, r.events, r.st) && r.st.processor == st.processor
  {
    hide StartTag, EmptyElement, EndingTag;
    StartTagNests(c, enc, start, open, st, raw);
    EmptyElementNests(c, enc, open, st, raw, Own(start, st));
    EndingTagNests(enc, start, st, raw);
    var r := TokenStep(c, enc, start, open, st, tok, raw);
    if !r.Stop? && !tok.IsStartOrEmpty() && tok != EndTag {
      PlainTrack(r.events, Own(start, st));
    }
  }

  lemma StepLevel(c: Config, enc: Encoding, start: int, open: set<Bytes>, st: State, tok: Token, raw: Bytes)
    requires 0 <= start <= st.level
    ensures var r := TokenStep(c, enc, start, open, st, tok, raw);
            && (r.Document? ==> r.st.level == 0)
            && (r.GoOn? && (0 < st.level || tok.IsStartOrEmpty()) ==> 0 < r.st.level)
  {
  }

  // Events that are not about elements.
  predicate Plain(events: seq<Event>) {
    forall e <- events :: !e.StartElement? && !e.EndElement?
  }

  lemma PlainTrack(events: seq<Event>, open: seq<Bytes>)
    requires Plain(events)
    ensures Track(events, open) == Some(open)
  {
    if events != [] {
      assert events[0] in events;
      PlainTrack(events[1..], open);
    }
  }

  lemma CdataPlain(enc: Encoding, b: Bytes, final: bool)
    ensures Plain(Cdata(enc, b, final).events)
    ensures final && Cdata(enc, b, final).Inside? ==> Cdata(enc, b, final).out.Failed?
    decreases |b|
  {
    hide Encoding.ContentTok, Encoding.CdataSectionTok, Encoding.PrologTok;
    match enc.CdataSectionTok(b, 0)
    case Found(tok, next) => if tok != CdataSectClose { CdataPlain(enc, b[next..], final); }
    case _ =>
  }

  lemma EpilogPlain(c: Config, st: State, b: Bytes, final: bool)
    ensures var r := Epilog(c, st, b, final);
            Plain(r.events) && r.st == st.(processor := EpilogProcessor)
    decreases |b|
  {
    hide Encoding.ContentTok, Encoding.CdataSectionTok, Encoding.PrologTok;
    match c.external.PrologTok(b, 0)
    case Found(tok, next) =>
      if tok in {PrologS, Pi, Comment} {
        EpilogPlain(c, st.(processor := EpilogProcessor), b[next..], final);
      }
    case _ =>
  }

  // a run that stops at once
  lemma StopsNests(start: int, st: State, r: Result, final: bool)
    requires Above(start, st) && r.events == []
    requires r.out.Failed? || (r.st == st && !final)
    ensures RunNests(start, st, r, final)
  {
  }

  lemma EndNests(start: int, st: State, events: seq<Event>)
    requires 0 <= start && Above(start, st) && Plain(events)
    ensures RunNests(start, st, AtEnd(start, st, events), true)
  {
    PlainTrack(events, Own(start, st));
  }

  // Proper nesting, over a whole run of doContent with everything it expands.
  lemma {:induction false} ContentNests(c: Config, start: int, inEntity: bool, open: set<Bytes>, st: State, b: Bytes, final: bool)
    requires 0 <= start && Above(start, st)
    ensures RunNests(start, st, Content(c, start, inEntity, open, st, b, final), final)
    decreases c.entities.Keys - open, |b|, 1
  {
    hide Encoding.ContentTok, Cdata, Epilog, TokenStep, Resolve, RunNests, Nested, Own, Below;
    var enc := if inEntity then c.internal else c.external;
    var r := Content(c, start, inEntity, open, st, b, final);
    match enc.ContentTok(b, 0)
    case Nothing => if final { EndNests(start, st, []); } else { StopsNests(start, st, r, final); }
    case TrailingCr =>
      if final { EndNests(start, st, [CharacterData([XmlChars.LINE_FEED])]); } else { StopsNests(start, st, r, final); }
    case TrailingRsqb =>
      if final { EndNests(start, st, [CharacterData(b)]); } else { StopsNests(start, st, r, final); }
    case Found(tok, _) =>
      if tok == EntityRef {
        ReferenceNests(c, start, inEntity, open, st, b, final);
      } else if tok == CdataSectOpen {
        CdataNests(c, start, inEntity, open, st, b, final);
      } else {
        TokenNests(c, start, inEntity, open, st, b, final);
      }
    case _ => StopsNests(start, st, r, final);
  }

  // the case of a token that involves only its own bytes
  lemma {:induction false} TokenNests(c: Config, start: int, inEntity: bool, open: set<Bytes>, st: State, b: Bytes, final: bool)
    requires 0 <= start && Above(start, st)
    requires var t := (if inEntity then c.internal else c.external).ContentTok(b, 0);
             t.Found? && t.tok != EntityRef && t.tok != CdataSectOpen
    ensures RunNests(start, st, Content(c, start, inEntity, open, st, b, final), final)
    decreases c.entities.Keys - open, |b|, 0
  {
    hide Encoding.ContentTok, Cdata, Epilog, TokenStep, Resolve, RunNests, Nested, Own, Below;
    var enc := if inEntity then c.internal else c.external;
    var Found(tok, next) := enc.ContentTok(b, 0);
    StepNests(c, enc, start, open, st, tok, b[..next]);
    StepLevel(c, enc, start, open, st, tok, b[..next]);
    match TokenStep(c, enc, start, open, st, tok, b[..next])
    case GoOn(st', events) =>
      NestedAbove(start, st, events, st');
      ContentNests(c, start, inEntity, open, st', b[next..], final);
      RunAfter(start, st, events, st', Content(c, start, inEntity, open, st', b[next..], final), final);
    case Document(st', events) => DocumentNests(c, start, st, events, st', b[next..], final);
    case Stop(st', error) => StopsNests(start, st, Result(st', [], Failed(error)), final);
  }

  lemma NestedAbove(start: int, st: State, events: seq<Event>, st': State)
    requires Above(start, st) && Nested(start, st, events, st')
    ensures Above(start, st')
  {
  }

  lemma DocumentNests(c: Config, start: int, st: State, events: seq<Event>, st': State, b: Bytes, final: bool)
    requires 0 <= start && Above(start, st) && Nested(start, st, events, st') && st'.level == 0
    ensures RunNests(start, st, Epilog(c, st', b, final).After(events), final)
  {
    hide Encoding.PrologTok, Epilog;
    EpilogPlain(c, st', b, final);
    var tail := Epilog(c, st', b, final);
    PlainTrack(tail.events, Own(start, st'));
    TrackConcat(events, tail.events, Own(start, st));
  }

  // the case of a CDATA section
  lemma {:induction false} CdataNests(c: Config, start: int, inEntity: bool, open: set<Bytes>, st: State, b: Bytes, final: bool)
    requires 0 <= start && Above(start, st)
    requires var enc := if inEntity then c.internal else c.external;
             enc.ContentTok(b, 0).Found? && enc.ContentTok(b, 0).tok == CdataSectOpen
    ensures RunNests(start, st, Content(c, start, inEntity, open, st, b, final), final)
    decreases c.entities.Keys - open, |b|, 0
  {
    hide Encoding.ContentTok, Encoding.CdataSectionTok, Encoding.PrologTok;
    var enc := if inEntity then c.internal else c.external;
    var next := enc.ContentTok(b, 0).next;
    CdataPlain(enc, b[next..], final);
    var r := Cdata(enc, b[next..], final);
    var whole := Content(c, start, inEntity, open, st, b, final);
    var before := [StartCdata] + r.events;
    if r.Closed? {
      var tail := Content(c, start, inEntity, open, st, r.rest, final);
      assert whole == tail.After(before);
      ContentNests(c, start, inEntity, open, st, r.rest, final);
      PlainThenRun(start, st, before, tail, final);
    } else {
      assert whole == Result(st.(processor := CdataProcessor), before, r.out);
      LeftInsideNests(start, st, whole, final);
    }
  }

  lemma PlainThenRun(start: int, st: State, events: seq<Event>, r: Result, final: bool)
    requires Above(start, st) && Plain(events) && RunNests(start, st, r, final)
    ensures RunNests(start, st, r.After(events), final)
  {
    PlainTrack(events, Own(start, st));
    RunAfter(start, st, events, st, r, final);
  }

  lemma LeftInsideNests(start: int, st: State, r: Result, final: bool)
    requires Above(start, st) && Plain(r.events)
    requires r.st == st.(processor := CdataProcessor) && (final ==> r.out.Failed?)
    ensures RunNests(start, st, r, final)
  {
    PlainTrack(r.events, Own(start, st));
  }

  // the case of an entity reference
  lemma {:induction false} ReferenceNests(c: Config, start: int, inEntity: bool, open: set<Bytes>, st: State, b: Bytes, final: bool)
    requires 0 <= start && Above(start, st)
    requires var enc := if inEntity then c.internal else c.external;
             enc.ContentTok(b, 0).Found? && enc.ContentTok(b, 0).tok == EntityRef
    ensures RunNests(start, st, Content(c, start, inEntity, open, st, b, final), final)
    decreases c.entities.Keys - open, |b|, 0
  {
    hide Encoding.ContentTok, Cdata, Epilog, TokenStep, Resolve, RunNests, Nested, Own, Below;
    var enc := if inEntity then c.internal else c.external;
    var next := enc.ContentTok(b, 0).next;
    var name := ReferenceName(b[..next]);
    match Resolve(c, open, name)
    case Refuse(error) => StopsNests(start, st, Result(st, [], Failed(error)), final);
    case Expand(text) =>
      ResolveExpands(c, open, name);
      var inner := Content(c, st.level, true, open + {name}, st, text, true);
      ContentNests(c, st.level, true, open + {name}, st, text, true);
      ExpansionNests(start, st, inner, final);
      if inner.out.Ready? {
        NestedAbove(start, st, inner.events, inner.st);
        ContentNests(c, start, inEntity, open, inner.st, b[next..], final);
        RunAfter(start, st, inner.events, inner.st,
                 Content(c, start, inEntity, open, inner.st, b[next..], final), final);
      }
    case Characters(data) =>
      ContentNests(c, start, inEntity, open, st, b[next..], final);
      PlainThenRun(start, st, [CharacterData(data)], Content(c, start, inEntity, open, st, b[next..], final), final);
    case HandlerCall =>
      var call := [ExternalEntityRef(name, open + {name})];
      ContentNests(c, start, inEntity, open, st, b[next..], final);
      PlainThenRun(start, st, call, Content(c, start, inEntity, open, st, b[next..], final), final);
    case Skip => ContentNests(c, start, inEntity, open, st, b[next..], final);
  }

  lemma ResolveExpands(c: Config, open: set<Bytes>, name: Bytes)
    requires Resolve(c, open, name).Expand?
    ensures c.entities.Keys - (open + {name}) < c.entities.Keys - open
  {
    assert name in c.entities.Keys - open;
  }

  // What an expansion that nests relative to its own start does relative to an outer one.
  // At level 0 the two starts are the same.
  lemma ExpansionNests(start: int, st: State, inner: Result, final: bool)
    requires 0 <= start && Above(start, st) && RunNests(st.level, st, inner, true)
    ensures inner.out.Failed? ==> RunNests(start, st, inner, final)
    ensures inner.out.Ready? ==> Nested(start, st, inner.events, inner.st)
    ensures inner.out.Ready? && 0 < st.level ==> inner.st == st
    ensures inner.out.Ready? ==> inner.st.processor in {st.processor, EpilogProcessor}
  {
    if 0 < st.level {
      assert Own(st.level, st) == [];
      TrackFrame(inner.events, [], Own(start, st));
      assert [] + Own(start, st) == Own(start, st);
      if inner.out.Ready? {
        assert Own(st.level, inner.st) == [] && inner.st.stack == st.stack;
      }
    }
  }

  // An internal entity's text neither closes a tag that was open at its reference nor
  // leaves one open: if its expansion succeeds, the parser is in the state it was in, and
  // the events of the expansion are properly nested by themselves.
  lemma ExpansionRestoresState(c: Config, open: set<Bytes>, st: State, text: Bytes)
    requires 0 < st.level
    ensures var r := Content(c, st.level, true, open, st, text, true);
            r.out.Ready? ==> r.st == st && Track(r.events, []) == Some([])
  {
    hide Content;
    ContentNests(c, st.level, true, open, st, text, true);
    var r := Content(c, st.level, true, open, st, text, true);
    if r.out.Ready? {
      assert Own(st.level, st) == [] && Own(st.level, r.st) == [];
      assert Below(st.level, st) == st.stack && Below(st.level, r.st) == r.st.stack;
    }
  }

  // Before the document element, nothing is open.
  const AT_START := State(ContentProcessor, 0, [])

  // A document has properly nested elements all the way, and when it is accepted all of
  // them have been closed.
  lemma DocumentNestsFromStart(c: Config, open: set<Bytes>, st: State, b: Bytes, r: Result)
    requires st == AT_START && r == Content(c, 0, false, open, st, b, true)
    ensures Track(r.events, []).Some?
    ensures r.out.Ready? ==> Track(r.events, []) == Some([]) && r.st == st.(processor := EpilogProcessor)
  {
    hide Content;
    ContentNests(c, 0, false, open, st, b, true);
    assert Own(0, st) == [] && Below(0, st) == [];
    if r.out.Ready? {
      assert Own(0, r.st) == [] && r.st.stack == Below(0, r.st);
    }
  }
}

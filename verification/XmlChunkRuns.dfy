// Whole runs of XML_Parse over any way of cutting the input.
module XmlChunkRuns {
  import opened Collections
  import opened XmlTok
  import opened XmlContent
  import opened XmlNesting
  import opened XmlChunks

  function Concat(chunks: seq<Bytes>): Bytes {
    if chunks == [] then [] else chunks[0] + Concat(chunks[1..])
  }

  // A sequence of XML_Parse calls, the last of them with isFinal; left is what the parser
  // has kept of earlier calls.  XML_Parse returns at once when it is given nothing and more
  // is to come, and the caller stops at an error.
  function ParseAll(c: Config, open: set<Bytes>, st: State, left: Bytes, chunks: seq<Bytes>): Result
    requires chunks != []
    decreases |chunks|
  {
    if |chunks| == 1 then Process(c, open, st, left + chunks[0], true)
    else if chunks[0] == [] then ParseAll(c, open, st, left, chunks[1..])
    else
      var r := Process(c, open, st, left + chunks[0], false);
      if r.out.Failed? then r
      else ParseAll(c, open, r.st, r.out.rest, chunks[1..]).After(r.events)
  }

  // ----- documents -----

  // Chunk invariance: however the input of a document is cut, the run ends in the same
  // state with the same error or none, and an accepted document gives the same events once
  // adjacent character data are joined.
  lemma {:induction false} DocumentChunks(c: Config, open: set<Bytes>, st: State, left: Bytes, chunks: seq<Bytes>)
    requires chunks != [] && DocumentState(c, st, left + Concat(chunks))
    ensures Same(Process(c, open, st, left + Concat(chunks), true), ParseAll(c, open, st, left, chunks))
    decreases |chunks|
  {
    hide Process;
    var more := Concat(chunks[1..]);
    if |chunks| == 1 {
      assert more == [] && chunks[0] + [] == chunks[0];
    } else {
      var b := left + chunks[0];
      assert left + Concat(chunks) == b + more;
      if chunks[0] == [] {
        assert b == left;
        DocumentChunks(c, open, st, left, chunks[1..]);
      } else {
        var r := Process(c, open, st, b, false);
        ProcessExtends(c, open, st, b, more, true);
        if r.out.Ready? {
          ProcessKeeps(c, open, st, b, more);
          DocumentChunks(c, open, r.st, r.out.rest, chunks[1..]);
          SameAfter(Process(c, open, r.st, r.out.rest + more, true),
                    ParseAll(c, open, r.st, r.out.rest, chunks[1..]), r.events);
        }
      }
    }
  }

  // From the first tag on, an accepted document is accepted however it is cut, with
  // properly nested elements that have all been closed.
  lemma DocumentChunksFromStart(c: Config, open: set<Bytes>, chunks: seq<Bytes>)
    requires chunks != [] && BeginsElement(c.external, Concat(chunks))
    ensures var whole, cut := Process(c, open, AT_START, Concat(chunks), true), ParseAll(c, open, AT_START, [], chunks);
            && Same(whole, cut)
            && (whole.out.Ready? <==> cut.out.Ready?)
            && (cut.out.Ready? ==> Flat(cut.events) == Flat(whole.events) && Track(whole.events, []) == Some([]))
  {
    hide Content;
    assert [] + Concat(chunks) == Concat(chunks);
    DocumentChunks(c, open, AT_START, [], chunks);
    DocumentNestsFromStart(c, open, AT_START, Concat(chunks), Content(c, 0, false, open, AT_START, Concat(chunks), true));
  }

  // ----- external parsed entities -----

  const ENTITY_START := State(ExternalContentProcessor, 1, [])

  // the state of an external entity's parser between two calls
  predicate EntityState(st: State) {
    st.processor == ExternalContentProcessor && 0 < st.level && |st.stack| == st.level - 1
  }

  // These bytes end inside a CDATA section that begins in them (or has begun before them, if
  // inside), when they are split into tokens.
  predicate EndsInSection(enc: Encoding, b: Bytes, inside: bool)
    decreases |b|
  {
    if inside then
      match enc.CdataSectionTok(b, 0)
      case Found(tok, next) => EndsInSection(enc, b[next..], tok != CdataSectClose)
      case Invalid(_) => false
      case _ => true
    else
      match enc.ContentTok(b, 0)
      case Found(tok, next) => EndsInSection(enc, b[next..], tok == CdataSectOpen)
      case _ => false
  }

  // A piece that is not empty and not the last ends inside a CDATA section.
  predicate CutInCdata(enc: Encoding, left: Bytes, chunks: seq<Bytes>)
    decreases |chunks|
  {
    2 <= |chunks| && ((chunks[0] != [] && EndsInSection(enc, left + chunks[0], false))
                      || CutInCdata(enc, left + chunks[0], chunks[1..]))
  }

  lemma {:induction false} SectionEnds(enc: Encoding, b: Bytes)
    ensures var r := Cdata(enc, b, false);
            && (r.Closed? ==> EndsInSection(enc, b, true) == EndsInSection(enc, r.rest, false))
            && (r.Inside? && r.out.Ready? ==> EndsInSection(enc, b, true))
    decreases |b|
  {
    hide Encoding.ContentTok, Encoding.CdataSectionTok;
    match enc.CdataSectionTok(b, 0)
    case Found(tok, next) => if tok != CdataSectClose { SectionEnds(enc, b[next..]); }
    case _ =>
  }

  // A run that does not fail leaves the parser in a section exactly if the bytes end in one;
  // the text of an entity cannot leave one open.
  lemma {:induction false} EndsIs(c: Config, open: set<Bytes>, st: State, b: Bytes)
    requires st.processor == ExternalContentProcessor && 0 < st.level
    ensures var r := Process(c, open, st, b, false);
            r.out.Ready? ==> (LeftInCdata(st, r) <==> EndsInSection(c.external, b, false))
    decreases |b|
  {
    hide Encoding.ContentTok, Encoding.CdataSectionTok, Encoding.PrologTok, Cdata, Epilog, TokenStep;
    match c.external.ContentTok(b, 0)
    case Found(tok, n) =>
      if tok == EntityRef {
        var name := ReferenceName(b[..n]);
        match Resolve(c, open, name)
        case Refuse(_) =>
        case Expand(text) =>
          ExpansionRestoresState(c, open + {name}, st, text);
          EndsIs(c, open, st, b[n..]);
        case _ => EndsIs(c, open, st, b[n..]);
      } else if tok == CdataSectOpen {
        SectionEnds(c.external, b[n..]);
        var r := Cdata(c.external, b[n..], false);
        if r.Closed? { EndsIs(c, open, st, r.rest); }
      } else {
        StepEnds(c, open, st, tok, b[..n]);
        var r := TokenStep(c, c.external, 1, open, st, tok, b[..n]);
        if r.GoOn? { EndsIs(c, open, r.st, b[n..]); }
      }
    case _ =>
  }

  lemma StepEnds(c: Config, open: set<Bytes>, st: State, tok: Token, raw: Bytes)
    requires st.processor == ExternalContentProcessor && 0 < st.level
    ensures var r := TokenStep(c, c.external, 1, open, st, tok, raw);
            !r.Document? && (r.GoOn? ==> r.st.processor == ExternalContentProcessor && 0 < r.st.level)
  {
  }

  lemma EntityExtends(c: Config, open: set<Bytes>, st: State, b: Bytes, e: Bytes, final: bool)
    requires EntityState(st) && (Process(c, open, st, b, false).out.Ready? ==> !EndsInSection(c.external, b, false))
    ensures Same(Process(c, open, st, b + e, final), Resume(c, open, Process(c, open, st, b, false), e, final))
    ensures var r := Process(c, open, st, b, false); r.out.Ready? ==> EntityState(r.st)
  {
    hide Content, EndsInSection;
    EndsIs(c, open, st, b);
    ContentExtends(c, open, st, b, e, final);
    ContentNests(c, 1, false, open, st, b, false);
    var r := Process(c, open, st, b, false);
    if r.out.Ready? { assert Below(1, st) == [] && |Below(1, r.st)| == 0; }
  }

  // Once an external entity's parser has been left inside a CDATA section it believes it is
  // parsing a document, whose end it can never reach.
  predicate Astray(st: State) {
    st.processor in {ContentProcessor, CdataProcessor} && 0 < st.level && |st.stack| == st.level - 1
  }

  lemma {:induction false} ContentAstray(c: Config, open: set<Bytes>, st: State, b: Bytes, final: bool)
    requires Astray(st) && st.processor == ContentProcessor
    ensures var r := Content(c, 0, false, open, st, b, final);
            r.out.Ready? ==> Astray(r.st) && !final
    decreases |b|
  {
    hide Encoding.ContentTok, Encoding.CdataSectionTok, Encoding.PrologTok, Cdata, Epilog, TokenStep;
    match c.external.ContentTok(b, 0)
    case Found(tok, n) =>
      if tok == EntityRef {
        var name := ReferenceName(b[..n]);
        match Resolve(c, open, name)
        case Refuse(_) =>
        case Expand(text) =>
          ExpansionRestoresState(c, open + {name}, st, text);
          ContentAstray(c, open, st, b[n..], final);
        case _ => ContentAstray(c, open, st, b[n..], final);
      } else if tok == CdataSectOpen {
        CdataPlain(c.external, b[n..], final);
        var r := Cdata(c.external, b[n..], final);
        if r.Closed? { ContentAstray(c, open, st, r.rest, final); }
      } else {
        StepAstray(c, open, st, tok, b[..n]);
        var r := TokenStep(c, c.external, 0, open, st, tok, b[..n]);
        if r.GoOn? { ContentAstray(c, open, r.st, b[n..], final); }
      }
    case _ =>
  }

  lemma StepAstray(c: Config, open: set<Bytes>, st: State, tok: Token, raw: Bytes)
    requires Astray(st) && st.processor == ContentProcessor
    ensures var r := TokenStep(c, c.external, 0, open, st, tok, raw);
            !r.Document? && (r.GoOn? ==> Astray(r.st) && r.st.processor == ContentProcessor)
  {
  }

  lemma ProcessAstray(c: Config, open: set<Bytes>, st: State, b: Bytes, final: bool)
    requires Astray(st)
    ensures var r := Process(c, open, st, b, final);
            r.out.Ready? ==> Astray(r.st) && !final
  {
    hide Content;
    if st.processor == ContentProcessor {
      ContentAstray(c, open, st, b, final);
    } else {
      CdataPlain(c.external, b, final);
      var r := Cdata(c.external, b, final);
      if r.Closed? { ContentAstray(c, open, st.(processor := ContentProcessor), r.rest, final); }
    }
  }

  lemma {:induction false} ParseAllAstray(c: Config, open: set<Bytes>, st: State, left: Bytes, chunks: seq<Bytes>)
    requires Astray(st) && chunks != []
    ensures ParseAll(c, open, st, left, chunks).out.Failed?
    decreases |chunks|
  {
    hide Process;
    if |chunks| == 1 {
      ProcessAstray(c, open, st, left + chunks[0], true);
    } else if chunks[0] == [] {
      ParseAllAstray(c, open, st, left, chunks[1..]);
    } else {
      ProcessAstray(c, open, st, left + chunks[0], false);
      var r := Process(c, open, st, left + chunks[0], false);
      if r.out.Ready? { ParseAllAstray(c, open, r.st, r.out.rest, chunks[1..]); }
    }
  }

  lemma LeftAstray(c: Config, open: set<Bytes>, st: State, b: Bytes)
    requires EntityState(st) && Process(c, open, st, b, false).out.Ready? && EndsInSection(c.external, b, false)
    ensures Astray(Process(c, open, st, b, false).st)
  {
    hide Content, EndsInSection;
    EndsIs(c, open, st, b);
    ContentNests(c, 1, false, open, st, b, false);
    var r := Process(c, open, st, b, false);
    assert Below(1, st) == [] && |Below(1, r.st)| == 0;
  }

  lemma SameFront(r: Result, e1: seq<Event>, e2: seq<Event>)
    requires Flat(e1) == Flat(e2)
    ensures Same(r.After(e1), r.After(e2))
  {
    FlatConcat(e1, r.events);
    FlatConcat(e2, r.events);
  }

  // What the pieces give that follow on these bytes, r being the run on those.
  lemma {:induction false} EntityFrom(c: Config, open: set<Bytes>, st: State, before: Bytes, r: Result, chunks: seq<Bytes>)
    requires EntityState(st) && chunks != [] && r == Process(c, open, st, before, false) && r.out.Ready?
    requires !EndsInSection(c.external, before, false)
    ensures var tail := ParseAll(c, open, r.st, r.out.rest, chunks);
            if CutInCdata(c.external, before, chunks) then tail.out.Failed?
            else Same(Process(c, open, st, before + Concat(chunks), true), tail.After(r.events))
    decreases |chunks|
  {
    hide Process, EndsInSection, Flat;
    var x, more := chunks[0], Concat(chunks[1..]);
    assert before + Concat(chunks) == before + x + more;
    if |chunks| == 1 {
      assert more == [] && before + x + more == before + x;
      EntityExtends(c, open, st, before, x, true);
    } else if x == [] {
      assert before + x == before;
      EntityFrom(c, open, st, before, r, chunks[1..]);
    } else {
      var r1, r2 := Process(c, open, st, before + x, false), Process(c, open, r.st, r.out.rest + x, false);
      EntityExtends(c, open, st, before, x, false);
      assert r1.st == r2.st && r1.out == r2.out;
      if r1.out.Failed? {
        EntityExtends(c, open, st, before + x, more, true);
        SameTrans(Process(c, open, st, before + x + more, true), r1, r2.After(r.events));
      } else if EndsInSection(c.external, before + x, false) {
        LeftAstray(c, open, st, before + x);
        ParseAllAstray(c, open, r1.st, r1.out.rest, chunks[1..]);
      } else {
        EntityFrom(c, open, st, before + x, r1, chunks[1..]);
        var tail := ParseAll(c, open, r1.st, r1.out.rest, chunks[1..]);
        AfterAfter(tail, r.events, r2.events);
        SameFront(tail, r1.events, r.events + r2.events);
        if !CutInCdata(c.external, before, chunks) {
          SameTrans(Process(c, open, st, before + x + more, true), tail.After(r1.events), tail.After(r.events + r2.events));
        }
      }
    }
  }

  // Exactly when chunking does not matter to an external entity: if no cut falls inside a
  // CDATA section the run is the run on all the bytes at once; if one does, the run fails.
  lemma {:induction false} EntityChunks(c: Config, open: set<Bytes>, st: State, left: Bytes, chunks: seq<Bytes>)
    requires EntityState(st) && chunks != []
    ensures CutInCdata(c.external, left, chunks) ==> ParseAll(c, open, st, left, chunks).out.Failed?
    ensures !CutInCdata(c.external, left, chunks) ==>
              Same(Process(c, open, st, left + Concat(chunks), true), ParseAll(c, open, st, left, chunks))
    decreases |chunks|
  {
    hide Process, EndsInSection, Flat;
    var b, more := left + chunks[0], Concat(chunks[1..]);
    assert left + Concat(chunks) == b + more;
    if |chunks| == 1 {
      assert more == [] && b + more == b;
    } else if chunks[0] == [] {
      assert b == left;
      EntityChunks(c, open, st, left, chunks[1..]);
    } else {
      var r := Process(c, open, st, b, false);
      if r.out.Failed? {
        EntityExtends(c, open, st, b, more, true);
      } else if EndsInSection(c.external, b, false) {
        LeftAstray(c, open, st, b);
        ParseAllAstray(c, open, r.st, r.out.rest, chunks[1..]);
      } else {
        EntityFrom(c, open, st, b, r, chunks[1..]);
      }
    }
  }

  // So an external entity that is accepted in one call is accepted in pieces if and only if
  // no non-empty piece but the last ends inside a CDATA section.
  lemma EntityAcceptedInPieces(c: Config, open: set<Bytes>, chunks: seq<Bytes>)
    requires chunks != [] && Process(c, open, ENTITY_START, Concat(chunks), true).out.Ready?
    ensures ParseAll(c, open, ENTITY_START, [], chunks).out.Ready? <==> !CutInCdata(c.external, [], chunks)
  {
    hide Process;
    assert [] + Concat(chunks) == Concat(chunks);
    EntityChunks(c, open, ENTITY_START, [], chunks);
  }
}

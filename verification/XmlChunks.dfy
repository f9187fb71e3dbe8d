// Chunking does not matter: a parser that is fed some bytes in pieces ends like a parser
// that is fed them at once, and reports the same events once adjacent character data are
// joined.  The one exception is an external entity parser that is left inside a CDATA
// section between two calls, because cdataSectionProcessor goes on with the document's
// content processor; the exact condition is proved below.
module XmlChunks {
  import opened XmlTok
  import opened XmlContent
  import opened XmlChars
  import opened XmlStability
  import opened XmlNesting

  // ----- events up to joining character data -----

  // Character data one byte at a time.
  function Bytewise(data: Bytes): (r: seq<Event>)
    ensures |r| == |data|
  {
    seq(|data|, k requires 0 <= k < |data| => CharacterData([data[k]]))
  }

  function Flat(events: seq<Event>): seq<Event> {
    if events == [] then []
    else (if events[0].CharacterData? then Bytewise(events[0].data) else [events[0]]) + Flat(events[1..])
  }

  lemma FlatConcat(a: seq<Event>, b: seq<Event>)
    ensures Flat(a + b) == Flat(a) + Flat(b)
    decreases |a|
  {
    if a == [] {
      assert a + b == b;
    } else {
      assert (a + b)[1..] == a[1..] + b;
      FlatConcat(a[1..], b);
    }
  }

  lemma FlatJoin(x: Bytes, y: Bytes)
    ensures Flat([CharacterData(x + y)]) == Flat([CharacterData(x)]) + Flat([CharacterData(y)])
  {
    assert Bytewise(x + y) == Bytewise(x) + Bytewise(y);
    assert forall d: Bytes :: [CharacterData(d)][1..] == [];
    assert forall d: Bytes :: Flat([CharacterData(d)]) == Bytewise(d) + Flat([]);
  }

  // The same state and outcome, and the same events but for joining; a run that fails may
  // have dropped the character data that led up to the error.
  predicate Same(f: Result, g: Result) {
    && f.st == g.st && f.out == g.out
    && (if f.out.Ready? then Flat(f.events) == Flat(g.events) else Flat(f.events) <= Flat(g.events))
  }

  lemma SameAfter(f: Result, g: Result, events: seq<Event>)
    requires Same(f, g)
    ensures Same(f.After(events), g.After(events))
  {
    FlatConcat(events, f.events);
    FlatConcat(events, g.events);
  }

  lemma SameTrans(f: Result, g: Result, h: Result)
    requires Same(f, g) && Same(g, h)
    ensures Same(f, h)
  {
  }

  lemma AfterAfter(r: Result, e1: seq<Event>, e2: seq<Event>)
    ensures r.After(e2).After(e1) == r.After(e1 + e2)
    ensures r.After([]) == r
  {
    assert e1 + (e2 + r.events) == (e1 + e2) + r.events;
    assert [] + r.events == r.events;
  }

  // A run of x has been reported and f is what follows; g is what follows when the run is
  // reported joined to the y behind it.
  lemma SameJoined(x: Bytes, y: Bytes, tail: Result)
    ensures Same(tail.After([CharacterData(x + y)]), tail.After([CharacterData(y)]).After([CharacterData(x)]))
  {
    FlatJoin(x, y);
    FlatConcat([CharacterData(x + y)], tail.events);
    FlatConcat([CharacterData(y)], tail.events);
    FlatConcat([CharacterData(x)], [CharacterData(y)] + tail.events);
  }

  // ----- one call with some bytes, and the calls that follow it -----

  // What a run that stopped without an error comes to when e follows what it left.
  function Resume(c: Config, open: set<Bytes>, r: Result, e: Bytes, final: bool): Result {
    if r.out.Failed? then r else Process(c, open, r.st, r.out.rest + e, final).After(r.events)
  }

  lemma ResumeAfter(c: Config, open: set<Bytes>, r: Result, events: seq<Event>, e: Bytes, final: bool)
    ensures Resume(c, open, r.After(events), e, final) == Resume(c, open, r, e, final).After(events)
  {
    if r.out.Ready? { AfterAfter(Process(c, open, r.st, r.out.rest + e, final), events, r.events); }
  }

  // ----- the epilog -----

  lemma {:induction false} EpilogExtends(c: Config, open: set<Bytes>, st: State, b: Bytes, e: Bytes, final: bool)
    ensures Same(Epilog(c, st, b + e, final), Resume(c, open, Epilog(c, st, b, false), e, final))
    decreases |b|, 1
  {
    hide Encoding.ContentTok, Encoding.CdataSectionTok, Content, Flat;
    var st' := st.(processor := EpilogProcessor);
    match c.external.PrologTok(b, 0)
    case Nothing =>
      assert b + e == e && [] + e == e;
      EpilogIgnoresProcessor(c, st, e, final);
      AfterAfter(Epilog(c, st', e, final), [], []);
    case TrailingCr =>
      EpilogAfterCr(c, st, b, e, final);
      assert [] + e == e;
      AfterAfter(Epilog(c, st', e, final), [], []);
    case Partial => EpilogWaits(c, open, st, b, e, final);
    case PartialChar => EpilogWaits(c, open, st, b, e, final);
    case TrailingRsqb => assert false;
    case Invalid(_) => PrologTokStable(c.external, b, b + e, 0);
    case Found(tok, next) => EpilogTokenExtends(c, open, st, b, e, final);
  }

  lemma EpilogIgnoresProcessor(c: Config, st: State, b: Bytes, final: bool)
    ensures Epilog(c, st, b, final) == Epilog(c, st.(processor := EpilogProcessor), b, final)
  {
    var st' := st.(processor := EpilogProcessor);
    assert st'.(processor := EpilogProcessor) == st';
  }

  lemma EpilogWaits(c: Config, open: set<Bytes>, st: State, b: Bytes, e: Bytes, final: bool)
    requires c.external.PrologTok(b, 0) in {Partial, PartialChar}
    ensures Same(Epilog(c, st, b + e, final), Resume(c, open, Epilog(c, st, b, false), e, final))
  {
    hide Encoding.ContentTok, Encoding.CdataSectionTok, Encoding.PrologTok, Flat;
    var st' := st.(processor := EpilogProcessor);
    assert Epilog(c, st, b, false) == Result(st', [], Ready(b));
    EpilogIgnoresProcessor(c, st, b + e, final);
    AfterAfter(Epilog(c, st', b + e, final), [], []);
  }

  lemma {:induction false} EpilogTokenExtends(c: Config, open: set<Bytes>, st: State, b: Bytes, e: Bytes, final: bool)
    requires c.external.PrologTok(b, 0).Found?
    ensures Same(Epilog(c, st, b + e, final), Resume(c, open, Epilog(c, st, b, false), e, final))
    decreases |b|, 0
  {
    hide Encoding.ContentTok, Encoding.CdataSectionTok, Encoding.PrologTok, Flat;
    var st' := st.(processor := EpilogProcessor);
    var Found(tok, next) := c.external.PrologTok(b, 0);
    PrologTokStable(c.external, b, b + e, 0);
    assert (b + e)[..next] == b[..next] && (b + e)[next..] == b[next..] + e;
    if tok in {PrologS, Pi, Comment} {
      EpilogExtends(c, open, st', b[next..], e, final);
      var tail := Epilog(c, st', b[next..], false);
      if tok == PrologS {
        WhiteRunJoins(c.external, b, b + e, next);
        EpilogSkipsWhite(c, st, b + e, next, final);
      } else {
        var events := if tok == Pi then [ProcessingInstruction(b[..next])] else [CommentText(b[..next])];
        SameAfter(Epilog(c, st', b[next..] + e, final), Resume(c, open, tail, e, final), events);
        ResumeAfter(c, open, tail, events, e, final);
      }
    }
  }

  // White space can be dropped before a scan that would have swallowed it.
  lemma EpilogSkipsWhite(c: Config, st: State, b: Bytes, n: nat, final: bool)
    requires 0 < n <= |b|
    requires Joins(PrologS, n, c.external.PrologTok(b[n..], 0), c.external.PrologTok(b, 0))
    requires c.external.PrologTok(b, 0).Found?
    ensures Epilog(c, st, b, final) == Epilog(c, st.(processor := EpilogProcessor), b[n..], final)
  {
    hide Encoding.ContentTok, Encoding.CdataSectionTok, Encoding.PrologTok, Content, Flat;
    var st' := st.(processor := EpilogProcessor);
    var behind := c.external.PrologTok(b[n..], 0);
    if c.external.PrologTok(b, 0) == Found(PrologS, n) {
      EpilogWhiteStep(c, st, b, n, final);
    } else {
      EpilogWhiteStep(c, st, b, n + behind.next, final);
      EpilogWhiteStep(c, st', b[n..], behind.next, final);
      assert b[n + behind.next..] == b[n..][behind.next..];
      assert st'.(processor := EpilogProcessor) == st';
    }
  }

  lemma EpilogWhiteStep(c: Config, st: State, b: Bytes, n: nat, final: bool)
    requires n <= |b| && c.external.PrologTok(b, 0) == Found(PrologS, n)
    ensures Epilog(c, st, b, final) == Epilog(c, st.(processor := EpilogProcessor), b[n..], final)
  {
    hide Encoding.ContentTok, Encoding.CdataSectionTok, Encoding.PrologTok, Flat;
  }

  // A CR at the end of the bytes is taken for a line end, even if LF is what follows.
  lemma EpilogAfterCr(c: Config, st: State, b: Bytes, e: Bytes, final: bool)
    requires c.external.PrologTok(b, 0) == TrailingCr
    ensures Epilog(c, st, b + e, final) == Epilog(c, st.(processor := EpilogProcessor), e, final)
  {
    var enc := c.external;
    TrailingCrIsLast(enc, b);
    if e == [] {
      assert b + e == b;
    } else {
      assert (b + e)[1..] == e && (b + e)[0] == b[0];
      WhiteRunShift(enc, b + e, 1, 0);
      WhiteRunResume(enc, e, 0);
      EpilogSkipsWhite(c, st, b + e, 1, final);
    }
  }

  lemma TrailingCrIsLast(enc: Encoding, b: Bytes)
    requires enc.PrologTok(b, 0) == TrailingCr
    ensures |b| == 1 && enc.typeOf(b[0]) == Cr
  {
  }

  // ----- CDATA sections -----

  predicate SameCdata(f: CdataResult, g: CdataResult) {
    match f
    case Closed(events, rest) => g.Closed? && rest == g.rest && Flat(events) == Flat(g.events)
    case Inside(events, out) =>
      && g.Inside? && out == g.out
      && (if out.Ready? then Flat(events) == Flat(g.events) else Flat(events) <= Flat(g.events))
  }

  function CdataResume(enc: Encoding, r: CdataResult, e: Bytes, final: bool): CdataResult {
    match r
    case Closed(events, rest) => Closed(events, rest + e)
    case Inside(events, Failed(_)) => r
    case Inside(events, Ready(rest)) => Cdata(enc, rest + e, final).After(events)
  }

  lemma SameCdataAfter(f: CdataResult, g: CdataResult, events: seq<Event>)
    requires SameCdata(f, g)
    ensures SameCdata(f.After(events), g.After(events))
  {
    FlatConcat(events, f.events);
    FlatConcat(events, g.events);
  }

  lemma CdataResumeAfter(enc: Encoding, r: CdataResult, events: seq<Event>, e: Bytes, final: bool)
    ensures CdataResume(enc, r.After(events), e, final) == CdataResume(enc, r, e, final).After(events)
  {
    if r.Inside? && r.out.Ready? {
      var g := Cdata(enc, r.out.rest + e, final);
      assert events + (r.events + g.events) == (events + r.events) + g.events;
    }
  }

  lemma CdataAfterNothing(f: CdataResult)
    ensures f.After([]) == f
  {
    assert [] + f.events == f.events;
  }

  // one run or line end, and the scan behind it
  lemma CdataDataStep(enc: Encoding, b: Bytes, tok: Token, n: nat, final: bool)
    requires n <= |b| && enc.CdataSectionTok(b, 0) == Found(tok, n) && tok != CdataSectClose
    ensures Cdata(enc, b, final)
            == Cdata(enc, b[n..], final).After([CharacterData(if tok == DataNewline then [LINE_FEED] else b[..n])])
  {
    hide Encoding.ContentTok, Encoding.CdataSectionTok, Encoding.PrologTok, Flat, Bytewise;
  }

  lemma {:induction false} CdataExtends(enc: Encoding, b: Bytes, e: Bytes, final: bool)
    ensures SameCdata(Cdata(enc, b + e, final), CdataResume(enc, Cdata(enc, b, false), e, final))
    decreases |b|
  {
    hide Encoding.ContentTok, Encoding.CdataSectionTok, Encoding.PrologTok, Flat, Bytewise;
    match enc.CdataSectionTok(b, 0)
    case Nothing => CdataAfterNothing(Cdata(enc, b + e, final));
    case Partial => CdataAfterNothing(Cdata(enc, b + e, final));
    case PartialChar => CdataAfterNothing(Cdata(enc, b + e, final));
    case Invalid(_) => CdataTokStable(enc, b, b + e, 0);
    case Found(tok, n) =>
      CdataTokStable(enc, b, b + e, 0);
      assert (b + e)[..n] == b[..n] && (b + e)[n..] == b[n..] + e;
      if tok != CdataSectClose {
        var data := if tok == DataNewline then [LINE_FEED] else b[..n];
        var before := [CharacterData(data)];
        var tail := Cdata(enc, b[n..], false);
        CdataDataStep(enc, b, tok, n, false);
        CdataExtends(enc, b[n..], e, final);
        SameCdataAfter(Cdata(enc, b[n..] + e, final), CdataResume(enc, tail, e, final), before);
        CdataResumeAfter(enc, tail, before, e, final);
        if tok == DataChars { CdataRunJoins(enc, b, b + e, n); }
        if enc.CdataSectionTok(b + e, 0) == Found(tok, n) {
          CdataDataStep(enc, b + e, tok, n, final);
        } else {
          CdataJoined(enc, b + e, n, enc.CdataSectionTok((b + e)[n..], 0).next, final);
        }
      }
  }

  lemma CdataJoined(enc: Encoding, b: Bytes, n: nat, m: nat, final: bool)
    requires n + m <= |b|
    requires enc.CdataSectionTok(b[n..], 0) == Found(DataChars, m)
    requires enc.CdataSectionTok(b, 0) == Found(DataChars, n + m)
    ensures SameCdata(Cdata(enc, b, final), Cdata(enc, b[n..], final).After([CharacterData(b[..n])]))
  {
    hide Encoding.ContentTok, Encoding.CdataSectionTok, Encoding.PrologTok, Flat, Bytewise;
    var tail := CdataBehind(enc, b, n, m, final);
    SameCdataJoined(b[..n], b[n..][..m], tail);
  }

  lemma CdataBehind(enc: Encoding, b: Bytes, n: nat, m: nat, final: bool) returns (tail: CdataResult)
    requires n + m <= |b|
    requires enc.CdataSectionTok(b[n..], 0) == Found(DataChars, m)
    requires enc.CdataSectionTok(b, 0) == Found(DataChars, n + m)
    ensures Cdata(enc, b, final) == tail.After([CharacterData(b[..n] + b[n..][..m])])
    ensures Cdata(enc, b[n..], final) == tail.After([CharacterData(b[n..][..m])])
  {
    hide Encoding.ContentTok, Encoding.CdataSectionTok, Encoding.PrologTok, Flat, Bytewise;
    tail := Cdata(enc, b[n + m..], final);
    assert b[..n + m] == b[..n] + b[n..][..m] && b[n + m..] == b[n..][m..];
    CdataDataStep(enc, b, DataChars, n + m, final);
    CdataDataStep(enc, b[n..], DataChars, m, final);
  }

  lemma SameCdataJoined(x: Bytes, y: Bytes, tail: CdataResult)
    ensures SameCdata(tail.After([CharacterData(x + y)]), tail.After([CharacterData(y)]).After([CharacterData(x)]))
  {
    FlatJoin(x, y);
    FlatConcat([CharacterData(x + y)], tail.events);
    FlatConcat([CharacterData(y)], tail.events);
    FlatConcat([CharacterData(x)], [CharacterData(y)] + tail.events);
  }

  // ----- content -----

  function StartOf(p: Processor): int { if p == ExternalContentProcessor then 1 else 0 }

  predicate ParsesContent(st: State) {
    st.processor in {ContentProcessor, ExternalContentProcessor} && Above(StartOf(st.processor), st)
  }

  // doContent on behalf of the processor of st
  function TopContent(c: Config, open: set<Bytes>, st: State, b: Bytes, final: bool): Result {
    Content(c, StartOf(st.processor), false, open, st, b, final)
  }

  predicate BeginsElement(enc: Encoding, b: Bytes) {
    |b| >= 2 && enc.typeOf(b[0]) == Lt && Encoding.StartsInstance(enc.typeOf(b[1]))
  }

  // The document element is open, or what comes next opens it: prologProcessor hands over
  // to contentProcessor at a "<" that a name start character follows.
  predicate InDocument(c: Config, st: State, b: Bytes) {
    0 < st.level || BeginsElement(c.external, b)
  }

  // The content of an external entity was left in the middle of a CDATA section.
  predicate LeftInCdata(before: State, r: Result) {
    before.processor == ExternalContentProcessor && r.out.Ready? && r.st.processor == CdataProcessor
  }

  lemma ContentWaits(c: Config, open: set<Bytes>, st: State, b: Bytes, e: Bytes, final: bool)
    requires ParsesContent(st)
    requires c.external.ContentTok(b, 0) in {Nothing, TrailingCr, TrailingRsqb, Partial, PartialChar}
    ensures Same(TopContent(c, open, st, b + e, final), Resume(c, open, TopContent(c, open, st, b, false), e, final))
  {
    hide Encoding.ContentTok, Encoding.CdataSectionTok, Encoding.PrologTok, Cdata, Epilog, TokenStep, Resolve, Flat;
    assert TopContent(c, open, st, b, false) == Result(st, [], Ready(b));
    AfterAfter(TopContent(c, open, st, b + e, final), [], []);
  }

  // A run that goes on after some events, on both sides.
  lemma ContentGoesOn(c: Config, open: set<Bytes>, st: State, b: Bytes, e: Bytes, final: bool, events: seq<Event>)
    requires Same(TopContent(c, open, st, b + e, final), Resume(c, open, TopContent(c, open, st, b, false), e, final))
    ensures Same(TopContent(c, open, st, b + e, final).After(events),
                 Resume(c, open, TopContent(c, open, st, b, false).After(events), e, final))
  {
    hide Content, Process;
    SameAfter(TopContent(c, open, st, b + e, final), Resume(c, open, TopContent(c, open, st, b, false), e, final), events);
    ResumeAfter(c, open, TopContent(c, open, st, b, false), events, e, final);
  }

  lemma {:induction false} ContentExtends(c: Config, open: set<Bytes>, st: State, b: Bytes, e: Bytes, final: bool)
    requires ParsesContent(st) && InDocument(c, st, b + e)
    requires !LeftInCdata(st, TopContent(c, open, st, b, false))
    ensures Same(TopContent(c, open, st, b + e, final), Resume(c, open, TopContent(c, open, st, b, false), e, final))
    decreases |b|, 1
  {
    hide Encoding.ContentTok, Encoding.CdataSectionTok, Encoding.PrologTok, Cdata, Epilog, TokenStep, Resolve;
    match c.external.ContentTok(b, 0)
    case Invalid(_) => ContentTokStable(c.external, b, b + e, 0);
    case Found(tok, n) =>
      if tok == DataChars {
        DataExtends(c, open, st, b, e, final, n);
      } else if tok == EntityRef {
        ReferenceExtends(c, open, st, b, e, final, n);
      } else if tok == CdataSectOpen {
        SectionExtends(c, open, st, b, e, final, n);
      } else {
        TokenExtends(c, open, st, b, e, final, tok, n);
      }
    case _ => ContentWaits(c, open, st, b, e, final);
  }

  lemma {:induction false} DataExtends(c: Config, open: set<Bytes>, st: State, b: Bytes, e: Bytes, final: bool, n: nat)
    requires ParsesContent(st) && InDocument(c, st, b + e)
    requires c.external.ContentTok(b, 0) == Found(DataChars, n)
    requires !LeftInCdata(st, TopContent(c, open, st, b, false))
    ensures Same(TopContent(c, open, st, b + e, final), Resume(c, open, TopContent(c, open, st, b, false), e, final))
    decreases |b|, 0
  {
    hide Encoding.ContentTok, Encoding.CdataSectionTok, Encoding.PrologTok, Cdata, Epilog, TokenStep, Resolve;
    if st.level <= 0 { TagFirst(c, st, b, e); }
    var before := [CharacterData(b[..n])];
    assert (b + e)[..n] == b[..n] && (b + e)[n..] == b[n..] + e;
    DataStep(c, open, st, b, n, false);
    ContentExtends(c, open, st, b[n..], e, final);
    ContentGoesOn(c, open, st, b[n..], e, final, before);
    ContentRunJoins(c.external, b, b + e, n);
    DataJoins(c, open, st, b + e, n, final);
  }

  lemma DataStep(c: Config, open: set<Bytes>, st: State, b: Bytes, n: nat, final: bool)
    requires n <= |b| && c.external.ContentTok(b, 0) == Found(DataChars, n)
    ensures TopContent(c, open, st, b, final)
            == TopContent(c, open, st, b[n..], final).After([CharacterData(b[..n])])
  {
    hide Encoding.ContentTok, Encoding.CdataSectionTok, Encoding.PrologTok, Cdata, Epilog, Resolve, Flat;
  }

  // a run and what is behind it, against the scan of both at once
  lemma DataJoins(c: Config, open: set<Bytes>, st: State, b: Bytes, n: nat, final: bool)
    requires n <= |b| && Joins(DataChars, n, c.external.ContentTok(b[n..], 0), c.external.ContentTok(b, 0))
    ensures Same(TopContent(c, open, st, b, final), TopContent(c, open, st, b[n..], final).After([CharacterData(b[..n])]))
  {
    hide Encoding.ContentTok, Encoding.CdataSectionTok, Encoding.PrologTok, Cdata, Epilog, TokenStep, Resolve;
    var behind := c.external.ContentTok(b[n..], 0);
    if c.external.ContentTok(b, 0) == Found(DataChars, n) {
      DataStep(c, open, st, b, n, final);
    } else if behind.Found? {
      var tail := DataBehind(c, open, st, b, n, behind.next, final);
      SameJoined(b[..n], b[n..][..behind.next], tail);
    }
  }

  lemma DataBehind(c: Config, open: set<Bytes>, st: State, b: Bytes, n: nat, m: nat, final: bool) returns (tail: Result)
    requires n + m <= |b|
    requires c.external.ContentTok(b[n..], 0) == Found(DataChars, m)
    requires c.external.ContentTok(b, 0) == Found(DataChars, n + m)
    ensures TopContent(c, open, st, b, final) == tail.After([CharacterData(b[..n] + b[n..][..m])])
    ensures TopContent(c, open, st, b[n..], final) == tail.After([CharacterData(b[n..][..m])])
  {
    hide Encoding.ContentTok, Encoding.CdataSectionTok, Encoding.PrologTok, Cdata, Epilog, TokenStep, Resolve, Flat;
    tail := TopContent(c, open, st, b[n + m..], final);
    assert b[..n + m] == b[..n] + b[n..][..m] && b[n + m..] == b[n..][m..];
    DataStep(c, open, st, b, n + m, final);
    DataStep(c, open, st, b[n..], m, final);
  }

  lemma TagFirst(c: Config, st: State, b: Bytes, e: Bytes)
    requires InDocument(c, st, b + e) && st.level <= 0 && c.external.ContentTok(b, 0).Found?
    ensures c.external.ContentTok(b, 0).tok.IsStartOrEmpty()
  {
    var enc := c.external;
    assert |b| > 0 && b[0] == (b + e)[0];
    assert enc.ContentTok(b, 0) == enc.ScanLt(b, 1);
    assert |b| > 1 && b[1] == (b + e)[1];
    var s := enc.CharStep(NmstrtChars, b, 1);
    assert s.Advance?;
  }

  lemma {:induction false} TokenExtends(c: Config, open: set<Bytes>, st: State, b: Bytes, e: Bytes, final: bool, tok: Token, n: nat)
    requires ParsesContent(st) && InDocument(c, st, b + e)
    requires c.external.ContentTok(b, 0) == Found(tok, n) && tok !in {DataChars, EntityRef, CdataSectOpen}
    requires !LeftInCdata(st, TopContent(c, open, st, b, false))
    ensures Same(TopContent(c, open, st, b + e, final), Resume(c, open, TopContent(c, open, st, b, false), e, final))
    decreases |b|, 0
  {
    hide Encoding.ContentTok, Encoding.CdataSectionTok, Encoding.PrologTok, Cdata, Epilog, TokenStep, Resolve;
    ContentTokStable(c.external, b, b + e, 0);
    assert (b + e)[..n] == b[..n] && (b + e)[n..] == b[n..] + e;
    match TokenStep(c, c.external, StartOf(st.processor), open, st, tok, b[..n])
    case Stop(st', error) =>
      TokenStops(c, open, st, b, false, tok, n, st', error);
      TokenStops(c, open, st, b + e, final, tok, n, st', error);
    case GoOn(st', events) =>
      if st.level <= 0 { TagFirst(c, st, b, e); }
      StepParses(c, open, st, tok, b[..n]);
      TokenGoesOn(c, open, st, b, false, tok, n, st', events);
      TokenGoesOn(c, open, st, b + e, final, tok, n, st', events);
      ContentExtends(c, open, st', b[n..], e, final);
      ContentGoesOn(c, open, st', b[n..], e, final, events);
    case Document(st', events) => DocumentExtends(c, open, st, b, e, final, tok, n, st', events);
  }

  lemma StepParses(c: Config, open: set<Bytes>, st: State, tok: Token, raw: Bytes)
    requires ParsesContent(st) && (0 < st.level || tok.IsStartOrEmpty())
    ensures var r := TokenStep(c, c.external, StartOf(st.processor), open, st, tok, raw);
            r.GoOn? ==> ParsesContent(r.st) && r.st.processor == st.processor && 0 < r.st.level
  {
    StepNests(c, c.external, StartOf(st.processor), open, st, tok, raw);
    StepLevel(c, c.external, StartOf(st.processor), open, st, tok, raw);
  }

  lemma TokenStops(c: Config, open: set<Bytes>, st: State, b: Bytes, final: bool, tok: Token, n: nat, st': State, error: Error)
    requires n <= |b| && c.external.ContentTok(b, 0) == Found(tok, n) && tok !in {DataChars, EntityRef, CdataSectOpen}
    requires TokenStep(c, c.external, StartOf(st.processor), open, st, tok, b[..n]) == Stop(st', error)
    ensures TopContent(c, open, st, b, final) == Result(st', [], Failed(error))
  {
    hide Encoding.ContentTok, Encoding.CdataSectionTok, Encoding.PrologTok, Cdata, Epilog, TokenStep, Resolve, Flat;
  }

  lemma TokenGoesOn(c: Config, open: set<Bytes>, st: State, b: Bytes, final: bool, tok: Token, n: nat, st': State, events: seq<Event>)
    requires n <= |b| && c.external.ContentTok(b, 0) == Found(tok, n) && tok !in {DataChars, EntityRef, CdataSectOpen}
    requires TokenStep(c, c.external, StartOf(st.processor), open, st, tok, b[..n]) == GoOn(st', events)
    requires st'.processor == st.processor
    ensures TopContent(c, open, st, b, final) == TopContent(c, open, st', b[n..], final).After(events)
  {
    hide Encoding.ContentTok, Encoding.CdataSectionTok, Encoding.PrologTok, Cdata, Epilog, TokenStep, Resolve, Flat;
  }

  lemma DocumentExtends(c: Config, open: set<Bytes>, st: State, b: Bytes, e: Bytes, final: bool, tok: Token, n: nat, st': State, events: seq<Event>)
    requires n <= |b| && c.external.ContentTok(b, 0) == Found(tok, n) && tok !in {DataChars, EntityRef, CdataSectOpen}
    requires c.external.ContentTok(b + e, 0) == Found(tok, n)
    requires (b + e)[..n] == b[..n] && (b + e)[n..] == b[n..] + e
    requires TokenStep(c, c.external, StartOf(st.processor), open, st, tok, b[..n]) == Document(st', events)
    ensures Same(TopContent(c, open, st, b + e, final), Resume(c, open, TopContent(c, open, st, b, false), e, final))
  {
    hide Encoding.ContentTok, Encoding.CdataSectionTok, Encoding.PrologTok, Cdata, Epilog, TokenStep, Resolve, Flat;
    var r := Epilog(c, st', b[n..], false);
    EpilogExtends(c, open, st', b[n..], e, final);
    SameAfter(Epilog(c, st', b[n..] + e, final), Resume(c, open, r, e, final), events);
    ResumeAfter(c, open, r, events, e, final);
  }

  lemma {:induction false} ReferenceExtends(c: Config, open: set<Bytes>, st: State, b: Bytes, e: Bytes, final: bool, n: nat)
    requires ParsesContent(st) && InDocument(c, st, b + e)
    requires c.external.ContentTok(b, 0) == Found(EntityRef, n)
    requires !LeftInCdata(st, TopContent(c, open, st, b, false))
    ensures Same(TopContent(c, open, st, b + e, final), Resume(c, open, TopContent(c, open, st, b, false), e, final))
    decreases |b|, 0
  {
    hide Encoding.ContentTok, Encoding.CdataSectionTok, Encoding.PrologTok, Cdata, Epilog, TokenStep;
    if st.level <= 0 { TagFirst(c, st, b, e); }
    ContentTokStable(c.external, b, b + e, 0);
    assert (b + e)[..n] == b[..n] && (b + e)[n..] == b[n..] + e;
    var name := ReferenceName(b[..n]);
    match Resolve(c, open, name)
    case Refuse(_) =>
    case Expand(text) =>
      ExpansionRestoresState(c, open + {name}, st, text);
      var inner := Content(c, st.level, true, open + {name}, st, text, true);
      if inner.out.Ready? {
        ContentExtends(c, open, st, b[n..], e, final);
        ContentGoesOn(c, open, st, b[n..], e, final, inner.events);
      }
    case Characters(data) =>
      ContentExtends(c, open, st, b[n..], e, final);
      ContentGoesOn(c, open, st, b[n..], e, final, [CharacterData(data)]);
    case HandlerCall =>
      ContentExtends(c, open, st, b[n..], e, final);
      ContentGoesOn(c, open, st, b[n..], e, final, [ExternalEntityRef(name, open + {name})]);
    case Skip => ContentExtends(c, open, st, b[n..], e, final);
  }

  lemma {:induction false} SectionExtends(c: Config, open: set<Bytes>, st: State, b: Bytes, e: Bytes, final: bool, n: nat)
    requires ParsesContent(st) && InDocument(c, st, b + e)
    requires c.external.ContentTok(b, 0) == Found(CdataSectOpen, n)
    requires !LeftInCdata(st, TopContent(c, open, st, b, false))
    ensures Same(TopContent(c, open, st, b + e, final), Resume(c, open, TopContent(c, open, st, b, false), e, final))
    decreases |b|, 0
  {
    hide Encoding.ContentTok, Encoding.CdataSectionTok, Encoding.PrologTok, Cdata, Epilog, TokenStep, Resolve, Flat;
    if st.level <= 0 { TagFirst(c, st, b, e); }
    ContentTokStable(c.external, b, b + e, 0);
    assert (b + e)[n..] == b[n..] + e;
    CdataExtends(c.external, b[n..], e, final);
    var r := Cdata(c.external, b[n..], false);
    var whole := Cdata(c.external, b[n..] + e, final);
    match r
    case Closed(events, rest) =>
      ContentExtends(c, open, st, rest, e, final);
      ContentGoesOn(c, open, st, rest, e, final, [StartCdata] + events);
      SectionSame(TopContent(c, open, st, rest + e, final), whole.events, events);
    case Inside(events, out) => SectionLeft(c, open, st, b, e, final, n);
  }

  // the same run after a section whose events are the same but for joining
  lemma SectionSame(tail: Result, f: seq<Event>, g: seq<Event>)
    requires Flat(f) == Flat(g)
    ensures Same(tail.After([StartCdata] + f), tail.After([StartCdata] + g))
  {
    FlatConcat([StartCdata], f);
    FlatConcat([StartCdata], g);
    FlatConcat([StartCdata] + f, tail.events);
    FlatConcat([StartCdata] + g, tail.events);
  }

  // the bytes end inside the section
  lemma SectionLeft(c: Config, open: set<Bytes>, st: State, b: Bytes, e: Bytes, final: bool, n: nat)
    requires ParsesContent(st) && c.external.ContentTok(b, 0) == Found(CdataSectOpen, n) && n <= |b|
    requires c.external.ContentTok(b + e, 0) == Found(CdataSectOpen, n) && (b + e)[n..] == b[n..] + e
    requires Cdata(c.external, b[n..], false).Inside?
    requires !LeftInCdata(st, TopContent(c, open, st, b, false))
    requires SameCdata(Cdata(c.external, b[n..] + e, final),
                       CdataResume(c.external, Cdata(c.external, b[n..], false), e, final))
    ensures Same(TopContent(c, open, st, b + e, final), Resume(c, open, TopContent(c, open, st, b, false), e, final))
  {
    hide Encoding.ContentTok, Encoding.CdataSectionTok, Encoding.PrologTok, Cdata, Epilog, TokenStep, Resolve, Flat;
    var r := Cdata(c.external, b[n..], false);
    var whole := Cdata(c.external, b[n..] + e, final);
    var left := Result(st.(processor := CdataProcessor), [StartCdata] + r.events, r.out);
    assert TopContent(c, open, st, b, false) == left;
    assert TopContent(c, open, st, b + e, final) == AfterSection(c, open, st, whole, final).After([StartCdata]);
    if r.out.Ready? {
      var more := Cdata(c.external, r.out.rest + e, final);
      assert Process(c, open, left.st, r.out.rest + e, final) == AfterSection(c, open, st, more, final);
      AfterSectionAfter(c, open, st, more, r.events, final);
      AfterSectionSame(c, open, st, whole, more.After(r.events), final);
      SameAfter(AfterSection(c, open, st, whole, final), AfterSection(c, open, st, more.After(r.events), final), [StartCdata]);
      AfterAfter(AfterSection(c, open, st, more, final), [StartCdata], r.events);
    } else {
      FlatConcat([StartCdata], whole.events);
      FlatConcat([StartCdata], r.events);
    }
  }

  // what follows a section, or is left inside it
  function AfterSection(c: Config, open: set<Bytes>, st: State, r: CdataResult, final: bool): Result {
    match r
    case Closed(events, rest) => TopContent(c, open, st, rest, final).After(events)
    case Inside(events, out) => Result(st.(processor := CdataProcessor), events, out)
  }

  lemma AfterSectionAfter(c: Config, open: set<Bytes>, st: State, r: CdataResult, events: seq<Event>, final: bool)
    ensures AfterSection(c, open, st, r.After(events), final) == AfterSection(c, open, st, r, final).After(events)
  {
    hide Encoding.ContentTok, Encoding.CdataSectionTok, Encoding.PrologTok, Content, Cdata, Flat;
    if r.Closed? { AfterAfter(TopContent(c, open, st, r.rest, final), events, r.events); }
  }

  lemma AfterSectionSame(c: Config, open: set<Bytes>, st: State, f: CdataResult, g: CdataResult, final: bool)
    requires SameCdata(f, g)
    ensures Same(AfterSection(c, open, st, f, final), AfterSection(c, open, st, g, final))
  {
    hide Encoding.ContentTok, Encoding.CdataSectionTok, Encoding.PrologTok, Content, Cdata, Flat;
    if f.Closed? {
      var tail := TopContent(c, open, st, f.rest, final);
      FlatConcat(f.events, tail.events);
      FlatConcat(g.events, tail.events);
    }
  }

  // ----- any processor of a document -----

  // What holds of a document's parser between two calls, b being all that is to come.
  predicate DocumentState(c: Config, st: State, b: Bytes) {
    match st.processor
    case ContentProcessor => Above(0, st) && InDocument(c, st, b)
    case CdataProcessor => Above(0, st) && 0 < st.level
    case EpilogProcessor => true
    case ExternalContentProcessor => false
  }

  lemma SectionThenContent(c: Config, open: set<Bytes>, st: State, b: Bytes, final: bool)
    requires st.processor == CdataProcessor
    ensures CdataThenContent(c, open, st, b, final)
            == AfterSection(c, open, st.(processor := ContentProcessor), Cdata(c.external, b, final), final)
  {
    hide Encoding.ContentTok, Encoding.CdataSectionTok, Encoding.PrologTok, Content;
    assert st.(processor := ContentProcessor).(processor := CdataProcessor) == st;
  }

  lemma CdataProcessorExtends(c: Config, open: set<Bytes>, st: State, b: Bytes, e: Bytes, final: bool)
    requires st.processor == CdataProcessor && Above(0, st) && 0 < st.level
    ensures Same(CdataThenContent(c, open, st, b + e, final), Resume(c, open, CdataThenContent(c, open, st, b, false), e, final))
  {
    hide Encoding.ContentTok, Encoding.CdataSectionTok, Encoding.PrologTok, Content;
    var st' := st.(processor := ContentProcessor);
    var r := Cdata(c.external, b, false);
    var whole := Cdata(c.external, b + e, final);
    CdataExtends(c.external, b, e, final);
    SectionThenContent(c, open, st, b + e, final);
    SectionThenContent(c, open, st, b, false);
    if r.Closed? {
      ContentExtends(c, open, st', r.rest, e, final);
      ContentGoesOn(c, open, st', r.rest, e, final, r.events);
      AfterSectionSame(c, open, st', whole, Closed(r.events, r.rest + e), final);
    } else if r.out.Ready? {
      var more := Cdata(c.external, r.out.rest + e, final);
      SectionThenContent(c, open, st, r.out.rest + e, final);
      AfterSectionSame(c, open, st', whole, more.After(r.events), final);
      AfterSectionAfter(c, open, st', more, r.events, final);
    }
  }

  // One call with some bytes, and what a later call makes of the rest, amount to one call
  // with all of them.
  lemma ProcessExtends(c: Config, open: set<Bytes>, st: State, b: Bytes, e: Bytes, final: bool)
    requires DocumentState(c, st, b + e)
    ensures Same(Process(c, open, st, b + e, final), Resume(c, open, Process(c, open, st, b, false), e, final))
  {
    hide Encoding.ContentTok, Encoding.CdataSectionTok, Encoding.PrologTok, Content;
    match st.processor
    case ContentProcessor => ContentExtends(c, open, st, b, e, final);
    case CdataProcessor => CdataProcessorExtends(c, open, st, b, e, final);
    case EpilogProcessor => EpilogExtends(c, open, st, b, e, final);
  }

  lemma FirstTagOpens(c: Config, open: set<Bytes>, st: State, b: Bytes, e: Bytes)
    requires st.processor == ContentProcessor && Above(0, st) && st.level == 0 && InDocument(c, st, b + e)
    ensures var r := TopContent(c, open, st, b, false);
            r.out.Ready? ==> || 0 < r.st.level || r.st.processor == EpilogProcessor
                             || (r.st == st && r.out.rest == b)
  {
    hide Encoding.CdataSectionTok, Encoding.PrologTok, Cdata, Epilog, TokenStep, Resolve;
    var t := c.external.ContentTok(b, 0);
    if t.Found? {
      TagFirst(c, st, b, e);
      StepNests(c, c.external, 0, open, st, t.tok, b[..t.next]);
      StepLevel(c, c.external, 0, open, st, t.tok, b[..t.next]);
      match TokenStep(c, c.external, 0, open, st, t.tok, b[..t.next])
      case GoOn(st', events) =>
        TokenGoesOn(c, open, st, b, false, t.tok, t.next, st', events);
        ContentNests(c, 0, false, open, st', b[t.next..], false);
      case Document(st', events) => EpilogPlain(c, st', b[t.next..], false);
      case Stop(_, _) =>
    }
  }

  lemma ProcessKeeps(c: Config, open: set<Bytes>, st: State, b: Bytes, e: Bytes)
    requires DocumentState(c, st, b + e)
    ensures var r := Process(c, open, st, b, false);
            r.out.Ready? ==> DocumentState(c, r.st, r.out.rest + e)
  {
    hide Encoding.ContentTok, Encoding.CdataSectionTok, Encoding.PrologTok, Content;
    match st.processor
    case ContentProcessor =>
      ContentNests(c, 0, false, open, st, b, false);
      if st.level == 0 { FirstTagOpens(c, open, st, b, e); }
    case CdataProcessor =>
      var st' := st.(processor := ContentProcessor);
      var r := Cdata(c.external, b, false);
      if r.Closed? {
        ContentNests(c, 0, false, open, st', r.rest, false);
      }
    case EpilogProcessor => EpilogPlain(c, st, b, false);
  }
}

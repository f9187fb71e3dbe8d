// Element type declarations: the states element0 to element7 and declClose of xmlrole.c,
// with their level counter, and the per-level connector that prologProcessor keeps in
// groupConnector, against the grammar of sections 3.2, 3.2.1 and 3.2.2 of XML 1.0.
module XmlElementDecl {
  import opened Collections

  // The tokens of XmlPrologTok that these states tell apart.  A name carries whether it is
  // one of the two keywords, a pound name whether it is #PCDATA.
  datatype Keyword = EmptyWord | AnyWord | NoKeyword
  datatype DeclToken =
    | White
    | NameToken(word: Keyword)
    | PrefixedNameToken
    | NameQuestionToken | NameAsteriskToken | NamePlusToken
    | PoundNameToken(pcdata: bool)
    | Open
    | Close | CloseAsterisk | CloseQuestion | ClosePlus
    | OrToken | CommaToken
    | End
    | OtherToken

  datatype Handler =
    | Element0 | Element1 | Element2 | Element3 | Element4 | Element5 | Element6 | Element7
    | DeclClose | InternalSubset | ErrorState

  datatype Role =
    | RoleError | RoleNone | ElementName | ContentAny | ContentEmpty | ContentPcdata
    | GroupOpen | GroupClose | GroupSequence | GroupChoice | ContentElement

  // the connector of a group: none seen yet, "," or "|"
  datatype Connector = NoConnector | Sequence | Choice

  // ----- the automaton -----

  // The state of a declaration: the handler, and the connectors of the open groups,
  // outermost first.
  datatype State = State(handler: Handler, groups: seq<Connector>)

  const BAD := State(ErrorState, [])
  const START := State(Element0, [])

  predicate IsName(t: DeclToken) { t.NameToken? || t.PrefixedNameToken? }
  predicate IsElement(t: DeclToken) {
    IsName(t) || t.NameQuestionToken? || t.NameAsteriskToken? || t.NamePlusToken?
  }
  predicate IsClose(t: DeclToken) { t.Close? || t.CloseAsterisk? || t.CloseQuestion? || t.ClosePlus? }

  function ConnectorOf(t: DeclToken): Connector {
    if t.CommaToken? then Sequence else if t.OrToken? then Choice else NoConnector
  }

  // One token, other than white space, which changes nothing before the declaration's end.
  function Step(s: State, t: DeclToken): State {
    match s.handler
    case Element0 => if IsName(t) then State(Element1, []) else BAD
    case Element1 =>
      if t == NameToken(EmptyWord) || t == NameToken(AnyWord) then State(DeclClose, [])
      else if t == Open then State(Element2, [NoConnector])
      else BAD
    case Element2 =>
      if t == PoundNameToken(true) then State(Element3, [])
      else if t == Open then State(Element6, s.groups + [NoConnector])
      else if IsElement(t) then State(Element7, s.groups)
      else BAD
    case Element3 =>
      if t == Close || t == CloseAsterisk then State(DeclClose, [])
      else if t == OrToken then State(Element4, [])
      else BAD
    case Element4 => if IsName(t) then State(Element5, []) else BAD
    case Element5 =>
      if t == CloseAsterisk then State(DeclClose, [])
      else if t == OrToken then State(Element4, [])
      else BAD
    case Element6 =>
      if t == Open then State(Element6, s.groups + [NoConnector])
      else if IsElement(t) then State(Element7, s.groups)
      else BAD
    case Element7 =>
      if s.groups == [] then BAD
      else
        var n := |s.groups| - 1;
        if IsClose(t) then
          if n == 0 then State(DeclClose, []) else State(Element7, s.groups[..n])
        else if ConnectorOf(t) != NoConnector && s.groups[n] in {NoConnector, ConnectorOf(t)} then
          State(Element6, s.groups[n := ConnectorOf(t)])
        else BAD
    case DeclClose => if t == End then State(InternalSubset, []) else BAD
    case InternalSubset => BAD
    case ErrorState => BAD
  }

  function StepOrSkip(s: State, t: DeclToken): State {
    if t == White && s.handler != InternalSubset then s else Step(s, t)
  }

  function Run(s: State, ts: seq<DeclToken>): State
    decreases |ts|
  {
    if ts == [] then s else Run(StepOrSkip(s, ts[0]), ts[1..])
  }

  // The tokens are exactly one declaration.
  predicate Accepts(s: State, ts: seq<DeclToken>) { Run(s, ts).handler == InternalSubset }

  // ----- the grammar -----

  // cp, choice and seq of section 3.2.1: a particle keeps the token of its name, or its
  // closing parenthesis with the occurrence sign
  datatype Particle =
    | Element(name: DeclToken)
    | Group(connector: Connector, first: Particle, rest: Particles, close: DeclToken)
  datatype Particles = NoMore | More(head: Particle, tail: Particles)

  // contentspec of section 3.2
  datatype Spec =
    | Empty
    | Any
    | Mixed(names: seq<DeclToken>, close: DeclToken)
    | Children(group: Particle)

  datatype Declaration = Declaration(element: DeclToken, spec: Spec)

  // A choice has at least two particles, a sequence at least one.
  predicate WellFormed(p: Particle)
    decreases p
  {
    match p
    case Element(name) => IsElement(name)
    case Group(connector, first, rest, close) =>
      && IsClose(close) && connector != NoConnector && (connector == Choice ==> rest != NoMore)
      && WellFormed(first) && AllWellFormed(rest)
  }

  predicate AllWellFormed(ps: Particles)
    decreases ps
  { ps.More? ==> WellFormed(ps.head) && AllWellFormed(ps.tail) }

  predicate WellFormedSpec(s: Spec) {
    match s
    case Empty => true
    case Any => true
    case Mixed(names, close) =>
      && (forall i :: 0 <= i < |names| ==> IsName(names[i]))
      && (close == CloseAsterisk || (close == Close && names == []))
    case Children(group) => group.Group? && WellFormed(group)
  }

  predicate WellFormedDeclaration(d: Declaration) { IsName(d.element) && WellFormedSpec(d.spec) }

  function Separator(c: Connector): DeclToken { if c == Sequence then CommaToken else OrToken }

  function Yield(p: Particle): seq<DeclToken>
    decreases p
  {
    match p
    case Element(name) => [name]
    case Group(connector, first, rest, close) => [Open] + Yield(first) + YieldRest(connector, rest) + [close]
  }

  // further particles of a group, each behind its separator
  function YieldRest(connector: Connector, ps: Particles): seq<DeclToken>
    decreases ps
  {
    if ps.NoMore? then [] else [Separator(connector)] + Yield(ps.head) + YieldRest(connector, ps.tail)
  }

  function YieldNames(names: seq<DeclToken>): seq<DeclToken> {
    if names == [] then [] else [OrToken, names[0]] + YieldNames(names[1..])
  }

  function YieldSpec(s: Spec): seq<DeclToken> {
    match s
    case Empty => [NameToken(EmptyWord)]
    case Any => [NameToken(AnyWord)]
    case Mixed(names, close) => [Open, PoundNameToken(true)] + YieldNames(names) + [close]
    case Children(group) => Yield(group)
  }

  function YieldDeclaration(d: Declaration): seq<DeclToken> { [d.element] + YieldSpec(d.spec) + [End] }

  // ----- white space -----

  function Strip(ts: seq<DeclToken>): seq<DeclToken> {
    if ts == [] then [] else (if ts[0] == White then [] else [ts[0]]) + Strip(ts[1..])
  }

  predicate NoWhite(ts: seq<DeclToken>) { White !in ts }

  lemma StripNoWhite(ts: seq<DeclToken>)
    ensures NoWhite(Strip(ts))
  {
  }

  lemma RunConcat(s: State, a: seq<DeclToken>, b: seq<DeclToken>)
    ensures Run(s, a + b) == Run(Run(s, a), b)
    decreases |a|
  {
    if a == [] {
      assert a + b == b;
    } else {
      assert (a + b)[1..] == a[1..] + b;
    }
  }

  lemma RunNone(s: State)
    ensures Run(s, []) == s
  {
  }

  // a state that can no longer reach the end of the declaration
  lemma BadStays(s: State, ts: seq<DeclToken>)
    requires s.handler == ErrorState || (s.handler == InternalSubset && ts != [])
    ensures !Accepts(s, ts)
    decreases |ts|
  {
    if ts != [] { BadStays(StepOrSkip(s, ts[0]), ts[1..]); }
  }

  // White space is allowed anywhere but behind the end.
  lemma {:induction false} WhiteIsSkipped(s: State, ts: seq<DeclToken>)
    requires s.handler != InternalSubset
    ensures Accepts(s, ts) <==> Accepts(s, Strip(ts)) && ts != [] && ts[|ts| - 1] != White
    decreases |ts|
  {
    if ts != [] {
      var rest := ts[1..];
      if ts[0] == White {
        assert [] + Strip(rest) == Strip(rest);
        WhiteIsSkipped(s, rest);
        if rest == [] { assert Run(s, ts) == s; }
      } else {
        var s' := Step(s, ts[0]);
        assert ([ts[0]] + Strip(rest))[1..] == Strip(rest);
        if s'.handler == InternalSubset {
          if rest != [] {
            BadStays(s', rest);
            if Strip(rest) != [] { BadStays(s', Strip(rest)); } else { AllWhite(rest); }
          }
        } else {
          WhiteIsSkipped(s', rest);
        }
      }
    }
  }

  lemma AllWhite(ts: seq<DeclToken>)
    requires Strip(ts) == [] && ts != []
    ensures ts[|ts| - 1] == White
  {
    if |ts| > 1 { AllWhite(ts[1..]); }
  }

  // ----- every declaration is accepted -----

  // the state behind the group that is open innermost
  function Behind(inner: seq<Connector>): State
    requires inner != []
  {
    if |inner| == 1 then State(DeclClose, []) else State(Element7, inner[..|inner| - 1])
  }

  // A particle takes the automaton from a place where one is due to the place behind it.
  lemma {:induction false} ParticleRuns(p: Particle, groups: seq<Connector>)
    requires WellFormed(p) && groups != []
    ensures Run(State(Element6, groups), Yield(p)) == State(Element7, groups)
    decreases p, 1
  {
    var s := State(Element6, groups);
    match p
    case Element(name) => assert [name][1..] == [] && Run(s, [name]) == Run(Step(s, name), []);
    case Group(_, _, _, _) =>
      var inner := groups + [NoConnector];
      GroupRuns(p, inner);
      assert Yield(p)[0] == Open && inner[..|groups|] == groups;
  }

  lemma YieldGroup(p: Particle)
    requires p.Group?
    ensures Yield(p) != [] && Yield(p)[0] == Open
    ensures Yield(p)[1..] == Yield(p.first) + (YieldRest(p.connector, p.rest) + [p.close])
  {
    assert Yield(p) == [Open] + (Yield(p.first) + (YieldRest(p.connector, p.rest) + [p.close]));
  }

  // what is behind the opening parenthesis of a group
  lemma {:induction false} GroupRuns(p: Particle, inner: seq<Connector>)
    requires WellFormed(p) && p.Group?
    requires inner != [] && inner[|inner| - 1] == NoConnector
    ensures Yield(p) != [] && Yield(p)[0] == Open
    ensures Run(State(Element6, inner), Yield(p)[1..]) == Behind(inner)
    decreases p, 0
  {
    hide Run, Yield, YieldRest;
    YieldGroup(p);
    ParticleRuns(p.first, inner);
    RestRuns(p.connector, p.rest, p.close, inner);
    RunConcat(State(Element6, inner), Yield(p.first), YieldRest(p.connector, p.rest) + [p.close]);
  }

  lemma {:induction false} RestRuns(connector: Connector, rest: Particles, close: DeclToken, inner: seq<Connector>)
    requires inner != [] && inner[|inner| - 1] in {NoConnector, connector}
    requires IsClose(close) && connector != NoConnector && AllWellFormed(rest)
    ensures Run(State(Element7, inner), YieldRest(connector, rest) + [close])
            == Behind(inner)
    decreases rest
  {
    hide Run;
    RunNone(Behind(inner));
    var n := |inner| - 1;
    if rest.NoMore? {
      assert [] + [close] == [close] + [];
      RunOne(State(Element7, inner), close, []);
    } else {
      var inner' := inner[n := connector];
      var tail := YieldRest(connector, rest.tail) + [close];
      var ts := YieldRest(connector, rest) + [close];
      assert ts == [Separator(connector)] + (Yield(rest.head) + tail);
      RunOne(State(Element7, inner), Separator(connector), Yield(rest.head) + tail);
      ParticleRuns(rest.head, inner');
      RunConcat(State(Element6, inner'), Yield(rest.head), tail);
      RestRuns(connector, rest.tail, close, inner');
      assert inner'[..n] == inner[..n];
    }
  }

  lemma RunOne(s: State, t: DeclToken, ts: seq<DeclToken>)
    requires t != White
    ensures Run(s, [t] + ts) == Run(Step(s, t), ts)
  {
    assert ([t] + ts)[1..] == ts;
  }

  // element2 treats what may start a particle as element6 does
  lemma SecondLikeSixth(groups: seq<Connector>, t: DeclToken, ts: seq<DeclToken>)
    requires t != White && !t.PoundNameToken?
    ensures Run(State(Element2, groups), [t] + ts) == Run(State(Element6, groups), [t] + ts)
  {
    RunOne(State(Element2, groups), t, ts);
    RunOne(State(Element6, groups), t, ts);
  }

  lemma NamesRun(names: seq<DeclToken>, close: DeclToken, h: Handler)
    requires forall i :: 0 <= i < |names| ==> IsName(names[i])
    requires close == CloseAsterisk && h in {Element3, Element5}
    ensures Run(State(h, []), YieldNames(names) + [close]) == State(DeclClose, [])
    decreases |names|
  {
    if names == [] {
      RunOne(State(h, []), close, []);
      assert [] + [close] == [close] + [];
    } else {
      var tail := YieldNames(names[1..]) + [close];
      assert YieldNames(names) + [close] == [OrToken] + ([names[0]] + tail);
      RunOne(State(h, []), OrToken, [names[0]] + tail);
      RunOne(State(Element4, []), names[0], tail);
      NamesRun(names[1..], close, Element5);
    }
  }

  lemma SpecRuns(spec: Spec)
    requires WellFormedSpec(spec)
    ensures Run(State(Element1, []), YieldSpec(spec)) == State(DeclClose, [])
  {
    var s := State(Element1, []);
    match spec
    case Empty => RunOne(s, NameToken(EmptyWord), []);
    case Any => RunOne(s, NameToken(AnyWord), []);
    case Mixed(names, close) => MixedRuns(names, close);
    case Children(group) => ChildrenRun(group);
  }

  lemma MixedRuns(names: seq<DeclToken>, close: DeclToken)
    requires WellFormedSpec(Mixed(names, close))
    ensures Run(State(Element1, []), YieldSpec(Mixed(names, close))) == State(DeclClose, [])
  {
    hide Run;
    var tail := YieldNames(names) + [close];
    assert YieldSpec(Mixed(names, close)) == [Open] + ([PoundNameToken(true)] + tail);
    RunOne(State(Element1, []), Open, [PoundNameToken(true)] + tail);
    RunOne(State(Element2, [NoConnector]), PoundNameToken(true), tail);
    if close == Close {
      assert tail == [Close] + [];
      RunOne(State(Element3, []), Close, []);
      RunNone(State(DeclClose, []));
    } else {
      NamesRun(names, close, Element3);
    }
  }

  lemma ChildrenRun(group: Particle)
    requires group.Group? && WellFormed(group)
    ensures Run(State(Element1, []), Yield(group)) == State(DeclClose, [])
  {
    hide Run, Yield;
    GroupRuns(group, [NoConnector]);
    FirstTokens(group);
    var body := Yield(group)[1..];
    assert Yield(group) == [Open] + body && body == [body[0]] + body[1..];
    RunOne(State(Element1, []), Open, body);
    SecondLikeSixth([NoConnector], body[0], body[1..]);
  }

  // a group opens, and what follows starts a particle
  lemma FirstTokens(p: Particle)
    requires p.Group? && WellFormed(p)
    ensures |Yield(p)| > 1 && Yield(p)[0] == Open && (Yield(p)[1] == Open || IsElement(Yield(p)[1]))
  {
    if p.first.Group? { FirstTokens(p.first); }
  }

  // Every declaration of the grammar is accepted.
  lemma DeclarationRuns(d: Declaration)
    requires WellFormedDeclaration(d)
    ensures Accepts(START, YieldDeclaration(d))
  {
    assert YieldDeclaration(d) == [d.element] + (YieldSpec(d.spec) + [End]);
    RunOne(START, d.element, YieldSpec(d.spec) + [End]);
    SpecRuns(d.spec);
    RunConcat(State(Element1, []), YieldSpec(d.spec), [End]);
    RunOne(State(DeclClose, []), End, []);
  }

  // ----- whatever is accepted is a declaration -----

  lemma FirstIs(s: State, ts: seq<DeclToken>)
    requires NoWhite(ts) && Accepts(s, ts) && s.handler != InternalSubset
    ensures ts != [] && ts[0] != White && NoWhite(ts[1..])
    ensures Accepts(Step(s, ts[0]), ts[1..]) && Step(s, ts[0]).handler != ErrorState
  {
    assert ts != [] && ts[0] in ts;
    if Step(s, ts[0]).handler == ErrorState { BadStays(Step(s, ts[0]), ts[1..]); }
  }

  lemma {:induction false} ParseParticle(ts: seq<DeclToken>, groups: seq<Connector>) returns (p: Particle, rest: seq<DeclToken>)
    requires NoWhite(ts) && groups != [] && Accepts(State(Element6, groups), ts)
    ensures WellFormed(p) && ts == Yield(p) + rest && |rest| < |ts|
    ensures NoWhite(rest) && Accepts(State(Element7, groups), rest)
    decreases |ts|, 0
  {
    hide Run, YieldRest;
    FirstIs(State(Element6, groups), ts);
    if IsElement(ts[0]) {
      p, rest := Element(ts[0]), ts[1..];
    } else {
      p, rest := ParseGroup(ts[1..], groups + [NoConnector]);
      assert ts == [Open] + ts[1..];
      assert (groups + [NoConnector])[..|groups|] == groups;
    }
  }

  lemma {:induction false} ParseGroup(ts: seq<DeclToken>, inner: seq<Connector>) returns (p: Particle, rest: seq<DeclToken>)
    requires NoWhite(ts) && inner != [] && inner[|inner| - 1] == NoConnector
    requires Accepts(State(Element6, inner), ts)
    ensures p.Group? && WellFormed(p) && [Open] + ts == Yield(p) + rest && |rest| < |ts|
    ensures NoWhite(rest) && Accepts(Behind(inner), rest)
    decreases |ts|, 1
  {
    hide Run;
    var first, r1 := ParseParticle(ts, inner);
    var connector, ps, close, r2 := ParseRest(r1, inner);
    p, rest := Group(connector, first, ps, close), r2;
    assert [Open] + ts == [Open] + Yield(first) + YieldRest(connector, ps) + [close] + rest;
  }

  lemma {:induction false} ParseRest(ts: seq<DeclToken>, inner: seq<Connector>)
    returns (connector: Connector, ps: Particles, close: DeclToken, rest: seq<DeclToken>)
    requires NoWhite(ts) && inner != [] && Accepts(State(Element7, inner), ts)
    ensures connector != NoConnector && IsClose(close) && AllWellFormed(ps)
    ensures var k := inner[|inner| - 1];
            (k != NoConnector ==> connector == k) && (k == NoConnector && connector == Choice ==> ps != NoMore)
    ensures ts == YieldRest(connector, ps) + ([close] + rest) && |rest| < |ts|
    ensures NoWhite(rest) && Accepts(Behind(inner), rest)
    decreases |ts|, 0
  {
    hide Run;
    var n := |inner| - 1;
    FirstIs(State(Element7, inner), ts);
    if IsClose(ts[0]) {
      connector := if inner[n] == NoConnector then Sequence else inner[n];
      ps, close, rest := NoMore, ts[0], ts[1..];
      assert ts == [] + ([close] + rest);
    } else {
      var inner' := inner[n := ConnectorOf(ts[0])];
      var q, r1 := ParseParticle(ts[1..], inner');
      var more;
      connector, more, close, rest := ParseRest(r1, inner');
      ps := More(q, more);
      JoinRest(connector, q, more, ts, r1, [close] + rest);
      assert inner'[..n] == inner[..n];
    }
  }

  lemma JoinRest(connector: Connector, q: Particle, more: Particles, ts: seq<DeclToken>, r1: seq<DeclToken>, tail: seq<DeclToken>)
    requires ts != [] && ts[0] == Separator(connector) && ts[1..] == Yield(q) + r1
    requires r1 == YieldRest(connector, more) + tail
    ensures ts == YieldRest(connector, More(q, more)) + tail
  {
    assert ts == [ts[0]] + ts[1..];
  }

  lemma {:induction false} ParseNames(ts: seq<DeclToken>, h: Handler) returns (names: seq<DeclToken>, close: DeclToken, rest: seq<DeclToken>)
    requires NoWhite(ts) && h in {Element3, Element5} && Accepts(State(h, []), ts)
    ensures forall i :: 0 <= i < |names| ==> IsName(names[i])
    ensures close == CloseAsterisk || (close == Close && names == [] && h == Element3)
    ensures ts == YieldNames(names) + [close] + rest && NoWhite(rest) && Accepts(State(DeclClose, []), rest)
    decreases |ts|
  {
    hide Run;
    FirstIs(State(h, []), ts);
    if ts[0] == OrToken {
      FirstIs(State(Element4, []), ts[1..]);
      var more;
      more, close, rest := ParseNames(ts[2..], Element5);
      names := [ts[1]] + more;
      assert ts == [OrToken, ts[1]] + ts[2..] && names[1..] == more;
    } else {
      names, close, rest := [], ts[0], ts[1..];
      assert ts == [] + [close] + rest;
    }
  }

  lemma ParseEnd(ts: seq<DeclToken>)
    requires NoWhite(ts) && Accepts(State(DeclClose, []), ts)
    ensures ts == [End]
  {
    FirstIs(State(DeclClose, []), ts);
    if ts[1..] != [] { BadStays(State(InternalSubset, []), ts[1..]); }
  }

  lemma ParseSpec(ts: seq<DeclToken>) returns (spec: Spec)
    requires NoWhite(ts) && Accepts(State(Element1, []), ts)
    ensures WellFormedSpec(spec) && ts == YieldSpec(spec) + [End]
  {
    FirstIs(State(Element1, []), ts);
    if ts[0] == Open {
      spec := ParseBody(ts[1..]);
      assert ts == [Open] + ts[1..];
    } else {
      spec := if ts[0] == NameToken(EmptyWord) then Empty else Any;
      ParseEnd(ts[1..]);
    }
  }

  lemma ParseBody(ts: seq<DeclToken>) returns (spec: Spec)
    requires NoWhite(ts) && Accepts(State(Element2, [NoConnector]), ts)
    ensures WellFormedSpec(spec) && [Open] + ts == YieldSpec(spec) + [End]
  {
    hide Run;
    FirstIs(State(Element2, [NoConnector]), ts);
    if ts[0].PoundNameToken? {
      var names, close, rest := ParseNames(ts[1..], Element3);
      ParseEnd(rest);
      spec := Mixed(names, close);
      assert [Open] + ts == [Open, ts[0]] + ts[1..];
    } else {
      assert ts == [ts[0]] + ts[1..];
      SecondLikeSixth([NoConnector], ts[0], ts[1..]);
      var p, rest := ParseGroup(ts, [NoConnector]);
      ParseEnd(rest);
      spec := Children(p);
    }
  }

  lemma ParseDeclaration(ts: seq<DeclToken>) returns (d: Declaration)
    requires NoWhite(ts) && Accepts(START, ts)
    ensures WellFormedDeclaration(d) && ts == YieldDeclaration(d)
  {
    FirstIs(START, ts);
    var spec := ParseSpec(ts[1..]);
    d := Declaration(ts[0], spec);
    assert ts == [ts[0]] + ts[1..];
  }

  // The states and the connector array accept exactly the element type declarations of
  // the grammar: parentheses balance and no group mixes "," and "|".
  lemma AcceptsExactlyDeclarations(ts: seq<DeclToken>)
    ensures Accepts(START, ts) <==>
            && ts != [] && ts[|ts| - 1] != White
            && exists d :: WellFormedDeclaration(d) && YieldDeclaration(d) == Strip(ts)
  {
    WhiteIsSkipped(START, ts);
    StripNoWhite(ts);
    if Accepts(START, Strip(ts)) { var d := ParseDeclaration(Strip(ts)); }
    forall d | WellFormedDeclaration(d) && YieldDeclaration(d) == Strip(ts) ensures Accepts(START, Strip(ts)) {
      DeclarationRuns(d);
    }
  }

  // ----- the parser -----

  // The role a handler of xmlrole.c gives a token, if the token is allowed there.
  function RoleOf(h: Handler, t: DeclToken): Option<Role> {
    if t == White && h != InternalSubset then Some(RoleNone) else
    match h
    case Element0 => if IsName(t) then Some(ElementName) else None
    case Element1 =>
      if t == NameToken(EmptyWord) then Some(ContentEmpty)
      else if t == NameToken(AnyWord) then Some(ContentAny)
      else if t == Open then Some(GroupOpen)
      else None
    case Element2 =>
      if t == PoundNameToken(true) then Some(ContentPcdata)
      else if t == Open then Some(GroupOpen)
      else if IsElement(t) then Some(ContentElement)
      else None
    case Element3 =>
      if t == Close || t == CloseAsterisk then Some(GroupClose) else if t == OrToken then Some(RoleNone) else None
    case Element4 => if IsName(t) then Some(ContentElement) else None
    case Element5 =>
      if t == CloseAsterisk then Some(GroupClose) else if t == OrToken then Some(RoleNone) else None
    case Element6 => if t == Open then Some(GroupOpen) else if IsElement(t) then Some(ContentElement) else None
    case Element7 =>
      if IsClose(t) then Some(GroupClose)
      else if t == CommaToken then Some(GroupSequence)
      else if t == OrToken then Some(GroupChoice)
      else None
    case DeclClose => if t == End then Some(RoleNone) else None
    case InternalSubset => None
    case ErrorState => None
  }

  // the handler and the level a handler leaves behind
  function NextHandler(h: Handler, level: nat, t: DeclToken): Handler {
    if RoleOf(h, t).None? then ErrorState
    else if t == White then h
    else match h
      case Element0 => Element1
      case Element1 => if t == Open then Element2 else DeclClose
      case Element2 => if t == Open then Element6 else if t.PoundNameToken? then Element3 else Element7
      case Element3 => if t == OrToken then Element4 else DeclClose
      case Element4 => Element5
      case Element5 => if t == OrToken then Element4 else DeclClose
      case Element6 => if t == Open then Element6 else Element7
      case Element7 => if !IsClose(t) then Element6 else if level == 1 then DeclClose else Element7
      case DeclClose => InternalSubset
      case _ => ErrorState
  }

  function NextLevel(h: Handler, level: nat, t: DeclToken): int {
    if RoleOf(h, t).None? || t == White then level
    else if h == Element1 && t == Open then 1
    else if h == Element2 && t == Open then 2
    else if h == Element6 && t == Open then level + 1
    else if h == Element7 && IsClose(t) then level - 1
    else level
  }

  predicate CountsGroups(h: Handler) { h in {Element2, Element6, Element7} }

  // what the level and the connectors hold before a token
  predicate Counted(s: State, level: nat) {
    && s.handler != InternalSubset && s.handler != ErrorState
    && (CountsGroups(s.handler) ==> |s.groups| == level && 0 < level)
    && (!CountsGroups(s.handler) ==> s.groups == [])
    && (s.handler == Element2 ==> level == 1)
  }

  // The handler h, the level n and what the role makes of the connectors are the
  // automaton's next state.
  predicate Agrees(s: State, level: nat, t: DeclToken, role: Option<Role>, h: Handler, n: int)
    requires Counted(s, level)
  {
    var s' := StepOrSkip(s, t);
    if role.None? then s' == BAD && h == ErrorState
    else
      && h != ErrorState && (h == Element2 ==> n == 1) && role.value != RoleError
      && match role.value
         case GroupOpen => s' == State(h, s.groups + [NoConnector]) && n == |s.groups| + 1 && CountsGroups(h)
         case GroupSequence =>
           s.handler == Element7 && h == Element6 && n == level
           && s' == if s.groups[n - 1] == Choice then BAD else State(h, s.groups[n - 1 := Sequence])
         case GroupChoice =>
           s.handler == Element7 && h == Element6 && n == level
           && s' == if s.groups[n - 1] == Sequence then BAD else State(h, s.groups[n - 1 := Choice])
         case _ =>
           && 0 <= n <= level
           && (CountsGroups(h) ==> 0 < n <= |s.groups| && s' == State(h, s.groups[..n]))
           && (!CountsGroups(h) ==> s' == State(h, []))
  }

  // The counter and the connectors together take the automaton's step.
  lemma StepByRole(s: State, level: nat, t: DeclToken)
    requires Counted(s, level)
    ensures Agrees(s, level, t, RoleOf(s.handler, t), NextHandler(s.handler, level, t), NextLevel(s.handler, level, t))
  {
    if t == White {
      if s.groups != [] { assert s.groups[..|s.groups|] == s.groups; }
    } else if s.handler == Element7 {
      StepSeven(s, level, t);
    } else if s.handler == Element6 || s.handler == Element2 {
      StepParticle(s, level, t);
    } else {
      StepElsewhere(s, level, t);
    }
  }

  lemma StepSeven(s: State, level: nat, t: DeclToken)
    requires Counted(s, level) && s.handler == Element7 && t != White
    ensures Agrees(s, level, t, RoleOf(s.handler, t), NextHandler(s.handler, level, t), NextLevel(s.handler, level, t))
  {
  }

  lemma StepParticle(s: State, level: nat, t: DeclToken)
    requires Counted(s, level) && s.handler in {Element2, Element6} && t != White
    ensures Agrees(s, level, t, RoleOf(s.handler, t), NextHandler(s.handler, level, t), NextLevel(s.handler, level, t))
  {
    assert s.groups[..|s.groups|] == s.groups;
  }

  lemma StepElsewhere(s: State, level: nat, t: DeclToken)
    requires Counted(s, level) && !CountsGroups(s.handler) && t != White
    ensures Agrees(s, level, t, RoleOf(s.handler, t), NextHandler(s.handler, level, t), NextLevel(s.handler, level, t))
  {
    assert [] + [NoConnector] == [NoConnector];
  }

  lemma AgreesGives(s: State, level: nat, t: DeclToken, role: Option<Role>, h: Handler, n: nat)
    requires Counted(s, level) && Agrees(s, level, t, role, h, n)
    ensures role.None? ==> StepOrSkip(s, t) == BAD
    ensures role.Some? ==> h != ErrorState && (h == Element2 ==> n == 1) && role.value != RoleError
    ensures role == Some(GroupOpen) ==>
              StepOrSkip(s, t) == State(h, s.groups + [NoConnector]) && n == |s.groups| + 1 && CountsGroups(h)
    ensures role == Some(GroupSequence) ==>
              && h == Element6 && n == |s.groups| > 0 && s.handler == Element7
              && StepOrSkip(s, t) == if s.groups[n - 1] == Choice then BAD else State(h, s.groups[n - 1 := Sequence])
    ensures role == Some(GroupChoice) ==>
              && h == Element6 && n == |s.groups| > 0 && s.handler == Element7
              && StepOrSkip(s, t) == if s.groups[n - 1] == Sequence then BAD else State(h, s.groups[n - 1 := Choice])
    ensures role.Some? && role.value !in {GroupOpen, GroupSequence, GroupChoice} ==>
              if CountsGroups(h) then 0 < n <= |s.groups| && StepOrSkip(s, t) == State(h, s.groups[..n])
              else n <= level && StepOrSkip(s, t) == State(h, [])
  {
    hide StepOrSkip;
  }

  // PROLOG_STATE with the connectors of prologProcessor; groupSize is the array's length
  class DeclParser {
    var handler: Handler
    var level: nat
    var groupConnector: array<Connector>

    // the handlers for which level counts the open groups
    ghost predicate InGroup()
      reads this`handler
    {
      handler in {Element2, Element6, Element7}
    }

    ghost predicate Valid()
      reads this
    {
      && level <= groupConnector.Length
      && (InGroup() ==> 1 <= level < groupConnector.Length)
      && (handler == Element2 ==> level == 1)
    }

    ghost function Abstract(): State
      requires Valid()
      reads this, groupConnector
    {
      State(handler, if InGroup() then groupConnector[1..level + 1] else [])
    }

    constructor ()
      ensures Valid() && Abstract() == START && fresh(groupConnector)
    {
      handler, level := Element0, 0;
      groupConnector := new Connector[0];
    }

    // XmlTokenRole: the handlers of xmlrole.c, each of which sets the next handler and
    // keeps the level
    method TokenRole(tok: DeclToken) returns (role: Role)
      requires handler != InternalSubset && handler != ErrorState
      requires handler == Element7 ==> 0 < level
      modifies this`handler, this`level
      ensures role == (if RoleOf(old(handler), tok).Some? then RoleOf(old(handler), tok).value else RoleError)
      ensures handler == NextHandler(old(handler), old(level), tok)
      ensures level == NextLevel(old(handler), old(level), tok)
    {
      if tok == White { return RoleNone; }
      match handler {
        case Element0 =>
          if IsName(tok) { handler := Element1; return ElementName; }
        case Element1 =>
          if tok == NameToken(EmptyWord) { handler := DeclClose; return ContentEmpty; }
          if tok == NameToken(AnyWord) { handler := DeclClose; return ContentAny; }
          if tok == Open { handler, level := Element2, 1; return GroupOpen; }
        case Element2 =>
          if tok == PoundNameToken(true) { handler := Element3; return ContentPcdata; }
          if tok == Open { handler, level := Element6, 2; return GroupOpen; }
          if IsElement(tok) { handler := Element7; return ContentElement; }
        case Element3 =>
          if tok == Close || tok == CloseAsterisk { handler := DeclClose; return GroupClose; }
          if tok == OrToken { handler := Element4; return RoleNone; }
        case Element4 =>
          if IsName(tok) { handler := Element5; return ContentElement; }
        case Element5 =>
          if tok == CloseAsterisk { handler := DeclClose; return GroupClose; }
          if tok == OrToken { handler := Element4; return RoleNone; }
        case Element6 =>
          if tok == Open { level := level + 1; return GroupOpen; }
          if IsElement(tok) { handler := Element7; return ContentElement; }
        case Element7 =>
          if IsClose(tok) {
            level := level - 1;
            if level == 0 { handler := DeclClose; }
            return GroupClose;
          }
          if tok == CommaToken { handler := Element6; return GroupSequence; }
          if tok == OrToken { handler := Element6; return GroupChoice; }
        case DeclClose =>
          if tok == End { handler := InternalSubset; return RoleNone; }
      }
      handler := ErrorState;
      return RoleError;
    }

    // XML_ROLE_GROUP_OPEN: the array has room for the level, and no connector is noted
    method OpenGroup(ghost outer: seq<Connector>)
      requires level == |outer| + 1 && (level == 1 || level <= groupConnector.Length)
      requires forall k :: 0 <= k < |outer| ==> k + 1 < groupConnector.Length && groupConnector[k + 1] == outer[k]
      modifies this`groupConnector, groupConnector
      ensures groupConnector == old(groupConnector) || fresh(groupConnector)
      ensures level < groupConnector.Length && groupConnector[1..level + 1] == outer + [NoConnector]
    {
      if level >= groupConnector.Length {
        var bigger := new Connector[if groupConnector.Length == 0 then 32 else groupConnector.Length * 2];
        forall k | 0 <= k < groupConnector.Length { bigger[k] := groupConnector[k]; }
        groupConnector := bigger;
      }
      groupConnector[level] := NoConnector;
    }

    // XML_ROLE_GROUP_SEQUENCE and XML_ROLE_GROUP_CHOICE
    method Connect(connector: Connector, other: Connector) returns (ok: bool)
      requires 1 <= level < groupConnector.Length && {connector, other} == {Sequence, Choice}
      modifies groupConnector
      ensures ok <==> old(groupConnector[level]) != other
      ensures ok ==> groupConnector[1..level + 1] == old(groupConnector[1..level + 1])[level - 1 := connector]
    {
      if groupConnector[level] == other { return false; }
      groupConnector[level] := connector;
      return true;
    }

    // prologProcessor's treatment of one token; false is XML_ERROR_SYNTAX
    method Handle(tok: DeclToken) returns (ok: bool)
      requires Valid() && handler != InternalSubset && handler != ErrorState
      modifies this, groupConnector
      ensures ok ==> Valid() && handler != ErrorState
      ensures groupConnector == old(groupConnector) || fresh(groupConnector)
      ensures ok ==> Abstract() == StepOrSkip(old(Abstract()), tok)
      ensures !ok ==> StepOrSkip(old(Abstract()), tok) == BAD
    {
      hide StepOrSkip, Step, RoleOf, NextHandler, NextLevel, Agrees;
      ghost var s, n := Abstract(), level;
      StepByRole(s, n, tok);
      var role := TokenRole(tok);
      AgreesGives(s, n, tok, RoleOf(s.handler, tok), handler, level);
      if role == RoleError { return false; }
      if role == GroupOpen {
        OpenGroup(s.groups);
      } else if role == GroupSequence {
        ok := Connect(Sequence, Choice);
        return;
      } else if role == GroupChoice {
        ok := Connect(Choice, Sequence);
        return;
      }
      return true;
    }

    // prologProcessor's loop over the tokens of a declaration: it succeeds on exactly the
    // declarations of the grammar.
    method Declare(ts: seq<DeclToken>) returns (ok: bool)
      requires Valid() && Abstract() == START
      modifies this, groupConnector
      ensures ok <==> && ts != [] && ts[|ts| - 1] != White
                      && exists d :: WellFormedDeclaration(d) && YieldDeclaration(d) == Strip(ts)
    {
      hide Step, WellFormedDeclaration, YieldDeclaration, Strip;
      var k := 0;
      AcceptsExactlyDeclarations(ts);
      assert ts[0..] == ts;
      while k < |ts|
        invariant k <= |ts| && Valid() && handler != ErrorState
        invariant groupConnector == old(groupConnector) || fresh(groupConnector)
        invariant Accepts(START, ts) <==> Accepts(Abstract(), ts[k..])
      {
        ghost var s := Abstract();
        assert ts[k..][1..] == ts[k + 1..];
        if handler == InternalSubset {
          BadStays(s, ts[k..]);
          return false;
        }
        ok := Handle(ts[k]);
        if !ok {
          BadStays(BAD, ts[k + 1..]);
          return;
        }
        k := k + 1;
      }
      return handler == InternalSubset;
    }
  }
}

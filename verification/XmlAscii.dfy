// The table of asciitab.h, and an input that shows the exception of XmlChunkRuns.
module XmlAscii {
  import opened Collections
  import opened XmlTok
  import opened XmlContent
  import opened XmlChunks
  import opened XmlChunkRuns

  // asciitab.h; a byte outside ASCII is not a character of the ASCII encoding
  function AsciiType(b: byte): ByteType {
    if b < 0x20 then
      if b == 0x9 then Space else if b == 0xA then Lf else if b == 0xD then Cr else NonXml
    else if b < 0x30 then
      [Space, Excl, Quot, Num, Other, Percnt, Amp, Apos, Lpar, Rpar, Ast, Plus, Comma, Minus, NameCh, Sol][b - 0x20]
    else if b < 0x3A then Digit
    else if b < 0x40 then [Colon, Semi, Lt, Equals, Gt, Quest][b - 0x3A]
    else if b == 0x40 then Other
    else if b < 0x47 then Hex
    else if b < 0x5B then Nmstrt
    else if b < 0x61 then [Lsqb, Other, Rsqb, Other, Nmstrt, Other][b - 0x5B]
    else if b < 0x67 then Hex
    else if b < 0x7B then Nmstrt
    else if b == 0x7C then Verbar
    else if b < 0x80 then Other
    else NonXml
  }

  const ASCII := Encoding(AsciiType, s => false, s => false, s => false)

  // an entity parser with no entities declared and no attribute errors
  const PLAIN := Config(ASCII, ASCII, map[], true, true, false, (n, o) => true, (e, r, o, t) => None)

  const OPENER: Bytes := [0x3C, 0x21, 0x5B] + CDATA_LSQB      // <![CDATA[
  const CLOSER: Bytes := [0x5D, 0x5D, 0x3E]                    // ]]>

  lemma OpenerMatches(b: Bytes)
    requires 9 <= |b| && b[3] == 0x43 && b[4] == 0x44 && b[5] == 0x41 && b[6] == 0x54 && b[7] == 0x41 && b[8] == 0x5B
    ensures ASCII.ScanCdataSection(b, 3) == Found(CdataSectOpen, 9)
  {
    assert ASCII.MatchCdata(b, 3, 3) == ASCII.MatchCdata(b, 3, 6);
    assert ASCII.MatchCdata(b, 3, 0) == ASCII.MatchCdata(b, 3, 3);
  }

  lemma OpenerScans(tail: Bytes)
    ensures ASCII.ContentTok(OPENER + tail, 0) == Found(CdataSectOpen, 9)
  {
    hide Encoding.StartName, Encoding.ScanPi, Encoding.ScanEndTag, Encoding.ScanComment, Encoding.ScanCdataSection,
      Encoding.ContentChars;
    var b := OPENER + tail;
    assert b[0] == 0x3C && b[1] == 0x21 && b[2] == 0x5B;
    OpenerMatches(b);
    assert ASCII.ScanLt(b, 1) == ASCII.ScanCdataSection(b, 3);
  }

  lemma CloserScans(z: Bytes, e: Bytes)
    requires z == CLOSER && e == []
    ensures Cdata(ASCII, z, true) == Closed([EndCdata], [])
    ensures Cdata(ASCII, e, false) == Inside([], Ready([]))
  {
    hide Encoding.CharStep, Encoding.CdataChars;
    CloserToken(z);
    assert ASCII.CdataSectionTok(e, 0) == Nothing;
    assert z[3..] == [];
  }

  lemma CloserToken(z: Bytes)
    requires z == CLOSER
    ensures ASCII.CdataSectionTok(z, 0) == Found(CdataSectClose, 3)
  {
    hide Encoding.CdataChars;
    assert ASCII.CharStep(ValidChars, z, 0) == Unlisted;
  }

  lemma EmptyScans(enc: Encoding)
    ensures enc.ContentTok([], 0) == Nothing
  {
  }

  // The run on a section in one piece, and on its opener alone, for any encoding that scans
  // them like this.
  lemma SectionRuns(c: Config, st: State, a: Bytes, z: Bytes)
    requires st == ENTITY_START
    requires c.external.ContentTok(a + z, 0) == Found(CdataSectOpen, |a|)
    requires c.external.ContentTok(a, 0) == Found(CdataSectOpen, |a|)
    requires Cdata(c.external, z, true) == Closed([EndCdata], [])
    requires Cdata(c.external, [], false) == Inside([], Ready([]))
    ensures Content(c, 1, false, {}, st, a + z, true).out.Ready?
    ensures LeftInCdata(st, Content(c, 1, false, {}, st, a, false))
  {
    hide Encoding.ContentTok, Cdata, TokenStep, Resolve, Epilog;
    EmptyScans(c.external);
    assert (a + z)[|a|..] == z && a[|a|..] == [];
  }

  lemma TwoPieces(c: Config, st: State, a: Bytes, z: Bytes, pieces: seq<Bytes>)
    requires st == ENTITY_START && pieces == [a, z] && a != []
    requires Content(c, 1, false, {}, st, a + z, true).out.Ready?
    requires LeftInCdata(st, Content(c, 1, false, {}, st, a, false))
    ensures Process(c, {}, st, Concat(pieces), true).out.Ready?
    ensures ParseAll(c, {}, st, [], pieces).out.Failed?
  {
    hide Content, ParseAll, EndsInSection;
    EndsIs(c, {}, st, a);
    assert pieces[1..] == [z] && [] + a == a;
    assert Concat([z]) == z by { assert [z][1..] == [] && z + [] == z; }
    assert [] + Concat(pieces) == a + z;
    assert CutInCdata(c.external, [], pieces);
    EntityChunks(c, {}, st, [], pieces);
  }

  // An external entity that consists of an empty CDATA section is accepted in one piece but
  // not when it is cut behind "<![CDATA[".
  lemma CutInsideCdataIsRefused(c: Config, st: State, pieces: seq<Bytes>)
    requires c == PLAIN && st == ENTITY_START && pieces == [OPENER, CLOSER]
    ensures Process(c, {}, st, Concat(pieces), true).out.Ready?
    ensures ParseAll(c, {}, st, [], pieces).out.Failed?
  {
    hide Content, Process, ParseAll, Encoding.ContentTok, Cdata;
    OpenerScans(CLOSER);
    OpenerScans([]);
    assert OPENER + [] == OPENER;
    CloserScans(CLOSER, []);
    SectionRuns(c, st, OPENER, CLOSER);
    TwoPieces(c, st, OPENER, CLOSER, pieces);
  }
}

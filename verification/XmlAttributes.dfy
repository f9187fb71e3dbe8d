// Attribute values (storeAttributeValue and appendAttributeValue of xmlparse.c): one pass
// over the value and over the entities it refers to, against the two passes of section
// 3.3.3 of XML 1.0.
module XmlAttributes {
  import opened Collections
  import opened XmlTok
  import opened XmlChars
  import opened XmlContent
  import opened XmlReferences
  import opened XmlSyntax

  const SPACE: byte := 0x20

  // What appendAttributeValue returns, with the string in progress in its pool.  Aborted is
  // the call of abort() for a token it does not expect.
  datatype Value = Appended(pool: Bytes) | Rejected(error: Error) | Aborted

  // ----- the code -----

  // What one token asks for; it depends neither on the pool nor on the attribute's type.
  datatype Piece =
    | Text(bytes: Bytes)
    | Number(n: int)  // a character reference
    | Blank
    | Entry(name: Bytes, text: Bytes)  // an entity to expand
    | Pass
    | Refused(error: Error)
    | Unexpected

  function PieceOf(c: Config, open: set<Bytes>, tok: Token, raw: Bytes): (p: Piece)
    ensures p.Entry? ==> p.name in c.entities && p.name !in open && c.entities[p.name].text == Some(p.text)
  {
    match tok
    case CharRef => if CharRefNumber(raw) < 0 then Refused(BadCharRef) else Number(CharRefNumber(raw))
    case DataChars => Text(raw)
    case AttributeValueS => Blank
    case DataNewline => Blank
    case EntityRef =>
      var name := ReferenceName(raw);
      (match PredefinedEntity(name)
       case Some(ch) => Text([ch])
       case None =>
         if name !in c.entities then
           if c.complete then Refused(UndefinedEntity) else Pass
         else if name in open then Refused(RecursiveEntityRef)
         else if c.entities[name].notation then Refused(BinaryEntityRef)
         else if c.entities[name].text.None? then Refused(AttributeExternalEntityRef)
         else Entry(name, c.entities[name].text.value))
    case _ => Unexpected
  }

  // a space that is left out of a value of a type other than CDATA
  predicate Redundant(isCdata: bool, pool: Bytes) {
    !isCdata && (pool == [] || pool[|pool| - 1] == SPACE)
  }

  function WithSpace(isCdata: bool, pool: Bytes): Bytes {
    if Redundant(isCdata, pool) then pool else pool + [SPACE]
  }

  function WithNumber(isCdata: bool, pool: Bytes, n: int): Bytes {
    if n == 0x20 then WithSpace(isCdata, pool) else pool + Utf8Encode(n)
  }

  function Append(c: Config, inEntity: bool, isCdata: bool, open: set<Bytes>, b: Bytes, pool: Bytes): Value
    decreases c.entities.Keys - open, |b|
  {
    var enc := if inEntity then c.internal else c.external;
    match enc.AttributeValueTok(b, 0)
    case Nothing => Appended(pool)
    case TrailingCr => Append(c, inEntity, isCdata, open, b[1..], WithSpace(isCdata, pool))
    case Invalid(_) => Rejected(InvalidToken)
    case Partial => Rejected(InvalidToken)
    case PartialChar => Aborted
    case TrailingRsqb => Aborted
    case Found(tok, next) =>
      match PieceOf(c, open, tok, b[..next])
      case Text(bytes) => Append(c, inEntity, isCdata, open, b[next..], pool + bytes)
      case Number(n) =>
        if Utf8Encode(n) == [] then Rejected(BadCharRef)
        else Append(c, inEntity, isCdata, open, b[next..], WithNumber(isCdata, pool, n))
      case Blank => Append(c, inEntity, isCdata, open, b[next..], WithSpace(isCdata, pool))
      case Entry(name, text) =>
        var inner := Append(c, true, isCdata, open + {name}, text, pool);
        if inner.Appended? then Append(c, inEntity, isCdata, open, b[next..], inner.pool) else inner
      case Pass => Append(c, inEntity, isCdata, open, b[next..], pool)
      case Refused(error) => Rejected(error)
      case Unexpected => Aborted
  }

  function Chop(isCdata: bool, pool: Bytes): Bytes {
    if !isCdata && pool != [] && pool[|pool| - 1] == SPACE then pool[..|pool| - 1] else pool
  }

  // storeAttributeValue
  function Store(c: Config, isCdata: bool, open: set<Bytes>, b: Bytes): Value {
    var v := Append(c, false, isCdata, open, b, []);
    if v.Appended? then Appended(Chop(isCdata, v.pool)) else v
  }

  // ----- section 3.3.3 of XML 1.0 -----

  function Before(bytes: Bytes, v: Value): Value {
    if v.Appended? then Appended(bytes + v.pool) else v
  }

  // The first pass, a character at a time: every white space character becomes a space and
  // references are replaced by what they stand for; a carriage return before a line feed is
  // half of a line end (section 2.11).
  function Normalized(c: Config, inEntity: bool, open: set<Bytes>, b: Bytes): Value
    decreases c.entities.Keys - open, |b|
  {
    if b == [] then Appended([]) else
    var enc := if inEntity then c.internal else c.external;
    var t := enc.typeOf(b[0]);
    if t == Lt then Rejected(InvalidToken)
    else if t == Amp then
      match enc.ScanRef(b, 1)
      case Found(_, next) =>
        (match Means(enc, b, 0, next)
         case Character(text) => Before(text, Normalized(c, inEntity, open, b[next..]))
         case NoCharacter => Rejected(BadCharRef)
         case Declared(name) =>
           if name !in c.entities then
             if c.complete then Rejected(UndefinedEntity) else Normalized(c, inEntity, open, b[next..])
           else if name in open then Rejected(RecursiveEntityRef)
           else
             (match c.entities[name]
              case Entity(_, true) => Rejected(BinaryEntityRef)
              case Entity(None, false) => Rejected(AttributeExternalEntityRef)
              case Entity(Some(text), false) =>
                var inner := Normalized(c, true, open + {name}, text);
                if inner.Appended? then Before(inner.pool, Normalized(c, inEntity, open, b[next..])) else inner)
         case NoReference => Aborted)
      case PartialChar => Aborted
      case _ => Rejected(InvalidToken)
    else if t == Cr && 1 < |b| && enc.typeOf(b[1]) == Lf then Normalized(c, inEntity, open, b[1..])
    else if t.White() then Before([SPACE], Normalized(c, inEntity, open, b[1..]))
    else
      var w := enc.Width(b, 0);
      Before(b[..w], Normalized(c, inEntity, open, b[w..]))
  }

  // The second pass: spaces at either end go, and so do all but one of several between two
  // words.
  function Fields(s: Bytes): (fs: seq<Bytes>)
    ensures fs != []
  {
    if s == [] then [[]] else
    var fs, x := Fields(s[..|s| - 1]), s[|s| - 1];
    if x == SPACE then fs + [[]] else fs[..|fs| - 1] + [fs[|fs| - 1] + [x]]
  }

  function Words(fs: seq<Bytes>): seq<Bytes> {
    if fs == [] then []
    else Words(fs[..|fs| - 1]) + if fs[|fs| - 1] == [] then [] else [fs[|fs| - 1]]
  }

  function Joined(ws: seq<Bytes>): Bytes {
    if ws == [] then []
    else if |ws| == 1 then ws[0]
    else Joined(ws[..|ws| - 1]) + [SPACE] + ws[|ws| - 1]
  }

  function Collapsed(s: Bytes): Bytes { Joined(Words(Fields(s))) }

  // ----- the pool while the second pass is not finished -----

  // What the code keeps of the string so far: at most one space, and none at the start.
  function Squeezed(s: Bytes): Bytes {
    if s == [] then [] else
    var q, x := Squeezed(s[..|s| - 1]), s[|s| - 1];
    if x == SPACE then WithSpace(false, q) else q + [x]
  }

  function Held(isCdata: bool, s: Bytes): Bytes { if isCdata then s else Squeezed(s) }

  lemma HeldSpace(isCdata: bool, s: Bytes)
    ensures WithSpace(isCdata, Held(isCdata, s)) == Held(isCdata, s + [SPACE])
  {
    assert (s + [SPACE])[..|s|] == s;
  }

  predicate NoDouble(s: Bytes) {
    forall i, j :: 0 <= i < |s| && 0 <= j < |s| && j == i + 1 ==> s[i] != SPACE || s[j] != SPACE
  }

  // text that the code may append as it is: no space in it is one that would be left out
  predicate Tight(text: Bytes) {
    (text != [] ==> text[0] != SPACE) && NoDouble(text)
  }

  lemma {:induction false} HeldText(isCdata: bool, s: Bytes, text: Bytes)
    requires isCdata || Tight(text)
    ensures Held(isCdata, s) + text == Held(isCdata, s + text)
    decreases |text|
  {
    if !isCdata {
      if text == [] {
        assert s + text == s;
      } else {
        var less, x := text[..|text| - 1], text[|text| - 1];
        assert Tight(less) by { assert less != [] ==> less[0] == text[0]; }
        HeldText(isCdata, s, less);
        assert (s + text)[..|s + text| - 1] == s + less;
        assert Squeezed(s) + text == Squeezed(s) + less + [x];
        if x == SPACE {
          assert text[|text| - 2] == less[|less| - 1] != SPACE;
        }
      }
    }
  }

  // The string kept, and the fields of the string it was made of.
  ghost predicate Kept(fs: seq<Bytes>, q: Bytes) {
    && fs != []
    && SPACE !in fs[|fs| - 1]
    && var ws := Words(fs[..|fs| - 1]);
       q == (if ws == [] then [] else Joined(ws) + [SPACE]) + fs[|fs| - 1]
  }

  lemma WordsMore(fs: seq<Bytes>)
    requires fs != []
    ensures var ws, last := Words(fs[..|fs| - 1]), fs[|fs| - 1];
            && Words(fs) == (if last == [] then ws else ws + [last])
            && (last != [] ==> Joined(ws + [last]) == (if ws == [] then [] else Joined(ws) + [SPACE]) + last)
  {
    hide Joined;
    var ws, last := Words(fs[..|fs| - 1]), fs[|fs| - 1];
    JoinedMore(ws, last);
  }

  lemma JoinedMore(ws: seq<Bytes>, w: Bytes)
    ensures Joined(ws + [w]) == (if ws == [] then [] else Joined(ws) + [SPACE]) + w
  {
    assert (ws + [w])[..|ws|] == ws;
  }

  lemma KeptSpace(fs: seq<Bytes>, q: Bytes)
    requires Kept(fs, q)
    ensures Kept(fs + [[]], WithSpace(false, q))
  {
    hide Words, Joined;
    WordsMore(fs);
    assert (fs + [[]])[..|fs|] == fs;
  }

  lemma KeptOther(fs: seq<Bytes>, q: Bytes, x: byte)
    requires Kept(fs, q) && x != SPACE
    ensures Kept(fs[..|fs| - 1] + [fs[|fs| - 1] + [x]], q + [x])
  {
    hide Words, Joined;
    assert (fs[..|fs| - 1] + [fs[|fs| - 1] + [x]])[..|fs| - 1] == fs[..|fs| - 1];
  }

  lemma {:induction false} SqueezedIs(s: Bytes)
    ensures Kept(Fields(s), Squeezed(s))
  {
    if s != [] {
      hide Kept;
      var less, x := s[..|s| - 1], s[|s| - 1];
      SqueezedIs(less);
      if x == SPACE {
        KeptSpace(Fields(less), Squeezed(less));
      } else {
        KeptOther(Fields(less), Squeezed(less), x);
      }
    }
  }

  // Finishing what is kept gives the collapsed string.
  lemma ChopIsCollapsed(s: Bytes)
    ensures Chop(false, Squeezed(s)) == Collapsed(s)
  {
    hide Words, Fields, Squeezed, Joined, Chop, Kept;
    SqueezedIs(s);
    ChopKept(Fields(s), Squeezed(s));
  }

  lemma ChopKept(fs: seq<Bytes>, q: Bytes)
    requires Kept(fs, q)
    ensures Chop(false, q) == Joined(Words(fs))
  {
    hide Words;
    WordsMore(fs);
    var ws, last := Words(fs[..|fs| - 1]), fs[|fs| - 1];
    if last != [] {
      assert q[|q| - 1] == last[|last| - 1];
    } else if ws != [] {
      assert q == Joined(ws) + [SPACE];
    }
  }

  // ----- one pass is two -----

  lemma SpaceIsWhite(enc: Encoding)
    requires AsciiTable(enc)
    ensures enc.typeOf(SPACE) == Space
  {
    assert SameMark(enc.typeOf(SPACE), SPACE);
  }

  // No run of data characters in the value, or in what it refers to, holds two space bytes in
  // a row.  In a well formed encoding a run holds none; but the scanners let any bytes follow
  // a lead byte.
  predicate Tidy(c: Config, inEntity: bool, open: set<Bytes>, b: Bytes)
    decreases c.entities.Keys - open, |b|
  {
    var enc := if inEntity then c.internal else c.external;
    match enc.AttributeValueTok(b, 0)
    case TrailingCr => Tidy(c, inEntity, open, b[1..])
    case Found(tok, next) => TidyPiece(c, inEntity, open, PieceOf(c, open, tok, b[..next]), b[next..])
    case _ => true
  }

  predicate TidyPiece(c: Config, inEntity: bool, open: set<Bytes>, piece: Piece, rest: Bytes)
    requires piece.Entry? ==> piece.name in c.entities && piece.name !in open
    decreases c.entities.Keys - open, |rest| + 1, 0
  {
    match piece
    case Text(bytes) => NoDouble(bytes) && Tidy(c, inEntity, open, rest)
    case Entry(name, text) => Tidy(c, true, open + {name}, text) && Tidy(c, inEntity, open, rest)
    case Refused(_) => true
    case Unexpected => true
    case _ => Tidy(c, inEntity, open, rest)
  }

  // Spaces are characters of their own, as they are in UTF-8 (section 3 of RFC 3629): the
  // scanners let a byte that is no trail byte follow a lead byte.
  ghost predicate SpacesApart(enc: Encoding, b: Bytes) {
    && enc.typeOf(SPACE) == Space
    && forall i, k :: 0 <= i < k < |b| && k < i + enc.Width(b, i) ==> b[k] != SPACE
  }

  ghost predicate AllApart(c: Config, b: Bytes) {
    && SpacesApart(c.external, b)
    && EntitiesApart(c)
  }

  ghost predicate EntitiesApart(c: Config) {
    forall name :: name in c.entities && c.entities[name].text.Some? ==> SpacesApart(c.internal, c.entities[name].text.value)
  }

  lemma WidthFrom(enc: Encoding, b: Bytes, k: nat, i: nat)
    requires k + i < |b|
    ensures enc.Width(b[k..], i) == enc.Width(b, k + i)
  {
  }

  lemma ApartFrom(enc: Encoding, b: Bytes, k: nat)
    requires SpacesApart(enc, b) && k <= |b|
    ensures SpacesApart(enc, b[k..])
  {
    forall i, j | 0 <= i < j < |b[k..]| && j < i + enc.Width(b[k..], i)
      ensures b[k..][j] != SPACE
    {
      WidthFrom(enc, b, k, i);
      assert b[k..][j] == b[k + j];
    }
  }

  // one character of the value
  lemma CharIs(c: Config, inEntity: bool, open: set<Bytes>, b: Bytes)
    requires b != []
    ensures var enc := if inEntity then c.internal else c.external;
            var t, w := enc.typeOf(b[0]), enc.Width(b, 0);
            && (t == Lt ==> Normalized(c, inEntity, open, b) == Rejected(InvalidToken))
            && (t != Lt && t != Amp && !t.White() ==>
                  Normalized(c, inEntity, open, b) == Before(b[..w], Normalized(c, inEntity, open, b[w..])))
  {
    hide PieceOf, Encoding.ScanRef, Encoding.Width, Before;
  }

  lemma CharAt(c: Config, inEntity: bool, open: set<Bytes>, b: Bytes, i: nat)
    requires i < |b|
    ensures var enc := if inEntity then c.internal else c.external;
            var t, j := enc.typeOf(b[i]), i + enc.Width(b, i);
            && (t == Lt ==> Normalized(c, inEntity, open, b[i..]) == Rejected(InvalidToken))
            && (t != Lt && t != Amp && !t.White() ==>
                  Normalized(c, inEntity, open, b[i..]) == Before(b[i..j], Normalized(c, inEntity, open, b[j..])))
  {
    hide Normalized, Encoding.Width, Before;
    var enc := if inEntity then c.internal else c.external;
    var j := i + enc.Width(b, i);
    WidthFrom(enc, b, i, 0);
    assert b[i..][0] == b[i] && b[i..][..j - i] == b[i..j] && b[i..][j - i..] == b[j..];
    CharIs(c, inEntity, open, b[i..]);
  }

  lemma BeforeBoth(a: Bytes, b: Bytes, v: Value)
    ensures Before(a, Before(b, v)) == Before(a + b, v)
    ensures v.Rejected? ==> Before(a, v) == v
  {
    if v.Appended? { assert a + (b + v.pool) == (a + b) + v.pool; }
  }

  lemma BeforeNothing(v: Value)
    ensures Before([], v) == v
  {
    if v.Appended? { assert [] + v.pool == v.pool; }
  }

  lemma Slices(b: Bytes, i: nat, j: nat, k: nat)
    requires i <= j <= k <= |b|
    ensures b[i..j] + b[j..k] == b[i..k]
  {
  }

  lemma BeforeSlices(b: Bytes, i: nat, j: nat, k: nat, v: Value)
    requires i <= j <= k <= |b|
    ensures Before(b[i..j], Before(b[j..k], v)) == Before(b[i..k], v)
  {
    hide Before;
    BeforeBoth(b[i..j], b[j..k], v);
    Slices(b, i, j, k);
  }

  lemma ValueCharsAt(enc: Encoding, b: Bytes, i: nat)
    requires i <= |b|
    ensures enc.ValueChars(b, i)
            == if i == |b| || enc.typeOf(b[i]) == Amp || enc.typeOf(b[i]).White() then Found(DataChars, i)
               else if enc.typeOf(b[i]) == Lt then Invalid(i)
               else enc.ValueChars(b, i + enc.Width(b, i))
  {
    hide Encoding.Width;
  }

  // a run of data characters is the characters one after another
  lemma {:induction false} RunIs(c: Config, inEntity: bool, open: set<Bytes>, b: Bytes, i: nat)
    requires i <= |b|
    ensures var enc := if inEntity then c.internal else c.external;
            var r := enc.ValueChars(b, i);
            Normalized(c, inEntity, open, b[i..])
            == if r.Found? then Before(b[i..r.next], Normalized(c, inEntity, open, b[r.next..])) else Rejected(InvalidToken)
    decreases |b| - i
  {
    hide Normalized, Encoding.Width, Encoding.ValueChars, Before;
    var enc := if inEntity then c.internal else c.external;
    ValueCharsAt(enc, b, i);
    if i == |b| || enc.typeOf(b[i]) == Amp || enc.typeOf(b[i]).White() {
      Slices(b, i, i, i);
      BeforeNothing(Normalized(c, inEntity, open, b[i..]));
    } else if enc.typeOf(b[i]) == Lt {
      CharAt(c, inEntity, open, b, i);
    } else {
      var j := i + enc.Width(b, i);
      CharAt(c, inEntity, open, b, i);
      RunIs(c, inEntity, open, b, j);
      var r := enc.ValueChars(b, j);
      if r.Found? {
        BeforeSlices(b, i, j, r.next, Normalized(c, inEntity, open, b[r.next..]));
      } else {
        BeforeBoth(b[i..j], [], Rejected(InvalidToken));
      }
    }
  }

  // none of them a space
  lemma {:induction false} RunApart(enc: Encoding, b: Bytes, i: nat)
    requires SpacesApart(enc, b) && i <= |b| && enc.ValueChars(b, i).Found?
    ensures SPACE !in b[i..enc.ValueChars(b, i).next]
    decreases |b| - i
  {
    hide SpacesApart, Encoding.Width;
    if i < |b| && enc.typeOf(b[i]) != Amp && !enc.typeOf(b[i]).White() {
      var j := i + enc.Width(b, i);
      CharApart(enc, b, i);
      RunApart(enc, b, j);
      assert b[i..enc.ValueChars(b, i).next] == b[i..j] + b[j..enc.ValueChars(b, j).next];
    }
  }

  lemma CharApart(enc: Encoding, b: Bytes, i: nat)
    requires SpacesApart(enc, b) && i < |b| && !enc.typeOf(b[i]).White()
    ensures SPACE !in b[i..i + enc.Width(b, i)]
  {
    hide Encoding.Width;
    assert b[i] != SPACE;
  }

  lemma {:induction false} RefNameToken(enc: Encoding, b: Bytes, i: nat)
    requires i <= |b|
    ensures enc.RefName(b, i).Found? ==> enc.RefName(b, i).tok == EntityRef
    decreases |b| - i
  {
    if i < |b| {
      var s := enc.CharStep(NameChars, b, i);
      if s.Advance? { RefNameToken(enc, b, s.next); }
    }
  }

  lemma {:induction false} DigitsToken(enc: Encoding, b: Bytes, i: nat)
    requires i <= |b|
    ensures enc.DecDigits(b, i).Found? ==> enc.DecDigits(b, i).tok == CharRef
    ensures enc.HexDigits(b, i).Found? ==> enc.HexDigits(b, i).tok == CharRef
    decreases |b| - i
  {
    if i < |b| { DigitsToken(enc, b, i + 1); }
  }

  lemma RefToken(enc: Encoding, b: Bytes, i: nat)
    requires i <= |b|
    ensures enc.ScanRef(b, i).Found? ==> enc.ScanRef(b, i).tok in {EntityRef, CharRef}
  {
    hide Encoding.RefName, Encoding.DecDigits, Encoding.HexDigits;
    if i < |b| {
      var s := enc.CharStep(NmstrtChars, b, i);
      if s.Advance? { RefNameToken(enc, b, s.next); }
      if i + 1 < |b| {
        DigitsToken(enc, b, i + 2);
        if i + 2 < |b| { DigitsToken(enc, b, i + 3); }
      }
    }
  }

  lemma {:induction false} NumbersInRange(digits: Bytes, result: int)
    requires result < 0x110000
    ensures HexNumber(digits, result) < 0x110000 && DecNumber(digits, result) < 0x110000
    decreases |digits|
  {
    if digits != [] {
      var next := if HexDigit(digits[0]) then result * 16 + HexDigitValue(digits[0]) else result;
      if next < 0x110000 { NumbersInRange(digits[1..], next); }
      next := result * 10 + (digits[0] as int - 0x30);
      if next < 0x110000 { NumbersInRange(digits[1..], next); }
    }
  }

  lemma NumberPiece(c: Config, open: set<Bytes>, tok: Token, raw: Bytes)
    requires PieceOf(c, open, tok, raw).Number?
    ensures var n := PieceOf(c, open, tok, raw).n;
            Utf8Encode(n) != [] && (n == 0x20 ==> Utf8Encode(n) == [SPACE]) && (n != 0x20 ==> SPACE !in Utf8Encode(n))
  {
    hide HexNumber, DecNumber;
    if 4 <= |raw| {
      NumbersInRange(raw[3..|raw| - 1], 0);
      NumbersInRange(raw[2..|raw| - 1], 0);
    }
  }

  // ----- a token of the value -----

  // what the first pass makes of a piece and of what follows it
  function AfterPiece(c: Config, inEntity: bool, open: set<Bytes>, piece: Piece, rest: Bytes): Value
    requires piece.Entry? ==> piece.name in c.entities && piece.name !in open
  {
    match piece
    case Text(bytes) => Before(bytes, Normalized(c, inEntity, open, rest))
    case Number(n) => Before(Utf8Encode(n), Normalized(c, inEntity, open, rest))
    case Blank => Before([SPACE], Normalized(c, inEntity, open, rest))
    case Entry(name, text) =>
      var inner := Normalized(c, true, open + {name}, text);
      if inner.Appended? then Before(inner.pool, Normalized(c, inEntity, open, rest)) else inner
    case Pass => Normalized(c, inEntity, open, rest)
    case Refused(error) => Rejected(error)
    case Unexpected => Aborted
  }

  function AfterToken(c: Config, inEntity: bool, open: set<Bytes>, b: Bytes, r: Scan): Value
    requires r.Found? ==> r.next <= |b|
    requires r.TrailingCr? ==> b != []
  {
    match r
    case Nothing => Appended([])
    case TrailingCr => Before([SPACE], Normalized(c, inEntity, open, b[1..]))
    case Invalid(_) => Rejected(InvalidToken)
    case Partial => Rejected(InvalidToken)
    case PartialChar => Aborted
    case TrailingRsqb => Aborted
    case Found(tok, next) => AfterPiece(c, inEntity, open, PieceOf(c, open, tok, b[..next]), b[next..])
  }

  lemma ReferenceIs(c: Config, inEntity: bool, open: set<Bytes>, b: Bytes)
    requires AsciiTables(c) && b != [] && (if inEntity then c.internal else c.external).typeOf(b[0]) == Amp
    ensures var enc := if inEntity then c.internal else c.external;
            Normalized(c, inEntity, open, b) == AfterToken(c, inEntity, open, b, enc.ScanRef(b, 1))
  {
    hide AsciiTable, Encoding.ScanRef, Encoding.Width, Before, Utf8Encode, CharRefNumber, ReferenceName, PredefinedEntity, Means;
    var enc := if inEntity then c.internal else c.external;
    TagMarks(enc, b[0]);
    if enc.ScanRef(b, 1).Found? { ReferenceMeans(enc, b, 0); }
  }

  // a line end counts as one character
  lemma WhiteIs(c: Config, inEntity: bool, open: set<Bytes>, b: Bytes)
    requires b != [] && (if inEntity then c.internal else c.external).typeOf(b[0]).White()
    ensures var enc := if inEntity then c.internal else c.external;
            var pair := enc.typeOf(b[0]) == Cr && 1 < |b| && enc.typeOf(b[1]) == Lf;
            Normalized(c, inEntity, open, b) == Before([SPACE], Normalized(c, inEntity, open, if pair then b[2..] else b[1..]))
  {
    hide Encoding.ScanRef, Encoding.Width, Before, PieceOf, Utf8Encode;
    if 1 < |b| {
      assert b[1..][0] == b[1];
      assert b[1..][1..] == b[2..];
    }
  }

  lemma RunAtStart(c: Config, inEntity: bool, open: set<Bytes>, b: Bytes)
    requires b != []
    requires var t := (if inEntity then c.internal else c.external).typeOf(b[0]); t != Amp && t != Lt && !t.White()
    ensures var enc := if inEntity then c.internal else c.external;
            var r := enc.AttributeValueTok(b, 0);
            if r.Found? then
              r.tok == DataChars && Normalized(c, inEntity, open, b) == Before(b[..r.next], Normalized(c, inEntity, open, b[r.next..]))
            else r.Invalid? && Normalized(c, inEntity, open, b) == Rejected(InvalidToken)
  {
    hide Normalized, Before, Encoding.Width;
    RunIs(c, inEntity, open, b, 0);
    assert b[0..] == b;
  }

  lemma TokenIs(c: Config, inEntity: bool, open: set<Bytes>, b: Bytes)
    requires AsciiTables(c)
    ensures var enc := if inEntity then c.internal else c.external;
            Normalized(c, inEntity, open, b) == AfterToken(c, inEntity, open, b, enc.AttributeValueTok(b, 0))
  {
    var enc := if inEntity then c.internal else c.external;
    if b != [] {
      hide AsciiTables, Normalized, AfterPiece, PieceOf, Encoding.ScanRef, Encoding.ValueChars, Encoding.Width, Before, Utf8Encode;
      var t := enc.typeOf(b[0]);
      if t == Amp {
        ReferenceIs(c, inEntity, open, b);
      } else if t == Lt {
        CharIs(c, inEntity, open, b);
      } else if t.White() {
        WhiteIs(c, inEntity, open, b);
        BlankIs(c, inEntity, open, b);
      } else {
        RunAtStart(c, inEntity, open, b);
        TextIs(c, inEntity, open, b, enc.AttributeValueTok(b, 0));
      }
    }
  }

  lemma BlankIs(c: Config, inEntity: bool, open: set<Bytes>, b: Bytes)
    requires b != [] && (if inEntity then c.internal else c.external).typeOf(b[0]).White()
    ensures var enc := if inEntity then c.internal else c.external;
            var pair := enc.typeOf(b[0]) == Cr && 1 < |b| && enc.typeOf(b[1]) == Lf;
            AfterToken(c, inEntity, open, b, enc.AttributeValueTok(b, 0))
            == Before([SPACE], Normalized(c, inEntity, open, if pair then b[2..] else b[1..]))
  {
    hide Normalized, Before;
  }

  lemma TextIs(c: Config, inEntity: bool, open: set<Bytes>, b: Bytes, r: Scan)
    requires r.Invalid? || (r.Found? && r.next <= |b| && r.tok == DataChars)
    ensures AfterToken(c, inEntity, open, b, r)
            == if r.Found? then Before(b[..r.next], Normalized(c, inEntity, open, b[r.next..])) else Rejected(InvalidToken)
  {
    hide Normalized, Before;
  }

  // ----- one pass and two -----

  // what the code has in its pool when the first pass has got to v
  function HeldAfter(isCdata: bool, p: Bytes, v: Value): Value {
    if v.Appended? then Appended(Held(isCdata, p + v.pool)) else v
  }

  lemma HeldBefore(isCdata: bool, p: Bytes, bytes: Bytes, v: Value)
    ensures HeldAfter(isCdata, p, Before(bytes, v)) == HeldAfter(isCdata, p + bytes, v)
  {
    hide Held;
    if v.Appended? { assert p + (bytes + v.pool) == (p + bytes) + v.pool; }
  }

  // One pass over the value keeps what two passes give.
  lemma {:induction false} OnePass(c: Config, inEntity: bool, isCdata: bool, open: set<Bytes>, b: Bytes, p: Bytes)
    requires AsciiTables(c) && (isCdata || Tidy(c, inEntity, open, b))
    ensures Append(c, inEntity, isCdata, open, b, Held(isCdata, p)) == HeldAfter(isCdata, p, Normalized(c, inEntity, open, b))
    decreases c.entities.Keys - open, |b|, 1
  {
    hide AsciiTables, Normalized, AfterPiece, TidyPiece, PieceOf, Encoding.AttributeValueTok, Held, HeldAfter, Before, WithSpace;
    var enc := if inEntity then c.internal else c.external;
    var r := enc.AttributeValueTok(b, 0);
    TokenIs(c, inEntity, open, b);
    if r.Nothing? {
      HeldAfterIs(isCdata, p, []);
      assert p + [] == p;
    } else if r.TrailingCr? {
      HeldSpace(isCdata, p);
      OnePass(c, inEntity, isCdata, open, b[1..], p + [SPACE]);
      HeldBefore(isCdata, p, [SPACE], Normalized(c, inEntity, open, b[1..]));
    } else if r.Found? {
      OnePassToken(c, inEntity, isCdata, open, b, p, r);
    } else {
      HeldAfterElse(isCdata, p, Normalized(c, inEntity, open, b));
    }
  }

  lemma HeldAfterIs(isCdata: bool, p: Bytes, bytes: Bytes)
    ensures HeldAfter(isCdata, p, Appended(bytes)) == Appended(Held(isCdata, p + bytes))
  {
  }

  lemma OnePassToken(c: Config, inEntity: bool, isCdata: bool, open: set<Bytes>, b: Bytes, p: Bytes, r: Scan)
    requires r == (if inEntity then c.internal else c.external).AttributeValueTok(b, 0) && r.Found?
    requires AsciiTables(c)
    requires isCdata || TidyPiece(c, inEntity, open, PieceOf(c, open, r.tok, b[..r.next]), b[r.next..])
    ensures Append(c, inEntity, isCdata, open, b, Held(isCdata, p))
            == HeldAfter(isCdata, p, AfterPiece(c, inEntity, open, PieceOf(c, open, r.tok, b[..r.next]), b[r.next..]))
    decreases c.entities.Keys - open, |b|, 0
  {
    hide AsciiTables, Normalized, Tidy, PieceOf, Encoding.AttributeValueTok, Held, HeldAfter, Before, WithSpace, Utf8Encode;
    var enc := if inEntity then c.internal else c.external;
    var rest := b[r.next..];
    var piece := PieceOf(c, open, r.tok, b[..r.next]);
    var v := Normalized(c, inEntity, open, rest);
    if piece.Text? {
      if !isCdata { TextPiece(c, inEntity, open, b, r); }
      HeldText(isCdata, p, piece.bytes);
      OnePass(c, inEntity, isCdata, open, rest, p + piece.bytes);
      HeldBefore(isCdata, p, piece.bytes, v);
    } else if piece.Number? {
      NumberPiece(c, open, r.tok, b[..r.next]);
      HeldNumber(isCdata, p, piece.n);
      OnePass(c, inEntity, isCdata, open, rest, p + Utf8Encode(piece.n));
      HeldBefore(isCdata, p, Utf8Encode(piece.n), v);
    } else if piece.Blank? {
      HeldSpace(isCdata, p);
      OnePass(c, inEntity, isCdata, open, rest, p + [SPACE]);
      HeldBefore(isCdata, p, [SPACE], v);
    } else if piece.Entry? {
      OnePass(c, true, isCdata, open + {piece.name}, piece.text, p);
      var inner := Normalized(c, true, open + {piece.name}, piece.text);
      if inner.Appended? {
        HeldAfterIs(isCdata, p, inner.pool);
        OnePass(c, inEntity, isCdata, open, rest, p + inner.pool);
        HeldBefore(isCdata, p, inner.pool, v);
      } else {
        HeldAfterElse(isCdata, p, inner);
      }
    } else if piece.Pass? {
      OnePass(c, inEntity, isCdata, open, rest, p);
    } else {
      HeldAfterElse(isCdata, p, AfterPiece(c, inEntity, open, piece, rest));
    }
  }

  lemma HeldAfterElse(isCdata: bool, p: Bytes, v: Value)
    requires !v.Appended?
    ensures HeldAfter(isCdata, p, v) == v
  {
  }

  lemma NoSpaceTight(text: Bytes)
    requires SPACE !in text
    ensures Tight(text)
  {
    assert forall i :: 0 <= i < |text| ==> text[i] in text;
  }

  lemma HeldNumber(isCdata: bool, p: Bytes, n: int)
    requires n == 0x20 ==> Utf8Encode(n) == [SPACE]
    requires n != 0x20 ==> SPACE !in Utf8Encode(n)
    ensures WithNumber(isCdata, Held(isCdata, p), n) == Held(isCdata, p + Utf8Encode(n))
  {
    hide Held, Utf8Encode;
    if n != 0x20 { NoSpaceTight(Utf8Encode(n)); }
    if n == 0x20 { HeldSpace(isCdata, p); } else { HeldText(isCdata, p, Utf8Encode(n)); }
  }

  // a run of data characters begins with no space, nor does a predefined entity
  lemma TextPiece(c: Config, inEntity: bool, open: set<Bytes>, b: Bytes, r: Scan)
    requires r == (if inEntity then c.internal else c.external).AttributeValueTok(b, 0) && r.Found? && AsciiTables(c)
    requires PieceOf(c, open, r.tok, b[..r.next]).Text?
    ensures var text := PieceOf(c, open, r.tok, b[..r.next]).bytes; text != [] ==> text[0] != SPACE
  {
    hide AsciiTable, Encoding.ScanRef, Encoding.ValueChars, CharRefNumber, ReferenceName;
    SpaceIsWhite(c.external);
    SpaceIsWhite(c.internal);
    var enc := if inEntity then c.internal else c.external;
    if enc.typeOf(b[0]) == Amp { RefToken(enc, b, 1); }
  }

  // ----- runs that are not tidy -----

  // The pool only grows, what the pass accepts does not depend on it, and once two spaces are
  // in a row in it they stay.
  lemma {:induction false} SameFate(c: Config, inEntity: bool, isCdata: bool, open: set<Bytes>, b: Bytes, q: Bytes)
    requires AsciiTables(c)
    ensures var v, a := Normalized(c, inEntity, open, b), Append(c, inEntity, isCdata, open, b, q);
            if v.Appended? then
              a.Appended? && q <= a.pool && (!NoDouble(q) || !Tidy(c, inEntity, open, b) ==> !NoDouble(a.pool))
            else a == v
    decreases c.entities.Keys - open, |b|, 1
  {
    hide AsciiTables, Normalized, AfterPiece, TidyPiece, PieceOf, Encoding.AttributeValueTok, Before, WithSpace, NoDouble;
    var enc := if inEntity then c.internal else c.external;
    var r := enc.AttributeValueTok(b, 0);
    TokenIs(c, inEntity, open, b);
    if r.TrailingCr? {
      BeforeFate([SPACE], Normalized(c, inEntity, open, b[1..]));
      SpaceGrows(isCdata, q);
      SameFate(c, inEntity, isCdata, open, b[1..], WithSpace(isCdata, q));
    } else if r.Found? {
      SameFateToken(c, inEntity, isCdata, open, b, q, r);
    }
  }

  lemma BeforeFate(bytes: Bytes, v: Value)
    ensures if v.Appended? then Before(bytes, v).Appended? else Before(bytes, v) == v
  {
  }

  lemma Grows(q: Bytes, text: Bytes)
    ensures q <= q + text && (!NoDouble(q) || !NoDouble(text) ==> !NoDouble(q + text))
  {
    hide NoDouble;
    var s := q + text;
    if !NoDouble(q) { StaysDouble(q, s, 0); }
    if !NoDouble(text) { StaysDouble(text, s, |q|); }
  }

  lemma StaysDouble(q: Bytes, s: Bytes, k: nat)
    requires !NoDouble(q) && k + |q| <= |s| && s[k..k + |q|] == q
    ensures !NoDouble(s)
  {
    var i, j :| 0 <= i < |q| && 0 <= j < |q| && j == i + 1 && q[i] == SPACE && q[j] == SPACE;
    assert s[k + i] == q[i] && s[k + j] == q[j];
  }

  lemma SpaceGrows(isCdata: bool, q: Bytes)
    ensures q <= WithSpace(isCdata, q) && (!NoDouble(q) ==> !NoDouble(WithSpace(isCdata, q)))
  {
    hide NoDouble;
    Grows(q, [SPACE]);
  }

  lemma SameFateToken(c: Config, inEntity: bool, isCdata: bool, open: set<Bytes>, b: Bytes, q: Bytes, r: Scan)
    requires AsciiTables(c)
    requires r == (if inEntity then c.internal else c.external).AttributeValueTok(b, 0) && r.Found?
    ensures var piece, rest := PieceOf(c, open, r.tok, b[..r.next]), b[r.next..];
            var v, a := AfterPiece(c, inEntity, open, piece, rest), Append(c, inEntity, isCdata, open, b, q);
            if v.Appended? then
              a.Appended? && q <= a.pool && (!NoDouble(q) || !TidyPiece(c, inEntity, open, piece, rest) ==> !NoDouble(a.pool))
            else a == v
    decreases c.entities.Keys - open, |b|, 0
  {
    hide AsciiTables, Normalized, Tidy, PieceOf, Encoding.AttributeValueTok, Before, WithSpace, Utf8Encode, NoDouble;
    var rest := b[r.next..];
    var piece := PieceOf(c, open, r.tok, b[..r.next]);
    var v := Normalized(c, inEntity, open, rest);
    if piece.Text? {
      Grows(q, piece.bytes);
      SameFate(c, inEntity, isCdata, open, rest, q + piece.bytes);
      BeforeFate(piece.bytes, v);
    } else if piece.Number? {
      NumberPiece(c, open, r.tok, b[..r.next]);
      Grows(q, Utf8Encode(piece.n));
      SpaceGrows(isCdata, q);
      SameFate(c, inEntity, isCdata, open, rest, WithNumber(isCdata, q, piece.n));
      BeforeFate(Utf8Encode(piece.n), v);
    } else if piece.Blank? {
      SpaceGrows(isCdata, q);
      SameFate(c, inEntity, isCdata, open, rest, WithSpace(isCdata, q));
      BeforeFate([SPACE], v);
    } else if piece.Entry? {
      SameFate(c, true, isCdata, open + {piece.name}, piece.text, q);
      var inner := Append(c, true, isCdata, open + {piece.name}, piece.text, q);
      if inner.Appended? {
        SameFate(c, inEntity, isCdata, open, rest, inner.pool);
        BeforeFate(Normalized(c, true, open + {piece.name}, piece.text).pool, v);
      }
    } else if piece.Pass? {
      SameFate(c, inEntity, isCdata, open, rest, q);
    }
  }

  lemma {:induction false} SqueezedTight(s: Bytes)
    ensures Tight(Squeezed(s))
  {
    if s != [] {
      var q, x := Squeezed(s[..|s| - 1]), s[|s| - 1];
      SqueezedTight(s[..|s| - 1]);
      assert q != [] ==> (q + [x])[0] == q[0];
    }
  }

  // Two spaces in a row in the pool are one too many, also when the last byte is chopped.
  lemma DoubleShows(s: Bytes, q: Bytes)
    requires !NoDouble(q)
    ensures Chop(false, q) != Collapsed(s)
  {
    hide Collapsed;
    ChopIsCollapsed(s);
    SqueezedTight(s);
    var i, j :| 0 <= i < |q| && 0 <= j < |q| && j == i + 1 && q[i] == SPACE && q[j] == SPACE;
    assert Chop(false, q)[i] == SPACE;
  }

  // ----- the theorem -----

  // storeAttributeValue fails alike for either type of attribute; for CDATA it gives the value
  // that section 3.3.3 asks for, and for other types exactly if the value is tidy.
  lemma StoreIsNormalized(c: Config, isCdata: bool, open: set<Bytes>, b: Bytes)
    requires AsciiTables(c)
    ensures var v := Normalized(c, false, open, b);
            if v.Appended? then
              Store(c, isCdata, open, b) == Appended(if isCdata then v.pool else Collapsed(v.pool)) <==> isCdata || Tidy(c, false, open, b)
            else Store(c, isCdata, open, b) == v
  {
    hide AsciiTables, Append, Normalized, Collapsed, Squeezed, Tidy, NoDouble;
    var v := Normalized(c, false, open, b);
    SameFate(c, false, isCdata, open, b, []);
    if isCdata || Tidy(c, false, open, b) {
      OnePass(c, false, isCdata, open, b, []);
      EmptyHeld(isCdata);
      if v.Appended? {
        assert [] + v.pool == v.pool;
        if !isCdata { ChopIsCollapsed(v.pool); }
      }
    } else if v.Appended? {
      DoubleShows(v.pool, Append(c, false, false, open, b, []).pool);
    }
  }

  // What is well formed is tidy.
  lemma {:induction false} ApartIsTidy(c: Config, inEntity: bool, open: set<Bytes>, b: Bytes)
    requires SpacesApart(if inEntity then c.internal else c.external, b) && EntitiesApart(c)
    ensures Tidy(c, inEntity, open, b)
    decreases c.entities.Keys - open, |b|
  {
    hide PieceOf, Encoding.AttributeValueTok, SpacesApart, NoDouble;
    var enc := if inEntity then c.internal else c.external;
    var r := enc.AttributeValueTok(b, 0);
    if r.TrailingCr? {
      ApartFrom(enc, b, 1);
      ApartIsTidy(c, inEntity, open, b[1..]);
    } else if r.Found? {
      var piece := PieceOf(c, open, r.tok, b[..r.next]);
      ApartFrom(enc, b, r.next);
      ApartIsTidy(c, inEntity, open, b[r.next..]);
      if piece.Text? { ApartText(c, inEntity, open, b, r); NoSpaceTight(piece.bytes); }
      if piece.Entry? { ApartIsTidy(c, true, open + {piece.name}, piece.text); }
    }
  }

  lemma ApartText(c: Config, inEntity: bool, open: set<Bytes>, b: Bytes, r: Scan)
    requires r == (if inEntity then c.internal else c.external).AttributeValueTok(b, 0) && r.Found?
    requires SpacesApart(if inEntity then c.internal else c.external, b)
    requires PieceOf(c, open, r.tok, b[..r.next]).Text?
    ensures SPACE !in PieceOf(c, open, r.tok, b[..r.next]).bytes
  {
    if r.tok == DataChars {
      hide Normalized, SpacesApart;
      RunAtStart(c, inEntity, open, b);
      RunApart(if inEntity then c.internal else c.external, b, 0);
    }
  }

  lemma EmptyHeld(isCdata: bool)
    ensures Held(isCdata, []) == []
  {
  }

  // A lead byte followed by two spaces is no character of UTF-8, but the scanners take it for
  // one: its spaces are no white space to the code, and are to the second pass.
  lemma BrokenCharacter(c: Config, open: set<Bytes>)
    requires AsciiTables(c) && c.external.typeOf(0xE3) == Lead3
    ensures var b: Bytes := [0xE3, SPACE, SPACE];
            && Normalized(c, false, open, b) == Appended(b)
            && Store(c, false, open, b) != Appended(Collapsed(b))
  {
    hide AsciiTables, Normalized, Store, Collapsed, Tidy, Encoding.AttributeValueTok;
    var b: Bytes := [0xE3, SPACE, SPACE];
    BrokenToken(c.external);
    BrokenUntidy(c, open);
    assert b[..3] == b && b[3..] == [] && b + [] == b;
    RunAtStart(c, false, open, b);
    NothingNormalized(c, open);
    StoreIsNormalized(c, false, open, b);
  }

  lemma BrokenUntidy(c: Config, open: set<Bytes>)
    requires c.external.typeOf(0xE3) == Lead3
    ensures !Tidy(c, false, open, [0xE3, SPACE, SPACE])
  {
    hide PieceOf, Encoding.AttributeValueTok;
    var b: Bytes := [0xE3, SPACE, SPACE];
    BrokenToken(c.external);
    TextIsPiece(c, open, b);
    assert b[..3] == b;
    assert b[1] == SPACE && b[2] == SPACE;
  }

  lemma NothingNormalized(c: Config, open: set<Bytes>)
    ensures Normalized(c, false, open, []) == Appended([])
  {
  }

  lemma BrokenToken(enc: Encoding)
    requires enc.typeOf(0xE3) == Lead3
    ensures enc.AttributeValueTok([0xE3, SPACE, SPACE], 0) == Found(DataChars, 3)
  {
    var b: Bytes := [0xE3, SPACE, SPACE];
    assert enc.Width(b, 0) == 3 && enc.ValueChars(b, 3) == Found(DataChars, 3);
  }

  lemma TextIsPiece(c: Config, open: set<Bytes>, raw: Bytes)
    ensures PieceOf(c, open, DataChars, raw) == Text(raw)
  {
  }
}

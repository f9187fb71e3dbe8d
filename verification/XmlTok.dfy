// The character classes, tokens and scanners of expat-lite (xmltok_impl.c), for an
// encoding whose characters take at least one byte each.  An Encoding carries the
// table and the three multi-byte predicates of struct normal_encoding; every result
// below holds for every such encoding.  A scanner is a function of the whole buffer
// (its end is the scan's end) and of a position in it.  The byte loops that compute
// these functions are in XmlScanners.
module XmlTok {
  import opened Collections

  newtype byte = x: int | 0 <= x < 256

  const GT: byte := 0x3E
  const RSQB: byte := 0x5D
  const MINUS: byte := 0x2D
  const LOWER_X: byte := 0x78
  const CDATA_LSQB: seq<byte> := [0x43, 0x44, 0x41, 0x54, 0x41, 0x5B]

  datatype ByteType =
    | NonXml | Malform | Lt | Amp | Rsqb | Lead2 | Lead3 | Lead4 | Trail | Cr | Lf | Gt | Quot | Apos
    | Equals | Quest | Excl | Sol | Semi | Num | Lsqb | Space | Nmstrt | Colon | Hex | Digit | NameCh
    | Minus | Other | NonAscii | Percnt | Lpar | Rpar | Ast | Plus | Comma | Verbar
  {
    // the class the scanners treat as white space
    predicate White() { this == Space || this == Cr || this == Lf }
  }

  datatype Token =
    | StartTagWithAtts | StartTagNoAtts | EmptyElementWithAtts | EmptyElementNoAtts | EndTag
    | DataChars | DataNewline | CdataSectOpen | EntityRef | CharRef | Pi | XmlDecl | Comment
    | PrologS | DeclOpen | DeclClose | Name | Nmtoken | PoundName | Or | PercentSign | OpenParen | CloseParen
    | OpenBracket | CloseBracket | Literal | ParamEntityRef | InstanceStart
    | NameQuestion | NameAsterisk | NamePlus | CondSectOpen | CondSectClose
    | CloseParenQuestion | CloseParenAsterisk | CloseParenPlus | CommaSep
    | AttributeValueS | CdataSectClose | PrefixedName
  {
    predicate IsStartOrEmpty() {
      StartTagWithAtts? || StartTagNoAtts? || EmptyElementWithAtts? || EmptyElementNoAtts?
    }
  }

  datatype Scan =
    | Found(tok: Token, next: nat)
    | Invalid(at: nat)
    | Partial
    | PartialChar
    | TrailingCr
    | TrailingRsqb
    | Nothing
  {
    // the scanner did not need to see what follows the buffer
    predicate Complete() { Found? || Invalid? }
  }

  // What one character contributes to a scan: step over it, stop the scan with a
  // result, or leave it to the scanner's own cases.
  datatype Step = Advance(next: nat) | Halt(r: Scan) | Unlisted

  // The three families of cases the scanners share (CHECK_NAME_CASES,
  // CHECK_NMSTRT_CASES and INVALID_CASES).
  datatype CharClass = NameChars | NmstrtChars | ValidChars

  datatype Encoding = Encoding(
    typeOf: byte -> ByteType,
    isName: seq<byte> -> bool,
    isNmstrt: seq<byte> -> bool,
    isInvalid: seq<byte> -> bool)
  {
    predicate Accepts(cls: CharClass, s: seq<byte>) {
      match cls
      case NameChars => isName(s)
      case NmstrtChars => isNmstrt(s)
      case ValidChars => !isInvalid(s)
    }

    function MultiByte(cls: CharClass, b: seq<byte>, i: nat, n: nat): (s: Step)
      requires i < |b| && 0 < n
      ensures s.Advance? ==> i < s.next <= |b|
      ensures s.Halt? ==> s.r == PartialChar || s.r == Invalid(i)
    {
      if |b| - i < n then Halt(PartialChar)
      else if Accepts(cls, b[i..i + n]) then Advance(i + n)
      else Halt(Invalid(i))
    }

    function CharStep(cls: CharClass, b: seq<byte>, i: nat): (s: Step)
      requires i < |b|
      ensures s.Advance? ==> i < s.next <= |b|
      ensures s.Halt? ==> s.r == PartialChar || s.r == Invalid(i)
    {
      match typeOf(b[i])
      case Lead2 => MultiByte(cls, b, i, 2)
      case Lead3 => MultiByte(cls, b, i, 3)
      case Lead4 => MultiByte(cls, b, i, 4)
      case NonXml => if cls == ValidChars then Halt(Invalid(i)) else Unlisted
      case Malform => if cls == ValidChars then Halt(Invalid(i)) else Unlisted
      case Trail => if cls == ValidChars then Halt(Invalid(i)) else Unlisted
      case NonAscii => if cls == ValidChars then Unlisted else MultiByte(cls, b, i, 1)
      case Nmstrt => if cls == ValidChars then Unlisted else Advance(i + 1)
      case Hex => if cls == ValidChars then Unlisted else Advance(i + 1)
      case Digit => if cls == NameChars then Advance(i + 1) else Unlisted
      case NameCh => if cls == NameChars then Advance(i + 1) else Unlisted
      case Minus => if cls == NameChars then Advance(i + 1) else Unlisted
      case _ => Unlisted
    }

    // ----- comments, processing instructions, CDATA openers -----

    // after "<!-"
    function ScanComment(b: seq<byte>, i: nat): (r: Scan)
      requires i <= |b|
      ensures InScan(r, b, i)
    {
      if i == |b| then Partial
      else if b[i] != MINUS then Invalid(i)
      else CommentBody(b, i + 1)
    }

    function CommentBody(b: seq<byte>, i: nat): (r: Scan)
      requires i <= |b|
      ensures InScan(r, b, i)
      decreases |b| - i
    {
      if i == |b| then Partial else
      match CharStep(ValidChars, b, i)
      case Advance(j) => CommentBody(b, j)
      case Halt(r) => r
      case Unlisted =>
        if typeOf(b[i]) != Minus then CommentBody(b, i + 1)
        else if i + 1 == |b| then Partial
        else if b[i + 1] != MINUS then CommentBody(b, i + 1)
        else if i + 2 == |b| then Partial
        else if b[i + 2] != GT then Invalid(i + 2)
        else Found(Comment, i + 3)
    }

    // after "<?"
    function ScanPi(b: seq<byte>, i: nat): (r: Scan)
      requires i <= |b|
      ensures InScan(r, b, i)
    {
      if i == |b| then Partial else
      match CharStep(NmstrtChars, b, i)
      case Advance(j) => PiTarget(b, i, j)
      case Halt(r) => r
      case Unlisted => Invalid(i)
    }

    function PiTarget(b: seq<byte>, target: nat, i: nat): (r: Scan)
      requires target <= i <= |b|
      ensures InScan(r, b, i)
      decreases |b| - i
    {
      if i == |b| then Partial else
      match CharStep(NameChars, b, i)
      case Advance(j) => PiTarget(b, target, j)
      case Halt(r) => r
      case Unlisted =>
        var tok := PiToken(b[target..i]);
        if typeOf(b[i]).White() then
          if tok.None? then Invalid(i) else PiBody(b, tok.value, i + 1)
        else if typeOf(b[i]) == Quest then
          if tok.None? then Invalid(i)
          else if i + 1 == |b| then Partial
          else if b[i + 1] == GT then Found(tok.value, i + 2)
          else Invalid(i + 1)
        else Invalid(i)
    }

    function PiBody(b: seq<byte>, tok: Token, i: nat): (r: Scan)
      requires i <= |b| && tok in {Pi, XmlDecl}
      ensures InScan(r, b, i)
      decreases |b| - i
    {
      if i == |b| then Partial else
      match CharStep(ValidChars, b, i)
      case Advance(j) => PiBody(b, tok, j)
      case Halt(r) => r
      case Unlisted =>
        if typeOf(b[i]) != Quest then PiBody(b, tok, i + 1)
        else if i + 1 == |b| then Partial
        else if b[i + 1] == GT then Found(tok, i + 2)
        else PiBody(b, tok, i + 1)
    }

    // after "<!["
    function ScanCdataSection(b: seq<byte>, i: nat): (r: Scan)
      requires i <= |b|
      ensures InScan(r, b, i)
    {
      if |b| - i < 6 then Partial else MatchCdata(b, i, 0)
    }

    function MatchCdata(b: seq<byte>, i: nat, k: nat): (r: Scan)
      requires i + 6 <= |b| && k <= 6
      ensures InScan(r, b, i)
      decreases 6 - k
    {
      if k == 6 then Found(CdataSectOpen, i + 6)
      else if b[i + k] != CDATA_LSQB[k] then Invalid(i + k)
      else MatchCdata(b, i, k + 1)
    }

    // ----- end tags and references -----

    // after "</"
    function ScanEndTag(b: seq<byte>, i: nat): (r: Scan)
      requires i <= |b|
      ensures InScan(r, b, i)
    {
      if i == |b| then Partial else
      match CharStep(NmstrtChars, b, i)
      case Advance(j) => EndTagName(b, j)
      case Halt(r) => r
      case Unlisted => Invalid(i)
    }

    function EndTagName(b: seq<byte>, i: nat): (r: Scan)
      requires i <= |b|
      ensures InScan(r, b, i)
      decreases |b| - i
    {
      if i == |b| then Partial else
      match CharStep(NameChars, b, i)
      case Advance(j) => EndTagName(b, j)
      case Halt(r) => r
      case Unlisted =>
        if typeOf(b[i]).White() then EndTagSpace(b, i + 1)
        else if typeOf(b[i]) == Colon then EndTagName(b, i + 1)
        else if typeOf(b[i]) == Gt then Found(EndTag, i + 1)
        else Invalid(i)
    }

    function EndTagSpace(b: seq<byte>, i: nat): (r: Scan)
      requires i <= |b|
      ensures InScan(r, b, i)
      decreases |b| - i
    {
      if i == |b| then Partial
      else if typeOf(b[i]).White() then EndTagSpace(b, i + 1)
      else if typeOf(b[i]) == Gt then Found(EndTag, i + 1)
      else Invalid(i)
    }

    // after "&"
    function ScanRef(b: seq<byte>, i: nat): (r: Scan)
      requires i <= |b|
      ensures InScan(r, b, i)
    {
      if i == |b| then Partial else
      match CharStep(NmstrtChars, b, i)
      case Advance(j) => RefName(b, j)
      case Halt(r) => r
      case Unlisted => if typeOf(b[i]) == Num then ScanCharRef(b, i + 1) else Invalid(i)
    }

    function RefName(b: seq<byte>, i: nat): (r: Scan)
      requires i <= |b|
      ensures InScan(r, b, i)
      decreases |b| - i
    {
      if i == |b| then Partial else
      match CharStep(NameChars, b, i)
      case Advance(j) => RefName(b, j)
      case Halt(r) => r
      case Unlisted => if typeOf(b[i]) == Semi then Found(EntityRef, i + 1) else Invalid(i)
    }

    // after "&#"
    function ScanCharRef(b: seq<byte>, i: nat): (r: Scan)
      requires i <= |b|
      ensures InScan(r, b, i)
    {
      if i == |b| then Partial
      else if b[i] == LOWER_X then ScanHexCharRef(b, i + 1)
      else if typeOf(b[i]) == Digit then DecDigits(b, i + 1)
      else Invalid(i)
    }

    function DecDigits(b: seq<byte>, i: nat): (r: Scan)
      requires i <= |b|
      ensures InScan(r, b, i)
      decreases |b| - i
    {
      if i == |b| then Partial
      else if typeOf(b[i]) == Digit then DecDigits(b, i + 1)
      else if typeOf(b[i]) == Semi then Found(CharRef, i + 1)
      else Invalid(i)
    }

    // after "&#x"
    function ScanHexCharRef(b: seq<byte>, i: nat): (r: Scan)
      requires i <= |b|
      ensures InScan(r, b, i)
    {
      if i == |b| then Partial
      else if typeOf(b[i]) == Digit || typeOf(b[i]) == Hex then HexDigits(b, i + 1)
      else Invalid(i)
    }

    function HexDigits(b: seq<byte>, i: nat): (r: Scan)
      requires i <= |b|
      ensures InScan(r, b, i)
      decreases |b| - i
    {
      if i == |b| then Partial
      else if typeOf(b[i]) == Digit || typeOf(b[i]) == Hex then HexDigits(b, i + 1)
      else if typeOf(b[i]) == Semi then Found(CharRef, i + 1)
      else Invalid(i)
    }

    // ----- start tags -----

    // after "/" of an empty-element tag
    function EmptyEnd(b: seq<byte>, tok: Token, i: nat): (r: Scan)
      requires i <= |b| && tok in {EmptyElementWithAtts, EmptyElementNoAtts}
      ensures InScan(r, b, i)
      ensures r.Found? ==> r.tok == tok
    {
      if i == |b| then Partial
      else if b[i] != GT then Invalid(i)
      else Found(tok, i + 1)
    }

    // in an attribute name, after its first character
    function AttName(b: seq<byte>, hadColon: bool, i: nat): (r: Scan)
      requires i <= |b|
      ensures InScan(r, b, i)
      ensures r.Found? ==> r.tok in {StartTagWithAtts, EmptyElementWithAtts}
      decreases |b| - i
    {
      if i == |b| then Partial else
      match CharStep(NameChars, b, i)
      case Advance(j) => AttName(b, hadColon, j)
      case Halt(r) => r
      case Unlisted =>
        if typeOf(b[i]) == Colon then
          if hadColon then Invalid(i)
          else if i + 1 == |b| then Partial
          else (match CharStep(NmstrtChars, b, i + 1)
                case Advance(j) => AttName(b, true, j)
                case Halt(r) => r
                case Unlisted => Invalid(i + 1))
        else if typeOf(b[i]).White() then AttBeforeEquals(b, i + 1)
        else if typeOf(b[i]) == Equals then AttAfterEquals(b, i + 1)
        else Invalid(i)
    }

    function AttBeforeEquals(b: seq<byte>, i: nat): (r: Scan)
      requires i <= |b|
      ensures InScan(r, b, i)
      ensures r.Found? ==> r.tok in {StartTagWithAtts, EmptyElementWithAtts}
      decreases |b| - i
    {
      if i == |b| then Partial
      else if typeOf(b[i]) == Equals then AttAfterEquals(b, i + 1)
      else if typeOf(b[i]).White() then AttBeforeEquals(b, i + 1)
      else Invalid(i)
    }

    function AttAfterEquals(b: seq<byte>, i: nat): (r: Scan)
      requires i <= |b|
      ensures InScan(r, b, i)
      ensures r.Found? ==> r.tok in {StartTagWithAtts, EmptyElementWithAtts}
      decreases |b| - i
    {
      if i == |b| then Partial
      else if typeOf(b[i]) == Quot || typeOf(b[i]) == Apos then AttValue(b, typeOf(b[i]), i + 1)
      else if typeOf(b[i]).White() then AttAfterEquals(b, i + 1)
      else Invalid(i)
    }

    // inside the quotes
    function AttValue(b: seq<byte>, open: ByteType, i: nat): (r: Scan)
      requires i <= |b|
      ensures InScan(r, b, i)
      ensures r.Found? ==> r.tok in {StartTagWithAtts, EmptyElementWithAtts}
      decreases |b| - i
    {
      if i == |b| then Partial
      else if typeOf(b[i]) == open then AttValueEnd(b, i + 1)
      else
        match CharStep(ValidChars, b, i)
        case Advance(j) => AttValue(b, open, j)
        case Halt(r) => r
        case Unlisted =>
          if typeOf(b[i]) == Amp then
            var r := ScanRef(b, i + 1);
            if r.Found? then AttValue(b, open, r.next) else r
          else if typeOf(b[i]) == Lt then Invalid(i)
          else AttValue(b, open, i + 1)
    }

    // after the closing quote
    function AttValueEnd(b: seq<byte>, i: nat): (r: Scan)
      requires i <= |b|
      ensures InScan(r, b, i)
      ensures r.Found? ==> r.tok in {StartTagWithAtts, EmptyElementWithAtts}
      decreases |b| - i
    {
      if i == |b| then Partial
      else if typeOf(b[i]).White() then AttNext(b, i + 1)
      else if typeOf(b[i]) == Sol then EmptyEnd(b, EmptyElementWithAtts, i + 1)
      else if typeOf(b[i]) == Gt then Found(StartTagWithAtts, i + 1)
      else Invalid(i)
    }

    // after white space that follows an attribute value
    function AttNext(b: seq<byte>, i: nat): (r: Scan)
      requires i <= |b|
      ensures InScan(r, b, i)
      ensures r.Found? ==> r.tok in {StartTagWithAtts, EmptyElementWithAtts}
      decreases |b| - i
    {
      if i == |b| then Partial else
      match CharStep(NmstrtChars, b, i)
      case Advance(j) => AttName(b, false, j)
      case Halt(r) => r
      case Unlisted =>
        if typeOf(b[i]).White() then AttNext(b, i + 1)
        else if typeOf(b[i]) == Gt then Found(StartTagWithAtts, i + 1)
        else if typeOf(b[i]) == Sol then EmptyEnd(b, EmptyElementWithAtts, i + 1)
        else Invalid(i)
    }

    // in the element type name of a start tag, after its first character
    function StartName(b: seq<byte>, hadColon: bool, i: nat): (r: Scan)
      requires i <= |b|
      ensures InScan(r, b, i)
      ensures r.Found? ==> r.tok.IsStartOrEmpty()
      decreases |b| - i
    {
      if i == |b| then Partial else
      match CharStep(NameChars, b, i)
      case Advance(j) => StartName(b, hadColon, j)
      case Halt(r) => r
      case Unlisted =>
        if typeOf(b[i]) == Colon then
          if hadColon then Invalid(i)
          else if i + 1 == |b| then Partial
          else (match CharStep(NmstrtChars, b, i + 1)
                case Advance(j) => StartName(b, true, j)
                case Halt(r) => r
                case Unlisted => Invalid(i + 1))
        else if typeOf(b[i]).White() then StartSpace(b, i + 1)
        else if typeOf(b[i]) == Gt then Found(StartTagNoAtts, i + 1)
        else if typeOf(b[i]) == Sol then EmptyEnd(b, EmptyElementNoAtts, i + 1)
        else Invalid(i)
    }

    // after white space that follows the element type name
    function StartSpace(b: seq<byte>, i: nat): (r: Scan)
      requires i <= |b|
      ensures InScan(r, b, i)
      ensures r.Found? ==> r.tok.IsStartOrEmpty()
      decreases |b| - i
    {
      if i == |b| then Partial else
      match CharStep(NmstrtChars, b, i)
      case Advance(j) => AttName(b, false, j)
      case Halt(r) => r
      case Unlisted =>
        if typeOf(b[i]) == Gt then Found(StartTagNoAtts, i + 1)
        else if typeOf(b[i]) == Sol then EmptyEnd(b, EmptyElementNoAtts, i + 1)
        else if typeOf(b[i]).White() then StartSpace(b, i + 1)
        else Invalid(i)
    }

    // after "<"
    function ScanLt(b: seq<byte>, i: nat): (r: Scan)
      requires i <= |b|
      ensures InScan(r, b, i)
    {
      if i == |b| then Partial else
      match CharStep(NmstrtChars, b, i)
      case Advance(j) => StartName(b, false, j)
      case Halt(r) => r
      case Unlisted =>
        if typeOf(b[i]) == Excl then
          if i + 1 == |b| then Partial
          else if typeOf(b[i + 1]) == Minus then ScanComment(b, i + 2)
          else if typeOf(b[i + 1]) == Lsqb then ScanCdataSection(b, i + 2)
          else Invalid(i + 1)
        else if typeOf(b[i]) == Quest then ScanPi(b, i + 1)
        else if typeOf(b[i]) == Sol then ScanEndTag(b, i + 1)
        else Invalid(i)
    }

    // ----- content -----

    function ContentTok(b: seq<byte>, i: nat): (r: Scan)
      requires i <= |b|
      ensures r.Found? ==> i < r.next <= |b|
    {
      if i == |b| then Nothing else
      match CharStep(ValidChars, b, i)
      case Advance(j) => ContentChars(b, j)
      case Halt(r) => r
      case Unlisted =>
        var t := typeOf(b[i]);
        if t == Lt then ScanLt(b, i + 1)
        else if t == Amp then ScanRef(b, i + 1)
        else if t == Cr then
          if i + 1 == |b| then TrailingCr
          else if typeOf(b[i + 1]) == Lf then Found(DataNewline, i + 2)
          else Found(DataNewline, i + 1)
        else if t == Lf then Found(DataNewline, i + 1)
        else if t == Rsqb then
          if i + 1 == |b| then TrailingRsqb
          else if b[i + 1] != RSQB then ContentChars(b, i + 1)
          else if i + 2 == |b| then TrailingRsqb
          else if b[i + 2] != GT then ContentChars(b, i + 1)
          else Invalid(i + 2)
        else ContentChars(b, i + 1)
    }

    // the rest of a run of character data
    function ContentChars(b: seq<byte>, i: nat): (r: Scan)
      requires i <= |b|
      ensures r.Invalid? || (r.Found? && r.tok == DataChars && i <= r.next <= |b|)
      decreases |b| - i
    {
      if i == |b| then Found(DataChars, i) else
      match CharStep(ValidChars, b, i)
      case Advance(j) => ContentChars(b, j)
      case Halt(_) => Found(DataChars, i)
      case Unlisted =>
        var t := typeOf(b[i]);
        if t == Rsqb then
          if i + 1 == |b| then Found(DataChars, i)
          else if b[i + 1] != RSQB then ContentChars(b, i + 1)
          else if i + 2 == |b| then Found(DataChars, i)
          else if b[i + 2] != GT then ContentChars(b, i + 1)
          else Invalid(i + 2)
        else if t in {Amp, Lt, Cr, Lf} then Found(DataChars, i)
        else ContentChars(b, i + 1)
    }

    // ----- inside a CDATA section -----

    function CdataSectionTok(b: seq<byte>, i: nat): (r: Scan)
      requires i <= |b|
      ensures r.Found? ==> i < r.next <= |b|
      ensures r.Found? ==> r.tok in {DataChars, DataNewline, CdataSectClose}
      ensures r != TrailingCr && r != TrailingRsqb
    {
      if i == |b| then Nothing else
      match CharStep(ValidChars, b, i)
      case Advance(j) => CdataChars(b, j)
      case Halt(r) => r
      case Unlisted =>
        var t := typeOf(b[i]);
        if t == Rsqb then
          if i + 1 == |b| then Partial
          else if b[i + 1] != RSQB then CdataChars(b, i + 1)
          else if i + 2 == |b| then Partial
          else if b[i + 2] != GT then CdataChars(b, i + 1)
          else Found(CdataSectClose, i + 3)
        else if t == Cr then
          if i + 1 == |b| then Partial
          else if typeOf(b[i + 1]) == Lf then Found(DataNewline, i + 2)
          else Found(DataNewline, i + 1)
        else if t == Lf then Found(DataNewline, i + 1)
        else CdataChars(b, i + 1)
    }

    function CdataChars(b: seq<byte>, i: nat): (r: Scan)
      requires i <= |b|
      ensures r.Found? && r.tok == DataChars && i <= r.next <= |b|
      decreases |b| - i
    {
      if i == |b| then Found(DataChars, i) else
      match CharStep(ValidChars, b, i)
      case Advance(j) => CdataChars(b, j)
      case Halt(_) => Found(DataChars, i)
      case Unlisted =>
        if typeOf(b[i]) in {Cr, Lf, Rsqb} then Found(DataChars, i) else CdataChars(b, i + 1)
    }

    // ----- attribute values -----

    // the bytes of the character at i; a multi-byte character has to be whole
    function Width(b: seq<byte>, i: nat): (w: nat)
      requires i < |b|
      ensures 1 <= w <= |b| - i
    {
      var w := if typeOf(b[i]) == Lead2 then 2 else if typeOf(b[i]) == Lead3 then 3
               else if typeOf(b[i]) == Lead4 then 4 else 1;
      if |b| - i < w then |b| - i else w
    }

    function AttributeValueTok(b: seq<byte>, i: nat): (r: Scan)
      requires i <= |b|
      ensures r.Found? ==> i < r.next <= |b|
      ensures r.TrailingCr? ==> i + 1 == |b|
    {
      if i == |b| then Nothing else
      var t := typeOf(b[i]);
      if t == Amp then ScanRef(b, i + 1)
      else if t == Lt then Invalid(i)
      else if t == Lf then Found(DataNewline, i + 1)
      else if t == Cr then
        if i + 1 == |b| then TrailingCr
        else if typeOf(b[i + 1]) == Lf then Found(DataNewline, i + 2)
        else Found(DataNewline, i + 1)
      else if t == Space then Found(AttributeValueS, i + 1)
      else ValueChars(b, i + Width(b, i))
    }

    // the rest of a run of data characters in an attribute value
    function ValueChars(b: seq<byte>, i: nat): (r: Scan)
      requires i <= |b|
      ensures r.Invalid? || (r.Found? && r.tok == DataChars && i <= r.next <= |b|)
      decreases |b| - i
    {
      if i == |b| then Found(DataChars, i)
      else if typeOf(b[i]) == Lt then Invalid(i)
      else if typeOf(b[i]) == Amp || typeOf(b[i]).White() then Found(DataChars, i)
      else ValueChars(b, i + Width(b, i))
    }

    // ----- prolog and epilog -----

    function PrologTok(b: seq<byte>, i: nat): (r: Scan)
      requires i <= |b|
      ensures r.Found? ==> i <= r.next <= |b|
      ensures r.Found? && r.tok != InstanceStart ==> i < r.next
      ensures r != TrailingRsqb
    {
      if i == |b| then Nothing else
      match typeOf(b[i])
      case Quot => ScanLit(b, Quot, i + 1)
      case Apos => ScanLit(b, Apos, i + 1)
      case Lt =>
        if i + 1 == |b| then Partial
        else if typeOf(b[i + 1]) == Excl then ScanDecl(b, i + 2)
        else if typeOf(b[i + 1]) == Quest then ScanPi(b, i + 2)
        else if StartsInstance(typeOf(b[i + 1])) then Found(InstanceStart, i)
        else Invalid(i + 1)
      case Cr => if i + 1 == |b| then TrailingCr else WhiteRun(b, i + 1)
      case Space => WhiteRun(b, i + 1)
      case Lf => WhiteRun(b, i + 1)
      case Percnt => ScanPercent(b, i + 1)
      case Comma => Found(CommaSep, i + 1)
      case Lsqb => Found(OpenBracket, i + 1)
      case Rsqb =>
        if i + 1 == |b| then Partial
        else if b[i + 1] == RSQB && i + 2 == |b| then Partial
        else if b[i + 1] == RSQB && b[i + 2] == GT then Found(CondSectClose, i + 3)
        else Found(CloseBracket, i + 1)
      case Lpar => Found(OpenParen, i + 1)
      case Rpar =>
        if i + 1 == |b| then Partial else
        (match typeOf(b[i + 1])
         case Ast => Found(CloseParenAsterisk, i + 2)
         case Quest => Found(CloseParenQuestion, i + 2)
         case Plus => Found(CloseParenPlus, i + 2)
         case Cr => Found(CloseParen, i + 1)
         case Lf => Found(CloseParen, i + 1)
         case Space => Found(CloseParen, i + 1)
         case Gt => Found(CloseParen, i + 1)
         case Comma => Found(CloseParen, i + 1)
         case Verbar => Found(CloseParen, i + 1)
         case Rpar => Found(CloseParen, i + 1)
         case _ => Invalid(i + 1))
      case Verbar => Found(Or, i + 1)
      case Gt => Found(DeclClose, i + 1)
      case Num => ScanPoundName(b, i + 1)
      case Lead2 => PrologLead(b, i, 2)
      case Lead3 => PrologLead(b, i, 3)
      case Lead4 => PrologLead(b, i, 4)
      case Nmstrt => PrologName(b, Name, i + 1)
      case Hex => PrologName(b, Name, i + 1)
      case Digit => PrologName(b, Nmtoken, i + 1)
      case NameCh => PrologName(b, Nmtoken, i + 1)
      case Minus => PrologName(b, Nmtoken, i + 1)
      case Colon => PrologName(b, Nmtoken, i + 1)
      case NonAscii => PrologLead(b, i, 1)
      case _ => Invalid(i)
    }

    // a byte that makes "<" open an element tag
    static predicate StartsInstance(t: ByteType) {
      t in {Nmstrt, Hex, NonAscii, Lead2, Lead3, Lead4}
    }

    function PrologLead(b: seq<byte>, i: nat, n: nat): (r: Scan)
      requires i < |b| && 0 < n
      ensures InScan(r, b, i)
    {
      if |b| - i < n then PartialChar
      else if isNmstrt(b[i..i + n]) then PrologName(b, Name, i + n)
      else if isName(b[i..i + n]) then PrologName(b, Nmtoken, i + n)
      else Invalid(i)
    }

    // white space never ends between CR and LF
    function WhiteRun(b: seq<byte>, i: nat): (r: Scan)
      requires i <= |b|
      ensures r.Found? && r.tok == PrologS && i <= r.next <= |b|
      decreases |b| - i
    {
      if i == |b| then Found(PrologS, i)
      else if typeOf(b[i]) == Space || typeOf(b[i]) == Lf then WhiteRun(b, i + 1)
      else if typeOf(b[i]) == Cr && i + 1 != |b| then WhiteRun(b, i + 1)
      else Found(PrologS, i)
    }

    function PrologName(b: seq<byte>, tok: Token, i: nat): (r: Scan)
      requires i <= |b| && tok in {Name, Nmtoken, PrefixedName}
      ensures r.Found? ==> i <= r.next <= |b| && r.tok != InstanceStart
      ensures r.Complete() || r == Partial || r == PartialChar
      ensures r.Found? ==> r.tok in {Name, Nmtoken, PrefixedName, NamePlus, NameAsterisk, NameQuestion}
      decreases |b| - i
    {
      if i == |b| then Partial else
      match CharStep(NameChars, b, i)
      case Advance(j) => PrologName(b, tok, j)
      case Halt(r) => r
      case Unlisted =>
        if typeOf(b[i]) in {Gt, Rpar, Comma, Verbar, Lsqb, Percnt, Space, Cr, Lf} then Found(tok, i)
        else if typeOf(b[i]) == Colon then
          if tok == Name then
            if i + 1 == |b| then Partial else
            (match CharStep(NameChars, b, i + 1)
             case Advance(j) => PrologName(b, PrefixedName, j)
             case Halt(r) => r
             case Unlisted => PrologName(b, Nmtoken, i + 1))
          else PrologName(b, Nmtoken, i + 1)
        else if typeOf(b[i]) in {Plus, Ast, Quest} then
          if tok == Nmtoken then Invalid(i)
          else Found(if typeOf(b[i]) == Plus then NamePlus
                     else if typeOf(b[i]) == Ast then NameAsterisk
                     else NameQuestion, i + 1)
        else Invalid(i)
    }

    // after "<!" in the prolog
    function ScanDecl(b: seq<byte>, i: nat): (r: Scan)
      requires i <= |b|
      ensures InScan(r, b, i)
    {
      if i == |b| then Partial
      else if typeOf(b[i]) == Minus then ScanComment(b, i + 1)
      else if typeOf(b[i]) == Lsqb then Found(CondSectOpen, i + 1)
      else if typeOf(b[i]) == Nmstrt || typeOf(b[i]) == Hex then DeclName(b, i + 1)
      else Invalid(i)
    }

    function DeclName(b: seq<byte>, i: nat): (r: Scan)
      requires i <= |b|
      ensures r.Found? ==> i <= r.next <= |b| && r.tok == DeclOpen
      ensures r.Complete() || r == Partial
      decreases |b| - i
    {
      if i == |b| then Partial
      else if typeOf(b[i]) == Percnt then
        if i + 1 == |b| then Partial
        else if typeOf(b[i + 1]).White() || typeOf(b[i + 1]) == Percnt then Invalid(i)
        else Found(DeclOpen, i)
      else if typeOf(b[i]).White() then Found(DeclOpen, i)
      else if typeOf(b[i]) == Nmstrt || typeOf(b[i]) == Hex then DeclName(b, i + 1)
      else Invalid(i)
    }

    // after the opening quote
    function ScanLit(b: seq<byte>, open: ByteType, i: nat): (r: Scan)
      requires i <= |b|
      ensures InScan(r, b, i)
      decreases |b| - i
    {
      if i == |b| then Partial else
      match CharStep(ValidChars, b, i)
      case Advance(j) => ScanLit(b, open, j)
      case Halt(r) => r
      case Unlisted =>
        if typeOf(b[i]) !in {Quot, Apos} || typeOf(b[i]) != open then ScanLit(b, open, i + 1)
        else if i + 1 == |b| then Partial
        else if typeOf(b[i + 1]).White() || typeOf(b[i + 1]) in {Gt, Percnt, Lsqb} then Found(Literal, i + 1)
        else Invalid(i + 1)
    }

    // after "%"
    function ScanPercent(b: seq<byte>, i: nat): (r: Scan)
      requires i <= |b|
      ensures r.Found? ==> i <= r.next <= |b| && r.tok in {PercentSign, ParamEntityRef}
      ensures r.Complete() || r == Partial || r == PartialChar
    {
      if i == |b| then Partial else
      match CharStep(NmstrtChars, b, i)
      case Advance(j) => PercentName(b, j)
      case Halt(r) => r
      case Unlisted =>
        if typeOf(b[i]).White() || typeOf(b[i]) == Percnt then Found(PercentSign, i) else Invalid(i)
    }

    function PercentName(b: seq<byte>, i: nat): (r: Scan)
      requires i <= |b|
      ensures InScan(r, b, i)
      ensures r.Found? ==> r.tok == ParamEntityRef
      decreases |b| - i
    {
      if i == |b| then Partial else
      match CharStep(NameChars, b, i)
      case Advance(j) => PercentName(b, j)
      case Halt(r) => r
      case Unlisted => if typeOf(b[i]) == Semi then Found(ParamEntityRef, i + 1) else Invalid(i)
    }

    // after "#"
    function ScanPoundName(b: seq<byte>, i: nat): (r: Scan)
      requires i <= |b|
      ensures InScan(r, b, i)
    {
      if i == |b| then Partial else
      match CharStep(NmstrtChars, b, i)
      case Advance(j) => PoundNameRest(b, j)
      case Halt(r) => r
      case Unlisted => Invalid(i)
    }

    function PoundNameRest(b: seq<byte>, i: nat): (r: Scan)
      requires i <= |b|
      ensures r.Found? ==> i <= r.next <= |b| && r.tok == PoundName
      ensures r.Complete() || r == Partial || r == PartialChar
      decreases |b| - i
    {
      if i == |b| then Partial else
      match CharStep(NameChars, b, i)
      case Advance(j) => PoundNameRest(b, j)
      case Halt(r) => r
      case Unlisted =>
        if typeOf(b[i]).White() || typeOf(b[i]) in {Rpar, Gt, Percnt, Verbar} then Found(PoundName, i) else Invalid(i)
    }
  }

  // A scanner makes progress and ends inside the buffer, or says why it cannot.
  predicate InScan(r: Scan, b: seq<byte>, i: nat) {
    && (r.Found? ==> i < r.next <= |b| && r.tok != InstanceStart && r.tok != PrologS && r.tok != DataChars)
    && (r.Complete() || r == Partial || r == PartialChar)
  }

  // The token of a processing instruction with this target: none for a target that
  // is "xml" in any other case.
  function PiToken(target: seq<byte>): (t: Option<Token>)
    ensures t.Some? ==> t.value == Pi || t.value == XmlDecl
  {
    if |target| != 3 then Some(Pi)
    else if target[0] !in {0x78, 0x58} || target[1] !in {0x6D, 0x4D} || target[2] !in {0x6C, 0x4C} then Some(Pi)
    else if target[0] == 0x58 || target[1] == 0x4D || target[2] == 0x4C then None
    else Some(XmlDecl)
  }
}

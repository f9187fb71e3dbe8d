// The byte loops of xmltok_impl.c: each moves ptr through the buffer and computes the
// scanner function of the same name.
module XmlScanners {
  import opened Collections
  import opened XmlTok

  method CommentLoop(enc: Encoding, b: seq<byte>, start: nat) returns (r: Scan)
    requires start <= |b|
    ensures r == enc.ScanComment(b, start)
  {
    var ptr := start;
    if ptr == |b| { return Partial; }
    if b[ptr] != MINUS { return Invalid(ptr); }
    ptr := ptr + 1;
    while ptr != |b|
      invariant ptr <= |b| && enc.ScanComment(b, start) == enc.CommentBody(b, ptr)
      decreases |b| - ptr
    {
      match enc.CharStep(ValidChars, b, ptr) {
        case Advance(next) => ptr := next;
        case Halt(stop) => return stop;
        case Unlisted =>
          if enc.typeOf(b[ptr]) == Minus {
            if ptr + 1 == |b| { return Partial; }
            ptr := ptr + 1;
            if b[ptr] == MINUS {
              if ptr + 1 == |b| { return Partial; }
              ptr := ptr + 1;
              return if b[ptr] != GT then Invalid(ptr) else Found(Comment, ptr + 1);
            }
          } else {
            ptr := ptr + 1;
          }
      }
    }
    return Partial;
  }

  method PiLoop(enc: Encoding, b: seq<byte>, start: nat) returns (r: Scan)
    requires start <= |b|
    ensures r == enc.ScanPi(b, start)
  {
    hide Encoding.CharStep, Encoding.PiBody, PiToken;
    var ptr := start;
    if ptr == |b| { return Partial; }
    match enc.CharStep(NmstrtChars, b, ptr) {
      case Advance(next) => ptr := next;
      case Halt(stop) => return stop;
      case Unlisted => return Invalid(ptr);
    }
    while ptr != |b|
      invariant start <= ptr <= |b| && enc.ScanPi(b, start) == enc.PiTarget(b, start, ptr)
      decreases |b| - ptr
    {
      match enc.CharStep(NameChars, b, ptr) {
        case Advance(next) => ptr := next;
        case Halt(stop) => return stop;
        case Unlisted =>
          var tok := PiToken(b[start..ptr]);
          if enc.typeOf(b[ptr]).White() {
            if tok.None? { return Invalid(ptr); }
            r := PiBodyLoop(enc, b, tok.value, ptr + 1);
            return;
          } else if enc.typeOf(b[ptr]) == Quest {
            if tok.None? { return Invalid(ptr); }
            ptr := ptr + 1;
            if ptr == |b| { return Partial; }
            return if b[ptr] == GT then Found(tok.value, ptr + 1) else Invalid(ptr);
          } else {
            return Invalid(ptr);
          }
      }
    }
    return Partial;
  }

  // the inner loop of scanPi
  method PiBodyLoop(enc: Encoding, b: seq<byte>, tok: Token, start: nat) returns (r: Scan)
    requires start <= |b| && tok in {Pi, XmlDecl}
    ensures r == enc.PiBody(b, tok, start)
  {
    hide Encoding.CharStep;
    var ptr := start;
    while ptr != |b|
      invariant ptr <= |b| && enc.PiBody(b, tok, start) == enc.PiBody(b, tok, ptr)
      decreases |b| - ptr
    {
      match enc.CharStep(ValidChars, b, ptr) {
        case Advance(next) => ptr := next;
        case Halt(stop) => return stop;
        case Unlisted =>
          if enc.typeOf(b[ptr]) == Quest {
            ptr := ptr + 1;
            if ptr == |b| { return Partial; }
            if b[ptr] == GT { return Found(tok, ptr + 1); }
          } else {
            ptr := ptr + 1;
          }
      }
    }
    return Partial;
  }

  method CdataOpenLoop(enc: Encoding, b: seq<byte>, start: nat) returns (r: Scan)
    requires start <= |b|
    ensures r == enc.ScanCdataSection(b, start)
  {
    if |b| - start < 6 { return Partial; }
    for k := 0 to 6
      invariant enc.ScanCdataSection(b, start) == enc.MatchCdata(b, start, k)
    {
      if b[start + k] != CDATA_LSQB[k] { return Invalid(start + k); }
    }
    return Found(CdataSectOpen, start + 6);
  }

  method EndTagLoop(enc: Encoding, b: seq<byte>, start: nat) returns (r: Scan)
    requires start <= |b|
    ensures r == enc.ScanEndTag(b, start)
  {
    hide Encoding.CharStep, Encoding.EndTagSpace;
    var ptr := start;
    if ptr == |b| { return Partial; }
    match enc.CharStep(NmstrtChars, b, ptr) {
      case Advance(next) => ptr := next;
      case Halt(stop) => return stop;
      case Unlisted => return Invalid(ptr);
    }
    while ptr != |b|
      invariant ptr <= |b| && enc.ScanEndTag(b, start) == enc.EndTagName(b, ptr)
      decreases |b| - ptr
    {
      match enc.CharStep(NameChars, b, ptr) {
        case Advance(next) => ptr := next;
        case Halt(stop) => return stop;
        case Unlisted =>
          if enc.typeOf(b[ptr]).White() {
            r := EndTagSpaceLoop(enc, b, ptr + 1);
            return;
          } else if enc.typeOf(b[ptr]) == Colon {
            ptr := ptr + 1;
          } else if enc.typeOf(b[ptr]) == Gt {
            return Found(EndTag, ptr + 1);
          } else {
            return Invalid(ptr);
          }
      }
    }
    return Partial;
  }

  method EndTagSpaceLoop(enc: Encoding, b: seq<byte>, start: nat) returns (r: Scan)
    requires start <= |b|
    ensures r == enc.EndTagSpace(b, start)
  {
    var ptr := start;
    while ptr != |b|
      invariant ptr <= |b| && enc.EndTagSpace(b, start) == enc.EndTagSpace(b, ptr)
      decreases |b| - ptr
    {
      if enc.typeOf(b[ptr]) == Gt { return Found(EndTag, ptr + 1); }
      if !enc.typeOf(b[ptr]).White() { return Invalid(ptr); }
      ptr := ptr + 1;
    }
    return Partial;
  }

  method HexCharRefLoop(enc: Encoding, b: seq<byte>, start: nat) returns (r: Scan)
    requires start <= |b|
    ensures r == enc.ScanHexCharRef(b, start)
  {
    var ptr := start;
    if ptr == |b| { return Partial; }
    if enc.typeOf(b[ptr]) != Digit && enc.typeOf(b[ptr]) != Hex { return Invalid(ptr); }
    ptr := ptr + 1;
    while ptr != |b|
      invariant ptr <= |b| && enc.ScanHexCharRef(b, start) == enc.HexDigits(b, ptr)
      decreases |b| - ptr
    {
      if enc.typeOf(b[ptr]) == Semi { return Found(CharRef, ptr + 1); }
      if enc.typeOf(b[ptr]) != Digit && enc.typeOf(b[ptr]) != Hex { return Invalid(ptr); }
      ptr := ptr + 1;
    }
    return Partial;
  }

  method CharRefLoop(enc: Encoding, b: seq<byte>, start: nat) returns (r: Scan)
    requires start <= |b|
    ensures r == enc.ScanCharRef(b, start)
  {
    var ptr := start;
    if ptr == |b| { return Partial; }
    if b[ptr] == LOWER_X {
      r := HexCharRefLoop(enc, b, ptr + 1);
      return;
    }
    if enc.typeOf(b[ptr]) != Digit { return Invalid(ptr); }
    ptr := ptr + 1;
    while ptr != |b|
      invariant ptr <= |b| && enc.ScanCharRef(b, start) == enc.DecDigits(b, ptr)
      decreases |b| - ptr
    {
      if enc.typeOf(b[ptr]) == Semi { return Found(CharRef, ptr + 1); }
      if enc.typeOf(b[ptr]) != Digit { return Invalid(ptr); }
      ptr := ptr + 1;
    }
    return Partial;
  }

  method RefLoop(enc: Encoding, b: seq<byte>, start: nat) returns (r: Scan)
    requires start <= |b|
    ensures r == enc.ScanRef(b, start)
  {
    var ptr := start;
    if ptr == |b| { return Partial; }
    match enc.CharStep(NmstrtChars, b, ptr) {
      case Advance(next) => ptr := next;
      case Halt(stop) => return stop;
      case Unlisted =>
        if enc.typeOf(b[ptr]) == Num {
          r := CharRefLoop(enc, b, ptr + 1);
          return;
        }
        return Invalid(ptr);
    }
    while ptr != |b|
      invariant ptr <= |b| && enc.ScanRef(b, start) == enc.RefName(b, ptr)
      decreases |b| - ptr
    {
      match enc.CharStep(NameChars, b, ptr) {
        case Advance(next) => ptr := next;
        case Halt(stop) => return stop;
        case Unlisted => return if enc.typeOf(b[ptr]) == Semi then Found(EntityRef, ptr + 1) else Invalid(ptr);
      }
    }
    return Partial;
  }

  // scanAtts, from behind the first character of the first attribute name
  method AttsLoop(enc: Encoding, b: seq<byte>, start: nat) returns (r: Scan)
    requires start <= |b|
    ensures r == enc.AttName(b, false, start)
  {
    var ptr, hadColon := start, false;
    while ptr != |b|
      invariant ptr <= |b| && enc.AttName(b, false, start) == enc.AttName(b, hadColon, ptr)
      decreases |b| - ptr
    {
      match enc.CharStep(NameChars, b, ptr) {
        case Advance(next) => ptr := next;
        case Halt(stop) => return stop;
        case Unlisted =>
          var t := enc.typeOf(b[ptr]);
          if t == Colon {
            if hadColon { return Invalid(ptr); }
            hadColon := true;
            ptr := ptr + 1;
            if ptr == |b| { return Partial; }
            match enc.CharStep(NmstrtChars, b, ptr) {
              case Advance(next) => ptr := next;
              case Halt(stop) => return stop;
              case Unlisted => return Invalid(ptr);
            }
          } else if t.White() || t == Equals {
            var v := AttValueLoop(enc, b, ptr);
            match v {
              case TagDone(scan) => return scan;
              case NextName(at) => ptr := at;
            }
            hadColon := false;
          } else {
            return Invalid(ptr);
          }
      }
    }
    return Partial;
  }

  // The part of a round of scanAtts that starts behind an attribute name: it ends the tag,
  // or stops behind the first character of the next name.
  datatype AttRound = TagDone(scan: Scan) | NextName(at: nat)

  function RoundScan(enc: Encoding, b: seq<byte>, round: AttRound): Scan
    requires round.NextName? ==> round.at <= |b|
  {
    match round
    case TagDone(scan) => scan
    case NextName(at) => enc.AttName(b, false, at)
  }

  method AttValueLoop(enc: Encoding, b: seq<byte>, start: nat) returns (v: AttRound)
    requires start < |b| && (enc.typeOf(b[start]).White() || enc.typeOf(b[start]) == Equals)
    ensures v.NextName? ==> start < v.at <= |b|
    ensures RoundScan(enc, b, v)
            == if enc.typeOf(b[start]) == Equals then enc.AttAfterEquals(b, start + 1)
               else enc.AttBeforeEquals(b, start + 1)
  {
    hide Encoding.AttAfterEquals;
    ghost var whole := if enc.typeOf(b[start]) == Equals then enc.AttAfterEquals(b, start + 1)
                       else enc.AttBeforeEquals(b, start + 1);
    var ptr := start;
    while enc.typeOf(b[ptr]) != Equals
      invariant start <= ptr < |b|
      invariant enc.typeOf(b[ptr]) == Equals || enc.typeOf(b[ptr]).White()
      invariant whole == if enc.typeOf(b[ptr]) == Equals then enc.AttAfterEquals(b, ptr + 1)
                         else enc.AttBeforeEquals(b, ptr + 1)
      decreases |b| - ptr
    {
      ptr := ptr + 1;
      if ptr == |b| { return TagDone(Partial); }
      if enc.typeOf(b[ptr]) != Equals && !enc.typeOf(b[ptr]).White() { return TagDone(Invalid(ptr)); }
    }
    v := OpenQuoteLoop(enc, b, ptr + 1);
  }

  // behind the equals sign
  method OpenQuoteLoop(enc: Encoding, b: seq<byte>, start: nat) returns (v: AttRound)
    requires start <= |b|
    ensures v.NextName? ==> start < v.at <= |b|
    ensures RoundScan(enc, b, v) == enc.AttAfterEquals(b, start)
  {
    hide Encoding.AttValue;
    var ptr := start;
    while true
      invariant start <= ptr <= |b| && enc.AttAfterEquals(b, start) == enc.AttAfterEquals(b, ptr)
      decreases |b| - ptr
    {
      if ptr == |b| { return TagDone(Partial); }
      if enc.typeOf(b[ptr]) == Quot || enc.typeOf(b[ptr]) == Apos { break; }
      if !enc.typeOf(b[ptr]).White() { return TagDone(Invalid(ptr)); }
      ptr := ptr + 1;
    }
    v := QuotedLoop(enc, b, enc.typeOf(b[ptr]), ptr + 1);
  }

  // behind the opening quote
  method QuotedLoop(enc: Encoding, b: seq<byte>, open: ByteType, start: nat) returns (v: AttRound)
    requires start <= |b|
    ensures v.NextName? ==> start < v.at <= |b|
    ensures RoundScan(enc, b, v) == enc.AttValue(b, open, start)
  {
    hide Encoding.CharStep, Encoding.ScanRef, Encoding.AttValueEnd;
    var ptr := start;
    while true
      invariant start <= ptr <= |b| && enc.AttValue(b, open, start) == enc.AttValue(b, open, ptr)
      decreases |b| - ptr
    {
      if ptr == |b| { return TagDone(Partial); }
      if enc.typeOf(b[ptr]) == open { break; }
      match enc.CharStep(ValidChars, b, ptr) {
        case Advance(next) => ptr := next;
        case Halt(stop) => return TagDone(stop);
        case Unlisted =>
          if enc.typeOf(b[ptr]) == Amp {
            var ref := RefLoop(enc, b, ptr + 1);
            if !ref.Found? { return TagDone(ref); }
            ptr := ref.next;
          } else if enc.typeOf(b[ptr]) == Lt {
            return TagDone(Invalid(ptr));
          } else {
            ptr := ptr + 1;
          }
      }
    }
    v := AttEndLoop(enc, b, ptr + 1);
  }

  // behind the closing quote
  method AttEndLoop(enc: Encoding, b: seq<byte>, start: nat) returns (v: AttRound)
    requires start <= |b|
    ensures v.NextName? ==> start < v.at <= |b|
    ensures RoundScan(enc, b, v) == enc.AttValueEnd(b, start)
  {
    if start == |b| { return TagDone(Partial); }
    if enc.typeOf(b[start]) == Sol {
      return TagDone(enc.EmptyEnd(b, EmptyElementWithAtts, start + 1));
    } else if enc.typeOf(b[start]) == Gt {
      return TagDone(Found(StartTagWithAtts, start + 1));
    } else if !enc.typeOf(b[start]).White() {
      return TagDone(Invalid(start));
    }
    var ptr := start + 1;
    while ptr != |b|
      invariant start < ptr <= |b| && enc.AttValueEnd(b, start) == enc.AttNext(b, ptr)
      decreases |b| - ptr
    {
      match enc.CharStep(NmstrtChars, b, ptr) {
        case Advance(next) => return NextName(next);
        case Halt(stop) => return TagDone(stop);
        case Unlisted =>
          if enc.typeOf(b[ptr]).White() {
            ptr := ptr + 1;
          } else if enc.typeOf(b[ptr]) == Gt {
            return TagDone(Found(StartTagWithAtts, ptr + 1));
          } else if enc.typeOf(b[ptr]) == Sol {
            return TagDone(enc.EmptyEnd(b, EmptyElementWithAtts, ptr + 1));
          } else {
            return TagDone(Invalid(ptr));
          }
      }
    }
    return TagDone(Partial);
  }

  method LtLoop(enc: Encoding, b: seq<byte>, start: nat) returns (r: Scan)
    requires start <= |b|
    ensures r == enc.ScanLt(b, start)
  {
    hide Encoding.CharStep, Encoding.StartName, Encoding.ScanPi, Encoding.ScanEndTag, Encoding.ScanComment, Encoding.ScanCdataSection;
    var ptr := start;
    if ptr == |b| { return Partial; }
    match enc.CharStep(NmstrtChars, b, ptr) {
      case Advance(next) => ptr := next;
      case Halt(stop) => return stop;
      case Unlisted =>
        if enc.typeOf(b[ptr]) == Excl {
          ptr := ptr + 1;
          if ptr == |b| { return Partial; }
          if enc.typeOf(b[ptr]) == Minus {
            r := CommentLoop(enc, b, ptr + 1);
          } else if enc.typeOf(b[ptr]) == Lsqb {
            r := CdataOpenLoop(enc, b, ptr + 1);
          } else {
            r := Invalid(ptr);
          }
        } else if enc.typeOf(b[ptr]) == Quest {
          r := PiLoop(enc, b, ptr + 1);
        } else if enc.typeOf(b[ptr]) == Sol {
          r := EndTagLoop(enc, b, ptr + 1);
        } else {
          r := Invalid(ptr);
        }
        return;
    }
    r := StartTagLoop(enc, b, ptr);
  }

  // scanLt once it has a start tag
  method StartTagLoop(enc: Encoding, b: seq<byte>, start: nat) returns (r: Scan)
    requires start <= |b|
    ensures r == enc.StartName(b, false, start)
  {
    hide Encoding.CharStep, Encoding.StartSpace;
    var ptr, hadColon := start, false;
    while ptr != |b|
      invariant ptr <= |b| && enc.StartName(b, false, start) == enc.StartName(b, hadColon, ptr)
      decreases |b| - ptr
    {
      match enc.CharStep(NameChars, b, ptr) {
        case Advance(next) => ptr := next;
        case Halt(stop) => return stop;
        case Unlisted =>
          if enc.typeOf(b[ptr]) == Colon {
            if hadColon { return Invalid(ptr); }
            hadColon := true;
            ptr := ptr + 1;
            if ptr == |b| { return Partial; }
            match enc.CharStep(NmstrtChars, b, ptr) {
              case Advance(next) => ptr := next;
              case Halt(stop) => return stop;
              case Unlisted => return Invalid(ptr);
            }
          } else if enc.typeOf(b[ptr]).White() {
            r := StartSpaceLoop(enc, b, ptr + 1);
            return;
          } else if enc.typeOf(b[ptr]) == Gt {
            return Found(StartTagNoAtts, ptr + 1);
          } else if enc.typeOf(b[ptr]) == Sol {
            return enc.EmptyEnd(b, EmptyElementNoAtts, ptr + 1);
          } else {
            return Invalid(ptr);
          }
      }
    }
    return Partial;
  }

  method StartSpaceLoop(enc: Encoding, b: seq<byte>, start: nat) returns (r: Scan)
    requires start <= |b|
    ensures r == enc.StartSpace(b, start)
  {
    var ptr := start;
    while ptr != |b|
      invariant ptr <= |b| && enc.StartSpace(b, start) == enc.StartSpace(b, ptr)
      decreases |b| - ptr
    {
      match enc.CharStep(NmstrtChars, b, ptr) {
        case Advance(next) =>
          r := AttsLoop(enc, b, next);
          return;
        case Halt(stop) => return stop;
        case Unlisted =>
          if enc.typeOf(b[ptr]) == Gt {
            return Found(StartTagNoAtts, ptr + 1);
          } else if enc.typeOf(b[ptr]) == Sol {
            return enc.EmptyEnd(b, EmptyElementNoAtts, ptr + 1);
          } else if enc.typeOf(b[ptr]).White() {
            ptr := ptr + 1;
          } else {
            return Invalid(ptr);
          }
      }
    }
    return Partial;
  }

  method ContentTokLoop(enc: Encoding, b: seq<byte>) returns (r: Scan)
    ensures r == enc.ContentTok(b, 0)
  {
    var ptr := 0;
    if b == [] { return Nothing; }
    match enc.CharStep(ValidChars, b, ptr) {
      case Advance(next) => ptr := next;
      case Halt(stop) => return stop;
      case Unlisted =>
        var t := enc.typeOf(b[ptr]);
        if t == Lt {
          r := LtLoop(enc, b, ptr + 1);
          return;
        } else if t == Amp {
          r := RefLoop(enc, b, ptr + 1);
          return;
        } else if t == Cr {
          ptr := ptr + 1;
          if ptr == |b| { return TrailingCr; }
          if enc.typeOf(b[ptr]) == Lf { ptr := ptr + 1; }
          return Found(DataNewline, ptr);
        } else if t == Lf {
          return Found(DataNewline, ptr + 1);
        } else if t == Rsqb {
          ptr := ptr + 1;
          if ptr == |b| { return TrailingRsqb; }
          if b[ptr] == RSQB {
            ptr := ptr + 1;
            if ptr == |b| { return TrailingRsqb; }
            if b[ptr] == GT { return Invalid(ptr); }
            ptr := ptr - 1;
          }
        } else {
          ptr := ptr + 1;
        }
    }
    r := ContentCharsLoop(enc, b, ptr);
  }

  method ContentCharsLoop(enc: Encoding, b: seq<byte>, start: nat) returns (r: Scan)
    requires start <= |b|
    ensures r == enc.ContentChars(b, start)
  {
    hide Encoding.CharStep;
    var ptr := start;
    while ptr != |b|
      invariant ptr <= |b| && enc.ContentChars(b, start) == enc.ContentChars(b, ptr)
      decreases |b| - ptr
    {
      match enc.CharStep(ValidChars, b, ptr) {
        case Advance(next) => ptr := next;
        case Halt(_) => return Found(DataChars, ptr);
        case Unlisted =>
          var t := enc.typeOf(b[ptr]);
          if t == Rsqb {
            if ptr + 1 == |b| { return Found(DataChars, ptr); }
            if b[ptr + 1] == RSQB {
              if ptr + 2 == |b| { return Found(DataChars, ptr); }
              if b[ptr + 2] == GT { return Invalid(ptr + 2); }
            }
            ptr := ptr + 1;
          } else if t in {Amp, Lt, Cr, Lf} {
            return Found(DataChars, ptr);
          } else {
            ptr := ptr + 1;
          }
      }
    }
    return Found(DataChars, ptr);
  }

  method CdataSectionTokLoop(enc: Encoding, b: seq<byte>) returns (r: Scan)
    ensures r == enc.CdataSectionTok(b, 0)
  {
    hide Encoding.CharStep;
    var ptr := 0;
    if b == [] { return Nothing; }
    match enc.CharStep(ValidChars, b, ptr) {
      case Advance(next) => ptr := next;
      case Halt(stop) => return stop;
      case Unlisted =>
        var t := enc.typeOf(b[ptr]);
        if t == Rsqb {
          ptr := ptr + 1;
          if ptr == |b| { return Partial; }
          if b[ptr] == RSQB {
            ptr := ptr + 1;
            if ptr == |b| { return Partial; }
            if b[ptr] == GT { return Found(CdataSectClose, ptr + 1); }
            ptr := ptr - 1;
          }
        } else if t == Cr {
          ptr := ptr + 1;
          if ptr == |b| { return Partial; }
          if enc.typeOf(b[ptr]) == Lf { ptr := ptr + 1; }
          return Found(DataNewline, ptr);
        } else if t == Lf {
          return Found(DataNewline, ptr + 1);
        } else {
          ptr := ptr + 1;
        }
    }
    r := CdataCharsLoop(enc, b, ptr);
  }

  method CdataCharsLoop(enc: Encoding, b: seq<byte>, start: nat) returns (r: Scan)
    requires start <= |b|
    ensures r == enc.CdataChars(b, start)
  {
    var ptr := start;
    while ptr != |b|
      invariant ptr <= |b| && enc.CdataChars(b, start) == enc.CdataChars(b, ptr)
      decreases |b| - ptr
    {
      match enc.CharStep(ValidChars, b, ptr) {
        case Advance(next) => ptr := next;
        case Halt(_) => return Found(DataChars, ptr);
        case Unlisted =>
          if enc.typeOf(b[ptr]) in {Cr, Lf, Rsqb} { return Found(DataChars, ptr); }
          ptr := ptr + 1;
      }
    }
    return Found(DataChars, ptr);
  }
}

// Scans do not change once they are complete: a scanner that has found a token, or an
// error, on a buffer finds the same on every longer buffer.  Runs of character data and
// of white space are the exceptions; they can only grow, and what they grow by is
// exactly what a scan started at their old end finds.
module XmlStability {
  import opened Collections
  import opened XmlTok

  lemma StepStable(enc: Encoding, cls: CharClass, b: seq<byte>, b': seq<byte>, i: nat)
    requires b <= b' && i < |b|
    requires enc.CharStep(cls, b, i) != Halt(PartialChar)
    ensures enc.CharStep(cls, b', i) == enc.CharStep(cls, b, i)
  {
    if i + 2 <= |b| { assert b'[i..i + 2] == b[i..i + 2]; }
    if i + 3 <= |b| { assert b'[i..i + 3] == b[i..i + 3]; }
    if i + 4 <= |b| { assert b'[i..i + 4] == b[i..i + 4]; }
    assert b'[i..i + 1] == b[i..i + 1];
  }

  // ----- comments, processing instructions, CDATA openers -----

  lemma CommentStable(enc: Encoding, b: seq<byte>, b': seq<byte>, i: nat)
    requires b <= b' && i <= |b| && enc.CommentBody(b, i).Complete()
    ensures enc.CommentBody(b', i) == enc.CommentBody(b, i)
    decreases |b| - i
  {
    StepStable(enc, ValidChars, b, b', i);
  }

  lemma PiBodyStable(enc: Encoding, b: seq<byte>, b': seq<byte>, tok: Token, i: nat)
    requires b <= b' && i <= |b| && tok in {Pi, XmlDecl} && enc.PiBody(b, tok, i).Complete()
    ensures enc.PiBody(b', tok, i) == enc.PiBody(b, tok, i)
    decreases |b| - i
  {
    StepStable(enc, ValidChars, b, b', i);
  }

  lemma PiTargetStable(enc: Encoding, b: seq<byte>, b': seq<byte>, target: nat, i: nat)
    requires b <= b' && target <= i <= |b| && enc.PiTarget(b, target, i).Complete()
    ensures enc.PiTarget(b', target, i) == enc.PiTarget(b, target, i)
    decreases |b| - i
  {
    StepStable(enc, NameChars, b, b', i);
    assert b'[target..i] == b[target..i];
    var tok := PiToken(b[target..i]);
    if enc.CharStep(NameChars, b, i).Unlisted? && enc.typeOf(b[i]).White() && tok.Some? {
      PiBodyStable(enc, b, b', tok.value, i + 1);
    }
  }

  lemma PiStable(enc: Encoding, b: seq<byte>, b': seq<byte>, i: nat)
    requires b <= b' && i <= |b| && enc.ScanPi(b, i).Complete()
    ensures enc.ScanPi(b', i) == enc.ScanPi(b, i)
  {
    StepStable(enc, NmstrtChars, b, b', i);
    var s := enc.CharStep(NmstrtChars, b, i);
    if s.Advance? { PiTargetStable(enc, b, b', i, s.next); }
  }

  lemma MatchCdataStable(enc: Encoding, b: seq<byte>, b': seq<byte>, i: nat, k: nat)
    requires b <= b' && i + 6 <= |b| && k <= 6
    ensures enc.MatchCdata(b', i, k) == enc.MatchCdata(b, i, k)
    decreases 6 - k
  {
  }

  // ----- end tags and references -----

  lemma EndTagSpaceStable(enc: Encoding, b: seq<byte>, b': seq<byte>, i: nat)
    requires b <= b' && i <= |b| && enc.EndTagSpace(b, i).Complete()
    ensures enc.EndTagSpace(b', i) == enc.EndTagSpace(b, i)
    decreases |b| - i
  {
  }

  lemma EndTagNameStable(enc: Encoding, b: seq<byte>, b': seq<byte>, i: nat)
    requires b <= b' && i <= |b| && enc.EndTagName(b, i).Complete()
    ensures enc.EndTagName(b', i) == enc.EndTagName(b, i)
    decreases |b| - i
  {
    StepStable(enc, NameChars, b, b', i);
    if enc.CharStep(NameChars, b, i).Unlisted? && enc.typeOf(b[i]).White() { EndTagSpaceStable(enc, b, b', i + 1); }
  }

  lemma EndTagStable(enc: Encoding, b: seq<byte>, b': seq<byte>, i: nat)
    requires b <= b' && i <= |b| && enc.ScanEndTag(b, i).Complete()
    ensures enc.ScanEndTag(b', i) == enc.ScanEndTag(b, i)
  {
    StepStable(enc, NmstrtChars, b, b', i);
    var s := enc.CharStep(NmstrtChars, b, i);
    if s.Advance? { EndTagNameStable(enc, b, b', s.next); }
  }

  lemma DigitsStable(enc: Encoding, b: seq<byte>, b': seq<byte>, i: nat)
    requires b <= b' && i <= |b|
    ensures enc.DecDigits(b, i).Complete() ==> enc.DecDigits(b', i) == enc.DecDigits(b, i)
    ensures enc.HexDigits(b, i).Complete() ==> enc.HexDigits(b', i) == enc.HexDigits(b, i)
    decreases |b| - i
  {
  }

  lemma RefNameStable(enc: Encoding, b: seq<byte>, b': seq<byte>, i: nat)
    requires b <= b' && i <= |b| && enc.RefName(b, i).Complete()
    ensures enc.RefName(b', i) == enc.RefName(b, i)
    decreases |b| - i
  {
    StepStable(enc, NameChars, b, b', i);
  }

  lemma RefStable(enc: Encoding, b: seq<byte>, b': seq<byte>, i: nat)
    requires b <= b' && i <= |b| && enc.ScanRef(b, i).Complete()
    ensures enc.ScanRef(b', i) == enc.ScanRef(b, i)
  {
    StepStable(enc, NmstrtChars, b, b', i);
    var s := enc.CharStep(NmstrtChars, b, i);
    if s.Advance? {
      RefNameStable(enc, b, b', s.next);
    } else {
      forall k | i < k <= |b| { DigitsStable(enc, b, b', k); }
    }
  }

  // ----- start tags -----

  lemma AttNameStable(enc: Encoding, b: seq<byte>, b': seq<byte>, hadColon: bool, i: nat)
    requires b <= b' && i <= |b| && enc.AttName(b, hadColon, i).Complete()
    ensures enc.AttName(b', hadColon, i) == enc.AttName(b, hadColon, i)
    decreases |b| - i
  {
    hide Encoding.CharStep;
    StepStable(enc, NameChars, b, b', i);
    match enc.CharStep(NameChars, b, i)
    case Advance(j) => AttNameStable(enc, b, b', hadColon, j);
    case Halt(_) =>
    case Unlisted =>
      if enc.typeOf(b[i]) == Colon && !hadColon {
        StepStable(enc, NmstrtChars, b, b', i + 1);
        var s := enc.CharStep(NmstrtChars, b, i + 1);
        if s.Advance? { AttNameStable(enc, b, b', true, s.next); }
      } else if enc.typeOf(b[i]).White() {
        AttBeforeEqualsStable(enc, b, b', i + 1);
      } else if enc.typeOf(b[i]) == Equals {
        AttAfterEqualsStable(enc, b, b', i + 1);
      }
  }

  lemma AttBeforeEqualsStable(enc: Encoding, b: seq<byte>, b': seq<byte>, i: nat)
    requires b <= b' && i <= |b| && enc.AttBeforeEquals(b, i).Complete()
    ensures enc.AttBeforeEquals(b', i) == enc.AttBeforeEquals(b, i)
    decreases |b| - i
  {
    if enc.typeOf(b[i]) == Equals {
      AttAfterEqualsStable(enc, b, b', i + 1);
    } else if enc.typeOf(b[i]).White() {
      AttBeforeEqualsStable(enc, b, b', i + 1);
    }
  }

  lemma AttAfterEqualsStable(enc: Encoding, b: seq<byte>, b': seq<byte>, i: nat)
    requires b <= b' && i <= |b| && enc.AttAfterEquals(b, i).Complete()
    ensures enc.AttAfterEquals(b', i) == enc.AttAfterEquals(b, i)
    decreases |b| - i
  {
    if enc.typeOf(b[i]) == Quot || enc.typeOf(b[i]) == Apos {
      AttValueStable(enc, b, b', enc.typeOf(b[i]), i + 1);
    } else if enc.typeOf(b[i]).White() {
      AttAfterEqualsStable(enc, b, b', i + 1);
    }
  }

  lemma AttValueStable(enc: Encoding, b: seq<byte>, b': seq<byte>, open: ByteType, i: nat)
    requires b <= b' && i <= |b| && enc.AttValue(b, open, i).Complete()
    ensures enc.AttValue(b', open, i) == enc.AttValue(b, open, i)
    decreases |b| - i
  {
    hide Encoding.CharStep;
    if enc.typeOf(b[i]) == open {
      AttValueEndStable(enc, b, b', i + 1);
    } else {
      StepStable(enc, ValidChars, b, b', i);
      match enc.CharStep(ValidChars, b, i)
      case Advance(j) => AttValueStable(enc, b, b', open, j);
      case Halt(_) =>
      case Unlisted =>
        if enc.typeOf(b[i]) == Amp {
          var r := enc.ScanRef(b, i + 1);
          RefStable(enc, b, b', i + 1);
          if r.Found? { AttValueStable(enc, b, b', open, r.next); }
        } else if enc.typeOf(b[i]) != Lt {
          AttValueStable(enc, b, b', open, i + 1);
        }
    }
  }

  lemma AttValueEndStable(enc: Encoding, b: seq<byte>, b': seq<byte>, i: nat)
    requires b <= b' && i <= |b| && enc.AttValueEnd(b, i).Complete()
    ensures enc.AttValueEnd(b', i) == enc.AttValueEnd(b, i)
    decreases |b| - i
  {
    if enc.typeOf(b[i]).White() { AttNextStable(enc, b, b', i + 1); }
  }

  lemma AttNextStable(enc: Encoding, b: seq<byte>, b': seq<byte>, i: nat)
    requires b <= b' && i <= |b| && enc.AttNext(b, i).Complete()
    ensures enc.AttNext(b', i) == enc.AttNext(b, i)
    decreases |b| - i
  {
    StepStable(enc, NmstrtChars, b, b', i);
    var s := enc.CharStep(NmstrtChars, b, i);
    if s.Advance? {
      AttNameStable(enc, b, b', false, s.next);
    } else if s.Unlisted? && enc.typeOf(b[i]).White() {
      AttNextStable(enc, b, b', i + 1);
    }
  }

  lemma StartNameStable(enc: Encoding, b: seq<byte>, b': seq<byte>, hadColon: bool, i: nat)
    requires b <= b' && i <= |b| && enc.StartName(b, hadColon, i).Complete()
    ensures enc.StartName(b', hadColon, i) == enc.StartName(b, hadColon, i)
    decreases |b| - i
  {
    hide Encoding.CharStep;
    StepStable(enc, NameChars, b, b', i);
    match enc.CharStep(NameChars, b, i)
    case Advance(j) => StartNameStable(enc, b, b', hadColon, j);
    case Halt(_) =>
    case Unlisted =>
      if enc.typeOf(b[i]) == Colon && !hadColon {
        StepStable(enc, NmstrtChars, b, b', i + 1);
        var s := enc.CharStep(NmstrtChars, b, i + 1);
        if s.Advance? { StartNameStable(enc, b, b', true, s.next); }
      } else if enc.typeOf(b[i]).White() {
        StartSpaceStable(enc, b, b', i + 1);
      }
  }

  lemma StartSpaceStable(enc: Encoding, b: seq<byte>, b': seq<byte>, i: nat)
    requires b <= b' && i <= |b| && enc.StartSpace(b, i).Complete()
    ensures enc.StartSpace(b', i) == enc.StartSpace(b, i)
    decreases |b| - i
  {
    StepStable(enc, NmstrtChars, b, b', i);
    var s := enc.CharStep(NmstrtChars, b, i);
    if s.Advance? {
      AttNameStable(enc, b, b', false, s.next);
    } else if s.Unlisted? && enc.typeOf(b[i]).White() {
      StartSpaceStable(enc, b, b', i + 1);
    }
  }

  lemma LtStable(enc: Encoding, b: seq<byte>, b': seq<byte>, i: nat)
    requires b <= b' && i <= |b| && enc.ScanLt(b, i).Complete()
    ensures enc.ScanLt(b', i) == enc.ScanLt(b, i)
  {
    hide Encoding.CharStep, Encoding.StartName, Encoding.ScanPi, Encoding.ScanEndTag, Encoding.ScanComment, Encoding.ScanCdataSection;
    StepStable(enc, NmstrtChars, b, b', i);
    match enc.CharStep(NmstrtChars, b, i)
    case Advance(j) => StartNameStable(enc, b, b', false, j);
    case Halt(_) =>
    case Unlisted =>
      if enc.typeOf(b[i]) == Excl {
        BangStable(enc, b, b', i);
      } else if enc.typeOf(b[i]) == Quest {
        PiStable(enc, b, b', i + 1);
      } else if enc.typeOf(b[i]) == Sol {
        EndTagStable(enc, b, b', i + 1);
      }
  }

  lemma BangStable(enc: Encoding, b: seq<byte>, b': seq<byte>, i: nat)
    requires b <= b' && i < |b| && enc.typeOf(b[i]) == Excl && enc.ScanLt(b, i).Complete()
    ensures enc.ScanLt(b', i) == enc.ScanLt(b, i)
  {
    if enc.typeOf(b[i + 1]) == Minus {
      if i + 2 < |b| && b[i + 2] == MINUS { CommentStable(enc, b, b', i + 3); }
    } else if enc.typeOf(b[i + 1]) == Lsqb {
      MatchCdataStable(enc, b, b', i + 2, 0);
    }
  }

  // ----- content -----

  // Token prefix stability: a complete content token other than character data is the
  // same token, with the same end, on every extension of the buffer; so is an error.
  lemma ContentTokStable(enc: Encoding, b: seq<byte>, b': seq<byte>, i: nat)
    requires b <= b' && i <= |b|
    requires enc.ContentTok(b, i).Complete()
    ensures !(enc.ContentTok(b, i).Found? && enc.ContentTok(b, i).tok == DataChars)
            ==> enc.ContentTok(b', i) == enc.ContentTok(b, i)
    ensures enc.ContentTok(b, i).Found? && enc.ContentTok(b, i).tok == DataChars
            ==> enc.ContentTok(b', i) == enc.ContentChars(b', enc.ContentTok(b, i).next)
  {
    hide Encoding.CharStep, Encoding.ScanLt, Encoding.ScanRef;
    StepStable(enc, ValidChars, b, b', i);
    match enc.CharStep(ValidChars, b, i)
    case Advance(j) => ContentCharsGrow(enc, b, b', j);
    case Halt(_) =>
    case Unlisted =>
      ContentCharsGrow(enc, b, b', i + 1);
      if enc.typeOf(b[i]) == Lt {
        LtStable(enc, b, b', i + 1);
      } else if enc.typeOf(b[i]) == Amp {
        RefStable(enc, b, b', i + 1);
      }
  }

  // A run of character data can only grow, and the scan of the longer buffer goes on
  // from where the shorter run ended.
  lemma ContentCharsGrow(enc: Encoding, b: seq<byte>, b': seq<byte>, i: nat)
    requires b <= b' && i <= |b|
    ensures enc.ContentChars(b, i).Invalid? ==> enc.ContentChars(b', i) == enc.ContentChars(b, i)
    ensures enc.ContentChars(b, i).Found? ==>
              enc.ContentChars(b', i) == enc.ContentChars(b', enc.ContentChars(b, i).next)
    decreases |b| - i
  {
    hide Encoding.CharStep;
    if i < |b| && enc.CharStep(ValidChars, b, i) != Halt(PartialChar) {
      StepStable(enc, ValidChars, b, b', i);
      match enc.CharStep(ValidChars, b, i)
      case Advance(j) => ContentCharsGrow(enc, b, b', j);
      case Halt(_) =>
      case Unlisted => ContentCharsGrow(enc, b, b', i + 1);
    }
  }

  // A scan that starts in the middle of a run of character data finds the rest of the
  // run, or the error in it; unless the run is over there.
  lemma ContentCharsResume(enc: Encoding, b: seq<byte>, i: nat)
    requires i <= |b|
    ensures enc.ContentChars(b, i) == Found(DataChars, i) || enc.ContentTok(b, i) == enc.ContentChars(b, i)
  {
  }

  // Inside a CDATA section likewise.
  lemma CdataTokStable(enc: Encoding, b: seq<byte>, b': seq<byte>, i: nat)
    requires b <= b' && i <= |b|
    requires enc.CdataSectionTok(b, i).Complete()
    ensures !(enc.CdataSectionTok(b, i).Found? && enc.CdataSectionTok(b, i).tok == DataChars)
            ==> enc.CdataSectionTok(b', i) == enc.CdataSectionTok(b, i)
    ensures enc.CdataSectionTok(b, i).Found? && enc.CdataSectionTok(b, i).tok == DataChars
            ==> enc.CdataSectionTok(b', i) == enc.CdataChars(b', enc.CdataSectionTok(b, i).next)
  {
    hide Encoding.CharStep;
    StepStable(enc, ValidChars, b, b', i);
    match enc.CharStep(ValidChars, b, i)
    case Advance(j) => CdataCharsGrow(enc, b, b', j);
    case Halt(_) =>
    case Unlisted => CdataCharsGrow(enc, b, b', i + 1);
  }

  lemma CdataCharsGrow(enc: Encoding, b: seq<byte>, b': seq<byte>, i: nat)
    requires b <= b' && i <= |b|
    ensures enc.CdataChars(b', i) == enc.CdataChars(b', enc.CdataChars(b, i).next)
    decreases |b| - i
  {
    hide Encoding.CharStep;
    if i < |b| && enc.CharStep(ValidChars, b, i) != Halt(PartialChar) {
      StepStable(enc, ValidChars, b, b', i);
      match enc.CharStep(ValidChars, b, i)
      case Advance(j) => CdataCharsGrow(enc, b, b', j);
      case Halt(_) =>
      case Unlisted => CdataCharsGrow(enc, b, b', i + 1);
    }
  }

  lemma CdataCharsResume(enc: Encoding, b: seq<byte>, i: nat)
    requires i <= |b|
    ensures enc.CdataChars(b, i) == Found(DataChars, i) || enc.CdataSectionTok(b, i) == enc.CdataChars(b, i)
  {
  }

  // ----- prolog and epilog -----

  lemma PrologNameStable(enc: Encoding, b: seq<byte>, b': seq<byte>, tok: Token, i: nat)
    requires b <= b' && i <= |b| && tok in {Name, Nmtoken, PrefixedName}
    requires enc.PrologName(b, tok, i).Complete()
    ensures enc.PrologName(b', tok, i) == enc.PrologName(b, tok, i)
    decreases |b| - i
  {
    hide Encoding.CharStep;
    StepStable(enc, NameChars, b, b', i);
    match enc.CharStep(NameChars, b, i)
    case Advance(j) => PrologNameStable(enc, b, b', tok, j);
    case Halt(_) =>
    case Unlisted =>
      if enc.typeOf(b[i]) == Colon {
        if tok == Name {
          StepStable(enc, NameChars, b, b', i + 1);
          var s := enc.CharStep(NameChars, b, i + 1);
          if s.Advance? {
            PrologNameStable(enc, b, b', PrefixedName, s.next);
          } else if s.Unlisted? {
            PrologNameStable(enc, b, b', Nmtoken, i + 1);
          }
        } else {
          PrologNameStable(enc, b, b', Nmtoken, i + 1);
        }
      }
  }

  lemma DeclNameStable(enc: Encoding, b: seq<byte>, b': seq<byte>, i: nat)
    requires b <= b' && i <= |b| && enc.DeclName(b, i).Complete()
    ensures enc.DeclName(b', i) == enc.DeclName(b, i)
    decreases |b| - i
  {
  }

  lemma LitStable(enc: Encoding, b: seq<byte>, b': seq<byte>, open: ByteType, i: nat)
    requires b <= b' && i <= |b| && enc.ScanLit(b, open, i).Complete()
    ensures enc.ScanLit(b', open, i) == enc.ScanLit(b, open, i)
    decreases |b| - i
  {
    hide Encoding.CharStep;
    StepStable(enc, ValidChars, b, b', i);
  }

  lemma PercentNameStable(enc: Encoding, b: seq<byte>, b': seq<byte>, i: nat)
    requires b <= b' && i <= |b| && enc.PercentName(b, i).Complete()
    ensures enc.PercentName(b', i) == enc.PercentName(b, i)
    decreases |b| - i
  {
    StepStable(enc, NameChars, b, b', i);
  }

  lemma PoundNameStable(enc: Encoding, b: seq<byte>, b': seq<byte>, i: nat)
    requires b <= b' && i <= |b| && enc.PoundNameRest(b, i).Complete()
    ensures enc.PoundNameRest(b', i) == enc.PoundNameRest(b, i)
    decreases |b| - i
  {
    StepStable(enc, NameChars, b, b', i);
  }

  lemma PrologLeadStable(enc: Encoding, b: seq<byte>, b': seq<byte>, i: nat, n: nat)
    requires b <= b' && i < |b| && 0 < n && enc.PrologLead(b, i, n).Complete()
    ensures enc.PrologLead(b', i, n) == enc.PrologLead(b, i, n)
  {
    assert b'[i..i + n] == b[i..i + n];
    if enc.isNmstrt(b[i..i + n]) {
      PrologNameStable(enc, b, b', Name, i + n);
    } else if enc.isName(b[i..i + n]) {
      PrologNameStable(enc, b, b', Nmtoken, i + n);
    }
  }

  lemma WhiteRunGrow(enc: Encoding, b: seq<byte>, b': seq<byte>, i: nat)
    requires b <= b' && i <= |b|
    ensures enc.WhiteRun(b', i) == enc.WhiteRun(b', enc.WhiteRun(b, i).next)
    decreases |b| - i
  {
  }

  // A complete prolog token other than white space is the same on every extension of
  // the buffer; so is an error.
  lemma PrologTokStable(enc: Encoding, b: seq<byte>, b': seq<byte>, i: nat)
    requires b <= b' && i <= |b|
    requires enc.PrologTok(b, i).Complete()
    ensures !(enc.PrologTok(b, i).Found? && enc.PrologTok(b, i).tok == PrologS)
            ==> enc.PrologTok(b', i) == enc.PrologTok(b, i)
    ensures enc.PrologTok(b, i).Found? && enc.PrologTok(b, i).tok == PrologS
            ==> enc.PrologTok(b', i) == enc.WhiteRun(b', enc.PrologTok(b, i).next)
  {
    hide Encoding.CharStep, Encoding.PrologName, Encoding.PrologLead, Encoding.ScanLit;
    match enc.typeOf(b[i])
    case Quot => LitStable(enc, b, b', Quot, i + 1);
    case Apos => LitStable(enc, b, b', Apos, i + 1);
    case Lt => PrologLtStable(enc, b, b', i);
    case Cr => if i + 1 < |b| { WhiteRunGrow(enc, b, b', i + 1); }
    case Space => WhiteRunGrow(enc, b, b', i + 1);
    case Lf => WhiteRunGrow(enc, b, b', i + 1);
    case Percnt =>
      StepStable(enc, NmstrtChars, b, b', i + 1);
      var s := enc.CharStep(NmstrtChars, b, i + 1);
      if s.Advance? { PercentNameStable(enc, b, b', s.next); }
    case Num =>
      StepStable(enc, NmstrtChars, b, b', i + 1);
      var s := enc.CharStep(NmstrtChars, b, i + 1);
      if s.Advance? { PoundNameStable(enc, b, b', s.next); }
    case Lead2 => PrologLeadStable(enc, b, b', i, 2);
    case Lead3 => PrologLeadStable(enc, b, b', i, 3);
    case Lead4 => PrologLeadStable(enc, b, b', i, 4);
    case NonAscii => PrologLeadStable(enc, b, b', i, 1);
    case Nmstrt => PrologNameStable(enc, b, b', Name, i + 1);
    case Hex => PrologNameStable(enc, b, b', Name, i + 1);
    case Digit => PrologNameStable(enc, b, b', Nmtoken, i + 1);
    case NameCh => PrologNameStable(enc, b, b', Nmtoken, i + 1);
    case Minus => PrologNameStable(enc, b, b', Nmtoken, i + 1);
    case Colon => PrologNameStable(enc, b, b', Nmtoken, i + 1);
    case _ =>
  }

  lemma PrologLtStable(enc: Encoding, b: seq<byte>, b': seq<byte>, i: nat)
    requires b <= b' && i < |b| && enc.typeOf(b[i]) == Lt
    requires enc.PrologTok(b, i).Complete()
    ensures enc.PrologTok(b', i) == enc.PrologTok(b, i)
  {
    match enc.typeOf(b[i + 1])
    case Excl =>
      if enc.typeOf(b[i + 2]) == Minus && i + 3 < |b| && b[i + 3] == MINUS {
        CommentStable(enc, b, b', i + 4);
      } else if enc.typeOf(b[i + 2]) == Nmstrt || enc.typeOf(b[i + 2]) == Hex {
        DeclNameStable(enc, b, b', i + 3);
      }
    case Quest => PiStable(enc, b, b', i + 2);
    case _ =>
  }

  // White space scanned from the middle of a run is the rest of the run.
  lemma WhiteRunResume(enc: Encoding, b: seq<byte>, i: nat)
    requires i <= |b|
    ensures enc.WhiteRun(b, i) == Found(PrologS, i) || enc.PrologTok(b, i) == enc.WhiteRun(b, i)
  {
  }

  // ----- runs do not depend on where the buffer starts -----

  function Shifted(r: Scan, n: nat): Scan {
    match r
    case Found(tok, next) => Found(tok, next + n)
    case Invalid(at) => Invalid(at + n)
    case _ => r
  }

  lemma StepShift(enc: Encoding, cls: CharClass, b: seq<byte>, n: nat, i: nat)
    requires n + i < |b|
    ensures var s, t := enc.CharStep(cls, b[n..], i), enc.CharStep(cls, b, n + i);
            && (s.Advance? <==> t.Advance?) && (s.Unlisted? <==> t.Unlisted?)
            && (s.Advance? ==> t.next == s.next + n)
            && (s == Halt(PartialChar) <==> t == Halt(PartialChar))
  {
    var d, k := b[n..], n + i;
    if i + 2 <= |d| { assert d[i..i + 2] == b[k..k + 2]; }
    if i + 3 <= |d| { assert d[i..i + 3] == b[k..k + 3]; }
    if i + 4 <= |d| { assert d[i..i + 4] == b[k..k + 4]; }
    assert d[i..i + 1] == b[k..k + 1];
  }

  lemma ContentCharsShift(enc: Encoding, b: seq<byte>, n: nat, i: nat)
    requires n + i <= |b|
    ensures enc.ContentChars(b, n + i) == Shifted(enc.ContentChars(b[n..], i), n)
    decreases |b| - i
  {
    hide Encoding.CharStep;
    if n + i < |b| {
      StepShift(enc, ValidChars, b, n, i);
      match enc.CharStep(ValidChars, b[n..], i)
      case Advance(j) => ContentCharsShift(enc, b, n, j);
      case Halt(_) =>
      case Unlisted => ContentCharsShift(enc, b, n, i + 1);
    }
  }

  lemma CdataCharsShift(enc: Encoding, b: seq<byte>, n: nat, i: nat)
    requires n + i <= |b|
    ensures enc.CdataChars(b, n + i) == Shifted(enc.CdataChars(b[n..], i), n)
    decreases |b| - i
  {
    hide Encoding.CharStep;
    if n + i < |b| {
      StepShift(enc, ValidChars, b, n, i);
      match enc.CharStep(ValidChars, b[n..], i)
      case Advance(j) => CdataCharsShift(enc, b, n, j);
      case Halt(_) =>
      case Unlisted => CdataCharsShift(enc, b, n, i + 1);
    }
  }

  lemma WhiteRunShift(enc: Encoding, b: seq<byte>, n: nat, i: nat)
    requires n + i <= |b|
    ensures enc.WhiteRun(b, n + i) == Shifted(enc.WhiteRun(b[n..], i), n)
    decreases |b| - i
  {
    if n + i < |b| { WhiteRunShift(enc, b, n, i + 1); }
  }

  // A run of n characters has been seen on a short buffer.  On a longer one the scan
  // either ends with that run too, or is the run joined to what is found behind it.
  predicate Joins(tok: Token, n: nat, behind: Scan, whole: Scan) {
    || whole == Found(tok, n)
    || (whole.Invalid? && behind.Invalid?)
    || (behind.Found? && behind.tok == tok && whole == Found(tok, n + behind.next))
  }

  lemma ContentRunJoins(enc: Encoding, b: seq<byte>, b': seq<byte>, n: nat)
    requires b <= b' && enc.ContentTok(b, 0) == Found(DataChars, n)
    ensures n <= |b| && Joins(DataChars, n, enc.ContentTok(b'[n..], 0), enc.ContentTok(b', 0))
  {
    hide Encoding.ContentTok;
    ContentTokStable(enc, b, b', 0);
    ContentCharsShift(enc, b', n, 0);
    ContentCharsResume(enc, b'[n..], 0);
  }

  lemma CdataRunJoins(enc: Encoding, b: seq<byte>, b': seq<byte>, n: nat)
    requires b <= b' && enc.CdataSectionTok(b, 0) == Found(DataChars, n)
    ensures n <= |b| && Joins(DataChars, n, enc.CdataSectionTok(b'[n..], 0), enc.CdataSectionTok(b', 0))
  {
    CdataTokStable(enc, b, b', 0);
    CdataCharsShift(enc, b', n, 0);
    CdataCharsResume(enc, b'[n..], 0);
  }

  lemma WhiteRunJoins(enc: Encoding, b: seq<byte>, b': seq<byte>, n: nat)
    requires b <= b' && enc.PrologTok(b, 0) == Found(PrologS, n)
    ensures n <= |b| && Joins(PrologS, n, enc.PrologTok(b'[n..], 0), enc.PrologTok(b', 0))
  {
    PrologTokStable(enc, b, b', 0);
    WhiteRunShift(enc, b', n, 0);
    WhiteRunResume(enc, b'[n..], 0);
  }
}

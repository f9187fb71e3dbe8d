// The markup of XML 1.0 as byte sequences, with the names of Namespaces in XML, and what the
// scanners of XmlTok find: a comment, processing instruction, tag, reference or CDATA opener
// is found exactly where the grammar has one.
//
// The grammar reads characters with the tables of an encoding, but knows nothing of the
// scanners' states.
module XmlSyntax {
  import opened Collections
  import opened XmlTok
  import opened XmlChars

  // ----- the tables -----

  // What asciitab.h says of a byte, as far as the grammar depends on it; only where there are
  // no namespaces is a colon a letter.
  predicate SameMark(t: ByteType, b: byte) {
    && (t == Lt <==> b == 0x3C) && (t == Gt <==> b == 0x3E) && (t == Amp <==> b == 0x26) && (t == Semi <==> b == 0x3B)
    && (t == Quot <==> b == 0x22) && (t == Apos <==> b == 0x27) && (t == Equals <==> b == 0x3D) && (t == Quest <==> b == 0x3F)
    && (t == Excl <==> b == 0x21) && (t == Sol <==> b == 0x2F) && (t == Num <==> b == 0x23) && (t == Lsqb <==> b == 0x5B)
    && (t == Rsqb <==> b == 0x5D) && (t == Minus <==> b == 0x2D) && (t == Cr <==> b == 0x0D) && (t == Lf <==> b == 0x0A)
    && (t == Space <==> b == 0x20 || b == 0x09) && (t == Digit <==> DecDigit(b)) && (t == Hex <==> HexDigit(b) && !DecDigit(b))
    && (t == Colon ==> b == 0x3A) && (b == LOWER_X ==> t == Nmstrt)
  }

  ghost predicate AsciiTable(enc: Encoding) { forall b: byte :: SameMark(enc.typeOf(b), b) }

  lemma RefMarks(enc: Encoding, c: byte)
    requires AsciiTable(enc)
    ensures (enc.typeOf(c) == Semi <==> c == 0x3B) && (enc.typeOf(c) == Num <==> c == 0x23)
    ensures (enc.typeOf(c) == Digit <==> DecDigit(c)) && (enc.typeOf(c) in {Digit, Hex} <==> HexDigit(c))
    ensures c == LOWER_X ==> enc.typeOf(c) == Nmstrt
  {
    assert SameMark(enc.typeOf(c), c);
  }

  lemma TagMarks(enc: Encoding, c: byte)
    requires AsciiTable(enc)
    ensures (enc.typeOf(c) == Lt <==> c == 0x3C) && (enc.typeOf(c) == Gt <==> c == 0x3E) && (enc.typeOf(c) == Sol <==> c == 0x2F)
    ensures (enc.typeOf(c) == Equals <==> c == 0x3D) && (enc.typeOf(c) == Quot <==> c == 0x22) && (enc.typeOf(c) == Apos <==> c == 0x27)
    ensures enc.typeOf(c) == Amp <==> c == 0x26
  {
    assert SameMark(enc.typeOf(c), c);
  }

  lemma OtherMarks(enc: Encoding, c: byte)
    requires AsciiTable(enc)
    ensures (enc.typeOf(c) == Quest <==> c == 0x3F) && (enc.typeOf(c) == Excl <==> c == 0x21) && (enc.typeOf(c) == Lsqb <==> c == 0x5B)
    ensures (enc.typeOf(c) == Rsqb <==> c == 0x5D) && (enc.typeOf(c) == Minus <==> c == 0x2D)
    ensures (enc.typeOf(c) == Cr <==> c == 0x0D) && (enc.typeOf(c) == Lf <==> c == 0x0A)
  {
    assert SameMark(enc.typeOf(c), c);
  }

  // ----- characters -----

  function LeadWidth(t: ByteType): nat { if t == Lead2 then 2 else if t == Lead3 then 3 else if t == Lead4 then 4 else 0 }

  // How many bytes the character is that begins at i and ends by j: a legal one, one of a
  // name, one that a name can start with; none if there is no such character.
  function CharWidth(enc: Encoding, b: seq<byte>, i: nat, j: nat): (w: nat)
    requires i < j <= |b|
    ensures i + w <= j
  {
    var t, w := enc.typeOf(b[i]), LeadWidth(enc.typeOf(b[i]));
    if t in {NonXml, Malform, Trail} then 0
    else if w == 0 then 1
    else if i + w <= j && !enc.isInvalid(b[i..i + w]) then w else 0
  }

  function NameWidth(enc: Encoding, b: seq<byte>, i: nat, j: nat): (w: nat)
    requires i < j <= |b|
    ensures i + w <= j
  {
    var t, w := enc.typeOf(b[i]), LeadWidth(enc.typeOf(b[i]));
    if t in {Nmstrt, Hex, Digit, NameCh, Minus} then 1
    else if t == NonAscii && enc.isName(b[i..i + 1]) then 1
    else if 0 < w <= j - i && enc.isName(b[i..i + w]) then w else 0
  }

  function NameStartWidth(enc: Encoding, b: seq<byte>, i: nat, j: nat): (w: nat)
    requires i < j <= |b|
    ensures i + w <= j
  {
    var t, w := enc.typeOf(b[i]), LeadWidth(enc.typeOf(b[i]));
    if t in {Nmstrt, Hex} then 1
    else if t == NonAscii && enc.isNmstrt(b[i..i + 1]) then 1
    else if 0 < w <= j - i && enc.isNmstrt(b[i..i + w]) then w else 0
  }

  // The scanners step over those characters, and no others.
  lemma CharSteps(enc: Encoding, b: seq<byte>, i: nat, j: nat)
    requires i < j <= |b|
    ensures var w, step := CharWidth(enc, b, i, j), enc.CharStep(ValidChars, b, i);
            && (0 < w ==> step == Advance(i + w) || (w == 1 && step == Unlisted))
            && (step.Advance? && step.next <= j ==> w == step.next - i)
            && (step.Unlisted? ==> w == 1)
  {
  }

  lemma NameSteps(enc: Encoding, b: seq<byte>, i: nat, j: nat)
    requires i < j <= |b|
    ensures var w, step := NameWidth(enc, b, i, j), enc.CharStep(NameChars, b, i);
            && (0 < w ==> step == Advance(i + w))
            && (step.Advance? && step.next <= j ==> w == step.next - i)
            && (step.Unlisted? ==> w == 0)
  {
  }

  lemma NameStartSteps(enc: Encoding, b: seq<byte>, i: nat, j: nat)
    requires i < j <= |b|
    ensures var w, step := NameStartWidth(enc, b, i, j), enc.CharStep(NmstrtChars, b, i);
            && (0 < w ==> step == Advance(i + w))
            && (step.Advance? && step.next <= j ==> w == step.next - i)
            && (step.Unlisted? ==> w == 0)
  {
  }

  // a character of several bytes begins with none of these
  lemma LeadIsOther(enc: Encoding, b: seq<byte>, i: nat)
    requires AsciiTable(enc) && i < |b| && enc.CharStep(ValidChars, b, i).Advance?
    ensures b[i] !in {MINUS, 0x3F, 0x26, 0x3C, 0x22, 0x27, 0x0D, 0x0A, 0x5D}
  {
    hide AsciiTable;
    OtherMarks(enc, b[i]);
    TagMarks(enc, b[i]);
  }

  // white space, and the bytes that end names and tags, are no name characters
  lemma MarkUnlisted(enc: Encoding, b: seq<byte>, i: nat)
    requires i < |b|
    requires enc.typeOf(b[i]).White() || enc.typeOf(b[i]) in {Gt, Sol, Equals, Quest, Semi, Quot, Apos, Amp, Lt, Excl, Num, Rsqb}
    ensures enc.CharStep(NameChars, b, i) == Unlisted && enc.CharStep(NmstrtChars, b, i) == Unlisted
    ensures enc.CharStep(ValidChars, b, i) == Unlisted
  {
  }

  lemma ColonUnlisted(enc: Encoding, b: seq<byte>, i: nat)
    requires i < |b| && enc.typeOf(b[i]) == Colon
    ensures enc.CharStep(NameChars, b, i) == Unlisted && !enc.typeOf(b[i]).White()
  {
  }

  // ----- names and white space -----

  predicate White(enc: Encoding, b: seq<byte>, i: nat, j: nat)
    requires i <= j <= |b|
  {
    forall k :: i <= k < j ==> enc.typeOf(b[k]).White()
  }

  // any number of name characters
  predicate NameRest(enc: Encoding, b: seq<byte>, i: nat, j: nat)
    requires i <= j <= |b|
    decreases j - i
  {
    i == j || (var w := NameWidth(enc, b, i, j); 0 < w && NameRest(enc, b, i + w, j))
  }

  // NCName of Namespaces in XML, or Name where a colon is a letter
  predicate NcName(enc: Encoding, b: seq<byte>, i: nat, j: nat)
    requires i <= j <= |b|
  {
    i < j && (var w := NameStartWidth(enc, b, i, j); 0 < w && NameRest(enc, b, i + w, j))
  }

  // QName: a name, or two with a colon between
  ghost predicate QName(enc: Encoding, b: seq<byte>, i: nat, j: nat)
    requires i <= j <= |b|
  {
    NcName(enc, b, i, j) || exists k :: i < k < j && Prefixed(enc, b, i, k, j)
  }

  predicate Prefixed(enc: Encoding, b: seq<byte>, i: nat, k: nat, j: nat)
    requires i < k < j <= |b|
  {
    enc.typeOf(b[k]) == Colon && NcName(enc, b, i, k) && NcName(enc, b, k + 1, j)
  }

  // what an end tag may have for a name; it has to be that of a start tag anyway
  predicate LooseRest(enc: Encoding, b: seq<byte>, i: nat, j: nat)
    requires i <= j <= |b|
    decreases j - i
  {
    i == j ||
    (var w := if enc.typeOf(b[i]) == Colon then 1 else NameWidth(enc, b, i, j); 0 < w && LooseRest(enc, b, i + w, j))
  }

  predicate LooseName(enc: Encoding, b: seq<byte>, i: nat, j: nat)
    requires i <= j <= |b|
  {
    i < j && (var w := NameStartWidth(enc, b, i, j); 0 < w && LooseRest(enc, b, i + w, j))
  }

  // the end of the name characters from i on
  lemma {:induction false} NameEnd(enc: Encoding, b: seq<byte>, i: nat) returns (j: nat)
    requires i <= |b|
    ensures i <= j <= |b| && NameRest(enc, b, i, j) && (j < |b| ==> !enc.CharStep(NameChars, b, j).Advance?)
    decreases |b| - i
  {
    hide Encoding.CharStep, NameWidth;
    if i < |b| && enc.CharStep(NameChars, b, i).Advance? {
      j := NameEnd(enc, b, enc.CharStep(NameChars, b, i).next);
      NameSteps(enc, b, i, j);
    } else {
      j := i;
    }
  }

  lemma {:induction false} LooseEnd(enc: Encoding, b: seq<byte>, i: nat) returns (j: nat)
    requires i <= |b|
    ensures i <= j <= |b| && LooseRest(enc, b, i, j)
    ensures j < |b| ==> !enc.CharStep(NameChars, b, j).Advance? && enc.typeOf(b[j]) != Colon
    decreases |b| - i
  {
    hide Encoding.CharStep, NameWidth;
    if i < |b| && enc.typeOf(b[i]) == Colon {
      j := LooseEnd(enc, b, i + 1);
    } else if i < |b| && enc.CharStep(NameChars, b, i).Advance? {
      j := LooseEnd(enc, b, enc.CharStep(NameChars, b, i).next);
      NameSteps(enc, b, i, j);
    } else {
      j := i;
    }
  }

  lemma {:induction false} WhiteEnd(enc: Encoding, b: seq<byte>, i: nat) returns (j: nat)
    requires i <= |b|
    ensures i <= j <= |b| && White(enc, b, i, j) && (j < |b| ==> !enc.typeOf(b[j]).White())
    decreases |b| - i
  {
    if i < |b| && enc.typeOf(b[i]).White() {
      j := WhiteEnd(enc, b, i + 1);
    } else {
      j := i;
    }
  }

  lemma WhiteMore(enc: Encoding, b: seq<byte>, i: nat, j: nat)
    requires i < j <= |b| && enc.typeOf(b[i]).White() && White(enc, b, i + 1, j)
    ensures White(enc, b, i, j)
  {
  }

  lemma NoWhite(enc: Encoding, b: seq<byte>, i: nat)
    requires i <= |b|
    ensures White(enc, b, i, i)
  {
  }

  // a name that a scanner has begun
  lemma FoundName(enc: Encoding, b: seq<byte>, i: nat, k: nat) returns (j: nat)
    requires i < |b| && enc.CharStep(NmstrtChars, b, i) == Advance(k)
    ensures i < k <= j <= |b| && NcName(enc, b, i, j) && NameRest(enc, b, k, j) && (j < |b| ==> !enc.CharStep(NameChars, b, j).Advance?)
  {
    hide NameRest, NameStartWidth, Encoding.CharStep;
    j := NameEnd(enc, b, k);
    NameStartSteps(enc, b, i, j);
  }

  // and one that it will
  lemma NameStarts(enc: Encoding, b: seq<byte>, i: nat, j: nat) returns (k: nat)
    requires i <= j <= |b| && NcName(enc, b, i, j)
    ensures i < k <= j && enc.CharStep(NmstrtChars, b, i) == Advance(k) && NameRest(enc, b, k, j)
  {
    hide NameRest, NameStartWidth, Encoding.CharStep;
    k := i + NameStartWidth(enc, b, i, j);
    NameStartSteps(enc, b, i, j);
  }

  // ----- stepping over names and white space -----

  lemma {:induction false} RefNameSkips(enc: Encoding, b: seq<byte>, i: nat, j: nat)
    requires i <= j <= |b| && NameRest(enc, b, i, j)
    ensures enc.RefName(b, i) == enc.RefName(b, j)
    decreases j - i
  {
    hide Encoding.CharStep, NameWidth;
    if i < j {
      NameSteps(enc, b, i, j);
      RefNameSkips(enc, b, i + NameWidth(enc, b, i, j), j);
    }
  }

  lemma {:induction false} StartNameSkips(enc: Encoding, b: seq<byte>, hadColon: bool, i: nat, j: nat)
    requires i <= j <= |b| && NameRest(enc, b, i, j)
    ensures enc.StartName(b, hadColon, i) == enc.StartName(b, hadColon, j)
    decreases j - i
  {
    hide Encoding.CharStep, NameWidth, Encoding.StartSpace;
    if i < j {
      NameSteps(enc, b, i, j);
      StartNameSkips(enc, b, hadColon, i + NameWidth(enc, b, i, j), j);
    }
  }

  lemma {:induction false} AttNameSkips(enc: Encoding, b: seq<byte>, hadColon: bool, i: nat, j: nat)
    requires i <= j <= |b| && NameRest(enc, b, i, j)
    ensures enc.AttName(b, hadColon, i) == enc.AttName(b, hadColon, j)
    decreases j - i
  {
    hide Encoding.CharStep, NameWidth, Encoding.AttBeforeEquals, Encoding.AttAfterEquals;
    if i < j {
      NameSteps(enc, b, i, j);
      AttNameSkips(enc, b, hadColon, i + NameWidth(enc, b, i, j), j);
    }
  }

  lemma {:induction false} PiTargetSkips(enc: Encoding, b: seq<byte>, target: nat, i: nat, j: nat)
    requires target <= i <= j <= |b| && NameRest(enc, b, i, j)
    ensures enc.PiTarget(b, target, i) == enc.PiTarget(b, target, j)
    decreases j - i
  {
    hide Encoding.CharStep, NameWidth, Encoding.PiBody, PiToken;
    if i < j {
      NameSteps(enc, b, i, j);
      PiTargetSkips(enc, b, target, i + NameWidth(enc, b, i, j), j);
    }
  }

  lemma {:induction false} EndNameSkips(enc: Encoding, b: seq<byte>, i: nat, j: nat)
    requires i <= j <= |b| && LooseRest(enc, b, i, j)
    ensures enc.EndTagName(b, i) == enc.EndTagName(b, j)
    decreases j - i
  {
    hide Encoding.CharStep, NameWidth, Encoding.EndTagSpace;
    if i < j {
      if enc.typeOf(b[i]) == Colon {
        ColonUnlisted(enc, b, i);
        EndNameSkips(enc, b, i + 1, j);
      } else {
        NameSteps(enc, b, i, j);
        EndNameSkips(enc, b, i + NameWidth(enc, b, i, j), j);
      }
    }
  }

  lemma {:induction false} SpaceSkips(enc: Encoding, b: seq<byte>, i: nat, j: nat)
    requires i <= j <= |b| && White(enc, b, i, j)
    ensures enc.StartSpace(b, i) == enc.StartSpace(b, j)
    ensures enc.AttBeforeEquals(b, i) == enc.AttBeforeEquals(b, j)
    ensures enc.AttAfterEquals(b, i) == enc.AttAfterEquals(b, j)
    ensures enc.AttNext(b, i) == enc.AttNext(b, j)
    ensures enc.EndTagSpace(b, i) == enc.EndTagSpace(b, j)
    decreases j - i
  {
    hide Encoding.CharStep, Encoding.AttName, Encoding.AttValue, Encoding.EmptyEnd;
    if i < j {
      MarkUnlisted(enc, b, i);
      SpaceSkips(enc, b, i + 1, j);
    }
  }

  // ----- references -----

  predicate AllDec(b: seq<byte>, i: nat, j: nat)
    requires i <= j <= |b|
  {
    forall k :: i <= k < j ==> DecDigit(b[k])
  }

  predicate AllHex(b: seq<byte>, i: nat, j: nat)
    requires i <= j <= |b|
  {
    forall k :: i <= k < j ==> HexDigit(b[k])
  }

  // CharRef of section 4.1 of XML 1.0, from p to n
  predicate IsCharRef(b: seq<byte>, p: nat, n: nat)
    requires p <= n <= |b|
  {
    && p + 4 <= n && b[p] == 0x26 && b[p + 1] == 0x23 && b[n - 1] == 0x3B
    && if b[p + 2] == LOWER_X then p + 5 <= n && AllHex(b, p + 3, n - 1) else AllDec(b, p + 2, n - 1)
  }

  // EntityRef
  predicate IsEntityRef(enc: Encoding, b: seq<byte>, p: nat, n: nat)
    requires p <= n <= |b|
  {
    p + 3 <= n && b[p] == 0x26 && b[n - 1] == 0x3B && NcName(enc, b, p + 1, n - 1)
  }

  predicate IsReference(enc: Encoding, b: seq<byte>, p: nat, n: nat)
    requires p <= n <= |b|
  {
    IsCharRef(b, p, n) || IsEntityRef(enc, b, p, n)
  }

  lemma {:induction false} DecDigitsSkip(enc: Encoding, b: seq<byte>, i: nat, j: nat)
    requires AsciiTable(enc) && i <= j <= |b| && AllDec(b, i, j)
    ensures enc.DecDigits(b, i) == enc.DecDigits(b, j)
    decreases j - i
  {
    hide AsciiTable;
    if i < j {
      RefMarks(enc, b[i]);
      DecDigitsSkip(enc, b, i + 1, j);
    }
  }

  lemma {:induction false} HexDigitsSkip(enc: Encoding, b: seq<byte>, i: nat, j: nat)
    requires AsciiTable(enc) && i <= j <= |b| && AllHex(b, i, j)
    ensures enc.HexDigits(b, i) == enc.HexDigits(b, j)
    decreases j - i
  {
    hide AsciiTable;
    if i < j {
      RefMarks(enc, b[i]);
      HexDigitsSkip(enc, b, i + 1, j);
    }
  }

  lemma EntityRefFound(enc: Encoding, b: seq<byte>, p: nat, n: nat)
    requires AsciiTable(enc) && p <= n <= |b| && IsEntityRef(enc, b, p, n)
    ensures enc.ScanRef(b, p + 1) == Found(EntityRef, n)
  {
    hide AsciiTable, NameRest, NcName, Encoding.CharStep;
    RefMarks(enc, b[n - 1]);
    var k := NameStarts(enc, b, p + 1, n - 1);
    RefNameSkips(enc, b, k, n - 1);
    MarkUnlisted(enc, b, n - 1);
  }

  lemma CharRefFound(enc: Encoding, b: seq<byte>, p: nat, n: nat)
    requires AsciiTable(enc) && p <= n <= |b| && IsCharRef(b, p, n)
    ensures enc.ScanRef(b, p + 1) == Found(CharRef, n)
  {
    hide AsciiTable, Encoding.RefName, Encoding.CharStep;
    RefMarks(enc, b[p + 1]);
    RefMarks(enc, b[p + 2]);
    RefMarks(enc, b[n - 1]);
    MarkUnlisted(enc, b, p + 1);
    if b[p + 2] == LOWER_X {
      RefMarks(enc, b[p + 3]);
      HexDigitsSkip(enc, b, p + 4, n - 1);
    } else {
      DecDigitsSkip(enc, b, p + 3, n - 1);
    }
  }

  lemma {:induction false} FoundDecDigits(enc: Encoding, b: seq<byte>, i: nat) returns (n: nat)
    requires AsciiTable(enc) && i <= |b| && enc.DecDigits(b, i).Found?
    ensures enc.DecDigits(b, i) == Found(CharRef, n) && i < n <= |b| && b[n - 1] == 0x3B && AllDec(b, i, n - 1)
    decreases |b| - i
  {
    hide AsciiTable;
    RefMarks(enc, b[i]);
    n := enc.DecDigits(b, i).next;
    if enc.typeOf(b[i]) == Digit { var m := FoundDecDigits(enc, b, i + 1); }
  }

  lemma {:induction false} FoundHexDigits(enc: Encoding, b: seq<byte>, i: nat) returns (n: nat)
    requires AsciiTable(enc) && i <= |b| && enc.HexDigits(b, i).Found?
    ensures enc.HexDigits(b, i) == Found(CharRef, n) && i < n <= |b| && b[n - 1] == 0x3B && AllHex(b, i, n - 1)
    decreases |b| - i
  {
    hide AsciiTable;
    RefMarks(enc, b[i]);
    n := enc.HexDigits(b, i).next;
    if enc.typeOf(b[i]) in {Digit, Hex} { var m := FoundHexDigits(enc, b, i + 1); }
  }

  // What is found as a reference is one.
  lemma FoundRef(enc: Encoding, b: seq<byte>, p: nat)
    requires AsciiTable(enc) && p < |b| && b[p] == 0x26 && enc.ScanRef(b, p + 1).Found?
    ensures var r := enc.ScanRef(b, p + 1);
            || (r.tok == EntityRef && IsEntityRef(enc, b, p, r.next))
            || (r.tok == CharRef && IsCharRef(b, p, r.next))
  {
    hide AsciiTable, NcName, NameRest, Encoding.CharStep, Encoding.RefName, Encoding.ScanCharRef, IsCharRef, IsEntityRef;
    match enc.CharStep(NmstrtChars, b, p + 1)
    case Advance(k) => FoundEntityRef(enc, b, p, k);
    case Unlisted =>
      RefMarks(enc, b[p + 1]);
      FoundCharRef(enc, b, p);
    case _ =>
  }

  lemma FoundEntityRef(enc: Encoding, b: seq<byte>, p: nat, k: nat)
    requires AsciiTable(enc) && p + 1 < |b| && b[p] == 0x26 && enc.CharStep(NmstrtChars, b, p + 1) == Advance(k) && enc.RefName(b, k).Found?
    ensures var r := enc.RefName(b, k); r.tok == EntityRef && IsEntityRef(enc, b, p, r.next)
  {
    hide AsciiTable, NcName, NameRest, Encoding.CharStep;
    var j := FoundName(enc, b, p + 1, k);
    RefNameSkips(enc, b, k, j);
    RefMarks(enc, b[j]);
  }

  lemma FoundCharRef(enc: Encoding, b: seq<byte>, p: nat)
    requires AsciiTable(enc) && p + 1 < |b| && b[p] == 0x26 && b[p + 1] == 0x23 && enc.ScanCharRef(b, p + 2).Found?
    ensures var r := enc.ScanCharRef(b, p + 2); r.tok == CharRef && IsCharRef(b, p, r.next)
  {
    hide AsciiTable, Encoding.DecDigits, Encoding.HexDigits;
    RefMarks(enc, b[p + 2]);
    if b[p + 2] == LOWER_X {
      RefMarks(enc, b[p + 3]);
      var n := FoundHexDigits(enc, b, p + 4);
    } else {
      var n := FoundDecDigits(enc, b, p + 3);
    }
  }

  // ----- comments -----

  // the text of a comment: no two hyphens in a row, and none at the end
  predicate CommentText(enc: Encoding, b: seq<byte>, i: nat, j: nat)
    requires i <= j <= |b|
    decreases j - i
  {
    i == j ||
    (var w := CharWidth(enc, b, i, j);
     0 < w && (b[i] == MINUS ==> i + 1 < j && b[i + 1] != MINUS) && CommentText(enc, b, i + w, j))
  }

  // Comment of section 2.5
  predicate IsComment(enc: Encoding, b: seq<byte>, p: nat, n: nat)
    requires p <= n <= |b|
  {
    && p + 7 <= n && b[p] == 0x3C && b[p + 1] == 0x21 && b[p + 2] == MINUS && b[p + 3] == MINUS
    && CommentText(enc, b, p + 4, n - 3) && b[n - 3] == MINUS && b[n - 2] == MINUS && b[n - 1] == GT
  }

  lemma {:induction false} CommentSkips(enc: Encoding, b: seq<byte>, i: nat, j: nat)
    requires AsciiTable(enc) && i <= j <= |b| && CommentText(enc, b, i, j)
    ensures enc.CommentBody(b, i) == enc.CommentBody(b, j)
    decreases j - i
  {
    hide AsciiTable, CharWidth, Encoding.CharStep;
    if i < j {
      CharSteps(enc, b, i, j);
      OtherMarks(enc, b[i]);
      CommentSkips(enc, b, i + CharWidth(enc, b, i, j), j);
    }
  }

  lemma CommentEnds(enc: Encoding, b: seq<byte>, i: nat)
    requires AsciiTable(enc) && i + 3 <= |b| && b[i] == MINUS && b[i + 1] == MINUS && b[i + 2] == GT
    ensures enc.CommentBody(b, i) == Found(Comment, i + 3)
  {
    hide AsciiTable;
    OtherMarks(enc, b[i]);
  }

  lemma CommentFound(enc: Encoding, b: seq<byte>, p: nat, n: nat)
    requires AsciiTable(enc) && p <= n <= |b| && IsComment(enc, b, p, n)
    ensures enc.ScanComment(b, p + 3) == Found(Comment, n)
  {
    hide AsciiTable, CommentText, Encoding.CommentBody;
    CommentSkips(enc, b, p + 4, n - 3);
    CommentEnds(enc, b, n - 3);
  }

  // one step of the body
  lemma CommentStep(enc: Encoding, b: seq<byte>, i: nat)
    requires AsciiTable(enc) && i <= |b| && enc.CommentBody(b, i).Found?
    ensures i < |b|
    ensures var r, step := enc.CommentBody(b, i), enc.CharStep(ValidChars, b, i);
            || (step.Advance? && b[i] != MINUS && r == enc.CommentBody(b, step.next))
            || (step.Unlisted? && i + 3 <= |b| && b[i] == MINUS && b[i + 1] == MINUS && b[i + 2] == GT && r == Found(Comment, i + 3))
            || (step.Unlisted? && i + 1 <= |b| && (b[i] == MINUS ==> i + 1 < |b| && b[i + 1] != MINUS) && r == enc.CommentBody(b, i + 1))
  {
    hide AsciiTable, Encoding.CharStep;
    MinusMark(enc, b[i]);
    if enc.CharStep(ValidChars, b, i).Advance? { LeadIsOther(enc, b, i); }
  }

  lemma MinusMark(enc: Encoding, c: byte)
    requires AsciiTable(enc)
    ensures enc.typeOf(c) == Minus <==> c == MINUS
  {
    assert SameMark(enc.typeOf(c), c);
  }

  lemma {:induction false} FoundComment(enc: Encoding, b: seq<byte>, i: nat) returns (n: nat)
    requires AsciiTable(enc) && i <= |b| && enc.CommentBody(b, i).Found?
    ensures enc.CommentBody(b, i) == Found(Comment, n) && i + 3 <= n <= |b| && CommentText(enc, b, i, n - 3)
    ensures b[n - 3] == MINUS && b[n - 2] == MINUS && b[n - 1] == GT
    decreases |b| - i
  {
    hide AsciiTable, CharWidth, Encoding.CharStep, Encoding.CommentBody;
    CommentStep(enc, b, i);
    n := enc.CommentBody(b, i).next;
    var step := enc.CharStep(ValidChars, b, i);
    if step.Advance? {
      var m := FoundComment(enc, b, step.next);
      CharSteps(enc, b, i, n - 3);
    } else if enc.CommentBody(b, i) == Found(Comment, i + 3) && b[i] == MINUS && b[i + 1] == MINUS {
    } else {
      var m := FoundComment(enc, b, i + 1);
      CharSteps(enc, b, i, n - 3);
    }
  }

  // ----- processing instructions -----

  // the text of a processing instruction: no "?>"
  predicate PiText(enc: Encoding, b: seq<byte>, i: nat, j: nat)
    requires i <= j <= |b|
    decreases j - i
  {
    i == j ||
    (var w := CharWidth(enc, b, i, j);
     0 < w && (b[i] == 0x3F && i + 1 < j ==> b[i + 1] != GT) && PiText(enc, b, i + w, j))
  }

  function Lower(s: seq<byte>): seq<byte> {
    seq(|s|, k requires 0 <= k < |s| => if 0x41 <= s[k] <= 0x5A then s[k] + 0x20 else s[k])
  }

  const XML: seq<byte> := [0x78, 0x6D, 0x6C]

  // PI of section 2.6 with the target up to k, and, with the target "xml", an XML or text
  // declaration; the target is "xml" in no other case
  predicate PiParts(enc: Encoding, b: seq<byte>, p: nat, k: nat, n: nat, declaration: bool)
    requires p <= n <= |b|
  {
    && p + 2 < k <= n - 2 && b[p] == 0x3C && b[p + 1] == 0x3F && b[n - 2] == 0x3F && b[n - 1] == GT
    && NcName(enc, b, p + 2, k) && (if declaration then b[p + 2..k] == XML else Lower(b[p + 2..k]) != XML)
    && (k < n - 2 ==> enc.typeOf(b[k]).White() && PiText(enc, b, k + 1, n - 2))
  }

  ghost predicate IsPi(enc: Encoding, b: seq<byte>, p: nat, n: nat, declaration: bool)
    requires p <= n <= |b|
  {
    exists k: nat :: PiParts(enc, b, p, k, n, declaration)
  }

  lemma PiTokenIs(target: seq<byte>)
    ensures PiToken(target) == if target == XML then Some(XmlDecl) else if Lower(target) == XML then None else Some(Pi)
  {
    var l := Lower(target);
    if |target| == 3 {
      assert l == [l[0], l[1], l[2]];
      assert target == [target[0], target[1], target[2]];
    }
  }

  lemma {:induction false} PiSkips(enc: Encoding, b: seq<byte>, tok: Token, i: nat, j: nat)
    requires AsciiTable(enc) && i <= j < |b| && b[j] == 0x3F && PiText(enc, b, i, j) && tok in {Pi, XmlDecl}
    ensures enc.PiBody(b, tok, i) == enc.PiBody(b, tok, j)
    decreases j - i
  {
    hide AsciiTable, CharWidth, Encoding.CharStep;
    if i < j {
      CharSteps(enc, b, i, j);
      OtherMarks(enc, b[i]);
      PiSkips(enc, b, tok, i + CharWidth(enc, b, i, j), j);
    }
  }

  lemma PiEnds(enc: Encoding, b: seq<byte>, tok: Token, i: nat)
    requires AsciiTable(enc) && i + 2 <= |b| && b[i] == 0x3F && b[i + 1] == GT && tok in {Pi, XmlDecl}
    ensures enc.PiBody(b, tok, i) == Found(tok, i + 2)
  {
    hide AsciiTable;
    OtherMarks(enc, b[i]);
  }

  // what follows the target
  lemma PiTargetWhite(enc: Encoding, b: seq<byte>, target: nat, k: nat)
    requires target <= k < |b| && enc.typeOf(b[k]).White()
    ensures var tok := PiToken(b[target..k]);
            enc.PiTarget(b, target, k) == if tok.None? then Invalid(k) else enc.PiBody(b, tok.value, k + 1)
  {
    hide PiToken, Encoding.CharStep, Encoding.PiBody;
    MarkUnlisted(enc, b, k);
  }

  lemma PiTargetClosed(enc: Encoding, b: seq<byte>, target: nat, k: nat)
    requires AsciiTable(enc) && target <= k && k + 2 <= |b| && b[k] == 0x3F && b[k + 1] == GT
    ensures var tok := PiToken(b[target..k]);
            enc.PiTarget(b, target, k) == if tok.None? then Invalid(k) else Found(tok.value, k + 2)
  {
    hide AsciiTable, PiToken, Encoding.CharStep, Encoding.PiBody;
    OtherMarks(enc, b[k]);
    MarkUnlisted(enc, b, k);
  }

  lemma PiFound(enc: Encoding, b: seq<byte>, p: nat, n: nat, declaration: bool)
    requires AsciiTable(enc) && p <= n <= |b| && IsPi(enc, b, p, n, declaration)
    ensures p + 2 <= n && enc.ScanPi(b, p + 2) == Found(if declaration then XmlDecl else Pi, n)
  {
    hide AsciiTable, NcName, NameRest, PiText, Lower, Encoding.CharStep, Encoding.PiBody, Encoding.PiTarget, PiToken;
    var k: nat :| PiParts(enc, b, p, k, n, declaration);
    var m := NameStarts(enc, b, p + 2, k);
    PiTargetSkips(enc, b, p + 2, m, k);
    PiTokenIs(b[p + 2..k]);
    var tok := if declaration then XmlDecl else Pi;
    XmlIsLower();
    if k < n - 2 {
      PiTargetWhite(enc, b, p + 2, k);
      PiSkips(enc, b, tok, k + 1, n - 2);
      PiEnds(enc, b, tok, n - 2);
    } else {
      PiTargetClosed(enc, b, p + 2, k);
    }
  }

  lemma XmlIsLower()
    ensures Lower(XML) == XML
  {
  }

  lemma PiStep(enc: Encoding, b: seq<byte>, tok: Token, i: nat)
    requires AsciiTable(enc) && i <= |b| && tok in {Pi, XmlDecl} && enc.PiBody(b, tok, i).Found?
    ensures i < |b|
    ensures var r, step := enc.PiBody(b, tok, i), enc.CharStep(ValidChars, b, i);
            || (step.Advance? && b[i] != 0x3F && r == enc.PiBody(b, tok, step.next))
            || (step.Unlisted? && i + 2 <= |b| && b[i] == 0x3F && b[i + 1] == GT && r == Found(tok, i + 2))
            || (step.Unlisted? && (b[i] == 0x3F ==> i + 1 < |b| && b[i + 1] != GT) && r == enc.PiBody(b, tok, i + 1))
  {
    hide AsciiTable, Encoding.CharStep;
    OtherMarks(enc, b[i]);
    if enc.CharStep(ValidChars, b, i).Advance? { LeadIsOther(enc, b, i); }
  }

  lemma {:induction false} FoundPi(enc: Encoding, b: seq<byte>, tok: Token, i: nat) returns (n: nat)
    requires AsciiTable(enc) && i <= |b| && tok in {Pi, XmlDecl} && enc.PiBody(b, tok, i).Found?
    ensures enc.PiBody(b, tok, i) == Found(tok, n) && i + 2 <= n <= |b| && PiText(enc, b, i, n - 2)
    ensures b[n - 2] == 0x3F && b[n - 1] == GT
    decreases |b| - i
  {
    hide AsciiTable, CharWidth, Encoding.CharStep, Encoding.PiBody;
    PiStep(enc, b, tok, i);
    n := enc.PiBody(b, tok, i).next;
    var step := enc.CharStep(ValidChars, b, i);
    if step.Advance? {
      var m := FoundPi(enc, b, tok, step.next);
      CharSteps(enc, b, i, n - 2);
    } else if b[i] == 0x3F && b[i + 1] == GT {
    } else {
      var m := FoundPi(enc, b, tok, i + 1);
      CharSteps(enc, b, i, n - 2);
    }
  }

  lemma PiTargetEnds(enc: Encoding, b: seq<byte>, target: nat, k: nat)
    requires AsciiTable(enc) && target <= k <= |b| && enc.PiTarget(b, target, k).Found?
    requires k < |b| ==> !enc.CharStep(NameChars, b, k).Advance?
    ensures k < |b| && PiToken(b[target..k]).Some?
    ensures enc.typeOf(b[k]).White() || (k + 2 <= |b| && b[k] == 0x3F && b[k + 1] == GT)
  {
    hide AsciiTable, PiToken, Encoding.CharStep, Encoding.PiBody;
    OtherMarks(enc, b[k]);
  }

  lemma MakePi(enc: Encoding, b: seq<byte>, p: nat, k: nat, n: nat, tok: Token)
    requires p + 2 < k <= n - 2 < |b| - 1 && b[p] == 0x3C && b[p + 1] == 0x3F && b[n - 2] == 0x3F && b[n - 1] == GT
    requires NcName(enc, b, p + 2, k) && PiToken(b[p + 2..k]) == Some(tok)
    requires k < n - 2 ==> enc.typeOf(b[k]).White() && PiText(enc, b, k + 1, n - 2)
    ensures tok in {Pi, XmlDecl} && IsPi(enc, b, p, n, tok == XmlDecl)
  {
    hide NcName, PiText, Lower, PiToken;
    PiTokenIs(b[p + 2..k]);
    assert PiParts(enc, b, p, k, n, tok == XmlDecl);
  }

  lemma ScanPiStep(enc: Encoding, b: seq<byte>, i: nat)
    requires i <= |b| && enc.ScanPi(b, i).Found?
    ensures i < |b| && enc.CharStep(NmstrtChars, b, i).Advance?
    ensures enc.ScanPi(b, i) == enc.PiTarget(b, i, enc.CharStep(NmstrtChars, b, i).next)
  {
    hide Encoding.CharStep, Encoding.PiTarget;
  }

  lemma FoundIsPi(enc: Encoding, b: seq<byte>, p: nat)
    requires AsciiTable(enc) && p + 2 <= |b| && b[p] == 0x3C && b[p + 1] == 0x3F && enc.ScanPi(b, p + 2).Found?
    ensures var r := enc.ScanPi(b, p + 2);
            r.tok in {Pi, XmlDecl} && IsPi(enc, b, p, r.next, r.tok == XmlDecl)
  {
    hide *;
    ScanPiStep(enc, b, p + 2);
    var m := enc.CharStep(NmstrtChars, b, p + 2).next;
    var k := FoundName(enc, b, p + 2, m);
    PiTargetSkips(enc, b, p + 2, m, k);
    PiTargetEnds(enc, b, p + 2, k);
    var tok := PiToken(b[p + 2..k]).value;
    if enc.typeOf(b[k]).White() {
      PiTargetWhite(enc, b, p + 2, k);
      var n := FoundPi(enc, b, tok, k + 1);
      MakePi(enc, b, p, k, n, tok);
    } else {
      PiTargetClosed(enc, b, p + 2, k);
      MakePi(enc, b, p, k, k + 2, tok);
    }
  }

  // ----- CDATA openers and end tags -----

  const CDATA_OPENER: seq<byte> := [0x3C, 0x21, 0x5B, 0x43, 0x44, 0x41, 0x54, 0x41, 0x5B]

  predicate IsOpener(b: seq<byte>, p: nat, n: nat)
    requires p <= n <= |b|
  {
    b[p..n] == CDATA_OPENER
  }

  // the six bytes of it that are matched
  lemma {:induction false} OpenerMatches(enc: Encoding, b: seq<byte>, i: nat, k: nat)
    requires i + 6 <= |b| && k <= 6
    ensures if (forall m :: k <= m < 6 ==> b[i + m] == CDATA_LSQB[m]) then enc.MatchCdata(b, i, k) == Found(CdataSectOpen, i + 6)
            else enc.MatchCdata(b, i, k).Invalid?
    decreases 6 - k
  {
    if k < 6 { OpenerMatches(enc, b, i, k + 1); }
  }

  lemma OpenerIs(enc: Encoding, b: seq<byte>, p: nat)
    requires p + 3 <= |b| && b[p] == 0x3C && b[p + 1] == 0x21 && b[p + 2] == 0x5B
    ensures var r := enc.ScanCdataSection(b, p + 3);
            && (r.Found? ==> r == Found(CdataSectOpen, p + 9) && IsOpener(b, p, p + 9))
            && (p + 9 <= |b| && IsOpener(b, p, p + 9) ==> r == Found(CdataSectOpen, p + 9))
  {
    hide Encoding.MatchCdata;
    if p + 9 <= |b| {
      OpenerMatches(enc, b, p + 3, 0);
      var s := b[p..p + 9];
      assert forall m :: 0 <= m < 6 ==> b[p + 3 + m] == s[3 + m] && CDATA_LSQB[m] == CDATA_OPENER[3 + m];
      assert s[0] == b[p] && s[1] == b[p + 1] && s[2] == b[p + 2];
      if enc.ScanCdataSection(b, p + 3).Found? {
        forall k | 0 <= k < 9 ensures s[k] == CDATA_OPENER[k] { if 3 <= k { assert b[p + 3 + (k - 3)] == CDATA_LSQB[k - 3]; } }
      }
    }
  }

  // ETag of section 3.1, with the name up to k
  predicate EndTagParts(enc: Encoding, b: seq<byte>, p: nat, k: nat, n: nat)
    requires p <= n <= |b|
  {
    && p + 2 < k < n && b[p] == 0x3C && b[p + 1] == 0x2F && b[n - 1] == GT
    && LooseName(enc, b, p + 2, k) && White(enc, b, k, n - 1)
  }

  ghost predicate IsEndTag(enc: Encoding, b: seq<byte>, p: nat, n: nat)
    requires p <= n <= |b|
  {
    exists k: nat :: EndTagParts(enc, b, p, k, n)
  }

  lemma EndTagFound(enc: Encoding, b: seq<byte>, p: nat, n: nat, k: nat)
    requires AsciiTable(enc) && p <= n <= |b| && EndTagParts(enc, b, p, k, n)
    ensures enc.ScanEndTag(b, p + 2) == Found(EndTag, n)
  {
    hide AsciiTable, LooseRest, White, NameStartWidth, Encoding.CharStep;
    NameStartSteps(enc, b, p + 2, k);
    EndNameSkips(enc, b, p + 2 + NameStartWidth(enc, b, p + 2, k), k);
    EndSpaceEnds(enc, b, k, n - 1);
  }

  lemma EndSpaceEnds(enc: Encoding, b: seq<byte>, j: nat, n: nat)
    requires AsciiTable(enc) && j <= n < |b| && White(enc, b, j, n) && b[n] == GT
    ensures enc.EndTagName(b, j) == Found(EndTag, n + 1)
  {
    hide *;
    EndCloses(enc, b, n);
    if j < n {
      WhiteAt(enc, b, j, n);
      EndNameWhite(enc, b, j);
      SpaceSkips(enc, b, j + 1, n);
    }
  }

  lemma WhiteAt(enc: Encoding, b: seq<byte>, j: nat, n: nat)
    requires j < n <= |b| && White(enc, b, j, n)
    ensures enc.typeOf(b[j]).White() && White(enc, b, j + 1, n)
  {
  }

  lemma EndCloses(enc: Encoding, b: seq<byte>, n: nat)
    requires AsciiTable(enc) && n < |b| && b[n] == GT
    ensures enc.EndTagName(b, n) == Found(EndTag, n + 1) && enc.EndTagSpace(b, n) == Found(EndTag, n + 1)
  {
    hide AsciiTable, Encoding.CharStep;
    TagMarks(enc, b[n]);
    MarkUnlisted(enc, b, n);
  }

  lemma EndNameWhite(enc: Encoding, b: seq<byte>, k: nat)
    requires k < |b| && enc.typeOf(b[k]).White()
    ensures enc.EndTagName(b, k) == enc.EndTagSpace(b, k + 1)
  {
    hide Encoding.CharStep, Encoding.EndTagSpace;
    MarkUnlisted(enc, b, k);
  }

  lemma EndSpaceFound(enc: Encoding, b: seq<byte>, j: nat)
    requires AsciiTable(enc) && j <= |b| && enc.EndTagSpace(b, j).Found? && (j < |b| ==> !enc.typeOf(b[j]).White())
    ensures j < |b| && b[j] == GT && enc.EndTagSpace(b, j) == Found(EndTag, j + 1)
  {
    hide AsciiTable;
    TagMarks(enc, b[j]);
  }

  lemma EndNameClosed(enc: Encoding, b: seq<byte>, k: nat)
    requires AsciiTable(enc) && k <= |b| && enc.EndTagName(b, k).Found?
    requires k < |b| ==> !enc.CharStep(NameChars, b, k).Advance? && enc.typeOf(b[k]) != Colon && !enc.typeOf(b[k]).White()
    ensures k < |b| && b[k] == GT && enc.EndTagName(b, k) == Found(EndTag, k + 1)
  {
    hide AsciiTable, Encoding.CharStep;
    TagMarks(enc, b[k]);
  }

  lemma EndNameEnds(enc: Encoding, b: seq<byte>, k: nat) returns (n: nat)
    requires AsciiTable(enc) && k <= |b| && enc.EndTagName(b, k).Found?
    requires k < |b| ==> !enc.CharStep(NameChars, b, k).Advance? && enc.typeOf(b[k]) != Colon
    ensures enc.EndTagName(b, k) == Found(EndTag, n) && k < n <= |b| && White(enc, b, k, n - 1) && b[n - 1] == GT
  {
    hide *;
    if k < |b| && enc.typeOf(b[k]).White() {
      EndNameWhite(enc, b, k);
      var j := WhiteEnd(enc, b, k + 1);
      WhiteMore(enc, b, k, j);
      SpaceSkips(enc, b, k + 1, j);
      EndSpaceFound(enc, b, j);
      n := j + 1;
    } else {
      EndNameClosed(enc, b, k);
      NoWhite(enc, b, k);
      n := k + 1;
    }
  }

  lemma FoundEndTag(enc: Encoding, b: seq<byte>, p: nat)
    requires AsciiTable(enc) && p + 2 <= |b| && b[p] == 0x3C && b[p + 1] == 0x2F && enc.ScanEndTag(b, p + 2).Found?
    ensures var r := enc.ScanEndTag(b, p + 2); r.tok == EndTag && IsEndTag(enc, b, p, r.next)
  {
    hide AsciiTable, LooseRest, White, NameStartWidth, Encoding.CharStep, Encoding.EndTagName;
    var m := enc.CharStep(NmstrtChars, b, p + 2).next;
    var k := LooseEnd(enc, b, m);
    NameStartSteps(enc, b, p + 2, k);
    EndNameSkips(enc, b, m, k);
    var n := EndNameEnds(enc, b, k);
    assert EndTagParts(enc, b, p, k, n);
  }
}

// What a reference stands for: section 4.1 of XML 1.0, and section 4.6 for the entities that
// every document has.
module XmlReferences {
  import opened Collections
  import opened XmlTok
  import opened XmlChars
  import opened XmlContent
  import opened XmlSyntax

  // both encodings of a parser agree with ASCII
  ghost predicate AsciiTables(c: Config) { AsciiTable(c.external) && AsciiTable(c.internal) }

  datatype Meaning =
    | Character(text: Bytes)
    | NoCharacter          // a number that is no Char
    | Declared(name: Bytes)  // what the declarations say
    | NoReference

  // the bytes are those of these ASCII characters
  predicate Spells(name: Bytes, s: string) {
    |name| == |s| && forall k :: 0 <= k < |s| ==> name[k] as int == s[k] as int
  }

  function Predefined(name: Bytes): Option<Bytes> {
    if Spells(name, "lt") then Some([0x3C])
    else if Spells(name, "gt") then Some([0x3E])
    else if Spells(name, "amp") then Some([0x26])
    else if Spells(name, "quot") then Some([0x22])
    else if Spells(name, "apos") then Some([0x27])
    else None
  }

  // the number that the digits of a character reference denote
  function ReferenceValue(b: Bytes, p: nat, n: nat): nat
    requires p <= n <= |b| && IsCharRef(b, p, n)
  {
    if b[p + 2] == LOWER_X then DigitsValue(b[p + 3..n - 1], 16) else DigitsValue(b[p + 2..n - 1], 10)
  }

  // the meaning of the reference from p to n
  function Means(enc: Encoding, b: Bytes, p: nat, n: nat): Meaning
    requires p <= n <= |b|
  {
    if IsCharRef(b, p, n) then
      var v := ReferenceValue(b, p, n);
      if XmlChar(v) then Character(Utf8Encode(v)) else NoCharacter
    else if IsEntityRef(enc, b, p, n) then
      (match Predefined(b[p + 1..n - 1])
       case Some(text) => Character(text)
       case None => Declared(b[p + 1..n - 1]))
    else NoReference
  }

  // ----- what the code makes of references -----

  lemma NumberIs(b: Bytes, p: nat, n: nat)
    requires p <= n <= |b| && IsCharRef(b, p, n)
    ensures var v := ReferenceValue(b, p, n);
            CharRefNumber(b[p..n]) == if XmlChar(v) then v else -1
  {
    hide CharRefNumber, DigitsValue, XmlChar;
    var raw, hex := b[p..n], b[p + 2] == LOWER_X;
    var digits := if hex then b[p + 3..n - 1] else b[p + 2..n - 1];
    assert raw == [0x26, 0x23] + (if hex then [LOWER_X] else []) + digits + [0x3B];
    CharRefNumberIs(raw, digits, hex);
  }

  lemma SliceOfSlice(b: Bytes, p: nat, n: nat, i: nat, j: nat)
    requires p <= n <= |b| && i <= j <= n - p
    ensures b[p..n][i..j] == b[p + i..p + j]
  {
    var s, t := b[p..n][i..j], b[p + i..p + j];
    forall k | 0 <= k < j - i ensures s[k] == t[k] { assert b[p..n][i + k] == b[p + i + k]; }
  }

  lemma NameIs(b: Bytes, p: nat, n: nat)
    requires p + 2 <= n <= |b|
    ensures ReferenceName(b[p..n]) == b[p + 1..n - 1]
  {
    SliceOfSlice(b, p, n, 1, n - p - 1);
  }

  lemma PredefinedIs(name: Bytes)
    ensures match PredefinedEntity(name) case Some(ch) => Predefined(name) == Some([ch]) case None => Predefined(name) == None
  {
  }

  // a number is no name
  lemma NotBoth(enc: Encoding, b: Bytes, p: nat, n: nat)
    requires AsciiTable(enc) && p <= n <= |b| && IsCharRef(b, p, n)
    ensures !IsEntityRef(enc, b, p, n)
  {
    hide AsciiTable;
    RefMarks(enc, b[p + 1]);
  }

  // The scanner's token, and the functions that read its bytes, agree with the meaning.
  lemma ReferenceMeans(enc: Encoding, b: Bytes, p: nat)
    requires AsciiTable(enc) && p < |b| && b[p] == 0x26 && enc.ScanRef(b, p + 1).Found?
    ensures var r := enc.ScanRef(b, p + 1);
            && p + 3 <= r.next <= |b|
            && var raw, m := b[p..r.next], Means(enc, b, p, r.next);
            && (r.tok == CharRef ==> m == if CharRefNumber(raw) < 0 then NoCharacter else Character(Utf8Encode(CharRefNumber(raw))))
            && (r.tok == EntityRef ==> m == match PredefinedEntity(ReferenceName(raw)) case Some(ch) => Character([ch]) case None => Declared(ReferenceName(raw)))
            && r.tok in {CharRef, EntityRef}
  {
    hide AsciiTable, Encoding.ScanRef, NcName, ReferenceValue, CharRefNumber, ReferenceName, Predefined, PredefinedEntity, Utf8Encode;
    FoundRef(enc, b, p);
    var n := enc.ScanRef(b, p + 1).next;
    NameIs(b, p, n);
    PredefinedIs(b[p + 1..n - 1]);
    if IsCharRef(b, p, n) {
      NotBoth(enc, b, p, n);
      NumberIs(b, p, n);
    }
  }

  // ----- UTF-8 -----

  predicate TrailByte(c: byte) { 0x80 <= c < 0xC0 }

  // The character number of a sequence of section 3 of RFC 3629; -1 for other bytes.
  function Utf8Number(s: Bytes): int {
    if |s| == 1 && s[0] < 0x80 then s[0] as int
    else if |s| == 2 && 0xC0 <= s[0] < 0xE0 && TrailByte(s[1]) then
      (s[0] as int - 0xC0) * 0x40 + (s[1] as int - 0x80)
    else if |s| == 3 && 0xE0 <= s[0] < 0xF0 && TrailByte(s[1]) && TrailByte(s[2]) then
      (s[0] as int - 0xE0) * 0x1000 + (s[1] as int - 0x80) * 0x40 + (s[2] as int - 0x80)
    else if |s| == 4 && 0xF0 <= s[0] < 0xF8 && TrailByte(s[1]) && TrailByte(s[2]) && TrailByte(s[3]) then
      (s[0] as int - 0xF0) * 0x40000 + (s[1] as int - 0x80) * 0x1000 + (s[2] as int - 0x80) * 0x40 + (s[3] as int - 0x80)
    else -1
  }

  // the largest numbers of each length
  lemma Utf8Bound(s: Bytes)
    ensures var n := Utf8Number(s);
            && (|s| == 1 ==> n < 0x80) && (|s| == 2 ==> n < 0x800) && (|s| == 3 ==> n < 0x10000)
            && (|s| !in {1, 2, 3, 4} ==> n == -1)
  {
  }

  lemma ThreeDigits(n: nat, x: int, y: int, z: int)
    requires 0 <= y < 0x40 && 0 <= z < 0x40 && n == x * 0x1000 + y * 0x40 + z
    ensures n / 0x1000 == x && n / 0x40 % 0x40 == y && n % 0x40 == z
  {
    assert n / 0x40 == x * 0x40 + y;
  }

  lemma FormOfTwo(n: nat, s: Bytes)
    requires 0x80 <= n < 0x800
    ensures Utf8Number(Utf8Encode(n)) == n && (|s| == 2 && Utf8Number(s) == n ==> s == Utf8Encode(n))
  {
  }

  lemma FormOfThree(n: nat, s: Bytes)
    requires 0x800 <= n < 0x10000
    ensures Utf8Number(Utf8Encode(n)) == n && (|s| == 3 && Utf8Number(s) == n ==> s == Utf8Encode(n))
  {
    if |s| == 3 && Utf8Number(s) == n {
      ThreeDigits(n, s[0] as int - 0xE0, s[1] as int - 0x80, s[2] as int - 0x80);
    }
  }

  lemma FourDigits(n: nat, w: int, x: int, y: int, z: int)
    requires 0 <= x < 0x40 && 0 <= y < 0x40 && 0 <= z < 0x40 && n == w * 0x40000 + x * 0x1000 + y * 0x40 + z
    ensures n / 0x40000 == w && n / 0x1000 % 0x40 == x && n / 0x40 % 0x40 == y && n % 0x40 == z
  {
    ThreeDigits(n / 0x40, w, x, y);
    assert n / 0x1000 == w * 0x40 + x;
  }

  lemma FourDigitsBack(n: nat)
    ensures n == n / 0x40000 * 0x40000 + n / 0x1000 % 0x40 * 0x1000 + n / 0x40 % 0x40 * 0x40 + n % 0x40
  {
    assert n / 0x1000 == n / 0x40000 * 0x40 + n / 0x1000 % 0x40;
    assert n / 0x40 == n / 0x1000 * 0x40 + n / 0x40 % 0x40;
  }

  lemma FormOfFour(n: nat, s: Bytes)
    requires 0x10000 <= n < 0x110000
    ensures Utf8Number(Utf8Encode(n)) == n && (|s| == 4 && Utf8Number(s) == n ==> s == Utf8Encode(n))
  {
    FourDigitsBack(n);
    if |s| == 4 && Utf8Number(s) == n {
      FourDigits(n, s[0] as int - 0xF0, s[1] as int - 0x80, s[2] as int - 0x80, s[3] as int - 0x80);
    }
  }

  // The form that XmlUtf8Encode writes is the one that denotes the number, in as few bytes as
  // possible.
  lemma Utf8FormIs(n: nat, s: Bytes)
    requires n < 0x110000
    ensures Utf8Number(Utf8Encode(n)) == n
    ensures Utf8Number(s) == n ==> |Utf8Encode(n)| < |s| || s == Utf8Encode(n)
  {
    hide Utf8Number;
    Utf8Bound(s);
    if n < 0x80 {
      FormOfOne(n, s);
    } else if n < 0x800 {
      FormOfTwo(n, s);
    } else if n < 0x10000 {
      FormOfThree(n, s);
    } else {
      FormOfFour(n, s);
    }
  }

  lemma FormOfOne(n: nat, s: Bytes)
    requires n < 0x80
    ensures Utf8Number(Utf8Encode(n)) == n && (|s| == 1 && Utf8Number(s) == n ==> s == Utf8Encode(n))
  {
  }
}

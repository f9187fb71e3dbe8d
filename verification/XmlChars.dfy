// Character numbers and their UTF-8 form (xmltok.c and xmltok_impl.c of expat-lite).
// The C code joins disjoint bit fields with shifts and |; here they are products and sums.
module XmlChars {
  import opened XmlTok

  const LINE_FEED: byte := 0x0A

  // checkCharRefNumber; the table look-up for numbers below 0x100 finds exactly the
  // control characters other than tab, line feed and carriage return
  function CheckCharRefNumber(n: int): int
  {
    if 0xD8 <= n / 0x100 <= 0xDF then -1
    else if n / 0x100 == 0 && n < 0x20 && n !in {0x9, 0xA, 0xD} then -1
    else if n / 0x100 == 0xFF && n in {0xFFFE, 0xFFFF} then -1
    else n
  }

  // Char of section 2.2 of XML 1.0
  predicate XmlChar(n: int) {
    n == 0x9 || n == 0xA || n == 0xD || 0x20 <= n <= 0xD7FF || 0xE000 <= n <= 0xFFFD || 0x10000 <= n <= 0x10FFFF
  }

  predicate DecDigit(c: byte) { 0x30 <= c <= 0x39 }
  predicate HexDigit(c: byte) { DecDigit(c) || 0x41 <= c <= 0x46 || 0x61 <= c <= 0x66 }

  function HexDigitValue(c: byte): int
    requires HexDigit(c)
  {
    if DecDigit(c) then c as int - 0x30 else if c <= 0x46 then c as int - 0x41 + 10 else c as int - 0x61 + 10
  }

  // The digit loops give up once the number has left the Unicode range.
  function HexNumber(digits: seq<byte>, result: int): int
    decreases |digits|
  {
    if digits == [] then CheckCharRefNumber(result) else
    var next := if HexDigit(digits[0]) then result * 16 + HexDigitValue(digits[0]) else result;
    if next >= 0x110000 then -1 else HexNumber(digits[1..], next)
  }

  function DecNumber(digits: seq<byte>, result: int): int
    decreases |digits|
  {
    if digits == [] then CheckCharRefNumber(result) else
    var next := result * 10 + (digits[0] as int - 0x30);
    if next >= 0x110000 then -1 else DecNumber(digits[1..], next)
  }

  // charRefNumber on the bytes of a character reference, from "&#" to ";"
  function CharRefNumber(raw: seq<byte>): int {
    if |raw| < 4 then -1
    else if raw[2] == LOWER_X then HexNumber(raw[3..|raw| - 1], 0)
    else DecNumber(raw[2..|raw| - 1], 0)
  }

  // The number the digits denote, without any bound.
  function DigitsValue(digits: seq<byte>, base: nat): nat
    requires base == 10 || base == 16
    requires forall c <- digits :: if base == 10 then DecDigit(c) else HexDigit(c)
    decreases |digits|
  {
    if digits == [] then 0
    else DigitsValue(digits[..|digits| - 1], base) * base + HexDigitValue(digits[|digits| - 1])
  }

  // XmlUtf8Encode; no bytes for a number outside the Unicode range
  function Utf8Encode(c: int): seq<byte> {
    if c < 0 then []
    else if c < 0x80 then [c as byte]
    else if c < 0x800 then [(c / 0x40 + 0xC0) as byte, (c % 0x40 + 0x80) as byte]
    else if c < 0x10000 then
      [(c / 0x1000 + 0xE0) as byte, (c / 0x40 % 0x40 + 0x80) as byte, (c % 0x40 + 0x80) as byte]
    else if c < 0x110000 then
      [(c / 0x40000 + 0xF0) as byte, (c / 0x1000 % 0x40 + 0x80) as byte,
       (c / 0x40 % 0x40 + 0x80) as byte, (c % 0x40 + 0x80) as byte]
    else []
  }

  // ----- what the functions above compute -----

  // For numbers in the Unicode range the check is the Char production.
  lemma CheckIsXmlChar(n: nat)
    requires n < 0x110000
    ensures CheckCharRefNumber(n) == if XmlChar(n) then n else -1
  {
  }

  lemma DigitsValueSplit(digits: seq<byte>, more: seq<byte>, base: nat)
    requires base == 10 || base == 16
    requires forall c <- digits + more :: if base == 10 then DecDigit(c) else HexDigit(c)
    ensures forall c <- digits :: c in digits + more
    ensures DigitsValue(digits, base) <= DigitsValue(digits + more, base)
    decreases |more|
  {
    forall c | c in digits ensures c in digits + more {}
    if more == [] {
      assert digits + more == digits;
    } else {
      var less := more[..|more| - 1];
      assert (digits + more)[..|digits + more| - 1] == digits + less;
      forall c | c in digits + less ensures c in digits + more {}
      DigitsValueSplit(digits, less, base);
    }
  }

  // The loops compute the number the digits denote, however many there are: leaving them
  // early never loses a number in range, because digits that follow only make it larger.
  lemma {:induction false} HexNumberIs(before: seq<byte>, digits: seq<byte>)
    requires forall c <- before + digits :: HexDigit(c)
    requires forall c <- before :: HexDigit(c)
    requires DigitsValue(before, 16) < 0x110000
    ensures var v := DigitsValue(before + digits, 16);
            HexNumber(digits, DigitsValue(before, 16)) == if XmlChar(v) then v else -1
    decreases |digits|
  {
    if digits == [] {
      assert before + digits == before;
    } else {
      var before' := before + [digits[0]];
      assert before' + digits[1..] == before + digits;
      assert before'[..|before'| - 1] == before;
      assert digits[0] in before + digits;
      DigitsValueSplit(before', digits[1..], 16);
      if DigitsValue(before', 16) < 0x110000 { HexNumberIs(before', digits[1..]); }
    }
  }

  lemma {:induction false} DecNumberIs(before: seq<byte>, digits: seq<byte>)
    requires forall c <- before + digits :: DecDigit(c)
    requires forall c <- before :: DecDigit(c)
    requires DigitsValue(before, 10) < 0x110000
    ensures var v := DigitsValue(before + digits, 10);
            DecNumber(digits, DigitsValue(before, 10)) == if XmlChar(v) then v else -1
    decreases |digits|
  {
    if digits == [] {
      assert before + digits == before;
    } else {
      var before' := before + [digits[0]];
      assert before' + digits[1..] == before + digits;
      assert before'[..|before'| - 1] == before;
      assert digits[0] in before + digits;
      DigitsValueSplit(before', digits[1..], 10);
      if DigitsValue(before', 10) < 0x110000 { DecNumberIs(before', digits[1..]); }
    }
  }

  // A character reference yields its number exactly when that number is a Char.
  lemma CharRefNumberIs(raw: seq<byte>, digits: seq<byte>, hex: bool)
    requires digits != []
    requires raw == [0x26, 0x23] + (if hex then [LOWER_X] else []) + digits + [0x3B]
    requires forall c <- digits :: if hex then HexDigit(c) else DecDigit(c)
    ensures var v := DigitsValue(digits, if hex then 16 else 10);
            CharRefNumber(raw) == if XmlChar(v) then v else -1
  {
    assert [] + digits == digits;
    if hex {
      assert raw[3..|raw| - 1] == digits;
      HexNumberIs([], digits);
    } else {
      assert raw[2..|raw| - 1] == digits;
      assert raw[2] == digits[0] && digits[0] in digits;
      DecNumberIs([], digits);
    }
  }

  // The digit loops of charRefNumber.
  method ScanCharRefNumber(raw: seq<byte>) returns (r: int)
    requires 4 <= |raw|
    ensures r == CharRefNumber(raw)
  {
    var end := |raw| - 1;
    var result := 0;
    if raw[2] == LOWER_X {
      for p := 3 to end
        invariant CharRefNumber(raw) == HexNumber(raw[p..end], result)
      {
        assert raw[p..end][1..] == raw[p + 1..end];
        if HexDigit(raw[p]) { result := result * 16 + HexDigitValue(raw[p]); }
        if result >= 0x110000 { return -1; }
      }
    } else {
      for p := 2 to end
        invariant CharRefNumber(raw) == DecNumber(raw[p..end], result)
      {
        assert raw[p..end][1..] == raw[p + 1..end];
        result := result * 10 + (raw[p] as int - 0x30);
        if result >= 0x110000 { return -1; }
      }
    }
    return CheckCharRefNumber(result);
  }
}

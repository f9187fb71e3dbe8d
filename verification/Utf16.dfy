// UTF-16 to UTF-8 (DEFINE_UTF16_TO_UTF8 in xmltok.c) and XmlUtf16Encode.  The C code takes
// bytes apart with shifts and masks; here they are quotients and remainders.
module Utf16 {
  import opened XmlTok
  import opened XmlChars

  // a Unicode scalar value
  type UniChar = c: int | 0 <= c < 0xD800 || 0xE000 <= c < 0x110000

  // XmlUtf16Encode; no units for a number outside the Unicode range
  function Utf16Encode(c: int): seq<nat> {
    if c < 0 then []
    else if c < 0x10000 then [c]
    else if c < 0x110000 then [(c - 0x10000) / 0x400 + 0xD800, (c - 0x10000) % 0x400 + 0xDC00]
    else []
  }

  // The character number of some units (section 2.2 of RFC 2781); -1 for other units.
  function Utf16Number(us: seq<nat>): int {
    if |us| == 1 && us[0] < 0x10000 && !(0xD800 <= us[0] < 0xE000) then us[0]
    else if |us| == 2 && 0xD800 <= us[0] < 0xDC00 && 0xDC00 <= us[1] < 0xE000 then
      0x10000 + (us[0] - 0xD800) * 0x400 + (us[1] - 0xDC00)
    else -1
  }

  // XmlUtf16Encode writes the units that denote the character, and no others do.
  lemma Utf16FormIs(c: UniChar, us: seq<nat>)
    ensures Utf16Number(us) == c <==> us == Utf16Encode(c)
  {
    if |us| == 2 && Utf16Number(us) == c {
      var h, l := us[0] - 0xD800, us[1] - 0xDC00;
      assert (c - 0x10000) / 0x400 == h && (c - 0x10000) % 0x400 == l;
    }
  }

  // the UTF-8 form of a text
  function Utf8(cs: seq<UniChar>): seq<byte> {
    if cs == [] then [] else Utf8Encode(cs[0]) + Utf8(cs[1..])
  }

  // ----- one character -----

  // What the switch on the high byte of a unit asks for: the bytes, and how many units they
  // are of.  lo and hi are of the unit, lo2 and hi2 of the one behind it.
  function Convert(hi: nat, lo: nat, hi2: nat, lo2: nat): (r: (seq<byte>, nat))
    requires hi < 0x100 && lo < 0x100 && hi2 < 0x100 && lo2 < 0x100
    ensures 1 <= |r.0| <= 4 && 1 <= r.1 <= 2
  {
    if hi == 0 && lo < 0x80 then ([lo as byte], 1)
    else if hi < 8 then ([(lo / 0x40 + hi * 4 + 0xC0) as byte, (lo % 0x40 + 0x80) as byte], 1)
    else if 0xD8 <= hi <= 0xDB then
      var plane := hi % 4 * 4 + lo / 0x40 + 1;
      ([(plane / 4 + 0xF0) as byte,
        (lo / 4 % 0x10 + plane % 4 * 0x10 + 0x80) as byte,
        (lo % 4 * 0x10 + hi2 % 4 * 4 + lo2 / 0x40 + 0x80) as byte,
        (lo2 % 0x40 + 0x80) as byte], 2)
    else ([(hi / 0x10 + 0xE0) as byte, (hi % 0x10 * 4 + lo / 0x40 + 0x80) as byte, (lo % 0x40 + 0x80) as byte], 1)
  }

  lemma OneUnit(c: nat)
    requires c < 0x10000
    ensures var hi, lo := c / 0x100, c % 0x100;
            && c / 0x1000 == hi / 0x10 && c / 0x40 % 0x40 == hi % 0x10 * 4 + lo / 0x40 && c % 0x40 == lo % 0x40
            && (c < 0x800 ==> c / 0x40 == lo / 0x40 + hi * 4)
  {
    var hi, lo := c / 0x100, c % 0x100;
    var a, b, p, q := hi / 0x10, hi % 0x10, lo / 0x40, lo % 0x40;
    assert c == 0x1000 * a + 0x100 * b + 0x40 * p + q;
    assert c / 0x40 == 0x40 * a + (4 * b + p);
  }

  lemma Quotients(m: nat, n: nat, b: nat, d: nat, p: nat, q: nat)
    requires n < 4 && b < 0x10 && d < 4 && p < 0x10 && q < 0x40
    ensures var c := 0x40000 * m + 0x10000 * n + 0x1000 * b + 0x400 * d + 0x40 * p + q;
            && c / 0x40000 == m && c / 0x1000 == 0x40 * m + 0x10 * n + b
            && c / 0x40 == 0x1000 * m + 0x400 * n + 0x40 * b + 0x10 * d + p && c % 0x40 == q
  {
  }

  lemma Remainders(m: nat, n: nat, b: nat, d: nat, p: nat)
    requires n < 4 && b < 0x10 && d < 4 && p < 0x10
    ensures (0x40 * m + 0x10 * n + b) % 0x40 == 0x10 * n + b
    ensures (0x1000 * m + 0x400 * n + 0x40 * b + 0x10 * d + p) % 0x40 == 0x10 * d + p
  {
    assert 0x1000 * m + 0x400 * n + 0x40 * b + 0x10 * d + p == 0x40 * (0x40 * m + 0x10 * n + b) + (0x10 * d + p);
  }

  // the parts of a number above 0xFFFF: h and l are the ten bits of each surrogate
  lemma TwoUnits(h: nat, l: nat)
    requires h < 0x400 && l < 0x400
    ensures var c := 0x10000 + 0x400 * h + l;
            && c / 0x40000 == (h / 0x40 + 1) / 4
            && c / 0x1000 % 0x40 == h / 4 % 0x10 + (h / 0x40 + 1) % 4 * 0x10
            && c / 0x40 % 0x40 == h % 4 * 0x10 + l / 0x40
            && c % 0x40 == l % 0x40
  {
    var c := 0x10000 + 0x400 * h + l;
    var m, n := (h / 0x40 + 1) / 4, (h / 0x40 + 1) % 4;
    var b, d, p, q := h / 4 % 0x10, h % 4, l / 0x40, l % 0x40;
    TenBits(h);
    assert h / 0x40 + 1 == 4 * m + n && l == 0x40 * p + q;
    assert c == 0x40000 * m + 0x10000 * n + 0x1000 * b + 0x400 * d + 0x40 * p + q;
    Quotients(m, n, b, d, p, q);
    Remainders(m, n, b, d, p);
  }

  lemma TenBits(h: nat)
    requires h < 0x400
    ensures h == 0x40 * (h / 0x40) + 4 * (h / 4 % 0x10) + h % 4
  {
    assert h / 4 == 0x10 * (h / 0x40) + h / 4 % 0x10;
  }

  lemma HighUnit(h: nat)
    requires h < 0x400
    ensures var u := 0xD800 + h;
            && 0xD8 <= u / 0x100 <= 0xDB && u / 0x100 % 4 * 4 + u % 0x100 / 0x40 == h / 0x40
            && u % 0x100 / 4 % 0x10 == h / 4 % 0x10 && u % 0x100 % 4 == h % 4
  {
    var a, b := h / 0x100, h % 0x100;
    assert 0xD800 + h == 0x100 * (0xD8 + a) + b;
    assert h / 4 == 0x40 * a + b / 4;
  }

  lemma LowUnit(l: nat)
    requires l < 0x400
    ensures var v := 0xDC00 + l;
            v / 0x100 % 4 * 4 + v % 0x100 / 0x40 == l / 0x40 && v % 0x100 % 0x40 == l % 0x40
  {
    var a, b := l / 0x100, l % 0x100;
    assert 0xDC00 + l == 0x100 * (0xDC + a) + b;
  }

  // It is the UTF-8 form of the character that the units encode.
  lemma ConvertIs(c: UniChar, next: nat)
    requires next < 0x10000
    ensures var us := Utf16Encode(c);
            var u, v := us[0], if |us| == 2 then us[1] else next;
            && u < 0x10000 && v < 0x10000
            && Convert(u / 0x100, u % 0x100, v / 0x100, v % 0x100) == (Utf8Encode(c), |us|)
  {
    if c < 0x10000 {
      OneUnit(c);
      UnitRange(c);
    } else {
      var h, l := (c - 0x10000) / 0x400, (c - 0x10000) % 0x400;
      assert c == 0x10000 + 0x400 * h + l;
      TwoUnits(h, l);
      HighUnit(h);
      LowUnit(l);
    }
  }

  lemma UnitRange(c: nat)
    requires c < 0x10000
    ensures (c < 0x80 <==> c / 0x100 == 0 && c % 0x100 < 0x80) && (c < 0x800 <==> c / 0x100 < 8)
    ensures 0xD800 <= c < 0xE000 <==> 0xD8 <= c / 0x100 <= 0xDF
    ensures c < 0x80 ==> c % 0x100 == c
  {
  }

  // ----- a text -----

  // the order of the two bytes of a unit (GET_HI and GET_LO)
  datatype Order = LittleEndian | BigEndian

  function Hi(o: Order, s: seq<byte>): byte
    requires |s| >= 2
  {
    if o.BigEndian? then s[0] else s[1]
  }

  function Lo(o: Order, s: seq<byte>): byte
    requires |s| >= 2
  {
    if o.BigEndian? then s[1] else s[0]
  }

  predicate Leads(hi: byte) { 0xD8 <= hi <= 0xDB }

  function Width(o: Order, s: seq<byte>): (w: nat)
    requires |s| >= 2
    ensures w == 2 || w == 4
  {
    if Leads(Hi(o, s)) then 4 else 2
  }

  // Whole units, and never the first half of a pair at the end: the scanners stop in front of
  // such a half.
  predicate Whole(o: Order, s: seq<byte>) {
    s == [] || (|s| >= 2 && Width(o, s) <= |s| && Whole(o, s[Width(o, s)..]))
  }

  // the UTF-8 form of the first character, and of all
  function First(o: Order, s: seq<byte>): (r: seq<byte>)
    requires |s| >= 2 && Width(o, s) <= |s|
    ensures 1 <= |r| <= 4
  {
    var behind := if Width(o, s) == 4 then s[2..] else s;
    Convert(Hi(o, s) as nat, Lo(o, s) as nat, Hi(o, behind) as nat, Lo(o, behind) as nat).0
  }

  function All(o: Order, s: seq<byte>): seq<byte>
    requires Whole(o, s)
  {
    if s == [] then [] else First(o, s) + All(o, s[Width(o, s)..])
  }

  lemma Dropped(s: seq<byte>, t: seq<byte>, w: nat)
    requires w <= |s|
    ensures (s + t)[w..] == s[w..] + t
  {
  }

  lemma {:induction false} WholeOfBoth(o: Order, s: seq<byte>, t: seq<byte>)
    requires Whole(o, s) && Whole(o, t)
    ensures Whole(o, s + t)
  {
    if s == [] {
      assert s + t == t;
    } else {
      var w := Width(o, s);
      WholeOfBoth(o, s[w..], t);
      Dropped(s, t, w);
    }
  }

  // a source that is not at its end
  lemma Unfold(o: Order, s: seq<byte>)
    requires Whole(o, s) && s != []
    ensures |s| >= 2 && Width(o, s) <= |s| && Whole(o, s[Width(o, s)..])
    ensures All(o, s) == First(o, s) + All(o, s[Width(o, s)..])
  {
    hide Convert;
  }

  lemma NothingToConvert(o: Order)
    ensures Whole(o, []) && All(o, []) == []
  {
  }

  lemma {:induction false} AllOfBoth(o: Order, s: seq<byte>, t: seq<byte>)
    requires Whole(o, s) && Whole(o, t)
    ensures Whole(o, s + t) && All(o, s + t) == All(o, s) + All(o, t)
  {
    hide Convert, First, Whole, Width, All;
    WholeOfBoth(o, s, t);
    if s == [] {
      NothingToConvert(o);
      assert s + t == t && [] + All(o, t) == All(o, t);
    } else {
      Unfold(o, s);
      Unfold(o, s + t);
      var w, rest := Width(o, s), s[Width(o, s)..];
      AllOfBoth(o, rest, t);
      FirstOfBoth(o, s, t);
      Dropped(s, t, w);
      assert First(o, s) + (All(o, rest) + All(o, t)) == (First(o, s) + All(o, rest)) + All(o, t);
    }
  }

  lemma FirstOfBoth(o: Order, s: seq<byte>, t: seq<byte>)
    requires |s| >= 2 && Width(o, s) <= |s|
    ensures Width(o, s + t) == Width(o, s) && First(o, s + t) == First(o, s)
  {
    hide Convert;
  }

  lemma OneWhole(o: Order, s: seq<byte>)
    requires |s| >= 2 && |s| == Width(o, s)
    ensures Whole(o, s) && All(o, s) == First(o, s)
  {
    hide Convert;
    assert s[|s|..] == [];
  }

  // One character is converted to the given place.
  method PutCharacter(o: Order, s: seq<byte>, to: array<byte>, next: nat) returns (after: nat)
    requires |s| >= 2 && Width(o, s) <= |s| && next + |First(o, s)| <= to.Length
    modifies to
    ensures after == next + |First(o, s)|
    ensures to[..] == old(to[..next]) + First(o, s) + old(to[after..])
  {
    hide Convert;
    var bytes := First(o, s);
    to[next] := bytes[0];
    if |bytes| > 1 { to[next + 1] := bytes[1]; }
    if |bytes| > 2 { to[next + 2] := bytes[2]; }
    if |bytes| > 3 { to[next + 3] := bytes[3]; }
    after := next + |bytes|;
  }

  lemma OneMore(o: Order, s: seq<byte>, used: nat)
    requires used < |s| && Whole(o, s[..used]) && Whole(o, s[used..])
    ensures var w := Width(o, s[used..]);
            && used + w <= |s| && Whole(o, s[..used + w]) && Whole(o, s[used + w..])
            && All(o, s[..used + w]) == All(o, s[..used]) + First(o, s[used..])
  {
    hide Convert, First;
    var rest := s[used..];
    var w := Width(o, rest);
    assert rest[w..] == s[used + w..] && s[..used] + rest[..w] == s[..used + w];
    assert rest[..w] + rest[w..] == rest;
    FirstOfBoth(o, rest[..w], rest[w..]);
    OneWhole(o, rest[..w]);
    AllOfBoth(o, s[..used], rest[..w]);
  }

  lemma Placed(at0: seq<byte>, before: seq<byte>, now: seq<byte>, start: nat, next: nat, bytes: seq<byte>)
    requires start <= next && next + |bytes| <= |before| == |at0|
    requires before[..start] == at0[..start] && before[next..] == at0[next..]
    requires now == before[..next] + bytes + before[next + |bytes|..]
    ensures now[start..next + |bytes|] == before[start..next] + bytes
    ensures now[..start] == at0[..start] && now[next + |bytes|..] == at0[next + |bytes|..]
  {
    assert at0[next..][|bytes|..] == at0[next + |bytes|..] && before[next..][|bytes|..] == before[next + |bytes|..];
  }

  // little2_toUtf8 and big2_toUtf8.  Everything in front of the place where it stops has been
  // converted, that place is between two characters, and it stops only where the next one
  // does not fit.
  method ToUtf8(o: Order, from: seq<byte>, to: array<byte>, start: nat, lim: nat) returns (used: nat, next: nat)
    requires Whole(o, from) && start <= lim <= to.Length
    modifies to
    ensures used <= |from| && start <= next <= lim
    ensures Whole(o, from[..used]) && Whole(o, from[used..])
    ensures to[start..next] == All(o, from[..used])
    ensures to[..start] == old(to[..start]) && to[next..] == old(to[next..])
    ensures used < |from| ==> |First(o, from[used..])| > lim - next
    ensures used == 0 ==> next == start
  {
    hide Convert, All, First, Whole, Width;
    used, next := 0, start;
    NothingToConvert(o);
    assert from[..used] == [];
    assert from[used..] == from;
    while used != |from|
      invariant used <= |from| && start <= next <= lim
      invariant Whole(o, from[..used]) && Whole(o, from[used..])
      invariant to[start..next] == All(o, from[..used])
      invariant to[..start] == old(to[..start]) && to[next..] == old(to[next..])
      invariant used == 0 ==> next == start
    {
      var s := from[used..];
      Unfold(o, s);
      if lim - next < |First(o, s)| {
        return;
      }
      ghost var before := to[..];
      var w := Width(o, s);
      OneMore(o, from, used);
      var after := PutCharacter(o, s, to, next);
      Placed(old(to[..]), before, to[..], start, next, First(o, s));
      used, next := used + w, after;
    }
  }

  // ----- the UTF-16 form of a text -----

  function UnitBytes(o: Order, u: nat): seq<byte>
    requires u < 0x10000
  {
    if o.BigEndian? then [(u / 0x100) as byte, (u % 0x100) as byte] else [(u % 0x100) as byte, (u / 0x100) as byte]
  }

  function CharBytes(o: Order, c: UniChar): seq<byte>
  {
    var us := Utf16Encode(c);
    EncodeRange(c);
    UnitBytes(o, us[0]) + (if |us| == 2 then UnitBytes(o, us[1]) else [])
  }

  lemma EncodeRange(c: UniChar)
    ensures var us := Utf16Encode(c);
            && 1 <= |us| <= 2 && (forall u <- us :: u < 0x10000)
            && (|us| == 2 <==> 0xD8 <= us[0] / 0x100 <= 0xDB)
  {
    if c < 0x10000 {
      UnitRange(c);
    } else {
      HighUnit((c - 0x10000) / 0x400);
    }
  }

  function TextBytes(o: Order, cs: seq<UniChar>): seq<byte>
  {
    if cs == [] then [] else CharBytes(o, cs[0]) + TextBytes(o, cs[1..])
  }

  lemma CharIs(o: Order, c: UniChar)
    ensures var s := CharBytes(o, c);
            |s| >= 2 && |s| == Width(o, s) && First(o, s) == Utf8Encode(c)
  {
    hide Convert, Utf8Encode;
    EncodeRange(c);
    var us := Utf16Encode(c);
    ConvertIs(c, us[0]);
    var s := CharBytes(o, c);
    assert Hi(o, s) as int == us[0] / 0x100 && Lo(o, s) as int == us[0] % 0x100;
    if |us| == 2 {
      assert s[2..] == UnitBytes(o, us[1]);
    }
  }

  // Converting the UTF-16 form of a text gives the UTF-8 forms of its characters.
  lemma {:induction false} TextIs(o: Order, cs: seq<UniChar>)
    ensures Whole(o, TextBytes(o, cs)) && All(o, TextBytes(o, cs)) == Utf8(cs)
  {
    hide CharBytes, First, Utf8Encode;
    if cs != [] {
      var s := CharBytes(o, cs[0]);
      CharIs(o, cs[0]);
      OneWhole(o, s);
      TextIs(o, cs[1..]);
      AllOfBoth(o, s, TextBytes(o, cs[1..]));
    }
  }

  // Where the conversion can stop, it has converted some characters and left the others whole.
  lemma {:induction false} StopsBetween(o: Order, cs: seq<UniChar>, n: nat) returns (k: nat)
    requires n <= |TextBytes(o, cs)| && Whole(o, TextBytes(o, cs)[..n])
    ensures k <= |cs| && TextBytes(o, cs)[..n] == TextBytes(o, cs[..k])
    ensures TextBytes(o, cs)[n..] == TextBytes(o, cs[k..])
  {
    hide CharBytes, First, Utf8Encode, All, Width, Whole;
    var t := TextBytes(o, cs);
    if n == 0 {
      k := 0;
      assert cs[0..] == cs;
    } else {
      var s, rest := CharBytes(o, cs[0]), TextBytes(o, cs[1..]);
      CharIs(o, cs[0]);
      var w := |s|;
      FirstOfBoth(o, s, rest);
      Unfold(o, t[..n]);
      FirstOfBoth(o, t[..n], t[n..]);
      assert t[..n] + t[n..] == t;
      assert t[..n][w..] == rest[..n - w];
      var j := StopsBetween(o, cs[1..], n - w);
      k := j + 1;
      assert cs[..k][1..] == cs[1..][..j] && cs[1..][j..] == cs[k..];
      assert t[..n] == s + rest[..n - w];
    }
  }

  lemma {:induction false} Utf8OfBoth(cs: seq<UniChar>, k: nat)
    requires k <= |cs|
    ensures Utf8(cs) == Utf8(cs[..k]) + Utf8(cs[k..])
  {
    hide Utf8Encode;
    if k == 0 {
      assert cs[0..] == cs;
    } else {
      Utf8OfBoth(cs[1..], k - 1);
      assert cs[1..][..k - 1] == cs[..k][1..] && cs[1..][k - 1..] == cs[k..];
    }
  }

  // ----- a text reported in pieces -----

  function Flat(pieces: seq<seq<byte>>): seq<byte> {
    if pieces == [] then [] else Flat(pieces[..|pieces| - 1]) + pieces[|pieces| - 1]
  }

  // a stretch of the text
  ghost predicate Stretch(piece: seq<byte>, cs: seq<UniChar>) {
    exists j, k :: 0 <= j <= k <= |cs| && piece == Utf8(cs[j..k])
  }

  ghost predicate Reported(pieces: seq<seq<byte>>, cs: seq<UniChar>, done: nat, room: nat) {
    && done <= |cs| && Flat(pieces) == Utf8(cs[..done])
    && forall piece <- pieces :: |piece| <= room && Stretch(piece, cs)
  }

  lemma NoPiece(cs: seq<UniChar>, room: nat)
    ensures Reported([], cs, 0, room)
  {
    assert cs[..0] == [];
  }

  lemma LastPiece(pieces: seq<seq<byte>>, cs: seq<UniChar>, room: nat)
    requires Reported(pieces, cs, |cs|, room)
    ensures Flat(pieces) == Utf8(cs)
    ensures forall piece <- pieces :: |piece| <= room && Stretch(piece, cs)
  {
    assert cs[..|cs|] == cs;
  }

  lemma OnePiece(pieces: seq<seq<byte>>, cs: seq<UniChar>, done: nat, more: nat, room: nat, piece: seq<byte>)
    requires Reported(pieces, cs, done, room) && done + more <= |cs|
    requires piece == Utf8(cs[done..done + more]) && |piece| <= room
    ensures Reported(pieces + [piece], cs, done + more, room)
  {
    hide Utf8;
    var now := pieces + [piece];
    assert now[..|now| - 1] == pieces;
    assert Stretch(piece, cs);
    Utf8OfBoth(cs[..done + more], done);
    assert cs[..done + more][..done] == cs[..done] && cs[..done + more][done..] == cs[done..done + more];
  }

  // One round of the loop below: the converter fills the buffer from its start.
  method OnePass(o: Order, ghost cs: seq<UniChar>, ghost done: nat, s: seq<byte>, dataBuf: array<byte>)
    returns (used: nat, piece: seq<byte>, ghost more: nat)
    requires done <= |cs| && s == TextBytes(o, cs[done..]) && dataBuf.Length >= 4
    modifies dataBuf
    ensures used <= |s| && (s != [] ==> used > 0) && |piece| <= dataBuf.Length
    ensures done + more <= |cs| && s[used..] == TextBytes(o, cs[done + more..])
    ensures piece == Utf8(cs[done..done + more])
    ensures used == |s| ==> done + more == |cs|
  {
    hide TextBytes, Whole, Width, All, Utf8, First;
    TextIs(o, cs[done..]);
    var dataPtr;
    used, dataPtr := ToUtf8(o, s, dataBuf, 0, dataBuf.Length);
    piece := dataBuf[..dataPtr];
    assert piece == dataBuf[0..dataPtr];
    more := Piece(o, cs, done, used);
  }

  // The loop of doContent and doCdataSection for character data in this encoding: it ends, for
  // every buffer that has room for one character; every call of the handler gets whole
  // characters; and all calls together get the text.
  method Report(o: Order, ghost cs: seq<UniChar>, from: seq<byte>, dataBuf: array<byte>) returns (pieces: seq<seq<byte>>)
    requires from == TextBytes(o, cs) && dataBuf.Length >= 4
    modifies dataBuf
    ensures Flat(pieces) == Utf8(cs)
    ensures forall piece <- pieces :: |piece| <= dataBuf.Length && Stretch(piece, cs)
  {
    hide TextBytes, Utf8, Reported;
    var s := from;
    ghost var done: nat := 0;
    pieces := [];
    assert cs[..0] == [] && cs[0..] == cs;
    NoPiece(cs, dataBuf.Length);
    while true
      invariant done <= |cs| && s == TextBytes(o, cs[done..])
      invariant Reported(pieces, cs, done, dataBuf.Length)
      decreases |s|
    {
      var used, piece;
      ghost var more;
      used, piece, more := OnePass(o, cs, done, s, dataBuf);
      OnePiece(pieces, cs, done, more, dataBuf.Length, piece);
      pieces := pieces + [piece];
      done := done + more;
      if used == |s| {
        LastPiece(pieces, cs, dataBuf.Length);
        break;
      }
      s := s[used..];
    }
  }

  lemma NoBytesNoText(o: Order, cs: seq<UniChar>)
    requires TextBytes(o, cs) == []
    ensures cs == []
  {
  }

  lemma Piece(o: Order, cs: seq<UniChar>, done: nat, used: nat) returns (more: nat)
    requires done <= |cs|
    requires var s := TextBytes(o, cs[done..]); used <= |s| && Whole(o, s[..used])
    ensures done + more <= |cs|
    ensures TextBytes(o, cs[done..])[used..] == TextBytes(o, cs[done + more..])
    ensures All(o, TextBytes(o, cs[done..])[..used]) == Utf8(cs[done..done + more])
    ensures used == |TextBytes(o, cs[done..])| ==> done + more == |cs|
  {
    hide TextBytes, Whole, All, Utf8, First;
    var rest := cs[done..];
    more := StopsBetween(o, rest, used);
    assert rest[..more] == cs[done..done + more] && rest[more..] == cs[done + more..];
    TextIs(o, rest[..more]);
    if used == |TextBytes(o, rest)| {
      assert TextBytes(o, cs[done + more..]) == [];
      NoBytesNoText(o, cs[done + more..]);
    }
  }
}

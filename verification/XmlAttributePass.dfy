// appendAttributeValue and storeAttributeValue as they run: a loop over the tokens of the
// value that appends to the pool in place, and calls itself for the text of an entity, which
// is marked open meanwhile.
module XmlAttributePass {
  import opened Collections
  import opened XmlTok
  import opened XmlChars
  import opened XmlContent
  import opened XmlAttributes
  import opened XmlScanners

  method AttributeValueTokLoop(enc: Encoding, b: Bytes, start: nat) returns (r: Scan)
    requires start <= |b|
    ensures r == enc.AttributeValueTok(b, start)
  {
    hide Encoding.ScanRef;
    if start == |b| { return Nothing; }
    var ptr := start;
    while ptr != |b|
      invariant start <= ptr <= |b|
      invariant ptr > start ==> enc.AttributeValueTok(b, start) == enc.ValueChars(b, ptr)
      decreases |b| - ptr
    {
      var t := enc.typeOf(b[ptr]);
      if t == Amp {
        if ptr == start {
          r := RefLoop(enc, b, ptr + 1);
          return;
        }
        return Found(DataChars, ptr);
      } else if t == Lt {
        return Invalid(ptr);
      } else if t == Lf {
        return if ptr == start then Found(DataNewline, ptr + 1) else Found(DataChars, ptr);
      } else if t == Cr {
        if ptr == start {
          ptr := ptr + 1;
          if ptr == |b| { return TrailingCr; }
          if enc.typeOf(b[ptr]) == Lf { ptr := ptr + 1; }
          return Found(DataNewline, ptr);
        }
        return Found(DataChars, ptr);
      } else if t == Space {
        return if ptr == start then Found(AttributeValueS, ptr + 1) else Found(DataChars, ptr);
      } else {
        ptr := ptr + enc.Width(b, ptr);
      }
    }
    return Found(DataChars, ptr);
  }

  // one round of the loop of appendAttributeValue
  lemma AppendRound(c: Config, inEntity: bool, isCdata: bool, open: set<Bytes>, d: Bytes, pool: Bytes)
    ensures var r := (if inEntity then c.internal else c.external).AttributeValueTok(d, 0);
            var v := Append(c, inEntity, isCdata, open, d, pool);
            && (r.Nothing? ==> v == Appended(pool))
            && (r.TrailingCr? ==> v == Append(c, inEntity, isCdata, open, d[1..], WithSpace(isCdata, pool)))
            && (r.Invalid? || r.Partial? ==> v == Rejected(InvalidToken))
            && (r.PartialChar? || r.TrailingRsqb? ==> v == Aborted)
            && (r.Found? ==>
                  var piece := PieceOf(c, open, r.tok, d[..r.next]);
                  && (piece.Refused? ==> v == Rejected(piece.error))
                  && (piece.Unexpected? ==> v == Aborted)
                  && (piece.Number? && Utf8Encode(piece.n) == [] ==> v == Rejected(BadCharRef))
                  && (piece.Entry? ==>
                        var inner := Append(c, true, isCdata, open + {piece.name}, piece.text, pool);
                        v == if inner.Appended? then Append(c, inEntity, isCdata, open, d[r.next..], inner.pool) else inner))
  {
    hide PieceOf, Encoding.AttributeValueTok, Utf8Encode, WithSpace, WithNumber;
  }

  // the pool after a piece that is not an entity to expand
  function Grown(isCdata: bool, pool: Bytes, piece: Piece): Bytes {
    match piece
    case Text(bytes) => pool + bytes
    case Number(n) => WithNumber(isCdata, pool, n)
    case Blank => WithSpace(isCdata, pool)
    case _ => pool
  }

  lemma AppendGrown(c: Config, inEntity: bool, isCdata: bool, open: set<Bytes>, d: Bytes, pool: Bytes, r: Scan)
    requires r == (if inEntity then c.internal else c.external).AttributeValueTok(d, 0) && r.Found?
    requires var piece := PieceOf(c, open, r.tok, d[..r.next]);
             piece.Text? || piece.Blank? || piece.Pass? || (piece.Number? && Utf8Encode(piece.n) != [])
    ensures Append(c, inEntity, isCdata, open, d, pool)
            == Append(c, inEntity, isCdata, open, d[r.next..], Grown(isCdata, pool, PieceOf(c, open, r.tok, d[..r.next])))
  {
    hide PieceOf, Encoding.AttributeValueTok, Utf8Encode, WithSpace, WithNumber;
  }

  class AttributeParser {
    const c: Config
    var open: set<Bytes>  // the entities whose open flag is set
    var pool: Bytes       // the string in progress

    constructor (c: Config, open: set<Bytes>)
      ensures this.c == c && this.open == open && pool == []
    {
      this.c, this.open, this.pool := c, open, [];
    }

    static function Answer(error: Option<Error>, aborted: bool, pool: Bytes): Value {
      if aborted then Aborted else if error.Some? then Rejected(error.value) else Appended(pool)
    }

    // a white space character, or a character reference to a space
    method AppendSpace(isCdata: bool)
      modifies this`pool
      ensures pool == WithSpace(isCdata, old(pool))
    {
      if !isCdata && (|pool| == 0 || pool[|pool| - 1] == SPACE) { return; }
      pool := pool + [SPACE];
    }

    method AppendNumber(isCdata: bool, n: int) returns (error: Option<Error>)
      modifies this`pool
      ensures error == if Utf8Encode(n) == [] then Some(BadCharRef) else None
      ensures error == None ==> pool == WithNumber(isCdata, old(pool), n)
    {
      if !isCdata && n == 0x20 && (|pool| == 0 || pool[|pool| - 1] == SPACE) { return None; }
      var bytes := Utf8Encode(n);
      if bytes == [] { return Some(BadCharRef); }
      pool := pool + bytes;
      return None;
    }

    method AppendAttributeValue(inEntity: bool, isCdata: bool, b: Bytes) returns (error: Option<Error>, aborted: bool)
      modifies this`open, this`pool
      ensures open == old(open)
      ensures Answer(error, aborted, pool) == Append(c, inEntity, isCdata, old(open), b, old(pool))
      decreases c.entities.Keys - open, |b|
    {
      hide Append, PieceOf, Encoding.AttributeValueTok, WithSpace, WithNumber, Utf8Encode;
      var enc := if inEntity then c.internal else c.external;
      var ptr := 0;
      ghost var whole := Append(c, inEntity, isCdata, open, b, pool);
      assert b[0..] == b;
      while true
        invariant ptr <= |b| && open == old(open)
        invariant whole == Append(c, inEntity, isCdata, open, b[ptr..], pool)
        decreases |b| - ptr
      {
        ghost var d := b[ptr..];
        AppendRound(c, inEntity, isCdata, open, d, pool);
        var tok := AttributeValueTokLoop(enc, b[ptr..], 0);
        if tok.Nothing? { return None, false; }
        if tok.Invalid? || tok.Partial? { return Some(InvalidToken), false; }
        if tok.PartialChar? || tok.TrailingRsqb? { return None, true; }
        if tok.TrailingCr? {
          AppendSpace(isCdata);
          assert d[1..] == b[ptr + 1..];
          ptr := ptr + 1;
          continue;
        }
        assert d[tok.next..] == b[ptr + tok.next..];
        var piece := PieceOf(c, open, tok.tok, b[ptr..][..tok.next]);
        if piece.Refused? { return Some(piece.error), false; }
        if piece.Unexpected? { return None, true; }
        if piece.Entry? {
          open := open + {piece.name};
          error, aborted := AppendAttributeValue(true, isCdata, piece.text);
          open := open - {piece.name};
          assert open == old(open);
          if error.Some? || aborted { return; }
        } else {
          ghost var before := pool;
          if piece.Number? {
            error := AppendNumber(isCdata, piece.n);
            if error.Some? { return error, false; }
          } else if piece.Blank? {
            AppendSpace(isCdata);
          } else if piece.Text? {
            pool := pool + piece.bytes;
          }
          AppendGrown(c, inEntity, isCdata, open, d, before, tok);
        }
        ptr := ptr + tok.next;
      }
    }

    // A value that is accepted is what section 3.3.3 of XML 1.0 asks for (StoreIsNormalized).
    method StoreAttributeValue(isCdata: bool, b: Bytes) returns (error: Option<Error>, aborted: bool)
      requires pool == []
      modifies this`open, this`pool
      ensures open == old(open)
      ensures Answer(error, aborted, pool) == Store(c, isCdata, old(open), b)
    {
      hide Append;
      error, aborted := AppendAttributeValue(false, isCdata, b);
      if error.Some? || aborted { return; }
      if !isCdata && |pool| != 0 && pool[|pool| - 1] == SPACE { pool := pool[..|pool| - 1]; }
    }
  }
}

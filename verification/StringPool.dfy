// STRING_POOL of xmlparse.c.  A block is an array; the pointers start, ptr and end are offsets in
// the current block, the first of blocks, and null when there is none.  realloc is the worst one:
// it always moves the block.
module StringPool {
  import opened Collections
  import opened XmlTok
  import opened Utf16

  const INIT_BLOCK_SIZE: nat := 1024

  // a finished string: where it lies, and what it is
  datatype Str = Str(block: array<byte>, at: nat, bytes: seq<byte>)

  ghost predicate Holds(t: Str)
    reads t.block
  {
    t.at + |t.bytes| <= t.block.Length && t.block[t.at..t.at + |t.bytes|] == t.bytes
  }

  // ----- the value of a pool -----

  datatype State = State(current: seq<byte>, finished: seq<seq<byte>>)

  datatype Op =
    | AppendByte(c: byte)
    | AppendText(o: Order, source: seq<byte>)
    | StoreText(o: Order, source: seq<byte>)
    | Copy(s: seq<byte>)
    | CopyN(s: seq<byte>, n: nat)
    | ChopLast
    | Drop
    | End

  predicate Can(op: Op, st: State) {
    match op
    case AppendText(o, source) => Whole(o, source)
    case StoreText(o, source) => Whole(o, source)
    case Copy(s) => forall c <- s :: c != 0
    case CopyN(s, n) => n <= |s|
    case ChopLast => st.current != []
    case _ => true
  }

  function Finished(current: seq<byte>, finished: seq<seq<byte>>): State {
    State([], if current == [] then finished else finished + [current])
  }

  function Performed(op: Op, st: State): State
    requires Can(op, st)
  {
    match op
    case AppendByte(c) => st.(current := st.current + [c])
    case AppendText(o, source) => st.(current := st.current + All(o, source))
    case StoreText(o, source) => st.(current := st.current + All(o, source) + [0])
    case Copy(s) => Finished(st.current + s + [0], st.finished)
    case CopyN(s, n) => Finished(st.current + s[..n], st.finished)
    case ChopLast => st.(current := st.current[..|st.current| - 1])
    case Drop => st.(current := [])
    case End => Finished(st.current, st.finished)
  }

  predicate CanAll(ops: seq<Op>, st: State) {
    ops == [] || (Can(ops[0], st) && CanAll(ops[1..], Performed(ops[0], st)))
  }

  function After(ops: seq<Op>, st: State): State
    requires CanAll(ops, st)
  {
    if ops == [] then st else After(ops[1..], Performed(ops[0], st))
  }

  ghost function Contents(ts: seq<Str>): seq<seq<byte>> {
    if ts == [] then [] else Contents(ts[..|ts| - 1]) + [ts[|ts| - 1].bytes]
  }

  class Pool {
    var blocks: seq<array<byte>>
    var freeBlocks: seq<array<byte>>
    var start: nat
    var ptr: nat
    var end: nat

    // the strings finished since the pool was last cleared, without the empty ones
    ghost var strings: seq<Str>

    ghost function Memory(): set<array<byte>>
      reads this
    {
      set b | b in blocks + freeBlocks
    }

    ghost predicate WellFormed()
      reads this
    {
      && Distinct(blocks) && Distinct(freeBlocks)
      && (forall b <- blocks :: b !in freeBlocks && b.Length >= INIT_BLOCK_SIZE)
      && (forall b <- freeBlocks :: b.Length >= INIT_BLOCK_SIZE)
      && start <= ptr <= end
      && end == if blocks == [] then 0 else blocks[0].Length
    }

    ghost predicate InPlace(t: Str)
      reads this, t.block
    {
      && t.block in blocks && Holds(t) && t.bytes != []
      && (t.block == blocks[0] ==> t.at + |t.bytes| <= start)
    }

    ghost predicate Valid()
      reads this, Memory(), set t <- strings :: t.block
    {
      WellFormed() && forall t <- strings :: InPlace(t)
    }

    // the string in progress
    function Current(): seq<byte>
      requires WellFormed()
      reads this, Memory()
    {
      if blocks == [] then [] else blocks[0][start..ptr]
    }

    constructor ()
      ensures Valid() && Current() == [] && strings == [] && Memory() == {}
    {
      blocks, freeBlocks := [], [];
      start, ptr, end := 0, 0, 0;
      strings := [];
    }

    // ----- room -----

    // The first free block becomes the current one.
    method TakeFree()
      requires Valid() && blocks == [] && freeBlocks != []
      modifies this
      ensures Valid() && strings == old(strings) && Current() == []
      ensures Memory() == old(Memory()) && |freeBlocks| < old(|freeBlocks|) && ptr < end
    {
      assert strings != [] ==> InPlace(strings[0]);
      blocks, freeBlocks := [freeBlocks[0]], freeBlocks[1..];
      start, ptr, end := 0, 0, blocks[0].Length;
    }

    // The string in progress moves to the first free block.
    method MoveToFree()
      requires Valid() && blocks != [] && freeBlocks != [] && end - start < freeBlocks[0].Length
      modifies this, freeBlocks[0]
      ensures Valid() && strings == old(strings) && Current() == old(Current())
      ensures Memory() == old(Memory()) && |freeBlocks| < old(|freeBlocks|) && ptr < end
    {
      var from, to, n := blocks[0], freeBlocks[0], end - start;
      forall t <- strings ensures t.block != to { assert InPlace(t); }
      forall i | 0 <= i < n { to[i] := from[start + i]; }
      blocks, freeBlocks := [to] + blocks, freeBlocks[1..];
      assert old(freeBlocks) == [to] + freeBlocks;
      start, ptr, end := 0, ptr - start, to.Length;
      assert to[0..ptr] == from[old(start)..old(ptr)];
      forall t <- strings ensures InPlace(t) { assert old(InPlace(t)); }
    }

    // The current block is made twice as large; the string in progress begins it.
    method Enlarge()
      requires Valid() && blocks != [] && start == 0
      modifies this
      ensures Valid() && strings == old(strings) && Current() == old(Current())
      ensures fresh(Memory() - old(Memory())) && freeBlocks == old(freeBlocks)
      ensures blocks != [] && start == 0 && end - ptr >= INIT_BLOCK_SIZE
    {
      var from := blocks[0];
      var blockSize := (end - start) * 2;
      forall t <- strings ensures t.block in blocks[1..] { assert InPlace(t); }
      var to := new byte[blockSize];
      forall i | 0 <= i < end { to[i] := from[i]; }
      blocks := [to] + blocks[1..];
      end := blockSize;
      assert to[0..ptr] == from[0..ptr];
      forall t <- strings ensures InPlace(t) { assert old(InPlace(t)); }
    }

    // The string in progress moves to a new block.
    method NewBlock()
      requires Valid() && (blocks != [] ==> start > 0)
      modifies this
      ensures Valid() && strings == old(strings) && Current() == old(Current())
      ensures fresh(Memory() - old(Memory())) && freeBlocks == old(freeBlocks)
      ensures blocks != [] && start == 0 && ptr < end
    {
      var blockSize := end - start;
      if blockSize < INIT_BLOCK_SIZE {
        blockSize := INIT_BLOCK_SIZE;
      } else {
        blockSize := blockSize * 2;
      }
      var to := new byte[blockSize];
      if blocks != [] {
        var from := blocks[0];
        forall i | 0 <= i < ptr - start { to[i] := from[start + i]; }
        assert to[0..ptr - start] == from[start..ptr];
      }
      blocks := [to] + blocks;
      start, ptr, end := 0, ptr - start, blockSize;
      forall t <- strings ensures InPlace(t) { assert old(InPlace(t)); }
    }

    // poolGrow: there is room, the string in progress is what it was, and no finished string has
    // moved or changed.
    method Grow()
      requires Valid()
      modifies this, Memory()
      ensures Valid() && strings == old(strings) && Current() == old(Current())
      ensures fresh(Memory() - old(Memory())) && blocks != [] && ptr < end
      ensures |freeBlocks| < old(|freeBlocks|) ||
              (freeBlocks == old(freeBlocks) && start == 0 && (old(blocks != [] && start == 0) ==> end - ptr >= INIT_BLOCK_SIZE))
    {
      if freeBlocks != [] {
        if blocks == [] {
          TakeFree();
          return;
        }
        if end - start < freeBlocks[0].Length {
          MoveToFree();
          return;
        }
      }
      if blocks != [] && start == 0 {
        Enlarge();
      } else {
        NewBlock();
      }
    }

    // ----- the string in progress -----

    // One byte is put at ptr, where there is room.
    method Put(c: byte)
      requires Valid() && blocks != [] && ptr < end
      modifies `ptr, blocks[0]
      ensures Valid() && Current() == old(Current()) + [c]
    {
      var to := blocks[0];
      to[ptr] := c;
      ptr := ptr + 1;
      forall t <- strings ensures InPlace(t) { assert old(InPlace(t)); }
      assert to[start..ptr] == old(to[start..ptr]) + [c];
    }

    // poolAppendChar
    method AppendChar(c: byte)
      requires Valid()
      modifies this, Memory()
      ensures Valid() && strings == old(strings) && Current() == old(Current()) + [c]
      ensures fresh(Memory() - old(Memory())) && blocks != []
    {
      if ptr == end {
        Grow();
      }
      Put(c);
    }

    // poolChop
    method Chop()
      requires Valid() && Current() != []
      modifies `ptr
      ensures Valid() && Current() == old(Current()[..|Current()| - 1])
    {
      ptr := ptr - 1;
      forall t <- strings ensures InPlace(t) { assert old(InPlace(t)); }
    }

    // poolDiscard
    method Discard()
      requires Valid()
      modifies `ptr
      ensures Valid() && Current() == []
    {
      ptr := start;
      forall t <- strings ensures InPlace(t) { assert old(InPlace(t)); }
    }

    // poolFinish
    method Finish()
      requires Valid()
      modifies `start, `strings
      ensures Valid() && Current() == []
      ensures strings == if old(Current()) == [] then old(strings)
                         else old(strings) + [Str(blocks[0], old(start), old(Current()))]
    {
      if start < ptr {
        strings := strings + [Str(blocks[0], start, blocks[0][start..ptr])];
      }
      start := ptr;
      forall t <- strings ensures InPlace(t) { assert t in old(strings) ==> old(InPlace(t)); }
    }

    // What the converter writes behind the string in progress is appended to it.
    method Fill(o: Order, s: seq<byte>) returns (used: nat)
      requires Valid() && blocks != [] && Whole(o, s)
      modifies `ptr, blocks[0]
      ensures Valid()
      ensures used <= |s| && Whole(o, s[..used]) && Whole(o, s[used..])
      ensures Current() == old(Current()) + All(o, s[..used])
      ensures used < |s| ==> |First(o, s[used..])| > end - ptr
      ensures used == 0 ==> ptr == old(ptr)
    {
      hide Convert, All, First, Whole, Width;
      var to := blocks[0];
      ghost var before := to[..];
      var next;
      used, next := ToUtf8(o, s, to, ptr, end);
      assert to[start..next] == before[start..ptr] + to[ptr..next];
      ptr := next;
      forall t <- strings ensures InPlace(t) {
        assert old(InPlace(t));
        if t.block == to {
          assert to[t.at..t.at + |t.bytes|] == before[t.at..t.at + |t.bytes|];
        }
      }
    }

    // how far from having room for a character
    ghost function Lack(): nat
      reads this
    {
      if ptr + 4 <= end then 0 else if start == 0 then 1 else 2
    }

    // One round of the loop below.
    method FillAndGrow(o: Order, s: seq<byte>) returns (used: nat)
      requires Valid() && blocks != [] && Whole(o, s)
      modifies this, Memory()
      ensures Valid() && strings == old(strings) && fresh(Memory() - old(Memory())) && blocks != []
      ensures used <= |s| && Whole(o, s[used..])
      ensures Current() + All(o, s[used..]) == old(Current()) + All(o, s)
      ensures used == |s| ==> Current() == old(Current()) + All(o, s)
      ensures used == 0 && s != [] ==>
                |freeBlocks| < old(|freeBlocks|) || (freeBlocks == old(freeBlocks) && Lack() < old(Lack()))
    {
      hide Convert, All, First, Whole, Width, InPlace;
      used := Fill(o, s);
      Appended(o, s, used, old(Current()));
      if used < |s| {
        Grow();
      }
    }

    // poolAppend, for the encodings of Utf16: the UTF-8 form of the source is appended.  It ends,
    // although a block may give room for no character.
    method Append(o: Order, source: seq<byte>)
      requires Valid() && Whole(o, source)
      modifies this, Memory()
      ensures Valid() && strings == old(strings) && Current() == old(Current()) + All(o, source)
      ensures fresh(Memory() - old(Memory())) && blocks != []
    {
      hide Convert, All, First, Whole, Width, WellFormed, InPlace, Lack;
      if blocks == [] {
        Grow();
      }
      var s := source;
      ghost var total := Current() + All(o, s);
      while true
        invariant Valid() && strings == old(strings) && blocks != []
        invariant fresh(Memory() - old(Memory()))
        invariant Whole(o, s) && Current() + All(o, s) == total
        decreases |s|, |freeBlocks|, Lack()
      {
        var used := FillAndGrow(o, s);
        if used == |s| {
          break;
        }
        s := s[used..];
      }
    }

    // poolStoreString
    method StoreString(o: Order, source: seq<byte>)
      requires Valid() && Whole(o, source)
      modifies this, Memory()
      ensures Valid() && strings == old(strings) && Current() == old(Current()) + All(o, source) + [0]
      ensures fresh(Memory() - old(Memory())) && blocks != []
    {
      Append(o, source);
      AppendChar(0);
    }

    // The string in progress is finished, and its place and contents given (poolStart and poolFinish).
    method Take() returns (t: Str)
      requires Valid() && blocks != []
      modifies `start, `strings
      ensures Valid() && Current() == []
      ensures t.bytes == old(Current())
      ensures strings == if t.bytes == [] then old(strings) else old(strings) + [t]
    {
      t := Str(blocks[0], start, blocks[0][start..ptr]);
      Finish();
    }

    // poolCopyString, of the string s that a zero ends
    method CopyString(s: seq<byte>) returns (t: Str)
      requires Valid() && forall c <- s :: c != 0
      modifies this, Memory()
      ensures Valid() && Current() == [] && fresh(Memory() - old(Memory()))
      ensures t.bytes == old(Current()) + s + [0] && strings == old(strings) + [t]
    {
      hide WellFormed, InPlace;
      var n, c := 0, 1;
      while c != 0
        invariant Valid() && strings == old(strings) && fresh(Memory() - old(Memory()))
        invariant c != 0 ==> n <= |s| && Current() == old(Current()) + s[..n]
        invariant c == 0 ==> blocks != [] && Current() == old(Current()) + s + [0]
        decreases c != 0, |s| - n
      {
        OneLonger(s, n);
        assert n < |s| ==> s[n] in s;
        c := if n < |s| then s[n] else 0;
        AppendChar(c);
        Joined(old(Current()), s[..n], [c]);
        n := n + 1;
      }
      t := Take();
    }

    // poolCopyStringN
    method CopyStringN(s: seq<byte>, n: nat) returns (t: Str)
      requires Valid() && n <= |s|
      modifies this, Memory()
      ensures Valid() && Current() == [] && fresh(Memory() - old(Memory()))
      ensures t.bytes == old(Current()) + s[..n]
      ensures strings == if t.bytes == [] then old(strings) else old(strings) + [t]
    {
      hide WellFormed, InPlace;
      if blocks == [] {
        Grow();
      }
      var k := 0;
      while k < n
        invariant Valid() && strings == old(strings) && fresh(Memory() - old(Memory())) && blocks != []
        invariant k <= n && Current() == old(Current()) + s[..k]
      {
        OneLonger(s, k);
        AppendChar(s[k]);
        k := k + 1;
      }
      t := Take();
    }

    // ----- runs -----

    ghost function Abstract(): State
      requires WellFormed()
      reads this, Memory()
    {
      State(Current(), Contents(strings))
    }

    // One operation does to the pool what Performed does to its value, and every string finished
    // before is still where it was.
    method Do(op: Op)
      requires Valid() && Can(op, Abstract())
      modifies this, Memory()
      ensures Valid() && fresh(Memory() - old(Memory()))
      ensures old(strings) <= strings && Abstract() == Performed(op, old(Abstract()))
    {
      hide WellFormed, InPlace, Whole, All;
      var t;
      match op
      case AppendByte(c) => AppendChar(c);
      case AppendText(o, source) => Append(o, source);
      case StoreText(o, source) => StoreString(o, source);
      case Copy(s) => t := CopyString(s); assert strings[..|strings| - 1] == old(strings);
      case CopyN(s, n) => t := CopyStringN(s, n); assert t.bytes != [] ==> strings[..|strings| - 1] == old(strings);
      case ChopLast => Chop();
      case Drop => Discard();
      case End => Finish(); assert strings != old(strings) ==> strings[..|strings| - 1] == old(strings);
    }

    // Over every run of operations without a clearing, a finished string never moves and never
    // changes, and the pool holds what a list of strings would hold.
    method Run(ops: seq<Op>)
      requires Valid() && CanAll(ops, Abstract())
      modifies this, Memory()
      ensures Valid() && fresh(Memory() - old(Memory()))
      ensures old(strings) <= strings && forall t <- old(strings) :: t in strings && Holds(t)
      ensures Abstract() == After(ops, old(Abstract()))
    {
      hide WellFormed, Performed, Can, Whole, All;
      var k := 0;
      while k < |ops|
        invariant k <= |ops| && Valid() && fresh(Memory() - old(Memory()))
        invariant old(strings) <= strings
        invariant CanAll(ops[k..], Abstract())
        invariant After(ops[k..], Abstract()) == After(ops, old(Abstract()))
      {
        Do(ops[k]);
        assert ops[k..][1..] == ops[k + 1..];
        k := k + 1;
      }
      forall t <- old(strings) ensures t in strings && Holds(t) { assert t in strings; assert InPlace(t); }
    }

    // ----- clearing -----

    // poolClear: all blocks become free.
    method Clear()
      requires Valid()
      modifies this
      ensures Valid() && strings == [] && Current() == [] && blocks == [] && Memory() == old(Memory())
    {
      if freeBlocks == [] {
        freeBlocks := blocks;
      } else {
        var p := blocks;
        while p != []
          invariant Distinct(p) && Distinct(freeBlocks)
          invariant forall b <- p :: b !in freeBlocks && b.Length >= INIT_BLOCK_SIZE
          invariant forall b <- freeBlocks :: b.Length >= INIT_BLOCK_SIZE
          invariant (set b | b in p + freeBlocks) == old(Memory())
        {
          var tem := p[1..];
          assert p == [p[0]] + tem;
          OneFreed(p[0], tem, freeBlocks);
          freeBlocks := [p[0]] + freeBlocks;
          p := tem;
        }
      }
      blocks := [];
      start, ptr, end := 0, 0, 0;
      strings := [];
    }
  }

  lemma Joined(a: seq<byte>, b: seq<byte>, c: seq<byte>)
    ensures a + b + c == a + (b + c)
  {
  }

  lemma OneLonger(s: seq<byte>, n: nat)
    requires n <= |s|
    ensures if n < |s| then s[..n + 1] == s[..n] + [s[n]] else s[..n] == s
  {
  }

  lemma OneFreed(b: array<byte>, tem: seq<array<byte>>, free: seq<array<byte>>)
    requires Distinct([b] + tem) && Distinct(free) && b !in free
    ensures Distinct(tem) && Distinct([b] + free) && b !in tem
    ensures (set c | c in [b] + tem + free) == (set c | c in tem + ([b] + free))
  {
    var p := [b] + tem;
    var q := [b] + free;
    forall i, j | 0 <= i < j < |tem| ensures tem[i] != tem[j] { assert p[i + 1] != p[j + 1]; }
    forall i, j | 0 <= i < j < |q| ensures q[i] != q[j] { assert i > 0 ==> free[i - 1] != free[j - 1]; }
    forall c | c in tem ensures c != b { var i :| 0 <= i < |tem| && tem[i] == c; assert p[0] != p[i + 1]; }
  }

  lemma Appended(o: Order, s: seq<byte>, used: nat, sofar: seq<byte>)
    requires used <= |s| && Whole(o, s[..used]) && Whole(o, s[used..]) && Whole(o, s)
    ensures sofar + All(o, s) == sofar + All(o, s[..used]) + All(o, s[used..])
    ensures used == |s| ==> All(o, s[used..]) == []
  {
    hide First, Convert, Width;
    assert s[..used] + s[used..] == s;
    AllOfBoth(o, s[..used], s[used..]);
  }
}

// The table of hashtable.c: open addressing that probes downwards and wraps around, and
// doubles when half the slots are used.  What it answers is what a map answers.  The number of
// slots is a power of two, so the C code can take the hash modulo that number with a mask.
module HashTable {
  import opened Collections

  datatype Slot<+K, +V> = Empty | Full(key: K, value: V)

  const INIT_SIZE := 64

  // ----- probing -----

  // the slot that t steps of the probe lead to
  function Walk(from: nat, t: nat, n: nat): (i: nat)
    requires from < n && t <= n
    ensures i < n
  {
    if t <= from then from - t else from - t + n
  }

  // A probe from the key's first slot comes to slot i over slots that are all in use.
  ghost predicate Reaches<K, V>(v: seq<Slot<K, V>>, from: nat, i: nat)
    requires from < |v|
  {
    exists t :: 0 <= t < |v| && i == Walk(from, t, |v|) && forall e :: 0 <= e < t ==> v[Walk(from, e, |v|)].Full?
  }

  // how many steps it is from one slot to another
  lemma Distance(from: nat, i: nat, n: nat) returns (t: nat)
    requires from < n && i < n
    ensures t < n && Walk(from, t, n) == i
  {
    t := if i <= from then from - i else from - i + n;
  }

  function Used<K, V>(v: seq<Slot<K, V>>): nat {
    if v == [] then 0 else Used(v[..|v| - 1]) + if v[|v| - 1].Full? then 1 else 0
  }

  lemma {:induction false} SomeEmpty<K, V>(v: seq<Slot<K, V>>) returns (i: nat)
    requires Used(v) < |v|
    ensures i < |v| && v[i].Empty?
  {
    if v[|v| - 1].Empty? {
      i := |v| - 1;
    } else {
      i := SomeEmpty(v[..|v| - 1]);
    }
  }

  lemma {:induction false} UsedMore<K, V>(v: seq<Slot<K, V>>, i: nat, slot: Slot<K, V>)
    requires i < |v| && v[i].Empty? && slot.Full?
    ensures Used(v[i := slot]) == Used(v) + 1
    decreases |v|
  {
    var w := v[i := slot];
    if i == |v| - 1 {
      assert w[..|w| - 1] == v[..|v| - 1];
    } else {
      assert w[..|w| - 1] == v[..|v| - 1][i := slot];
      UsedMore(v[..|v| - 1], i, slot);
    }
  }

  // ----- what the slots hold -----

  // The slots hold exactly this map: each key once, and where a probe for it comes to it.
  ghost predicate Holds<K(!new), V>(v: seq<Slot<K, V>>, hash: K -> nat, contents: map<K, V>) {
    && |v| > 0
    && (forall i :: 0 <= i < |v| && v[i].Full? ==>
          v[i].key in contents && contents[v[i].key] == v[i].value && Reaches(v, hash(v[i].key) % |v|, i))
    && (forall i, j :: 0 <= i < j < |v| && v[i].Full? && v[j].Full? ==> v[i].key != v[j].key)
    && (forall k :: k in contents ==> Stored(v, k))
  }

  ghost predicate Stored<K, V>(v: seq<Slot<K, V>>, k: K) {
    exists i :: 0 <= i < |v| && v[i].Full? && v[i].key == k
  }

  // A key is not in the table when the probe has come to an empty slot.
  lemma NotStored<K(!new), V>(v: seq<Slot<K, V>>, hash: K -> nat, contents: map<K, V>, k: K, t: nat)
    requires Holds(v, hash, contents) && t < |v|
    requires var from := hash(k) % |v|;
             && v[Walk(from, t, |v|)].Empty?
             && forall e :: 0 <= e < t ==> v[Walk(from, e, |v|)].Full? && v[Walk(from, e, |v|)].key != k
    ensures k !in contents
  {
  }

  // Filling the empty slot a probe has come to adds the key.
  lemma Filled<K(!new), V>(v: seq<Slot<K, V>>, hash: K -> nat, contents: map<K, V>, k: K, value: V, t: nat)
    requires Holds(v, hash, contents) && t < |v| && k !in contents
    requires var from := hash(k) % |v|;
             && v[Walk(from, t, |v|)].Empty?
             && forall e :: 0 <= e < t ==> v[Walk(from, e, |v|)].Full?
    ensures Holds(v[Walk(hash(k) % |v|, t, |v|) := Full(k, value)], hash, contents[k := value])
  {
    hide Walk;
    var from := hash(k) % |v|;
    var p := Walk(from, t, |v|);
    var w := v[p := Full(k, value)];
    forall i | 0 <= i < |w| && w[i].Full?
      ensures Reaches(w, hash(w[i].key) % |w|, i)
    {
      if i == p {
        assert forall e :: 0 <= e < t ==> w[Walk(from, e, |w|)].Full?;
      } else {
        StillReaches(v, w, hash(v[i].key) % |v|, i);
      }
    }
    forall l | l in contents[k := value] ensures Stored(w, l) {
      if l == k {
        assert w[p].key == k;
      } else {
        var i :| 0 <= i < |v| && v[i].Full? && v[i].key == l;
        assert w[i] == v[i];
      }
    }
  }

  lemma StillReaches<K, V>(v: seq<Slot<K, V>>, w: seq<Slot<K, V>>, from: nat, i: nat)
    requires |w| == |v| && from < |v| && Reaches(v, from, i)
    requires forall j :: 0 <= j < |v| && v[j].Full? ==> w[j].Full?
    ensures Reaches(w, from, i)
  {
    var t :| 0 <= t < |v| && i == Walk(from, t, |v|) && forall e :: 0 <= e < t ==> v[Walk(from, e, |v|)].Full?;
    assert forall e :: 0 <= e < t ==> w[Walk(from, e, |v|)].Full?;
  }

  // ----- the table -----

  class Table<K(==, !new), V> {
    const hash: K -> nat
    var v: array<Slot<K, V>>
    var used: nat
    var usedLim: nat
    ghost var contents: map<K, V>

    ghost predicate Valid()
      reads this, v
    {
      && used == Used(v[..]) <= usedLim == v.Length / 2
      && (if v.Length == 0 then contents == map[] else Holds(v[..], hash, contents))
    }

    // hashTableInit
    constructor (hash: K -> nat)
      ensures Valid() && contents == map[] && this.hash == hash && fresh(v)
    {
      this.hash := hash;
      v := new Slot<K, V>[0];
      used, usedLim, contents := 0, 0, map[];
    }

    // The loop of the look-up: the slot the key is in, or the empty one it would go to.
    static method Probe(v: array<Slot<K, V>>, hash: K -> nat, name: K, ghost contents: map<K, V>)
      returns (i: nat, found: bool, ghost t: nat)
      requires Used(v[..]) < v.Length && Holds(v[..], hash, contents)
      ensures i < v.Length && t < v.Length && i == Walk(hash(name) % v.Length, t, v.Length)
      ensures found <==> name in contents
      ensures found ==> v[i] == Full(name, contents[name])
      ensures !found ==> v[i].Empty? && forall e :: 0 <= e < t ==> v[..][Walk(hash(name) % v.Length, e, v.Length)].Full?
    {
      ghost var s := v[..];
      ghost var m := SomeEmpty(s);
      var from := hash(name) % v.Length;
      ghost var last := Distance(from, m, v.Length);
      i := from;
      t := 0;
      while v[i].Full?
        invariant i < v.Length && t <= last && i == Walk(from, t, v.Length)
        invariant forall e :: 0 <= e < t ==> s[Walk(from, e, v.Length)].Full? && s[Walk(from, e, v.Length)].key != name
        decreases v.Length - t
      {
        if name == v[i].key {
          assert s[i] == v[i];
          return i, true, t;
        }
        i := if i == 0 then v.Length - 1 else i - 1;
        t := t + 1;
      }
      NotStored(s, hash, contents, name, t);
      found := false;
    }

    // The slots are twice as many from here on, with the same entries.
    method Grow()
      requires Valid() && 0 < v.Length
      modifies this`v, this`usedLim
      ensures Valid() && fresh(v) && v.Length == 2 * old(v.Length) && 0 < v.Length
    {
      hide Holds, Used;
      ghost var s := v[..];
      var newSize := v.Length * 2;
      var newV := new Slot<K, V>[newSize](_ => Empty);
      ghost var moved: map<K, V> := map[];
      NoneUsed(newV[..]);
      NoneHeld(newV[..], hash);
      assert s[..0] == [];
      assert Used(s[..0]) == 0 by { NoneUsed(s[..0]); }
      for i := 0 to v.Length
        invariant v[..] == s && newV.Length == newSize && fresh(newV)
        invariant Holds(newV[..], hash, moved) && Used(newV[..]) == Used(s[..i])
        invariant forall k :: k in moved <==> StoredBefore(s, i, k)
        invariant forall k :: k in moved ==> k in contents && moved[k] == contents[k]
      {
        UsedBound(s[..i]);
        UsedPrefix(s, i);
        BeforeMore(s, i);
        if v[i].Full? {
          HeldEntry(s, hash, contents, i);
          NotBefore(s, hash, contents, i);
          Refill(newV, hash, v[i], moved);
          moved := moved[v[i].key := v[i].value];
        }
      }
      assert s[..v.Length] == s;
      AllMoved(s, hash, contents, moved);
      v := newV;
      usedLim := newSize / 2;
    }

    // the inner loop of the doubling
    static method Refill(newV: array<Slot<K, V>>, hash: K -> nat, slot: Slot<K, V>, ghost moved: map<K, V>)
      requires slot.Full? && Used(newV[..]) < newV.Length && Holds(newV[..], hash, moved) && slot.key !in moved
      modifies newV
      ensures Holds(newV[..], hash, moved[slot.key := slot.value]) && Used(newV[..]) == Used(old(newV[..])) + 1
    {
      hide Holds, Used;
      ghost var s := newV[..];
      var j, t := FirstEmpty(newV, hash, slot.key, moved);
      Filled(s, hash, moved, slot.key, slot.value, t);
      UsedMore(s, j, slot);
      newV[j] := slot;
      assert newV[..] == s[j := slot];
    }

    // the empty slot a probe comes to, for a key that is not there
    static method FirstEmpty(v: array<Slot<K, V>>, hash: K -> nat, name: K, ghost contents: map<K, V>) returns (i: nat, ghost t: nat)
      requires 0 < v.Length && Used(v[..]) < v.Length
      ensures i < v.Length && t < v.Length && i == Walk(hash(name) % v.Length, t, v.Length) && v[i].Empty?
      ensures forall e :: 0 <= e < t ==> v[..][Walk(hash(name) % v.Length, e, v.Length)].Full?
    {
      ghost var s := v[..];
      ghost var m := SomeEmpty(s);
      var from := hash(name) % v.Length;
      ghost var last := Distance(from, m, v.Length);
      i := from;
      t := 0;
      while v[i].Full?
        invariant i < v.Length && t <= last && i == Walk(from, t, v.Length)
        invariant forall e :: 0 <= e < t ==> s[Walk(from, e, v.Length)].Full?
        decreases v.Length - t
      {
        i := if i == 0 then v.Length - 1 else i - 1;
        t := t + 1;
      }
    }

    // hashTableLookup; the entry it makes for a new name, if it may, is created
    method Lookup(name: K, created: Option<V>) returns (r: Option<V>)
      requires Valid()
      modifies this, v
      ensures Valid() && (v == old(v) || fresh(v))
      ensures if name in old(contents) then r == Some(old(contents)[name]) && contents == old(contents)
              else r == created && contents == if created.Some? then old(contents)[name := created.value] else old(contents)
    {
      hide Holds, Used;
      var i;
      ghost var t := 0;
      if v.Length == 0 {
        if created.None? { return None; }
        v := new Slot<K, V>[INIT_SIZE](_ => Empty);
        usedLim := INIT_SIZE / 2;
        NoneUsed(v[..]);
        NoneHeld(v[..], hash);
        assert Used<K, V>([]) == 0 by { NoneUsed<K, V>([]); }
        i := hash(name) % v.Length;
      } else {
        var found;
        i, found, t := Probe(v, hash, name, contents);
        if found { return Some(v[i].value); }
        if created.None? { return None; }
        if used == usedLim {
          Grow();
          i, t := FirstEmpty(v, hash, name, contents);
        }
      }
      ghost var s := v[..];
      Filled(s, hash, contents, name, created.value, t);
      UsedMore(s, i, Full(name, created.value));
      v[i] := Full(name, created.value);
      assert v[..] == s[i := Full(name, created.value)];
      used := used + 1;
      contents := contents[name := created.value];
      return created;
    }

    // What hashTableIterInit and hashTableIterNext go through: every entry, once.
    method Entries() returns (es: seq<(K, V)>)
      requires Valid()
      ensures forall i, j :: 0 <= i < j < |es| ==> es[i].0 != es[j].0
      ensures forall e <- es :: e.0 in contents && contents[e.0] == e.1
      ensures forall k :: k in contents ==> (k, contents[k]) in es
    {
      hide Holds, Used, StoredBefore;
      es := [];
      ghost var s := v[..];
      NothingBefore(s);
      for p := 0 to v.Length
        invariant forall i, j :: 0 <= i < j < |es| ==> es[i].0 != es[j].0
        invariant forall e <- es :: StoredBefore(s, p, e.0) && e.0 in contents && contents[e.0] == e.1
        invariant forall k :: StoredBefore(s, p, k) ==> k in contents && (k, contents[k]) in es
      {
        BeforeMore(s, p);
        if v[p].Full? {
          HeldEntry(s, hash, contents, p);
          NotBefore(s, hash, contents, p);
          ghost var was := es;
          es := es + [(v[p].key, v[p].value)];
          assert forall e :: e in es <==> e in was || e == (v[p].key, v[p].value);
        }
      }
      if v.Length > 0 { AllBefore(s, hash, contents); }
    }
  }

  lemma NothingBefore<K(!new), V>(v: seq<Slot<K, V>>)
    ensures forall k :: !StoredBefore(v, 0, k)
  {
  }

  lemma AllBefore<K(!new), V>(v: seq<Slot<K, V>>, hash: K -> nat, contents: map<K, V>)
    requires Holds(v, hash, contents)
    ensures forall k :: k in contents ==> StoredBefore(v, |v|, k)
  {
    forall k | k in contents ensures StoredBefore(v, |v|, k) { assert Stored(v, k); }
  }

  ghost predicate StoredBefore<K, V>(v: seq<Slot<K, V>>, n: nat, k: K)
    requires n <= |v|
  {
    exists i :: 0 <= i < n && v[i].Full? && v[i].key == k
  }

  lemma BeforeMore<K(!new), V>(v: seq<Slot<K, V>>, n: nat)
    requires n < |v|
    ensures forall k :: StoredBefore(v, n + 1, k) <==> StoredBefore(v, n, k) || (v[n].Full? && v[n].key == k)
  {
    forall k ensures StoredBefore(v, n + 1, k) <==> StoredBefore(v, n, k) || (v[n].Full? && v[n].key == k) {
      if StoredBefore(v, n + 1, k) {
        var i :| 0 <= i < n + 1 && v[i].Full? && v[i].key == k;
        if i < n { assert StoredBefore(v, n, k); }
      } else if v[n].Full? {
        assert v[n].key != k;
      }
    }
  }

  lemma HeldEntry<K(!new), V>(v: seq<Slot<K, V>>, hash: K -> nat, contents: map<K, V>, i: nat)
    requires Holds(v, hash, contents) && i < |v| && v[i].Full?
    ensures v[i].key in contents && contents[v[i].key] == v[i].value
  {
  }

  lemma NotBefore<K(!new), V>(v: seq<Slot<K, V>>, hash: K -> nat, contents: map<K, V>, i: nat)
    requires Holds(v, hash, contents) && i < |v| && v[i].Full?
    ensures !StoredBefore(v, i, v[i].key)
  {
  }

  lemma AllMoved<K(!new), V>(v: seq<Slot<K, V>>, hash: K -> nat, contents: map<K, V>, moved: map<K, V>)
    requires Holds(v, hash, contents)
    requires forall k :: k in moved <==> StoredBefore(v, |v|, k)
    requires forall k :: k in moved ==> k in contents && moved[k] == contents[k]
    ensures moved == contents
  {
    forall k | k in contents ensures k in moved { assert Stored(v, k); }
  }

  lemma {:induction false} NoneUsed<K, V>(v: seq<Slot<K, V>>)
    requires forall i :: 0 <= i < |v| ==> v[i].Empty?
    ensures Used(v) == 0
    decreases |v|
  {
    if v != [] { NoneUsed(v[..|v| - 1]); }
  }

  lemma NoneHeld<K(!new), V>(v: seq<Slot<K, V>>, hash: K -> nat)
    requires |v| > 0 && forall i :: 0 <= i < |v| ==> v[i].Empty?
    ensures Holds(v, hash, map[])
  {
  }

  lemma UsedPrefix<K, V>(v: seq<Slot<K, V>>, n: nat)
    requires n < |v|
    ensures Used(v[..n + 1]) == Used(v[..n]) + if v[n].Full? then 1 else 0
  {
    assert v[..n + 1][..n] == v[..n];
  }

  lemma {:induction false} UsedBound<K, V>(v: seq<Slot<K, V>>)
    ensures Used(v) <= |v|
    decreases |v|
  {
    if v != [] { UsedBound(v[..|v| - 1]); }
  }
}

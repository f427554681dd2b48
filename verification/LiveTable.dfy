/** The control-plane live set (src/profiler/shm_profiler.c, lines 331-441): a
    growable open-addressing hash table with linear probing and tombstones,
    proved to refine a finite map for every hash function. */
module LiveTable {
  import opened Wrappers
  import opened Probing

  type Addr = nat

  datatype Info = Info(name: Option<string>, size: nat, tMap: int)

  datatype Slot = Empty | Used(key: Addr, info: Info) | Tomb

  // ---- the slot array as a value -------------------------------------------

  ghost predicate UniqueKeys(s: seq<Slot>)
  {
    forall i, j :: 0 <= i < j < |s| && s[i].Used? && s[j].Used? ==> s[i].key != s[j].key
  }

  /** No empty slot lies, cyclically, from `home` up to (not including) slot h. */
  ghost predicate Passable(s: seq<Slot>, home: nat, h: nat)
    requires home < |s| && h < |s|
  {
    forall j :: 0 <= j < |s| && Off(home, j, |s|) < Off(home, h, |s|) ==> !s[j].Empty?
  }

  /** On the way from home to slot h a probe passes no tombstone. */
  ghost predicate NoTombBefore(s: seq<Slot>, home: nat, h: nat)
    requires home < |s| && h < |s|
  {
    forall j :: 0 <= j < |s| && Off(home, j, |s|) < Off(home, h, |s|) ==> !s[j].Tomb?
  }

  ghost predicate Chained(s: seq<Slot>, hash: Addr -> nat)
  {
    forall i :: 0 <= i < |s| && s[i].Used? ==> Passable(s, Home(hash(s[i].key), |s|), i)
  }

  ghost predicate WellFormed(s: seq<Slot>, hash: Addr -> nat)
  {
    UniqueKeys(s) && Chained(s, hash)
  }

  ghost predicate HasKey(x: Slot, k: Addr)
  {
    x.Used? && x.key == k
  }

  ghost predicate Holds(s: seq<Slot>, k: Addr)
  {
    exists i :: 0 <= i < |s| && s[i].Used? && s[i].key == k
  }

  /** The finite map a slot array stands for. */
  ghost function Contents(s: seq<Slot>): (m: map<Addr, Info>)
    requires UniqueKeys(s)
    ensures forall i :: 0 <= i < |s| && s[i].Used? ==> s[i].key in m && m[s[i].key] == s[i].info
    ensures forall k :: k in m <==> Holds(s, k)
  {
    var keys := set i | 0 <= i < |s| && s[i].Used? :: s[i].key;
    map k | k in keys :: (var i :| 0 <= i < |s| && s[i].Used? && s[i].key == k; s[i].info)
  }

  ghost function CountUsed(s: seq<Slot>): (n: nat)
    ensures n <= |s|
  {
    if s == [] then 0 else CountUsed(s[..|s| - 1]) + if s[|s| - 1].Used? then 1 else 0
  }

  ghost function CountTombs(s: seq<Slot>): (n: nat)
    ensures n <= |s|
  {
    if s == [] then 0 else CountTombs(s[..|s| - 1]) + if s[|s| - 1].Tomb? then 1 else 0
  }

  lemma {:induction false} CountsAfterUpdate(s: seq<Slot>, i: nat, x: Slot)
    requires i < |s|
    ensures CountUsed(s[i := x]) - (if x.Used? then 1 else 0) == CountUsed(s) - (if s[i].Used? then 1 else 0)
    ensures CountTombs(s[i := x]) - (if x.Tomb? then 1 else 0) == CountTombs(s) - (if s[i].Tomb? then 1 else 0)
  {
    var n := |s| - 1;
    if i == n {
      assert s[i := x][..n] == s[..n];
    } else {
      CountsAfterUpdate(s[..n], i, x);
      assert s[i := x][..n] == s[..n][i := x];
    }
  }

  /** A table that is not full of used slots and tombstones has an empty slot:
      this is what makes the unbounded probe loops terminate. */
  lemma {:induction false} EmptySlotExists(s: seq<Slot>)
    requires CountUsed(s) + CountTombs(s) < |s|
    ensures exists i :: 0 <= i < |s| && s[i].Empty?
  {
    var n := |s| - 1;
    if !s[n].Empty? {
      EmptySlotExists(s[..n]);
      var i :| 0 <= i < n && s[..n][i].Empty?;
      assert s[i].Empty?;
    }
  }

  lemma MapSizes(m: map<Addr, Info>, x: Slot)
    ensures x.Used? && x.key !in m ==> |m[x.key := x.info]| == |m| + 1
  {
    if x.Used? && x.key !in m {
      assert m[x.key := x.info].Keys == m.Keys + {x.key};
    }
  }

  lemma PrefixStep(s: seq<Slot>, i: nat)
    requires UniqueKeys(s) && i < |s|
    ensures UniqueKeys(s[..i]) && UniqueKeys(s[..i + 1])
    ensures s[i].Used? ==> !Holds(s[..i], s[i].key)
    ensures s[i].Used? ==> Contents(s[..i + 1]) == Contents(s[..i])[s[i].key := s[i].info]
    ensures !s[i].Used? ==> Contents(s[..i + 1]) == Contents(s[..i])
    ensures CountUsed(s[..i + 1]) == CountUsed(s[..i]) + if s[i].Used? then 1 else 0
  {
    hide Contents;
    var p, q := s[..i], s[..i + 1];
    assert q[..|q| - 1] == p;
    forall k ensures Holds(q, k) <==> Holds(p, k) || (s[i].Used? && s[i].key == k) {
      if Holds(p, k) {
        var j :| 0 <= j < |p| && p[j].Used? && p[j].key == k;
        assert q[j] == p[j];
      }
      if Holds(q, k) {
        var j :| 0 <= j < |q| && q[j].Used? && q[j].key == k;
        if j < i { assert q[j] == p[j]; }
      }
      if s[i].Used? && s[i].key == k {
        assert q[i] == s[i];
      }
    }
    forall k | Holds(p, k) ensures Contents(p)[k] == Contents(q)[k] {
      var j :| 0 <= j < |p| && p[j].Used? && p[j].key == k;
      assert q[j] == p[j];
    }
    if s[i].Used? {
      assert q[i] == s[i];
    }
  }

  /** `count` is the size of the map. */
  lemma {:induction false} CountIsMapSize(s: seq<Slot>)
    requires UniqueKeys(s)
    ensures CountUsed(s) == |Contents(s)|
  {
    if s == [] {
      assert Contents(s).Keys == {};
    } else {
      hide Contents;
      var n := |s| - 1;
      CountIsMapSize(s[..n]);
      PrefixStep(s, n);
      assert s[..n + 1] == s;
      MapSizes(Contents(s[..n]), s[n]);
    }
  }

  /** Changing slot h, used for `key` at most, leaves every other key in place. */
  lemma SameKeysElsewhere(s: seq<Slot>, s': seq<Slot>, h: nat, key: Addr)
    requires |s| == |s'| && h < |s| && s' == s[h := s'[h]]
    requires s[h].Used? ==> s[h].key == key
    requires s'[h].Used? ==> s'[h].key == key
    requires UniqueKeys(s) && UniqueKeys(s')
    ensures forall k :: k != key ==> (Holds(s, k) <==> Holds(s', k))
    ensures forall k :: k != key && Holds(s, k) ==> Contents(s)[k] == Contents(s')[k]
  {
    forall k | k != key && Holds(s, k) ensures Holds(s', k) && Contents(s)[k] == Contents(s')[k] {
      var i :| 0 <= i < |s| && s[i].Used? && s[i].key == k;
      assert s'[i] == s[i];
    }
    forall k | k != key && Holds(s', k) ensures Holds(s, k) {
      var i :| 0 <= i < |s'| && s'[i].Used? && s'[i].key == k;
      assert s'[i] == s[i];
    }
  }

  /** Writing an absent key into a non-used slot reached by a probe without empty
      slots is map update. */
  lemma PlaceIsInsert(s: seq<Slot>, hash: Addr -> nat, h: nat, key: Addr, info: Info)
    requires WellFormed(s, hash) && h < |s| && !s[h].Used? && !Holds(s, key)
    requires Passable(s, Home(hash(key), |s|), h)
    ensures WellFormed(s[h := Used(key, info)], hash)
    ensures Contents(s[h := Used(key, info)]) == Contents(s)[key := info]
  {
    hide Contents, Home, Off;
    var s' := s[h := Used(key, info)];
    assert UniqueKeys(s');
    SameKeysElsewhere(s, s', h, key);
    assert s'[h].key == key;
  }

  lemma OverwriteIsUpdate(s: seq<Slot>, hash: Addr -> nat, h: nat, info: Info)
    requires WellFormed(s, hash) && h < |s| && s[h].Used?
    ensures WellFormed(s[h := Used(s[h].key, info)], hash)
    ensures Contents(s[h := Used(s[h].key, info)]) == Contents(s)[s[h].key := info]
  {
    hide Contents, Home, Off;
    var s' := s[h := Used(s[h].key, info)];
    assert UniqueKeys(s');
    SameKeysElsewhere(s, s', h, s[h].key);
    assert s'[h].key == s[h].key;
  }

  lemma TombIsRemoval(s: seq<Slot>, hash: Addr -> nat, h: nat)
    requires WellFormed(s, hash) && h < |s| && s[h].Used?
    ensures WellFormed(s[h := Tomb], hash)
    ensures Contents(s[h := Tomb]) == Contents(s) - {s[h].key}
  {
    hide Contents, Home, Off;
    var s' := s[h := Tomb];
    assert UniqueKeys(s');
    SameKeysElsewhere(s, s', h, s[h].key);
    assert !Holds(s', s[h].key);
  }

  /** A probe that met neither `key` nor an empty slot before the empty slot h
      proves that the key is absent. */
  lemma ProbedToEmpty(s: seq<Slot>, hash: Addr -> nat, key: Addr, h: nat)
    requires WellFormed(s, hash) && h < |s| && s[h].Empty?
    requires forall j :: 0 <= j < |s| && Off(Home(hash(key), |s|), j, |s|) < Off(Home(hash(key), |s|), h, |s|)
               ==> !HasKey(s[j], key)
    ensures !Holds(s, key)
  {
    hide Home;
  }

  lemma DivisibleByFour(cap: nat)
    requires PowerOfTwo(cap) && cap >= 64
    ensures cap % 4 == 0
  {
    assert PowerOfTwo(cap / 2);
  }

  lemma {:induction false} AllEmpty(s: seq<Slot>)
    requires forall i :: 0 <= i < |s| ==> s[i].Empty?
    ensures CountUsed(s) == 0 && CountTombs(s) == 0
  {
    if s != [] {
      AllEmpty(s[..|s| - 1]);
    }
  }

  lemma {:induction false} NoTombs(s: seq<Slot>, i: nat)
    requires CountTombs(s) == 0 && i < |s|
    ensures !s[i].Tomb?
  {
    if i < |s| - 1 {
      NoTombs(s[..|s| - 1], i);
    }
  }

  lemma UsedAtLeastOne(s: seq<Slot>, i: nat)
    requires i < |s| && s[i].Used?
    ensures CountUsed(s) >= 1
  {
    CountsAfterUpdate(s, i, Empty);
  }

  /** What a probe for `key` knows at slot h: it passed no empty slot and not the key, and
      remembers the first tombstone it passed, if any. */
  ghost predicate Probed(s: seq<Slot>, home: nat, h: nat, key: Addr, firstTomb: Option<nat>)
    requires home < |s| && h < |s|
  {
    && Passable(s, home, h)
    && (forall j :: 0 <= j < |s| && Off(home, j, |s|) < Off(home, h, |s|) ==> !HasKey(s[j], key))
    && (firstTomb.Some? ==> firstTomb.value < |s| && s[firstTomb.value].Tomb?
                            && Off(home, firstTomb.value, |s|) < Off(home, h, |s|))
    && NoTombBefore(s, home, if firstTomb.Some? then firstTomb.value else h)
  }

  lemma ProbedNext(s: seq<Slot>, home: nat, h: nat, key: Addr, firstTomb: Option<nat>, e: nat)
    requires home < |s| && h < |s| && e < |s| && s[e].Empty?
    requires Probed(s, home, h, key, firstTomb) && !s[h].Empty? && !HasKey(s[h], key)
    ensures Probed(s, home, Next(h, |s|), key, if s[h].Tomb? && firstTomb.None? then Some(h) else firstTomb)
    ensures Off(Next(h, |s|), e, |s|) < Off(h, e, |s|)
  {
    hide HasKey;
    var n := Next(h, |s|);
    assert Off(home, e, |s|) > Off(home, h, |s|);
    assert n != home;
    assert forall j :: 0 <= j < |s| && Off(home, j, |s|) < Off(home, n, |s|) ==>
                         j == h || Off(home, j, |s|) < Off(home, h, |s|);
  }

  lemma PassableBefore(s: seq<Slot>, home: nat, g: nat, h: nat)
    requires home < |s| && g < |s| && h < |s| && Passable(s, home, h) && Off(home, g, |s|) < Off(home, h, |s|)
    ensures Passable(s, home, g)
  {}

  lemma ProbeStarts(s: seq<Slot>, home: nat, key: Addr)
    requires home < |s|
    ensures Probed(s, home, home, key, None)
  {}

  // ---- the table -----------------------------------------------------------

  /** The inner loop of table_grow: the next slot that is not used takes the entry. */
  method Rehash(a: array<Slot>, x: Slot, hash: Addr -> nat)
    requires a.Length > 0 && x.Used? && WellFormed(a[..], hash) && !Holds(a[..], x.key)
    requires CountTombs(a[..]) == 0 && CountUsed(a[..]) < a.Length
    modifies a
    ensures WellFormed(a[..], hash) && Contents(a[..]) == old(Contents(a[..]))[x.key := x.info]
    ensures CountTombs(a[..]) == 0 && CountUsed(a[..]) == old(CountUsed(a[..])) + 1
  {
    ghost var s := a[..];
    var cap := a.Length;
    ghost var home: nat := Home(hash(x.key), cap);
    var h: nat := Home(hash(x.key), cap);
    EmptySlotExists(s);
    ghost var e: nat :| 0 <= e < |s| && s[e].Empty?;
    while a[h].Used?
      invariant h < cap
      invariant Passable(s, home, h)
      decreases Off(h, e, cap)
    {
      h := Next(h, cap);
    }
    PlaceIsInsert(s, hash, h, x.key, x.info);
    CountsAfterUpdate(s, h, x);
    NoTombs(s, h);
    a[h] := x;
    assert a[..] == s[h := x];
  }

  class Table {
    const hash: Addr -> nat
    var slots: array<Slot>
    var cap: nat
    var count: nat
    var tombs: nat

    ghost predicate Valid()
      reads this, slots
    {
      && cap == slots.Length && cap >= 64 && PowerOfTwo(cap)
      && WellFormed(slots[..], hash)
      && count == CountUsed(slots[..]) && tombs == CountTombs(slots[..])
      && (count + tombs) * 4 <= cap * 3
    }

    ghost function Live(): map<Addr, Info>
      requires Valid()
      reads this, slots
    {
      Contents(slots[..])
    }

    lemma CountIsLiveSize()
      requires Valid()
      ensures count == |Live()|
    {
      CountIsMapSize(slots[..]);
    }

    constructor (hash: Addr -> nat)
      ensures Valid() && fresh(slots) && this.hash == hash
      ensures Live() == map[] && cap == 64
    {
      this.hash := hash;
      cap, count, tombs := 64, 0, 0;
      slots := new Slot[64](_ => Empty);
      new;
      assert PowerOfTwo(64) by { assert PowerOfTwo(8); }
      AllEmpty(slots[..]);
      assert Contents(slots[..]).Keys == {};
    }

    /** table_grow: twice the slots, the same map, no tombstones. */
    method Grow()
      requires Valid()
      modifies this`slots, this`cap, this`count, this`tombs
      ensures Valid() && fresh(slots)
      ensures Live() == old(Live()) && cap == 2 * old(cap) && tombs == 0 && count == old(count)
      ensures (count + tombs) * 4 < cap * 3
    {
      var before, oldcap := slots, cap;
      ghost var s := slots[..];
      var newcap := 2 * cap;
      var grown := new Slot[newcap](_ => Empty);
      AllEmpty(grown[..]);
      assert Contents(grown[..]) == Contents(s[..0]);
      var n := 0;
      for i := 0 to oldcap
        invariant before[..] == s
        invariant UniqueKeys(s[..i]) && WellFormed(grown[..], hash)
        invariant n == CountUsed(s[..i]) == CountUsed(grown[..]) && CountTombs(grown[..]) == 0
        invariant n <= i
        invariant Contents(grown[..]) == Contents(s[..i])
      {
        PrefixStep(s, i);
        if before[i].Used? {
          Rehash(grown, before[i], hash);
          n := n + 1;
        }
      }
      assert s[..oldcap] == s;
      slots, cap, count, tombs := grown, newcap, n, 0;
      assert newcap / 2 == oldcap;
    }

    /** The probe loop of table_put: stops at `key` itself or, remembering the first
        tombstone passed, at the empty slot that proves the key absent. */
    method Probe(key: Addr) returns (h: nat, hit: bool, firstTomb: Option<nat>)
      requires Valid()
      ensures h < cap
      ensures hit ==> slots[h].Used? && slots[h].key == key
      ensures !hit ==> slots[h].Empty? && key !in Live() && Passable(slots[..], Home(hash(key), cap), h)
      ensures firstTomb.Some? ==> firstTomb.value < cap && slots[firstTomb.value].Tomb?
      ensures !hit && firstTomb.Some? ==> Passable(slots[..], Home(hash(key), cap), firstTomb.value)
      ensures firstTomb.Some? ==> Off(Home(hash(key), cap), firstTomb.value, cap) < Off(Home(hash(key), cap), h, cap)
      ensures NoTombBefore(slots[..], Home(hash(key), cap), if firstTomb.Some? then firstTomb.value else h)
    {
      hide Home, UniqueKeys, Chained, Contents, CountUsed, CountTombs, PowerOfTwo, Off, Passable, NoTombBefore;
      ghost var s := slots[..];
      ghost var home: nat := Home(hash(key), cap);
      h, firstTomb := Home(hash(key), cap), None;
      ProbeStarts(s, home, key);
      EmptySlotExists(s);
      ghost var e: nat :| 0 <= e < |s| && s[e].Empty?;
      while true
        invariant h < cap && Probed(s, home, h, key, firstTomb)
        decreases Off(h, e, cap)
      {
        ghost var seen := firstTomb;
        if slots[h].Empty? {
          ProbedToEmpty(s, hash, key, h);
          if firstTomb.Some? {
            PassableBefore(s, home, firstTomb.value, h);
          }
          return h, false, firstTomb;
        }
        if slots[h].Tomb? && firstTomb.None? {
          firstTomb := Some(h);
        }
        if slots[h].Used? && slots[h].key == key {
          return h, true, firstTomb;
        }
        ProbedNext(s, home, h, key, seen, e);
        h := Next(h, cap);
      }
    }

    /** table_put after the load test. */
    method PutWithRoom(key: Addr, info: Info)
      requires Valid() && (count + tombs) * 4 < cap * 3
      modifies this`count, this`tombs, slots
      ensures Valid()
      ensures Live() == old(Live())[key := info]
    {
      hide Home, Off, UniqueKeys, Chained, Passable, Contents, CountUsed, CountTombs, PowerOfTwo;
      DivisibleByFour(cap);
      ghost var s := slots[..];
      var h, hit, firstTomb := Probe(key);
      if hit {   // re-map of the same address
        OverwriteIsUpdate(s, hash, h, info);
        CountsAfterUpdate(s, h, Used(key, info));
        slots[h] := Used(key, info);
      } else {
        if firstTomb.Some? {
          h := firstTomb.value;
        }
        PlaceIsInsert(s, hash, h, key, info);
        CountsAfterUpdate(s, h, Used(key, info));
        if firstTomb.Some? {
          tombs := tombs - 1;
        }
        slots[h] := Used(key, info);
        count := count + 1;
      }
      assert slots[..] == s[h := Used(key, info)];
    }

    method Put(key: Addr, name: Option<string>, size: nat, tMap: int)
      requires Valid()
      modifies this`slots, this`cap, this`count, this`tombs, slots
      ensures Valid() && (slots == old(slots) || fresh(slots))
      ensures Live() == old(Live())[key := Info(name, size, tMap)]
    {
      if (count + tombs) * 4 >= cap * 3 {
        Grow();
      }
      PutWithRoom(key, Info(name, size, tMap));
    }

    /** The entry pointer of table_find is the index of its slot. */
    method Find(key: Addr) returns (r: Option<nat>)
      requires Valid()
      ensures r.None? <==> key !in Live()
      ensures r.Some? ==> r.value < cap == slots.Length && key in Live() && slots[r.value] == Used(key, Live()[key])
    {
      hide Home, UniqueKeys, Chained, Contents, CountUsed, CountTombs, PowerOfTwo;
      ghost var s := slots[..];
      ghost var home: nat := Home(hash(key), cap);
      var h: nat := Home(hash(key), cap);
      EmptySlotExists(s);
      ghost var e: nat :| 0 <= e < |s| && s[e].Empty?;
      while true
        invariant h < cap
        invariant Passable(s, home, h)
        invariant forall j :: 0 <= j < cap && Off(home, j, cap) < Off(home, h, cap) ==> !HasKey(s[j], key)
        decreases Off(h, e, cap)
      {
        if slots[h].Empty? {
          ProbedToEmpty(s, hash, key, h);
          return None;
        }
        if slots[h].Used? && slots[h].key == key {
          assert s[h] == slots[h] && Holds(s, key);
          return Some(h);
        }
        h := Next(h, cap);
      }
    }

    method Erase(i: nat)
      requires Valid() && i < cap && slots[i].Used?
      modifies this`count, this`tombs, slots
      ensures Valid()
      ensures Live() == old(Live()) - {old(slots[i].key)}
    {
      ghost var s := slots[..];
      TombIsRemoval(s, hash, i);
      CountsAfterUpdate(s, i, Tomb);
      UsedAtLeastOne(s, i);
      slots[i] := Tomb;
      assert slots[..] == s[i := Tomb];
      count, tombs := count - 1, tombs + 1;
    }
  }
}

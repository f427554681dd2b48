/** The live-allocation table of the mem_trace preload library
    (tools/mem_trace.c, lines 87-101 and 177-221): 64 shards of fixed capacity,
    bounded linear probing, tombstones, and no growth - a put may be dropped. Says
    exactly which puts are, and bounds the loss over every run, for any hash. */
module TraceTable {
  import opened Arithmetic
  import opened Probing

  type Addr = nat

  const NSHARD: nat := 64
  const SHARD_CAP: nat := 16384

  datatype Rec = Rec(size: nat, weight: nat, stackid: int, flags: nat, kind: char)

  /** An entry with addr 0 is Null, one with addr 1 is Dead. */
  datatype Slot = Null | Dead | Held(addr: Addr, rec: Rec)

  function ShardOf(h: nat): (r: nat)
    ensures r < NSHARD
  {
    h % NSHARD
  }

  function HomeOf(h: nat): (r: nat)
    ensures r < SHARD_CAP
  {
    Home(h / NSHARD, SHARD_CAP)
  }

  /** The low 20 bits of a hash value choose its shard and its home slot there, and each
      pair of them is chosen by exactly one value of these bits: all shards and all slots
      are in use. */
  lemma EachSlotHasOneHash(shard: nat, home: nat) returns (h: nat)
    requires shard < NSHARD && home < SHARD_CAP
    ensures h < 0x10_0000 && ShardOf(h) == shard && HomeOf(h) == home
    ensures forall k: nat :: ShardOf(k) == shard && HomeOf(k) == home <==> k % 0x10_0000 == h
  {
    h := home * NSHARD + shard;
  }

  // ---- one shard's slots as a value ----------------------------------------

  ghost predicate Unique(s: seq<Slot>)
  {
    forall i, j :: 0 <= i < j < |s| && s[i].Held? && s[j].Held? ==> s[i].addr != s[j].addr
  }

  ghost predicate Passable(s: seq<Slot>, home: nat, h: nat)
    requires |s| == SHARD_CAP && home < SHARD_CAP && h < SHARD_CAP
  {
    forall j :: 0 <= j < SHARD_CAP && Off(home, j, SHARD_CAP) < Off(home, h, SHARD_CAP) ==> !s[j].Null?
  }

  ghost predicate WellFormed(s: seq<Slot>, hash: Addr -> nat)
  {
    && |s| == SHARD_CAP && Unique(s)
    && (forall i :: 0 <= i < SHARD_CAP && s[i].Held? ==> s[i].addr > 1)
    && (forall i :: 0 <= i < SHARD_CAP && s[i].Held? ==> Passable(s, HomeOf(hash(s[i].addr)), i))
  }

  predicate HasAddr(x: Slot, a: Addr)
  {
    x.Held? && x.addr == a
  }

  ghost predicate Tracks(s: seq<Slot>, a: Addr)
  {
    exists i :: 0 <= i < |s| && HasAddr(s[i], a)
  }

  ghost function Contents(s: seq<Slot>): (m: map<Addr, Rec>)
    requires Unique(s)
    ensures forall i :: 0 <= i < |s| && s[i].Held? ==> s[i].addr in m && m[s[i].addr] == s[i].rec
    ensures forall a :: a in m <==> Tracks(s, a)
  {
    var addrs := set i | 0 <= i < |s| && s[i].Held? :: s[i].addr;
    map a | a in addrs :: (var i :| 0 <= i < |s| && HasAddr(s[i], a); s[i].rec)
  }

  /** How many slots were never used. */
  ghost function Nulls(s: seq<Slot>): (n: nat)
    ensures n <= |s|
  {
    if s == [] then 0 else Nulls(s[..|s| - 1]) + if s[|s| - 1].Null? then 1 else 0
  }

  lemma {:induction false} NullsAfterUpdate(s: seq<Slot>, i: nat, x: Slot)
    requires i < |s|
    ensures Nulls(s[i := x]) - (if x.Null? then 1 else 0) == Nulls(s) - (if s[i].Null? then 1 else 0)
  {
    var n := |s| - 1;
    if i == n {
      assert s[i := x][..n] == s[..n];
    } else {
      NullsAfterUpdate(s[..n], i, x);
      assert s[i := x][..n] == s[..n][i := x];
    }
  }

  lemma {:induction false} NullsZero(s: seq<Slot>)
    ensures Nulls(s) == 0 <==> forall i :: 0 <= i < |s| ==> !s[i].Null?
  {
    if s != [] {
      NullsZero(s[..|s| - 1]);
      assert forall i :: 0 <= i < |s| - 1 ==> s[..|s| - 1][i] == s[i];
    }
  }

  lemma {:induction false} NullsAll(s: seq<Slot>)
    requires forall i :: 0 <= i < |s| ==> s[i].Null?
    ensures Nulls(s) == |s|
  {
    if s != [] {
      NullsAll(s[..|s| - 1]);
    }
  }

  /** Every tracked address has a slot of its own, beside those that are NULL. */
  lemma {:induction false} TrackedFit(s: seq<Slot>)
    requires Unique(s)
    ensures |Contents(s)| + Nulls(s) <= |s|
  {
    hide Contents;
    if s == [] {
      assert Contents(s).Keys == {};
    } else {
      var n := |s| - 1;
      var p, keys := s[..n], Contents(s).Keys;
      TrackedFit(p);
      forall a | a in keys ensures a in Contents(p).Keys || HasAddr(s[n], a) {
        var i :| 0 <= i < |s| && HasAddr(s[i], a);
        if i < n { assert HasAddr(p[i], a); }
      }
      if s[n].Held? {
        SubsetSize(keys, Contents(p).Keys + {s[n].addr});
      } else {
        SubsetSize(keys, Contents(p).Keys);
      }
    }
  }

  lemma SameElsewhere(s: seq<Slot>, s': seq<Slot>, h: nat, a: Addr)
    requires |s| == |s'| && h < |s| && s' == s[h := s'[h]] && Unique(s) && Unique(s')
    requires s[h].Held? ==> s[h].addr == a
    requires s'[h].Held? ==> s'[h].addr == a
    ensures forall b :: b != a ==> (b in Contents(s) <==> b in Contents(s'))
    ensures forall b :: b != a && b in Contents(s) ==> Contents(s)[b] == Contents(s')[b]
  {
    hide Contents;
    forall b | b != a && Tracks(s, b) ensures Tracks(s', b) && Contents(s)[b] == Contents(s')[b] {
      var i :| 0 <= i < |s| && HasAddr(s[i], b);
      assert HasAddr(s'[i], b);
    }
    forall b | b != a && Tracks(s', b) ensures Tracks(s, b) {
      var i :| 0 <= i < |s'| && HasAddr(s'[i], b);
      assert HasAddr(s[i], b);
    }
  }

  lemma PlaceIsInsert(s: seq<Slot>, hash: Addr -> nat, h: nat, a: Addr, rec: Rec)
    requires WellFormed(s, hash) && h < SHARD_CAP && !s[h].Held? && !Tracks(s, a) && a > 1
    requires Passable(s, HomeOf(hash(a)), h)
    ensures WellFormed(s[h := Held(a, rec)], hash)
    ensures Contents(s[h := Held(a, rec)]) == Contents(s)[a := rec]
  {
    hide Contents, HomeOf, Off;
    var s' := s[h := Held(a, rec)];
    assert forall i :: 0 <= i < SHARD_CAP && s[i].Held? ==> !HasAddr(s[i], a);
    assert Unique(s');
    SameElsewhere(s, s', h, a);
    assert HasAddr(s'[h], a);
  }

  lemma OverwriteIsUpdate(s: seq<Slot>, hash: Addr -> nat, h: nat, rec: Rec)
    requires WellFormed(s, hash) && h < SHARD_CAP && s[h].Held?
    ensures WellFormed(s[h := Held(s[h].addr, rec)], hash)
    ensures Contents(s[h := Held(s[h].addr, rec)]) == Contents(s)[s[h].addr := rec]
  {
    hide Contents, HomeOf, Off;
    var s' := s[h := Held(s[h].addr, rec)];
    assert Unique(s');
    SameElsewhere(s, s', h, s[h].addr);
    assert HasAddr(s'[h], s[h].addr);
  }

  lemma DeadIsRemoval(s: seq<Slot>, hash: Addr -> nat, h: nat)
    requires WellFormed(s, hash) && h < SHARD_CAP && s[h].Held?
    ensures WellFormed(s[h := Dead], hash)
    ensures Contents(s[h := Dead]) == Contents(s) - {s[h].addr}
  {
    hide Contents, HomeOf, Off;
    var s' := s[h := Dead];
    assert Unique(s');
    SameElsewhere(s, s', h, s[h].addr);
    assert !Tracks(s', s[h].addr);
  }

  /** The probe stopped at a NULL slot without meeting the address. */
  lemma ProbedToNull(s: seq<Slot>, hash: Addr -> nat, a: Addr, h: nat)
    requires WellFormed(s, hash) && h < SHARD_CAP && s[h].Null?
    requires forall j :: 0 <= j < SHARD_CAP && Off(HomeOf(hash(a)), j, SHARD_CAP) < Off(HomeOf(hash(a)), h, SHARD_CAP)
               ==> !HasAddr(s[j], a)
    ensures !Tracks(s, a)
  {
    hide HomeOf;
  }

  // ---- one shard -----------------------------------------------------------

  /** What matters of a shard: what it tracks and how many slots are still NULL. */
  datatype View = View(tracked: map<Addr, Rec>, nulls: nat)

  const FRESH := View(map[], SHARD_CAP)

  predicate Fits(v: View)
  {
    |v.tracked| + v.nulls <= SHARD_CAP
  }

  /** A put updates the map if the address is tracked or a NULL slot is left, and is
      dropped otherwise, however many tombstones there are. It uses up at most one
      NULL slot, and none for a tracked address. */
  ghost predicate PutEffect(v: View, a: Addr, rec: Rec, v': View)
  {
    && v'.tracked == (if a in v.tracked || v.nulls > 0 then v.tracked[a := rec] else v.tracked)
    && v'.nulls <= v.nulls <= v'.nulls + 1
    && (a in v.tracked ==> v'.nulls == v.nulls)
  }

  class Shard {
    const hash: Addr -> nat
    var tab: array?<Slot>    // allocated by the first put

    ghost function Slots(): (s: seq<Slot>)
      reads this, tab
    {
      if tab == null then seq(SHARD_CAP, _ => Null) else tab[..]
    }

    ghost predicate Valid()
      reads this, tab
    {
      WellFormed(Slots(), hash)
    }

    ghost function Look(): View
      requires Valid()
      reads this, tab
    {
      View(Contents(Slots()), Nulls(Slots()))
    }

    lemma LookFits()
      requires Valid()
      ensures Fits(Look())
    {
      TrackedFit(Slots());
    }

    constructor (hash: Addr -> nat)
      ensures Valid() && tab == null && this.hash == hash
      ensures Look() == FRESH
    {
      this.hash, tab := hash, null;
      new;
      NullsAll(Slots());
      assert Contents(Slots()).Keys == {};
    }

    /** table_put once the shard has its slots. */
    method PutProbe(addr: Addr, rec: Rec)
      requires Valid() && addr > 1 && tab != null
      modifies tab
      ensures Valid()
      ensures PutEffect(old(Look()), addr, rec, Look())
    {
      hide Contents, HomeOf, Unique, Nulls;
      ghost var t := tab[..];
      ghost var home: nat := HomeOf(hash(addr));
      var s: nat := HomeOf(hash(addr));
      var firstTomb: nat := SHARD_CAP;
      for i := 0 to SHARD_CAP
        invariant s < SHARD_CAP && tab[..] == t
        invariant i < SHARD_CAP ==> Off(home, s, SHARD_CAP) == i
        invariant forall j :: 0 <= j < SHARD_CAP && Off(home, j, SHARD_CAP) < i ==> !t[j].Null? && !HasAddr(t[j], addr)
        invariant firstTomb < SHARD_CAP ==> t[firstTomb].Dead? && Off(home, firstTomb, SHARD_CAP) < i
        invariant firstTomb <= SHARD_CAP
      {
        if tab[s].Null? {
          ProbedToNull(t, hash, addr, s);
          NullsZero(t);
          var slot := if firstTomb < SHARD_CAP then firstTomb else s;
          PlaceIsInsert(t, hash, slot, addr, rec);
          NullsAfterUpdate(t, slot, Held(addr, rec));
          tab[slot] := Held(addr, rec);
          assert tab[..] == t[slot := Held(addr, rec)];
          return;
        }
        if tab[s].Dead? {
          if firstTomb == SHARD_CAP { firstTomb := s; }
        } else if tab[s].addr == addr {
          OverwriteIsUpdate(t, hash, s, rec);
          NullsAfterUpdate(t, s, Held(addr, rec));
          assert HasAddr(t[s], addr);
          tab[s] := Held(addr, rec);
          assert tab[..] == t[s := Held(addr, rec)];
          return;
        }
        s := Next(s, SHARD_CAP);
      }
      NullsZero(t);
      assert !Tracks(t, addr) by {
        assert forall j :: 0 <= j < SHARD_CAP ==> Off(home, j, SHARD_CAP) < SHARD_CAP;
      }
    }

    method Put(addr: Addr, rec: Rec)
      requires Valid() && addr > 1
      modifies this, tab
      ensures Valid() && (fresh(tab) || tab == old(tab))
      ensures PutEffect(old(Look()), addr, rec, Look()) && Fits(Look())
    {
      if tab == null {
        tab := new Slot[SHARD_CAP](_ => Null);
        assert tab[..] == old(Slots());
      }
      PutProbe(addr, rec);
      LookFits();
    }

    /** table_del, its probe loop. */
    method DelProbe(addr: Addr) returns (found: bool)
      requires Valid()
      modifies tab
      ensures Valid()
      ensures Look() == View(old(Look()).tracked - {addr}, old(Look()).nulls)
      ensures addr != 1 ==> (found <==> addr in old(Look()).tracked)
    {
      hide Contents, HomeOf, Unique, Nulls;
      found := false;
      if tab != null {
        ghost var t := tab[..];
        ghost var home: nat := HomeOf(hash(addr));
        var s: nat := HomeOf(hash(addr));
        for i := 0 to SHARD_CAP
          invariant s < SHARD_CAP && tab[..] == t && !found
          invariant i < SHARD_CAP ==> Off(home, s, SHARD_CAP) == i
          invariant forall j :: 0 <= j < SHARD_CAP && Off(home, j, SHARD_CAP) < i ==>
                                  !t[j].Null? && !HasAddr(t[j], addr)
        {
          if tab[s].Null? {
            ProbedToNull(t, hash, addr, s);
            return;
          }
          var key := if tab[s].Dead? then 1 else tab[s].addr;
          if key == addr {
            if tab[s].Held? {
              DeadIsRemoval(t, hash, s);
              NullsAfterUpdate(t, s, Dead);
              assert HasAddr(t[s], addr);
            } else {
              assert !Tracks(t, 1);
            }
            tab[s] := Dead;
            assert tab[..] == t[s := Dead];
            return true;
          }
          s := Next(s, SHARD_CAP);
        }
        assert !Tracks(t, addr) by {
          assert forall j :: 0 <= j < SHARD_CAP ==> Off(home, j, SHARD_CAP) < SHARD_CAP;
        }
      } else {
        assert !Tracks(Slots(), addr);
      }
    }

    /** Addresses 0 and 1 are the markers; neither is ever tracked, and deleting
        either leaves the table as it is. */
    method Del(addr: Addr) returns (found: bool)
      requires Valid()
      modifies tab
      ensures Valid() && Fits(Look())
      ensures Look() == View(old(Look()).tracked - {addr}, old(Look()).nulls)
      ensures addr != 1 ==> (found <==> addr in old(Look()).tracked)
    {
      hide WellFormed, Contents, Nulls;
      found := DelProbe(addr);
      LookFits();
    }
  }

  // ---- all shards ----------------------------------------------------------

  class Allocations {
    const hash: Addr -> nat
    const shards: seq<Shard>

    ghost predicate Valid()
      reads shards, set i | 0 <= i < |shards| && shards[i].tab != null :: shards[i].tab
    {
      && |shards| == NSHARD
      && (forall i :: 0 <= i < NSHARD ==> shards[i].hash == hash && shards[i].Valid())
      && (forall i, j :: 0 <= i < j < NSHARD ==> shards[i] != shards[j])
      && (forall i, j :: 0 <= i < j < NSHARD && shards[i].tab != null ==> shards[i].tab != shards[j].tab)
    }

    constructor (hash: Addr -> nat)
      ensures Valid() && fresh(shards) && this.hash == hash
      ensures forall i :: 0 <= i < NSHARD ==> shards[i].Look() == FRESH
    {
      hide WellFormed, Contents, Nulls;
      var s: seq<Shard> := [];
      for n := 0 to NSHARD
        invariant |s| == n && fresh(s)
        invariant forall i :: 0 <= i < n ==>
                                s[i].hash == hash && s[i].tab == null && s[i].Valid() && s[i].Look() == FRESH
        invariant forall i, j :: 0 <= i < j < n ==> s[i] != s[j]
      {
        var shard := new Shard(hash);
        s := s + [shard];
      }
      this.hash, shards := hash, s;
    }

    method Put(addr: Addr, rec: Rec)
      requires Valid() && addr > 1
      modifies shards[ShardOf(hash(addr))], shards[ShardOf(hash(addr))].tab
      ensures Valid() && Fits(shards[ShardOf(hash(addr))].Look())
      ensures PutEffect(old(shards[ShardOf(hash(addr))].Look()), addr, rec, shards[ShardOf(hash(addr))].Look())
      ensures forall i :: 0 <= i < NSHARD && i != ShardOf(hash(addr)) ==> shards[i].Look() == old(shards[i].Look())
    {
      hide WellFormed, Contents, Nulls, PutEffect, ShardOf, Fits;
      shards[ShardOf(hash(addr))].Put(addr, rec);
    }

    method Del(addr: Addr) returns (found: bool)
      requires Valid()
      modifies shards[ShardOf(hash(addr))].tab
      ensures Valid() && Fits(shards[ShardOf(hash(addr))].Look())
      ensures var v := old(shards[ShardOf(hash(addr))].Look());
        && shards[ShardOf(hash(addr))].Look() == View(v.tracked - {addr}, v.nulls)
        && (addr != 1 ==> (found <==> addr in v.tracked))
      ensures forall i :: 0 <= i < NSHARD && i != ShardOf(hash(addr)) ==> shards[i].Look() == old(shards[i].Look())
    {
      hide WellFormed, Contents, Nulls, ShardOf, Fits;
      found := shards[ShardOf(hash(addr))].Del(addr);
    }
  }

  // ---- over every run ------------------------------------------------------

  datatype Op = PutOp(addr: Addr, rec: Rec) | DelOp(addr: Addr)

  /** What Put and Del of Allocations do to the views of the shards. */
  ghost predicate OpEffect(hash: Addr -> nat, t: seq<View>, op: Op, t': seq<View>)
  {
    && |t| == |t'| == NSHARD
    && (forall i :: 0 <= i < NSHARD && i != ShardOf(hash(op.addr)) ==> t'[i] == t[i])
    && Fits(t'[ShardOf(hash(op.addr))])
    && var v, v' := t[ShardOf(hash(op.addr))], t'[ShardOf(hash(op.addr))];
       match op
       case PutOp(a, rec) => PutEffect(v, a, rec, v')
       case DelOp(a) => v' == View(v.tracked - {a}, v.nulls)
  }

  /** The views after 0, 1, ... operations, from an empty table. */
  ghost predicate IsRun(hash: Addr -> nat, ops: seq<Op>, views: seq<seq<View>>)
  {
    && |views| == |ops| + 1
    && views[0] == seq(NSHARD, _ => FRESH)
    && (forall k :: 0 <= k < |ops| ==> OpEffect(hash, views[k], ops[k], views[k + 1]))
  }

  /** A table that never drops anything. */
  ghost function Ideal(ops: seq<Op>): map<Addr, Rec>
  {
    if ops == [] then map[]
    else
      var m := Ideal(ops[..|ops| - 1]);
      match ops[|ops| - 1]
      case PutOp(a, rec) => m[a := rec]
      case DelOp(a) => m - {a}
  }

  ghost function PutsInto(hash: Addr -> nat, ops: seq<Op>, shard: nat): nat
  {
    if ops == [] then 0
    else
      var op := ops[|ops| - 1];
      PutsInto(hash, ops[..|ops| - 1], shard) + if op.PutOp? && ShardOf(hash(op.addr)) == shard then 1 else 0
  }

  ghost predicate SubMap(hash: Addr -> nat, t: seq<View>, ideal: map<Addr, Rec>)
    requires |t| == NSHARD
  {
    forall i, a :: 0 <= i < NSHARD && a in t[i].tracked ==>
      i == ShardOf(hash(a)) && a in ideal && t[i].tracked[a] == ideal[a]
  }

  lemma SubMapStep(hash: Addr -> nat, t: seq<View>, op: Op, t': seq<View>, ideal: map<Addr, Rec>)
    requires OpEffect(hash, t, op, t') && SubMap(hash, t, ideal)
    ensures SubMap(hash, t', match op case PutOp(a, rec) => ideal[a := rec] case DelOp(a) => ideal - {a})
  {
    hide Fits;
  }

  lemma EffectSize(hash: Addr -> nat, t: seq<View>, op: Op, t': seq<View>)
    requires OpEffect(hash, t, op, t')
    ensures |t'| == NSHARD
  {}

  lemma EmptySubMap(hash: Addr -> nat)
    ensures SubMap(hash, seq(NSHARD, _ => FRESH), map[])
  {}

  /** Whatever the hash and the sequence of operations: every entry of the table is
      in the shard of its address and is the entry the ideal table has. */
  lemma {:induction false} AlwaysASubMap(hash: Addr -> nat, ops: seq<Op>, views: seq<seq<View>>)
    requires IsRun(hash, ops, views)
    ensures |views[|ops|]| == NSHARD && SubMap(hash, views[|ops|], Ideal(ops))
  {
    hide OpEffect, SubMap;
    if ops == [] {
      EmptySubMap(hash);
    } else {
      var n := |ops| - 1;
      assert IsRun(hash, ops[..n], views[..n + 1]);
      AlwaysASubMap(hash, ops[..n], views[..n + 1]);
      assert OpEffect(hash, views[n], ops[n], views[n + 1]);
      EffectSize(hash, views[n], ops[n], views[n + 1]);
      SubMapStep(hash, views[n], ops[n], views[n + 1], Ideal(ops[..n]));
    }
  }

  /** A shard loses nothing in its first 16384 puts: until then it tracks every
      address of its own that the ideal table tracks. */
  lemma {:induction false} NothingLostEarly(hash: Addr -> nat, ops: seq<Op>, views: seq<seq<View>>, shard: nat)
    requires IsRun(hash, ops, views) && shard < NSHARD
    ensures |views[|ops|]| == NSHARD
    ensures views[|ops|][shard].nulls + PutsInto(hash, ops, shard) >= SHARD_CAP
    ensures PutsInto(hash, ops, shard) <= SHARD_CAP ==>
              forall a :: a in Ideal(ops) && ShardOf(hash(a)) == shard ==> a in views[|ops|][shard].tracked
  {
    if ops != [] {
      var n := |ops| - 1;
      assert IsRun(hash, ops[..n], views[..n + 1]);
      NothingLostEarly(hash, ops[..n], views[..n + 1], shard);
      assert OpEffect(hash, views[n], ops[n], views[n + 1]);
    }
  }

  /** The put of a new address into a shard that took n of them. */
  lemma OnePut(v: View, v': View, a: Addr, rec: Rec, n: nat)
    requires PutEffect(v, a, rec, v') && Fits(v) && Fits(v') && a !in v.tracked
    requires |v.tracked| == (if n <= SHARD_CAP then n else SHARD_CAP) && v.nulls + n >= SHARD_CAP
    ensures v'.nulls + n + 1 >= SHARD_CAP
    ensures n < SHARD_CAP ==> v'.tracked == v.tracked[a := rec] && |v'.tracked| == n + 1
    ensures n >= SHARD_CAP ==> v'.tracked == v.tracked
  {
    assert v.tracked[a := rec].Keys == v.tracked.Keys + {a};
  }

  /** What a shard tracks that took the puts of ops and nothing else: the first 16384. */
  ghost predicate FirstTracked(ops: seq<Op>, v: View)
  {
    && |v.tracked| == (if |ops| <= SHARD_CAP then |ops| else SHARD_CAP)
    && Fits(v) && v.nulls + |ops| >= SHARD_CAP
    && (forall i :: 0 <= i < |ops| ==> (ops[i].addr in v.tracked <==> i < SHARD_CAP))
    && (forall a :: a in v.tracked ==> exists i :: 0 <= i < |ops| && ops[i].addr == a)
  }

  lemma FirstTrackedStep(ops: seq<Op>, v: View, v': View)
    requires ops != [] && ops[|ops| - 1].PutOp? && FirstTracked(ops[..|ops| - 1], v)
    requires forall i, j :: 0 <= i < j < |ops| ==> ops[i].addr != ops[j].addr
    requires PutEffect(v, ops[|ops| - 1].addr, ops[|ops| - 1].rec, v') && Fits(v')
    ensures FirstTracked(ops, v')
  {
    var n := |ops| - 1;
    var a := ops[n].addr;
    assert forall i :: 0 <= i < n ==> ops[..n][i] == ops[i];
    assert a !in v.tracked;
    OnePut(v, v', a, ops[n].rec, n);
    hide PutEffect, Fits;
    forall b | b in v'.tracked ensures exists i :: 0 <= i < |ops| && ops[i].addr == b {
      if b != a {
        var i :| 0 <= i < n && ops[..n][i].addr == b;
        assert ops[i].addr == b;
      } else {
        assert ops[n].addr == b;
      }
    }
  }

  lemma NothingTracked()
    ensures FirstTracked([], FRESH)
  {}

  /** 16384 is the exact limit: in every run that only puts different addresses of one
      shard, the first 16384 are tracked and no other. */
  lemma {:induction false} LostBeyondTheLimit(hash: Addr -> nat, ops: seq<Op>, views: seq<seq<View>>, shard: nat)
    requires IsRun(hash, ops, views) && shard < NSHARD
    requires forall i :: 0 <= i < |ops| ==> ops[i].PutOp? && ShardOf(hash(ops[i].addr)) == shard
    requires forall i, j :: 0 <= i < j < |ops| ==> ops[i].addr != ops[j].addr
    ensures |views[|ops|]| == NSHARD && FirstTracked(ops, views[|ops|][shard])
  {
    hide FirstTracked, ShardOf, PutEffect, Fits;
    if ops == [] {
      NothingTracked();
    } else {
      var n := |ops| - 1;
      assert IsRun(hash, ops[..n], views[..n + 1]);
      LostBeyondTheLimit(hash, ops[..n], views[..n + 1], shard);
      assert OpEffect(hash, views[n], ops[n], views[n + 1]);
      FirstTrackedStep(ops, views[n][shard], views[n + 1][shard]);
    }
  }

  /** There is such a run for any hash and any such puts. */
  lemma {:induction false} RunOf(hash: Addr -> nat, ops: seq<Op>) returns (views: seq<seq<View>>)
    requires forall i :: 0 <= i < |ops| ==> ops[i].PutOp?
    ensures IsRun(hash, ops, views) && |views[|ops|]| == NSHARD && forall i :: 0 <= i < NSHARD ==> Fits(views[|ops|][i])
  {
    if ops == [] {
      views := [seq(NSHARD, _ => FRESH)];
    } else {
      var n := |ops| - 1;
      var before := RunOf(hash, ops[..n]);
      var t, op := before[n], ops[n];
      var s := ShardOf(hash(op.addr));
      var v := t[s];
      var v' := if op.addr in v.tracked then View(v.tracked[op.addr := op.rec], v.nulls)
                else if v.nulls > 0 then View(v.tracked[op.addr := op.rec], v.nulls - 1)
                else v;
      assert v.tracked[op.addr := op.rec].Keys == v.tracked.Keys + {op.addr};
      views := before + [t[s := v']];
      assert OpEffect(hash, t, op, t[s := v']);
      forall k | 0 <= k < |ops| ensures OpEffect(hash, views[k], ops[k], views[k + 1]) {
        if k < n {
          assert OpEffect(hash, before[k], ops[..n][k], before[k + 1]);
        }
      }
    }
  }

  /** Once a shard has no NULL slot left it never gets one back, and from then on
      the addresses it tracks only become fewer. */
  lemma {:induction false} SaturatedForever(hash: Addr -> nat, ops: seq<Op>, views: seq<seq<View>>, shard: nat, k: nat)
    requires IsRun(hash, ops, views) && shard < NSHARD && k <= |ops|
    requires |views[k]| == NSHARD && views[k][shard].nulls == 0
    ensures |views[|ops|]| == NSHARD && views[|ops|][shard].nulls == 0
    ensures views[|ops|][shard].tracked.Keys <= views[k][shard].tracked.Keys
  {
    if k < |ops| {
      var n := |ops| - 1;
      assert IsRun(hash, ops[..n], views[..n + 1]);
      SaturatedForever(hash, ops[..n], views[..n + 1], shard, k);
      assert OpEffect(hash, views[n], ops[n], views[n + 1]);
    }
  }
}

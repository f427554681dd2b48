/** The append-only call-stack intern table of mem_trace (tools/mem_trace.c, lines
    103-108 and 146-175), for any hash function: ids are stable, equal stacks get
    equal ids and different stacks different ids; and exactly when its unbounded
    probe loop ends. */
module StackIntern {
  import opened Probing

  const STK_CAP: nat := 65536

  type Frames = seq<nat>

  datatype Stk = Stk(h: nat, frames: Frames)

  // ---- the index as a value ------------------------------------------------

  ghost predicate Distinct(stacks: seq<Frames>)
  {
    forall i, j :: 0 <= i < j < |stacks| ==> stacks[i] != stacks[j]
  }

  ghost predicate Passable(idx: seq<int>, home: nat, h: nat)
    requires |idx| == STK_CAP && home < STK_CAP && h < STK_CAP
  {
    forall j :: 0 <= j < STK_CAP && Off(home, j, STK_CAP) < Off(home, h, STK_CAP) ==> idx[j] >= 0
  }

  ghost function Occupied(idx: seq<int>): (n: nat)
    ensures n <= |idx|
  {
    if idx == [] then 0 else Occupied(idx[..|idx| - 1]) + if idx[|idx| - 1] >= 0 then 1 else 0
  }

  ghost predicate Indexed(idx: seq<int>, id: nat)
  {
    exists s :: 0 <= s < |idx| && idx[s] == id
  }

  ghost predicate WellFormed(idx: seq<int>, stacks: seq<Frames>, hash: Frames -> nat)
  {
    && |idx| == STK_CAP && Occupied(idx) == |stacks| && Distinct(stacks)
    && (forall s :: 0 <= s < STK_CAP ==> idx[s] < |stacks|)
    && (forall s, t :: 0 <= s < t < STK_CAP && idx[s] >= 0 ==> idx[s] != idx[t])
    && (forall id :: 0 <= id < |stacks| ==> Indexed(idx, id))
    && (forall s :: 0 <= s < STK_CAP && idx[s] >= 0 ==> Passable(idx, Home(hash(stacks[idx[s]]), STK_CAP), s))
  }

  lemma {:induction false} OccupiedAfterUpdate(idx: seq<int>, i: nat, x: int)
    requires i < |idx|
    ensures Occupied(idx[i := x]) - (if x >= 0 then 1 else 0) == Occupied(idx) - (if idx[i] >= 0 then 1 else 0)
  {
    var n := |idx| - 1;
    if i == n {
      assert idx[i := x][..n] == idx[..n];
    } else {
      OccupiedAfterUpdate(idx[..n], i, x);
      assert idx[i := x][..n] == idx[..n][i := x];
    }
  }

  lemma {:induction false} OccupiedAll(idx: seq<int>)
    ensures Occupied(idx) == |idx| <==> forall i :: 0 <= i < |idx| ==> idx[i] >= 0
    ensures (forall i :: 0 <= i < |idx| ==> idx[i] < 0) ==> Occupied(idx) == 0
  {
    if idx != [] {
      OccupiedAll(idx[..|idx| - 1]);
      assert forall i :: 0 <= i < |idx| - 1 ==> idx[..|idx| - 1][i] == idx[i];
    }
  }

  /** The probe loop leaves at slot s: the slot is empty or holds this very stack. */
  ghost predicate Exits(idx: seq<int>, stacks: seq<Frames>, frames: Frames, s: nat)
    requires s < |idx| && (idx[s] >= 0 ==> idx[s] < |stacks|)
  {
    idx[s] < 0 || stacks[idx[s]] == frames
  }

  /** The probe loop, which visits every slot in turn, ends if and only if the table
      is not full or already holds the stack: a full table makes the loop run for
      ever on a new stack. The capacity test inside the loop cannot help, since it
      stands behind an empty slot. */
  lemma ProbeEndsIff(idx: seq<int>, stacks: seq<Frames>, hash: Frames -> nat, frames: Frames)
    requires WellFormed(idx, stacks, hash)
    ensures (exists s :: 0 <= s < STK_CAP && Exits(idx, stacks, frames, s))
            <==> |stacks| < STK_CAP || frames in stacks
    ensures forall s :: 0 <= s < STK_CAP && idx[s] < 0 ==> |stacks| < STK_CAP
  {
    OccupiedAll(idx);
    if frames in stacks {
      var id :| 0 <= id < |stacks| && stacks[id] == frames;
      assert Indexed(idx, id);
      var s :| 0 <= s < STK_CAP && idx[s] == id;
      assert Exits(idx, stacks, frames, s);
    } else if |stacks| < STK_CAP {
      var s :| 0 <= s < STK_CAP && idx[s] < 0;
      assert Exits(idx, stacks, frames, s);
    }
  }

  lemma ProbedToEmpty(idx: seq<int>, stacks: seq<Frames>, hash: Frames -> nat, frames: Frames, h: nat)
    requires WellFormed(idx, stacks, hash) && h < STK_CAP && idx[h] < 0
    requires var home := Home(hash(frames), STK_CAP);
      forall j :: 0 <= j < STK_CAP && Off(home, j, STK_CAP) < Off(home, h, STK_CAP)
                  ==> !Exits(idx, stacks, frames, j)
    ensures frames !in stacks
  {
    hide Home, Occupied;
    forall id | 0 <= id < |stacks| ensures stacks[id] != frames {
      assert Indexed(idx, id);
      var s :| 0 <= s < STK_CAP && idx[s] == id;
      assert Passable(idx, Home(hash(stacks[idx[s]]), STK_CAP), s);
    }
  }

  lemma AppendKeepsForm(idx: seq<int>, stacks: seq<Frames>, hash: Frames -> nat, frames: Frames, h: nat)
    requires WellFormed(idx, stacks, hash) && h < STK_CAP && idx[h] < 0 && frames !in stacks
    requires Passable(idx, Home(hash(frames), STK_CAP), h)
    ensures WellFormed(idx[h := |stacks|], stacks + [frames], hash)
  {
    OccupiedAfterUpdate(idx, h, |stacks|);
    hide Home, Occupied, Off;
    var idx', stacks' := idx[h := |stacks|], stacks + [frames];
    forall id: nat | 0 <= id < |stacks'| ensures Indexed(idx', id) {
      if id == |stacks| {
        assert idx'[h] == id;
      } else {
        assert Indexed(idx, id);
        var s :| 0 <= s < STK_CAP && idx[s] == id;
        assert idx'[s] == id;
      }
    }
    forall s | 0 <= s < STK_CAP && idx'[s] >= 0
      ensures Passable(idx', Home(hash(stacks'[idx'[s]]), STK_CAP), s)
    {
      if s != h {
        assert Passable(idx, Home(hash(stacks[idx[s]]), STK_CAP), s);
      }
    }
  }

  // ---- the table -----------------------------------------------------------

  class Interner {
    const hash: Frames -> nat
    const stks: array<Stk>
    const idx: array<int>
    var used: nat
    ghost var stacks: seq<Frames>   // the interned stacks, by id

    ghost predicate Valid()
      reads this, stks, idx
    {
      && stks.Length == STK_CAP && used == |stacks| <= STK_CAP
      && (forall id :: 0 <= id < used ==> stks[id] == Stk(hash(stacks[id]), stacks[id]))
      && WellFormed(idx[..], stacks, hash)
    }

    constructor (hash: Frames -> nat)
      ensures Valid() && stacks == [] && this.hash == hash && fresh(stks) && fresh(idx)
    {
      this.hash, used, stacks := hash, 0, [];
      stks := new Stk[STK_CAP](_ => Stk(0, []));
      idx := new int[STK_CAP](_ => -1);
      new;
      OccupiedAll(idx[..]);
    }

    /** A new stack gets the next id, a known one its id; nothing else changes. The
        caller's duty is what ProbeEndsIff shows to be needed for the loop to end. */
    method Intern(frames: Frames) returns (id: int)
      requires Valid() && (used < STK_CAP || frames in stacks)
      modifies this`used, this`stacks, stks, idx
      ensures Valid() && 0 <= id < |stacks| && stacks[id] == frames
      ensures stacks == if frames in old(stacks) then old(stacks) else old(stacks) + [frames]
    {
      hide Home, Occupied, Distinct;
      var h := hash(frames);
      ghost var x := idx[..];
      ghost var home: nat := Home(h, STK_CAP);
      var s: nat := Home(h, STK_CAP);
      ProbeEndsIff(x, stacks, hash, frames);
      ghost var e: nat :| 0 <= e < STK_CAP && Exits(x, stacks, frames, e);
      id := idx[s];
      while id >= 0 && !(stks[id].h == h && stks[id].frames == frames)
        invariant s < STK_CAP && id == x[s]
        invariant forall j :: 0 <= j < STK_CAP && Off(home, j, STK_CAP) < Off(home, s, STK_CAP)
                    ==> !Exits(x, stacks, frames, j)
        decreases Off(s, e, STK_CAP)
      {
        s := Next(s, STK_CAP);
        id := idx[s];
      }
      if id < 0 {
        ProbedToEmpty(x, stacks, hash, frames, s);
        AppendKeepsForm(x, stacks, hash, frames, s);
        assert used < STK_CAP;     // so the test of line 160 never sends -1 back
        id := used;
        used := used + 1;
        stks[id] := Stk(h, frames);
        idx[s] := id;
        stacks := stacks + [frames];
        assert idx[..] == x[s := id];
      }
    }
  }

  // ---- over every run ------------------------------------------------------

  /** The stacks interned after a sequence of calls; their ids are their positions. */
  ghost function After(calls: seq<Frames>): (stacks: seq<Frames>)
    ensures calls != [] ==> calls[|calls| - 1] in stacks
  {
    if calls == [] then []
    else
      var before, frames := After(calls[..|calls| - 1]), calls[|calls| - 1];
      if frames in before then before else before + [frames]
  }

  /** The id call k got: the position of its stack when it returned. */
  ghost function IdOf(calls: seq<Frames>, k: nat): (id: nat)
    requires k < |calls|
    ensures id < |After(calls[..k + 1])| && After(calls[..k + 1])[id] == calls[k]
  {
    var stacks := After(calls[..k + 1]);
    assert calls[..k + 1][k] in stacks;
    var id :| 0 <= id < |stacks| && stacks[id] == calls[k];
    id
  }

  lemma {:induction false} OnlyAppends(calls: seq<Frames>, k: nat)
    requires k <= |calls|
    ensures After(calls[..k]) <= After(calls)
    ensures Distinct(After(calls))
  {
    if calls == [] {
    } else {
      var p := calls[..|calls| - 1];
      if k == |calls| {
        assert calls[..k] == calls;
        OnlyAppends(p, |p|);
      } else {
        OnlyAppends(p, k);
        assert p[..k] == calls[..k];
      }
    }
  }

  lemma IdStays(calls: seq<Frames>, k: nat)
    requires k < |calls|
    ensures IdOf(calls, k) < |After(calls)| && After(calls)[IdOf(calls, k)] == calls[k]
    ensures Distinct(After(calls))
  {
    hide Distinct, After;
    OnlyAppends(calls, k + 1);
  }

  lemma DistinctPositions(stacks: seq<Frames>, i: nat, j: nat)
    requires Distinct(stacks) && i < |stacks| && j < |stacks|
    ensures stacks[i] == stacks[j] <==> i == j
  {
  }

  /** Over any sequence of calls, two calls get the same id if and only if they
      passed the same stack; and every id still leads to its stack at the end. */
  lemma IdsIdentifyStacks(calls: seq<Frames>, i: nat, j: nat)
    requires i < |calls| && j < |calls|
    ensures IdOf(calls, i) == IdOf(calls, j) <==> calls[i] == calls[j]
    ensures IdOf(calls, i) < |After(calls)| && After(calls)[IdOf(calls, i)] == calls[i]
  {
    IdStays(calls, i);
    IdStays(calls, j);
    hide After, Distinct, IdOf;
    DistinctPositions(After(calls), IdOf(calls, i), IdOf(calls, j));
  }
}

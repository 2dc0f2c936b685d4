/**
 The state mmu_init leaves behind, from which all runs start: kernel page `p` is
 backed by frame `p`, no process exists, and the counting invariant holds.
 */
module CowBoot {
  import opened Cow
  import opened CowInvariant
  import opened CowTables
  import opened CowSpaces
  import opened CowEager

  /** The pages of the code that user processes may run, from `ucode` up to `ucode_end`. */
  datatype Ucode = Ucode(from: nat, to: nat)

  /** Kernel page `p`, one of the `mapped` pages in use or one only prepared; user code cannot be written. */
  function BootSlot(p: nat, mapped: nat, u: Ucode): Slot
  {
    var user := u.from <= p < u.to;
    if p < mapped then Slot(p, true, false, false, !user, user, true, false, false, false)
    else Slot(0, false, false, false, !user, user, false, false, false, false)
  }

  function BootSlots(first: nat, mapped: nat, u: Ucode, n: nat): (slots: seq<Slot>)
    ensures |slots| == n && forall j :: 0 <= j < n ==> slots[j] == BootSlot(first + j, mapped, u)
  {
    seq(n, j requires 0 <= j => BootSlot(first + j, mapped, u))
  }

  function BootTable(t: nat, mapped: nat, u: Ucode): (table: Table)
    requires t >= 1
    ensures forall j :: 0 <= j < ENTRIES ==> table[j] == BootSlot((t - 1) * ENTRIES + j, mapped, u)
  {
    BootSlots((t - 1) * ENTRIES, mapped, u, ENTRIES)
  }

  predicate Positive(x: nat)
  {
    x > 0
  }

  predicate InRange(x: nat, lo: int, hi: int)
  {
    lo <= x < hi
  }

  function BootMachine(contents: seq<Page>, mapped: nat, u: Ucode, count: nat): Machine
  {
    Machine(
      contents,
      seq(|contents|, f => if f < mapped then 1 else 0),
      set f: nat | 0 <= f < mapped && InRange(f, 0, mapped),
      map t: nat | 1 <= t <= count :: BootTable(t, mapped, u),
      set t: nat | 1 <= t <= count && Positive(t))
  }

  /** `count` kernel tables, at addresses 1 to `count`. */
  function Boot(contents: seq<Page>, mapped: nat, u: Ucode, count: nat): System
  {
    System(BootMachine(contents, mapped, u, count),
      map[KERNEL := map i: nat | 0 <= i < count && InRange(i, 0, count) :: i + 1])
  }

  lemma BootHolders(contents: seq<Page>, mapped: nat, u: Ucode, count: nat, f: nat)
    requires 1 <= mapped <= |contents| && mapped <= count * ENTRIES && 1 <= f
    ensures Holders(BootMachine(contents, mapped, u, count), f) ==
            if f < mapped then {(f / ENTRIES + 1, f % ENTRIES)} else {}
  {
    var s := BootMachine(contents, mapped, u, count);
    forall t: nat, j: nat
      ensures (t, j) in Holders(s, f) <==> f < mapped && t == f / ENTRIES + 1 && j == f % ENTRIES
    {
      InHolders(s, t, j, f);
      if HasSlot(s, t, j) {
        assert s.tables[t][j] == BootSlot((t - 1) * ENTRIES + j, mapped, u);
      }
    }
  }

  lemma BootTablesOk(contents: seq<Page>, mapped: nat, u: Ucode, count: nat)
    requires 1 <= mapped <= |contents| && mapped <= count * ENTRIES
    ensures TableInv(BootMachine(contents, mapped, u, count))
  {
    var s := BootMachine(contents, mapped, u, count);
    forall f | 1 <= f < |s.refs| ensures s.refs[f] == |Holders(s, f)| {
      BootHolders(contents, mapped, u, count, f);
    }
    forall t: nat, j: nat | HasSlot(s, t, j) && s.tables[t][j].present && s.tables[t][j].rw
      ensures SoleHolder(s, t, j, s.tables[t][j].frame)
    {
      assert s.tables[t][j] == BootSlot((t - 1) * ENTRIES + j, mapped, u);
      forall t': nat, j': nat | HasSlot(s, t', j') && (t', j') != (t, j) && s.tables[t'][j'].present
        ensures s.tables[t'][j'].frame != s.tables[t][j].frame
      {
        assert s.tables[t'][j'] == BootSlot((t' - 1) * ENTRIES + j', mapped, u);
      }
    }
  }

  lemma BootInv(contents: seq<Page>, mapped: nat, u: Ucode, count: nat)
    requires 1 <= mapped <= |contents| && mapped <= count * ENTRIES && count <= ENTRIES
    ensures Inv(Boot(contents, mapped, u, count))
  {
    BootTablesOk(contents, mapped, u, count);
    var s := Boot(contents, mapped, u, count);
    var dir := s.dirs[KERNEL];
    assert s.machine.kernel == dir.Values by {
      forall t: nat ensures t in s.machine.kernel <==> t in dir.Values {
        if 1 <= t <= count { assert dir[t - 1] == t; }
      }
    }
    forall t <- s.machine.tables ensures Live(s.dirs, t) {
      assert HeldAt(s.dirs, KERNEL, t - 1, t);
    }
  }
}

/**
 The paging routines of kernel/mmu.c as they run: reference counts and physical
 pages in arrays, the physical bitmap in a `Memmap`, table entries rewritten in
 loops. Each method is proved to do to the machine exactly what its function in
 `Cow` or `CowSpaces` says.
 */
module Mmus {
  import opened Cow
  import opened CowSpaces
  import opened Memmaps

  class Mmu {
    const physical: Memmap
    const frameRefs: array<int>
    const memory: array<Page>
    const kernel: set<nat>
    var tables: map<nat, Table>
    var dirs: map<nat, Directory>

    ghost predicate Valid()
      reads this, physical, physical.pagemap, frameRefs, memory
    {
      && physical.Valid()
      && frameRefs.Length == memory.Length == physical.Limit()
      && frameRefs as object != physical.pagemap && memory as object != physical.pagemap
      && frameRefs as object != memory
      && WellFormed(State())
    }

    ghost function State(): Machine
      reads this, physical, physical.pagemap, frameRefs, memory
    {
      Machine(memory[..], frameRefs[..], physical.Used(), tables, kernel)
    }

    /** The start of mmu_init: all counts zero, all frames free; memory holds what it holds. */
    constructor (frames: nat, contents: seq<Page>, kernelTables: set<nat>)
      requires 0 < frames == |contents| && frames % 32 == 0
      ensures Valid() && fresh(physical) && fresh(physical.pagemap) && fresh(frameRefs) && fresh(memory)
      ensures State() == Machine(contents, seq(frames, _ => 0), {}, map[], kernelTables) && dirs == map[]
    {
      physical := new Memmap(frames);
      frameRefs := new int[frames](_ => 0);
      memory := new Page[frames](i requires 0 <= i < |contents| => contents[i]);
      kernel := kernelTables;
      tables := map[];
      dirs := map[];
      new;
      assert memory[..] == contents;
      assert frameRefs[..] == seq(frames, _ => 0);
    }

    /** Store a page table entry. */
    method SetEntry(t: nat, j: nat, slot: Slot)
      requires Valid() && HasSlot(State(), t, j) && slot.frame < memory.Length
      modifies this`tables
      ensures Valid() && State() == SetSlot(old(State()), t, j, slot)
    {
      tables := tables[t := tables[t][j := slot]];
      assert State() == SetSlot(old(State()), t, j, slot);
    }

    /** mmu_frame_free */
    method FreeFrame(t: nat, j: nat)
      requires Valid() && HasSlot(State(), t, j)
      modifies this`tables, frameRefs, physical.pagemap
      ensures Valid() && State() == FrameFree(old(State()), t, j)
    {
      var slot := tables[t][j];
      if slot.frame == 0 {
        return;
      }
      frameRefs[slot.frame] := frameRefs[slot.frame] - 1;
      if frameRefs[slot.frame] == 0 {
        physical.ClearPage(slot.frame * PAGE_SIZE);
      }
      assert State() == Release(old(State()), slot.frame);
      slot := slot.(frame := 0, present := false, accessed := false, dirty := false, rw := false, user := false);
      SetEntry(t, j, slot);
    }

    /** mmu_alloc_frame */
    method TakeFrame(t: nat, j: nat) returns (address: nat)
      requires Valid() && HasSlot(State(), t, j)
      modifies this`tables, frameRefs, physical.pagemap
      ensures Valid() && State() == AllocFrame(old(State()), t, j)
      ensures address == if old(tables[t][j].frame) != 0 then 0 else tables[t][j].frame * PAGE_SIZE
    {
      var slot := tables[t][j];
      if slot.frame != 0 {
        return 0;
      }
      var idx := ReserveFrame();
      SetEntry(t, j, slot.(frame := idx, present := true, accessed := false, dirty := false, commited := true));
      return idx * PAGE_SIZE;
    }

    /** The part of mmu_alloc_frame that takes the lowest free frame out of the bitmap and counts it. */
    method ReserveFrame() returns (idx: nat)
      requires Valid()
      modifies frameRefs, physical.pagemap
      ensures Valid() && State() == Take(old(State())) && idx == NextFrame(old(State()))
    {
      idx := physical.FindFreePage();
      SearchFindsLowest(physical.Used(), 0, physical.Limit(), idx);
      physical.SetPage(idx * PAGE_SIZE);
      frameRefs[idx] := frameRefs[idx] + 1;
      assert State() == Take(old(State()));
    }

    /** copy_physical_page */
    method CopyPhysicalPage(dst: nat, src: nat)
      requires Valid() && dst < memory.Length && src < memory.Length
      modifies memory
      ensures Valid() && State() == SetPage(old(State()), dst, old(State()).memory[src])
    {
      memory[dst] := memory[src];
      assert State() == SetPage(old(State()), dst, old(State()).memory[src]);
    }

    /** page_fault on a write, for a page that is not waiting for a file to be read in. */
    method PageFault(t: nat, j: nat) returns (handled: bool)
      requires Valid() && HasSlot(State(), t, j)
      modifies this`tables, frameRefs, memory, physical.pagemap
      ensures Valid()
      ensures Outcome(State(), handled) == WriteFault(old(State()), t, j)
    {
      var slot := tables[t][j];
      if slot.commited {
        return false;
      }
      if frameRefs[slot.frame] == 1 {
        SetEntry(t, j, slot.(rw := true, commited := true));
      } else {
        Unshare(t, j);
      }
      return true;
    }

    /** The branch of page_fault for a frame whose count is not one. */
    method Unshare(t: nat, j: nat)
      requires Valid() && HasSlot(State(), t, j)
      modifies this`tables, frameRefs, memory, physical.pagemap
      ensures Valid() && State() == BreakSharing(old(State()), t, j)
    {
      var frame := tables[t][j].frame;
      SetEntry(t, j, tables[t][j].(frame := 0));
      var _ := TakeFrame(t, j);
      SetEntry(t, j, tables[t][j].(rw := true));
      DropReference(frame);
      CopyPhysicalPage(tables[t][j].frame, frame);
    }

    /** The bare decrement of page_fault: the bitmap is left alone. */
    method DropReference(frame: nat)
      requires Valid() && frame < frameRefs.Length
      modifies frameRefs
      ensures Valid() && State() == SetRefs(old(State()), frame, old(State()).refs[frame] - 1)
    {
      frameRefs[frame] := frameRefs[frame] - 1;
      assert State() == SetRefs(old(State()), frame, old(State()).refs[frame] - 1);
    }

    /** mmu_alloc_page for an existing table, with ALLOC_FRAME_WRITEABLE and ALLOC_FRAME_ALLOC_PHYS. */
    method AllocPageIn(t: nat, j: nat, cow: bool, noshare: bool)
      requires Valid() && HasSlot(State(), t, j)
      modifies this`tables, frameRefs, physical.pagemap
      ensures Valid() && State() == AllocSlot(old(State()), t, j, cow, noshare)
    {
      SetEntry(t, j, tables[t][j].(rw := true, user := true, cow := cow, noshare := noshare, mmap := false));
      var _ := TakeFrame(t, j);
    }

    /** kalloc and memset of a page table. */
    method NewTable(t: nat)
      requires Valid()
      modifies this`tables
      ensures Valid() && State() == AddTable(old(State()), t)
    {
      tables := tables[t := EmptyTable()];
      assert State() == AddTable(old(State()), t);
    }

    /** mmu_alloc_page */
    method AllocPage(d: nat, i: nat, j: nat, cow: bool, noshare: bool, newTable: nat)
      requires Valid() && WellFormedSystem(System(State(), dirs)) && d in dirs && j < ENTRIES
      modifies this, frameRefs, physical.pagemap
      ensures Valid()
      ensures System(State(), dirs) == MapPage(old(System(State(), dirs)), d, i, j, cow, noshare, newTable)
    {
      if i !in dirs[d] {
        NewTable(newTable);
        dirs := dirs[d := Enter(dirs[d], i, newTable)];
      } else {
        assert TablesIn(dirs[d], tables.Keys);
      }
      AllocPageIn(dirs[d][i], j, cow, noshare);
    }

    /** The body of the loop of mmu_clone_table. */
    method CloneEntry(src: nat, dst: nat, j: nat)
      requires Valid() && HasSlot(State(), src, j) && HasSlot(State(), dst, j)
      modifies this`tables, frameRefs, memory, physical.pagemap
      ensures Valid() && State() == CloneSlot(old(State()), src, dst, j)
    {
      var slot := tables[src][j];
      if slot.frame == 0 {
        return;
      }
      if slot.cow && !slot.noshare {
        var shared := slot.(rw := false, accessed := false, dirty := false, commited := false);
        SetEntry(src, j, shared);
        SetEntry(dst, j, shared);
        AddReference(slot.frame);
      } else {
        var _ := TakeFrame(dst, j);
        var frame, from := tables[dst][j].frame, tables[src][j].frame;
        SetEntry(dst, j, tables[src][j].(frame := frame, accessed := false, dirty := false, commited := true));
        CopyPhysicalPage(frame, from);
      }
    }

    method AddReference(frame: nat)
      requires Valid() && frame < frameRefs.Length
      modifies frameRefs
      ensures Valid() && State() == SetRefs(old(State()), frame, old(State()).refs[frame] + 1)
    {
      frameRefs[frame] := frameRefs[frame] + 1;
      assert State() == SetRefs(old(State()), frame, old(State()).refs[frame] + 1);
    }

    /** mmu_clone_table with CLONE_COW */
    method ClonePageTable(src: nat, dst: nat)
      requires Valid() && src in tables
      modifies this`tables, frameRefs, memory, physical.pagemap
      ensures Valid() && State() == CloneTable(old(State()), src, dst)
    {
      hide CloneSlot;
      NewTable(dst);
      ghost var start := State();
      for j := 0 to ENTRIES
        invariant Valid() && State() == CloneSlots(start, src, dst, j)
      {
        CloneEntry(src, dst, j);
      }
    }

    /** mmu_clone_directory with CLONE_COW; kalloc puts the new directory at `child` and new tables from `base` on. */
    method CloneDirectory(d: nat, child: nat, base: nat)
      requires Valid() && WellFormedSystem(System(State(), dirs)) && d in dirs
      modifies this, frameRefs, memory, physical.pagemap
      ensures Valid()
      ensures System(State(), dirs) == Fork(old(System(State(), dirs)), d, child, base)
    {
      hide CloneTable;
      ghost var start := State();
      assert TablesIn(dirs[d], start.tables.Keys);
      var dir: Directory := map[];
      for i := 0 to ENTRIES
        invariant Valid() && dirs == old(dirs)
        invariant Forking(State(), dir) == CloneTables(start, dirs[KERNEL], dirs[d], base, i)
      {
        if i in dirs[d] {
          if i in dirs[KERNEL] && dirs[KERNEL][i] == dirs[d][i] {
            dir := Enter(dir, i, dirs[d][i]);
          } else {
            ClonePageTable(dirs[d][i], base + i);
            dir := Enter(dir, i, base + i);
          }
        }
      }
      dirs := dirs[child := dir];
    }

    /** The inner loop of mmu_destroy_directory. */
    method FreePageTable(t: nat)
      requires Valid() && t in tables
      modifies this`tables, frameRefs, physical.pagemap
      ensures Valid() && State() == FreeSlots(old(State()), t, ENTRIES)
    {
      hide FrameFree;
      ghost var start := State();
      for j := 0 to ENTRIES
        invariant Valid() && State() == FreeSlots(start, t, j)
      {
        NothingToFree(State(), t, j);
        if tables[t][j].frame != 0 {
          FreeFrame(t, j);
        }
      }
    }

    /** mmu_destroy_directory */
    method DestroyDirectory(d: nat)
      requires Valid() && WellFormedSystem(System(State(), dirs)) && d in dirs
      modifies this, frameRefs, physical.pagemap
      ensures Valid()
      ensures System(State(), dirs) == Exit(old(System(State(), dirs)), d)
    {
      hide FreeSlots, FreeTables;
      ghost var start := State();
      FreeTablesStart(start, dirs[KERNEL], dirs[d]);
      for i := 0 to ENTRIES
        invariant Valid() && dirs == old(dirs)
        invariant State() == FreeTables(start, dirs[KERNEL], dirs[d], i)
      {
        FreeTablesRound(start, dirs[KERNEL], dirs[d], i);
        if i in dirs[d] && !(i in dirs[KERNEL] && dirs[KERNEL][i] == dirs[d][i]) {
          FreePageTable(dirs[d][i]);
        }
      }
      dirs := dirs - {d};
    }
  }

  lemma FreeTablesStart(m: Machine, kernelDir: Directory, dir: Directory)
    requires WellFormed(m) && TablesIn(dir, m.tables.Keys)
    ensures FreeTables(m, kernelDir, dir, 0) == m
  {
  }

  lemma FreeTablesRound(m: Machine, kernelDir: Directory, dir: Directory, i: nat)
    requires WellFormed(m) && TablesIn(dir, m.tables.Keys)
    ensures FreeTables(m, kernelDir, dir, i + 1) == FreeRound(FreeTables(m, kernelDir, dir, i), kernelDir, dir, i)
  {
  }

  lemma NothingToFree(s: Machine, t: nat, j: nat)
    requires WellFormed(s) && HasSlot(s, t, j)
    ensures s.tables[t][j].frame == 0 ==> FrameFree(s, t, j) == s
  {
  }

  /** The bitmap search answers the frame that `NextFrame` names. */
  lemma {:induction false} SearchFindsLowest(used: set<nat>, from: nat, frames: nat, idx: nat)
    requires from <= frames
    requires if exists f :: from <= f < frames && f !in used
             then from <= idx < frames && idx !in used && forall f :: from <= f < idx ==> f in used
             else idx == 0
    ensures idx == LowestFree(used, from, frames)
    decreases frames - from
  {
    if from < frames && from in used { SearchFindsLowest(used, from + 1, frames, idx); }
  }
}

/** Copy-on-write page tables (kernel/mmu.c). */
module Cow {

  // A `Machine` is what the paging code works on: physical memory, one reference
  // count for each frame, the physical bitmap and the page tables. A table is named
  // by a number that stands for its address; `kernel` are the tables that belong to
  // the kernel directory and are shared by all directories.
  //
  // The functions of this module say what each kernel routine does to a machine.

  import opened Values

  type Page = p: seq<Byte> | |p| == 0x1000 witness seq(0x1000, _ => 0)

  type Offset = o: int | 0 <= o < 0x1000

  const ENTRIES: nat := 1024

  /** A page table entry (`page_t`) with its `page_info_t`. */
  datatype Slot = Slot(
    frame: nat, present: bool, accessed: bool, dirty: bool, rw: bool, user: bool,
    commited: bool, cow: bool, noshare: bool, mmap: bool)

  const EMPTY_SLOT := Slot(0, false, false, false, false, false, false, false, false, false)

  type Table = t: seq<Slot> | |t| == ENTRIES witness seq(ENTRIES, _ => EMPTY_SLOT)

  function EmptyTable(): (t: Table)
    ensures forall j :: 0 <= j < ENTRIES ==> t[j] == EMPTY_SLOT
  {
    seq(ENTRIES, _ => EMPTY_SLOT)
  }

  datatype Machine = Machine(
    memory: seq<Page>,
    refs: seq<int>,
    used: set<nat>,
    tables: map<nat, Table>,
    kernel: set<nat>)

  predicate FramesInRange(table: Table, frames: nat)
  {
    forall j :: 0 <= j < ENTRIES ==> table[j].frame < frames
  }

  predicate WellFormed(s: Machine)
  {
    && 0 < |s.memory| == |s.refs|
    && forall t <- s.tables :: FramesInRange(s.tables[t], |s.memory|)
  }

  predicate HasSlot(s: Machine, t: nat, j: nat)
  {
    t in s.tables && j < ENTRIES
  }

  // ---- What the routines do to one entry ----

  function Freed(slot: Slot): Slot
  {
    slot.(frame := 0, present := false, accessed := false, dirty := false, rw := false, user := false)
  }

  function Allocated(slot: Slot, f: nat): Slot
  {
    slot.(frame := f, present := true, accessed := false, dirty := false, commited := true)
  }

  function Prepared(slot: Slot, cow: bool, noshare: bool): Slot
  {
    slot.(rw := true, user := true, cow := cow, noshare := noshare, mmap := false)
  }

  function Writable(slot: Slot): Slot
  {
    slot.(rw := true)
  }

  function Claimed(slot: Slot): Slot
  {
    slot.(rw := true, commited := true)
  }

  function Detached(slot: Slot): Slot
  {
    slot.(frame := 0)
  }

  function Protected(slot: Slot): Slot
  {
    slot.(rw := false, accessed := false, dirty := false, commited := false)
  }

  function Copied(slot: Slot, f: nat): Slot
  {
    slot.(frame := f, accessed := false, dirty := false, commited := true)
  }

  // ---- What they do to the machine ----

  function SlotAt(s: Machine, t: nat, j: nat): (slot: Slot)
    requires WellFormed(s) && HasSlot(s, t, j)
    ensures slot.frame < |s.memory|
  {
    s.tables[t][j]
  }

  function SetSlot(s: Machine, t: nat, j: nat, slot: Slot): (r: Machine)
    requires WellFormed(s) && HasSlot(s, t, j) && slot.frame < |s.memory|
    ensures WellFormed(r) && HasSlot(r, t, j)
  {
    s.(tables := s.tables[t := s.tables[t][j := slot]])
  }

  function SetRefs(s: Machine, f: nat, n: int): (r: Machine)
    requires WellFormed(s) && f < |s.refs|
    ensures WellFormed(r)
  {
    s.(refs := s.refs[f := n])
  }

  function SetUsed(s: Machine, f: nat, on: bool): (r: Machine)
    requires WellFormed(s)
    ensures WellFormed(r)
  {
    s.(used := if on then s.used + {f} else s.used - {f})
  }

  function SetPage(s: Machine, f: nat, page: Page): (r: Machine)
    requires WellFormed(s) && f < |s.memory|
    ensures WellFormed(r)
  {
    s.(memory := s.memory[f := page])
  }

  function AddTable(s: Machine, t: nat): (r: Machine)
    requires WellFormed(s)
    ensures WellFormed(r)
  {
    s.(tables := s.tables[t := EmptyTable()])
  }

  /** `memmap_find_free_page` on the physical bitmap: the lowest free frame, 0 when there is none. */
  function LowestFree(used: set<nat>, from: nat, frames: nat): (f: nat)
    requires from <= frames
    ensures f < frames || f == 0
    decreases frames - from
  {
    if from == frames then 0 else if from !in used then from else LowestFree(used, from + 1, frames)
  }

  function NextFrame(s: Machine): (f: nat)
    requires WellFormed(s)
    ensures f < |s.memory|
  {
    LowestFree(s.used, 0, |s.memory|)
  }

  /** Drop one reference to a frame; the last one gives the frame back to the bitmap. */
  function Release(s: Machine, f: nat): (r: Machine)
    requires WellFormed(s) && f < |s.refs|
    ensures WellFormed(r) && r.tables == s.tables
  {
    if s.refs[f] == 1 then SetUsed(SetRefs(s, f, 0), f, false) else SetRefs(s, f, s.refs[f] - 1)
  }

  /** Take the lowest free frame out of the bitmap. */
  function Take(s: Machine): (r: Machine)
    requires WellFormed(s)
    ensures WellFormed(r) && r.tables == s.tables
  {
    SetUsed(SetRefs(s, NextFrame(s), s.refs[NextFrame(s)] + 1), NextFrame(s), true)
  }

  /** mmu_frame_free */
  function FrameFree(s: Machine, t: nat, j: nat): (r: Machine)
    requires WellFormed(s) && HasSlot(s, t, j)
    ensures WellFormed(r) && HasSlot(r, t, j)
  {
    if SlotAt(s, t, j).frame == 0 then s
    else SetSlot(Release(s, SlotAt(s, t, j).frame), t, j, Freed(SlotAt(s, t, j)))
  }

  /** mmu_alloc_frame; when no frame is free the search answers 0 and frame 0 is handed out. */
  function AllocFrame(s: Machine, t: nat, j: nat): (r: Machine)
    requires WellFormed(s) && HasSlot(s, t, j)
    ensures WellFormed(r) && HasSlot(r, t, j)
  {
    if SlotAt(s, t, j).frame != 0 then s
    else SetSlot(Take(s), t, j, Allocated(SlotAt(s, t, j), NextFrame(s)))
  }

  /**
   mmu_alloc_page with ALLOC_FRAME_MKTABLE, ALLOC_FRAME_WRITEABLE and ALLOC_FRAME_ALLOC_PHYS, the
   table being there.
   */
  function AllocSlot(s: Machine, t: nat, j: nat, cow: bool, noshare: bool): (r: Machine)
    requires WellFormed(s) && HasSlot(s, t, j)
    ensures WellFormed(r)
  {
    AllocFrame(SetSlot(s, t, j, Prepared(SlotAt(s, t, j), cow, noshare)), t, j)
  }

  /** A write fault on a frame that others still map: move to a private copy. */
  function BreakSharing(s: Machine, t: nat, j: nat): (r: Machine)
    requires WellFormed(s) && HasSlot(s, t, j)
    ensures WellFormed(r) && HasSlot(r, t, j) && SlotAt(r, t, j).commited
  {
    var origin := SlotAt(s, t, j).frame;
    var s1 := AllocFrame(SetSlot(s, t, j, Detached(SlotAt(s, t, j))), t, j);
    var s2 := SetSlot(s1, t, j, Writable(SlotAt(s1, t, j)));
    SetPage(SetRefs(s2, origin, s2.refs[origin] - 1), SlotAt(s2, t, j).frame, s2.memory[origin])
  }

  /** A write fault on a frame nobody else maps: make it writable again. */
  function Claim(s: Machine, t: nat, j: nat): (r: Machine)
    requires WellFormed(s) && HasSlot(s, t, j)
    ensures WellFormed(r) && HasSlot(r, t, j) && SlotAt(r, t, j).commited
  {
    SetSlot(s, t, j, Claimed(SlotAt(s, t, j)))
  }

  datatype Outcome = Outcome(machine: Machine, ok: bool)

  /** The write branch of page_fault, for a page that is not waiting for a file to be read in. */
  function WriteFault(s: Machine, t: nat, j: nat): (r: Outcome)
    requires WellFormed(s) && HasSlot(s, t, j)
    ensures WellFormed(r.machine) && HasSlot(r.machine, t, j) && SlotAt(r.machine, t, j).commited
  {
    if SlotAt(s, t, j).commited then Outcome(s, false)
    else if s.refs[SlotAt(s, t, j).frame] == 1 then Outcome(Claim(s, t, j), true)
    else Outcome(BreakSharing(s, t, j), true)
  }

  function Poke(page: Page, offset: Offset, value: Byte): Page
  {
    page[offset := value]
  }

  function Store(s: Machine, f: nat, offset: Offset, value: Byte): (r: Machine)
    requires WellFormed(s) && f < |s.memory|
    ensures WellFormed(r)
  {
    SetPage(s, f, Poke(s.memory[f], offset, value))
  }

  /**
   A store in user mode, which only goes through a user entry: the processor retries it for as long
   as the fault handler returns normally.
   */
  function UserWrite(s: Machine, t: nat, j: nat, offset: Offset, value: Byte): (r: Outcome)
    requires WellFormed(s) && HasSlot(s, t, j)
    ensures WellFormed(r.machine)
    decreases if SlotAt(s, t, j).commited then 0 else 1
  {
    if SlotAt(s, t, j).present && SlotAt(s, t, j).rw && SlotAt(s, t, j).user then
      Outcome(Store(s, SlotAt(s, t, j).frame, offset, value), true)
    else if SlotAt(s, t, j).commited then Outcome(s, false)
    else UserWrite(WriteFault(s, t, j).machine, t, j, offset, value)
  }

  /** Whether mmu_clone_table shares this entry rather than copying its page. */
  predicate Shares(slot: Slot)
  {
    slot.cow && !slot.noshare
  }

  /** The shared case of mmu_clone_table: both entries lose write access and the frame gains a reference. */
  function ShareSlot(s: Machine, src: nat, dst: nat, j: nat): (r: Machine)
    requires WellFormed(s) && HasSlot(s, src, j) && HasSlot(s, dst, j)
    ensures WellFormed(r) && r.tables.Keys == s.tables.Keys
  {
    var slot := Protected(SlotAt(s, src, j));
    SetRefs(SetSlot(SetSlot(s, src, j, slot), dst, j, slot), slot.frame, s.refs[slot.frame] + 1)
  }

  /** The other case: a frame of its own and a copy of the page. */
  function CopySlot(s: Machine, src: nat, dst: nat, j: nat): (r: Machine)
    requires WellFormed(s) && HasSlot(s, src, j) && HasSlot(s, dst, j)
    ensures WellFormed(r) && r.tables.Keys == s.tables.Keys
  {
    var s1 := AllocFrame(s, dst, j);
    var f := SlotAt(s1, dst, j).frame;
    SetPage(SetSlot(s1, dst, j, Copied(SlotAt(s1, src, j), f)), f, s1.memory[SlotAt(s1, src, j).frame])
  }

  /** One round of the loop of mmu_clone_table with CLONE_COW: entry `j` of `src` into `dst`. */
  function CloneSlot(s: Machine, src: nat, dst: nat, j: nat): (r: Machine)
    requires WellFormed(s) && HasSlot(s, src, j) && HasSlot(s, dst, j)
    ensures WellFormed(r) && r.tables.Keys == s.tables.Keys
  {
    if SlotAt(s, src, j).frame == 0 then s
    else if Shares(SlotAt(s, src, j)) then ShareSlot(s, src, dst, j)
    else CopySlot(s, src, dst, j)
  }

  /** The first `n` rounds of the loop of mmu_clone_table. */
  function CloneSlots(s: Machine, src: nat, dst: nat, n: nat): (r: Machine)
    requires WellFormed(s) && src in s.tables && dst in s.tables && n <= ENTRIES
    ensures WellFormed(r) && r.tables.Keys == s.tables.Keys
  {
    if n == 0 then s else CloneSlot(CloneSlots(s, src, dst, n - 1), src, dst, n - 1)
  }

  /** mmu_clone_table: a new table at address `dst` for the table at `src`. */
  function CloneTable(s: Machine, src: nat, dst: nat): (r: Machine)
    requires WellFormed(s) && src in s.tables
    ensures WellFormed(r)
  {
    CloneSlots(AddTable(s, dst), src, dst, ENTRIES)
  }

  /** The inner loop of mmu_destroy_directory. */
  function FreeSlots(s: Machine, t: nat, n: nat): (r: Machine)
    requires WellFormed(s) && t in s.tables && n <= ENTRIES
    ensures WellFormed(r) && r.tables.Keys == s.tables.Keys && r.kernel == s.kernel
  {
    if n == 0 then s else FrameFree(FreeSlots(s, t, n - 1), t, n - 1)
  }
}

/**
 Whole page tables: cloning one, freeing one, and storing through an entry.

 `View` is what all tables read as, one independent page for each mapped entry.
 Every routine acts on views the way plain copying would: a cloned table gets the
 view of its source, and no other table's view moves.
 */
module CowTables {
  import opened Values
  import opened Cow
  import opened CowInvariant

  type TableView = v: seq<Option<Mapping>> | |v| == ENTRIES witness seq(ENTRIES, _ => None)

  type View = map<nat, TableView>

  function ViewTable(s: Machine, t: nat): (v: TableView)
    requires WellFormed(s)
  {
    seq(ENTRIES, j requires 0 <= j < ENTRIES => Content(s, t, j))
  }

  function ViewOf(s: Machine): (v: View)
    requires WellFormed(s)
    ensures v.Keys == s.tables.Keys
  {
    map t | t in s.tables :: ViewTable(s, t)
  }

  function SetEntry(v: View, t: nat, j: nat, e: Option<Mapping>): View
    requires t in v && j < ENTRIES
  {
    v[t := v[t][j := e]]
  }

  lemma SameEntry(v: View, t: nat, j: nat)
    requires t in v && j < ENTRIES
    ensures SetEntry(v, t, j, v[t][j]) == v
  {
    assert v[t][j := v[t][j]] == v[t];
  }

  /** A routine that affects one entry changes one entry of the view. */
  lemma ViewChange(s: Machine, r: Machine, t: nat, j: nat)
    requires WellFormed(s) && WellFormed(r) && HasSlot(s, t, j) && r.tables.Keys == s.tables.Keys
    requires OnlyAffects(s, r, t, j)
    ensures ViewOf(r) == SetEntry(ViewOf(s), t, j, Content(r, t, j))
  {
    hide Content;
    var v, w := ViewOf(r), SetEntry(ViewOf(s), t, j, Content(r, t, j));
    forall t' <- r.tables ensures v[t'] == w[t'] {
      forall j' | 0 <= j' < ENTRIES ensures v[t'][j'] == w[t'][j'] {
      }
    }
  }

  // ---- Mapping and unmapping one page ----

  /** A newly mapped page shows whatever its frame last held. */
  lemma AllocSlotView(s: Machine, t: nat, j: nat, cow: bool, noshare: bool) returns (r: Machine)
    requires TableInv(s) && HasSlot(s, t, j) && FreeFrames(s) != {}
    requires s.tables[t][j].frame == 0 && !s.tables[t][j].present
    ensures r == AllocSlot(s, t, j, cow, noshare)
    ensures TableInv(r) && r.kernel == s.kernel
    ensures ViewOf(r) == SetEntry(ViewOf(s), t, j, Some(Mapping(s.memory[NextFrame(s)], true, true, cow, noshare)))
  {
    AllocSlotKeeps(s, t, j, cow, noshare);
    r := AllocSlot(s, t, j, cow, noshare);
    ViewChange(s, r, t, j);
  }

  lemma FrameFreeView(s: Machine, t: nat, j: nat) returns (r: Machine)
    requires TableInv(s) && HasSlot(s, t, j) && (s.tables[t][j].frame != 0 || t !in s.kernel)
    ensures r == FrameFree(s, t, j)
    ensures TableInv(r) && r.kernel == s.kernel
    ensures ViewOf(r) == SetEntry(ViewOf(s), t, j, None)
  {
    FrameFreeKeeps(s, t, j);
    r := FrameFree(s, t, j);
    ViewChange(s, r, t, j);
  }

  // ---- Stores ----

  /** The write fault that would break sharing. */
  predicate NeedsFrame(s: Machine, t: nat, j: nat)
    requires WellFormed(s) && HasSlot(s, t, j)
  {
    SlotAt(s, t, j).present && !SlotAt(s, t, j).commited && s.refs[SlotAt(s, t, j).frame] != 1
  }

  /** A store succeeds exactly on a writable mapping, and then changes that one page of that one table. */
  lemma UserWriteKeeps(s: Machine, t: nat, j: nat, offset: Offset, value: Byte) returns (r: Outcome)
    requires TableInv(s) && HasSlot(s, t, j)
    requires NeedsFrame(s, t, j) ==> FreeFrames(s) != {}
    ensures r == UserWrite(s, t, j, offset, value)
    ensures TableInv(r.machine) && r.machine.kernel == s.kernel
    ensures r.ok <==> ViewOf(s)[t][j].Some? && ViewOf(s)[t][j].value.writable
    ensures ViewOf(r.machine) ==
            if r.ok then SetEntry(ViewOf(s), t, j, Some(Stored(ViewOf(s)[t][j].value, offset, value))) else ViewOf(s)
  {
    r := UserWrite(s, t, j, offset, value);
    var slot := SlotAt(s, t, j);
    if slot.present && slot.rw && slot.user {
      StoreKeeps(s, t, j, offset, value);
      ViewChange(s, r.machine, t, j);
    } else if !slot.commited {
      var s1 := FaultKeeps(s, t, j);
      assert r == UserWrite(s1, t, j, offset, value);
      hide WriteFault;
      if SlotAt(s1, t, j).present && SlotAt(s1, t, j).user {
        StoreKeeps(s1, t, j, offset, value);
        ViewChange(s1, r.machine, t, j);
      }
    }
  }

  /** A handled write fault changes nothing that can be read, and leaves a mapped user page writable. */
  lemma FaultKeeps(s: Machine, t: nat, j: nat) returns (r: Machine)
    requires TableInv(s) && HasSlot(s, t, j) && !SlotAt(s, t, j).commited
    requires NeedsFrame(s, t, j) ==> FreeFrames(s) != {}
    ensures r == WriteFault(s, t, j).machine
    ensures TableInv(r) && HasSlot(r, t, j) && r.kernel == s.kernel && ViewOf(r) == ViewOf(s)
    ensures SlotAt(r, t, j).commited
    ensures SlotAt(r, t, j).present <==> SlotAt(s, t, j).present
    ensures SlotAt(r, t, j).user <==> SlotAt(s, t, j).user
    ensures SlotAt(r, t, j).present ==> SlotAt(r, t, j).rw
  {
    if s.refs[SlotAt(s, t, j).frame] == 1 {
      ClaimKeeps(s, t, j);
      r := Claim(s, t, j);
      SameView(s, r, t, j);
    } else {
      BreakSharingKeeps(s, t, j);
      hide BreakSharing;
      r := BreakSharing(s, t, j);
      SameView(s, r, t, j);
    }
  }

  lemma SameView(s: Machine, r: Machine, t: nat, j: nat)
    requires WellFormed(s) && WellFormed(r) && HasSlot(s, t, j) && r.tables.Keys == s.tables.Keys
    requires OnlyAffects(s, r, t, j) && Content(r, t, j) == Content(s, t, j)
    ensures ViewOf(r) == ViewOf(s)
  {
    ViewChange(s, r, t, j);
    SameEntry(ViewOf(s), t, j);
  }

  // ---- Cloning a table ----

  /** Entries among the first `n` that a clone must copy, each taking a frame. */
  function Copies(v: TableView, n: nat): nat
    requires n <= ENTRIES
  {
    if n == 0 then 0 else Copies(v, n - 1) + if v[n - 1].Some? && Private(v[n - 1].value) then 1 else 0
  }

  /** `a` with its first `n` entries replaced by those of `b`. */
  function Overlay(a: TableView, b: TableView, n: nat): (r: TableView)
    requires n <= ENTRIES
    ensures r == b[..n] + a[n..]
  {
    if n == 0 then a else Overlay(a, b, n - 1)[n - 1 := b[n - 1]]
  }

  lemma OverlayStep(v: View, t: nat, a: TableView, b: TableView, n: nat)
    requires t in v && 0 < n <= ENTRIES
    ensures SetEntry(v[t := Overlay(a, b, n - 1)], t, n - 1, b[n - 1]) == v[t := Overlay(a, b, n)]
  {
  }

  lemma OverlayAll(a: TableView, b: TableView)
    ensures Overlay(a, b, ENTRIES) == b
  {
    assert b[..ENTRIES] + a[ENTRIES..] == b;
  }

  lemma CloneSlotKeeps(s: Machine, src: nat, dst: nat, j: nat) returns (r: Machine)
    requires TableInv(s) && HasSlot(s, src, j) && HasSlot(s, dst, j) && src != dst
    requires src !in s.kernel && dst !in s.kernel && ViewOf(s)[dst][j].None?
    requires ViewOf(s)[src][j].Some? && Private(ViewOf(s)[src][j].value) ==> FreeFrames(s) != {}
    ensures r == CloneSlot(s, src, dst, j)
    ensures TableInv(r) && r.kernel == s.kernel
    ensures ViewOf(r) == SetEntry(ViewOf(s), dst, j, ViewOf(s)[src][j])
    ensures |FreeFrames(r)| == |FreeFrames(s)| -
              if ViewOf(s)[src][j].Some? && Private(ViewOf(s)[src][j].value) then 1 else 0
  {
    r := CloneSlot(s, src, dst, j);
    var slot := s.tables[src][j];
    if slot.frame == 0 {
      SameEntry(ViewOf(s), dst, j);
    } else if Shares(slot) {
      ShareSlotKeeps(s, src, dst, j);
      ViewChange(s, r, dst, j);
    } else {
      CopySlotKeeps(s, src, dst, j);
      NextFrameIsFresh(s);
      ViewChange(s, r, dst, j);
    }
  }

  lemma {:induction false} CloneSlotsKeeps(s: Machine, src: nat, dst: nat, n: nat) returns (r: Machine)
    requires TableInv(s) && src in s.tables && dst in s.tables && src != dst && n <= ENTRIES
    requires src !in s.kernel && dst !in s.kernel
    requires forall j :: 0 <= j < ENTRIES ==> ViewOf(s)[dst][j].None?
    requires |FreeFrames(s)| >= Copies(ViewOf(s)[src], n)
    ensures r == CloneSlots(s, src, dst, n)
    ensures TableInv(r) && r.kernel == s.kernel
    ensures ViewOf(r) == ViewOf(s)[dst := Overlay(ViewOf(s)[dst], ViewOf(s)[src], n)]
    ensures |FreeFrames(r)| == |FreeFrames(s)| - Copies(ViewOf(s)[src], n)
    decreases n
  {
    if n == 0 {
      r := s;
    } else {
      var m := CloneSlotsKeeps(s, src, dst, n - 1);
      r := CloneSlotKeeps(m, src, dst, n - 1);
      OverlayStep(ViewOf(s), dst, ViewOf(s)[dst], ViewOf(s)[src], n);
    }
  }

  lemma AddTableKeeps(s: Machine, t: nat) returns (r: Machine)
    requires TableInv(s) && t !in s.tables
    ensures r == AddTable(s, t)
    ensures TableInv(r) && r.kernel == s.kernel && FreeFrames(r) == FreeFrames(s)
    ensures ViewOf(r) == ViewOf(s)[t := NoPages()]
  {
    r := AddTable(s, t);
    forall f: nat | 1 <= f < |r.refs| ensures Holders(r, f) == Holders(s, f) {
      forall t': nat, j': nat ensures (t', j') in Holders(r, f) <==> (t', j') in Holders(s, f) {
        InHolders(s, t', j', f);
        InHolders(r, t', j', f);
      }
    }
    var v, w := ViewOf(r), ViewOf(s)[t := NoPages()];
    forall t' <- r.tables ensures v[t'] == w[t'] {
      assert t' != t ==> r.tables[t'] == s.tables[t'];
    }
  }

  /** The first page of a table made for it. */
  lemma AllocInNewTable(s: Machine, t: nat, j: nat, cow: bool, noshare: bool) returns (r: Machine)
    requires TableInv(s) && t !in s.tables && j < ENTRIES && FreeFrames(s) != {}
    ensures r == AllocSlot(AddTable(s, t), t, j, cow, noshare)
    ensures TableInv(r) && r.kernel == s.kernel && r.tables.Keys == s.tables.Keys + {t}
    ensures var m := Mapping(s.memory[NextFrame(s)], true, true, cow, noshare);
            ViewOf(r) == SetEntry(ViewOf(s)[t := NoPages()], t, j, Some(m))
  {
    hide Accounting, Exclusive, SlotsOk;
    var m := AddTableKeeps(s, t);
    r := AllocSlotView(m, t, j, cow, noshare);
  }

  function NoPages(): (v: TableView)
    ensures forall j :: 0 <= j < ENTRIES ==> v[j] == None
  {
    seq(ENTRIES, _ => None)
  }

  /** mmu_clone_table makes a table that reads like its source; nothing else reads differently. */
  lemma CloneTableKeeps(s: Machine, src: nat, dst: nat) returns (r: Machine)
    requires TableInv(s) && src in s.tables && dst !in s.tables && src !in s.kernel && dst !in s.kernel
    requires |FreeFrames(s)| >= Copies(ViewOf(s)[src], ENTRIES)
    ensures r == CloneTable(s, src, dst)
    ensures TableInv(r) && r.kernel == s.kernel
    ensures ViewOf(r) == ViewOf(s)[dst := ViewOf(s)[src]]
    ensures |FreeFrames(r)| == |FreeFrames(s)| - Copies(ViewOf(s)[src], ENTRIES)
  {
    hide Content, Accounting, Exclusive, SlotsOk, Copies, Overlay, CloneSlots, FreeFrames;
    var m := AddTableKeeps(s, dst);
    assert ViewOf(m)[src] == ViewOf(s)[src];
    r := CloneSlotsKeeps(m, src, dst, ENTRIES);
    OverlayAll(NoPages(), ViewOf(s)[src]);
  }

  // ---- Freeing a table ----

  lemma {:induction false} FreeSlotsKeeps(s: Machine, t: nat, n: nat) returns (r: Machine)
    requires TableInv(s) && t in s.tables && t !in s.kernel && n <= ENTRIES
    ensures r == FreeSlots(s, t, n)
    ensures TableInv(r) && r.kernel == s.kernel
    ensures ViewOf(r) == ViewOf(s)[t := Overlay(ViewOf(s)[t], NoPages(), n)]
    decreases n
  {
    if n == 0 {
      r := s;
    } else {
      var m := FreeSlotsKeeps(s, t, n - 1);
      FrameFreeKeeps(m, t, n - 1);
      hide FrameFree;
      r := FrameFree(m, t, n - 1);
      ViewChange(m, r, t, n - 1);
      OverlayStep(ViewOf(s), t, ViewOf(s)[t], NoPages(), n);
    }
  }

  /** The inner loop of mmu_destroy_directory unmaps every page of the table and nothing else. */
  lemma FreeTableKeeps(s: Machine, t: nat) returns (r: Machine)
    requires TableInv(s) && t in s.tables && t !in s.kernel
    ensures r == FreeSlots(s, t, ENTRIES)
    ensures TableInv(r) && r.kernel == s.kernel
    ensures ViewOf(r) == ViewOf(s)[t := NoPages()]
  {
    r := FreeSlotsKeeps(s, t, ENTRIES);
    OverlayAll(ViewOf(s)[t], NoPages());
  }
}

/**
 What every paging routine keeps, one page table entry at a time (kernel/mmu.c).

 `Accounting` is exact reference counting: the count of a frame is the number of
 entries that hold it, and the bitmap marks exactly the counted frames.
 `Exclusive` is what makes sharing safe: an entry with write access is the only
 entry of its frame. Each lemma below states, for one routine on one entry, that
 both are kept, what the entry then reads as, and that no other entry of any
 table reads differently.
 */
module CowInvariant {
  import opened Values
  import opened Cow

  /** The entries, over all tables, that hold frame `f`. */
  ghost function Holders(s: Machine, f: nat): set<(nat, nat)>
  {
    set t: nat, j: nat | t in s.tables && 0 <= j < ENTRIES && s.tables[t][j].frame == f :: (t, j)
  }

  /** Frame 0 is never handed out or given back; every other frame is counted exactly. */
  ghost predicate Accounting(s: Machine)
    requires WellFormed(s)
  {
    && s.refs[0] == 1
    && (forall f :: 1 <= f < |s.refs| ==> s.refs[f] == |Holders(s, f)|)
    && (forall f: nat :: f in s.used <==> f < |s.refs| && s.refs[f] > 0)
  }

  /** No present entry other than (t, j) maps frame `f`. */
  ghost predicate SoleHolder(s: Machine, t: nat, j: nat, f: nat)
  {
    forall t': nat, j': nat :: HasSlot(s, t', j') && (t', j') != (t, j) && s.tables[t'][j'].present
      ==> s.tables[t'][j'].frame != f
  }

  ghost predicate Exclusive(s: Machine)
  {
    forall t: nat, j: nat :: HasSlot(s, t, j) && s.tables[t][j].present && s.tables[t][j].rw
      ==> SoleHolder(s, t, j, s.tables[t][j].frame)
  }

  /**
   A mapped user page is writable now or after one fault, only sharable pages are ever protected,
   and no page waits for a file.
   */
  predicate UserSlot(slot: Slot)
  {
    && (slot.present <==> slot.frame != 0)
    && (slot.present ==> (slot.rw <==> slot.commited))
    && (slot.present && !Shares(slot) ==> slot.rw)
    && !slot.mmap
  }

  predicate KernelSlot(slot: Slot)
  {
    && (slot.frame != 0 ==> slot.present)
    && (slot.present ==> slot.commited)
    && !slot.mmap
  }

  ghost predicate SlotsOk(s: Machine)
  {
    forall t: nat, j: nat :: HasSlot(s, t, j) ==>
      if t in s.kernel then KernelSlot(s.tables[t][j]) else UserSlot(s.tables[t][j])
  }

  ghost predicate TableInv(s: Machine)
  {
    WellFormed(s) && Accounting(s) && Exclusive(s) && SlotsOk(s)
  }

  /**
   A page as seen through an entry, whether user mode reaches it, whether a store in user mode goes
   through, and what it was mapped with: a fork must copy it unless it is `cow` and not `noshare`.
   */
  datatype Mapping = Mapping(page: Page, user: bool, writable: bool, cow: bool, noshare: bool)

  predicate Private(m: Mapping)
  {
    !m.cow || m.noshare
  }

  function Stored(m: Mapping, offset: Offset, value: Byte): Mapping
  {
    m.(page := Poke(m.page, offset, value))
  }

  /** What entry `j` of table `t` gives access to. A user page can always be written, if need be after a fault. */
  function Content(s: Machine, t: nat, j: nat): Option<Mapping>
    requires WellFormed(s)
  {
    if HasSlot(s, t, j) && SlotAt(s, t, j).present
    then
      var slot := SlotAt(s, t, j);
      var writable := slot.user && (t !in s.kernel || slot.rw);
      Some(Mapping(s.memory[slot.frame], slot.user, writable, slot.cow, slot.noshare))
    else None
  }

  /** No entry but (t, j) reads differently in `r` than it did in `s`. */
  ghost predicate OnlyAffects(s: Machine, r: Machine, t: nat, j: nat)
    requires WellFormed(s) && WellFormed(r)
  {
    forall t': nat, j': nat :: (t', j') != (t, j) ==> Content(r, t', j') == Content(s, t', j')
  }

  ghost function FreeFrames(s: Machine): set<nat>
  {
    set f: nat | 0 <= f < |s.memory| && f !in s.used
  }

  lemma {:induction false} LowestFreeIsFree(used: set<nat>, from: nat, frames: nat)
    requires exists f :: from <= f < frames && f !in used
    ensures from <= LowestFree(used, from, frames) < frames
    ensures LowestFree(used, from, frames) !in used
    ensures forall f :: from <= f < LowestFree(used, from, frames) ==> f in used
    decreases frames - from
  {
    if from in used { LowestFreeIsFree(used, from + 1, frames); }
  }

  /** A frame the search finds is held by nobody. */
  lemma NextFrameIsFresh(s: Machine)
    requires WellFormed(s) && Accounting(s) && FreeFrames(s) != {}
    ensures NextFrame(s) in FreeFrames(s) && NextFrame(s) != 0 && s.refs[NextFrame(s)] == 0
    ensures forall t: nat, j: nat :: HasSlot(s, t, j) ==> s.tables[t][j].frame != NextFrame(s)
  {
    var f :| f in FreeFrames(s);
    LowestFreeIsFree(s.used, 0, |s.memory|);
    var n := NextFrame(s);
    assert 0 in s.used;
    forall t: nat, j: nat | HasSlot(s, t, j) ensures s.tables[t][j].frame != n {
      assert (t, j) !in Holders(s, n);
    }
  }

  /** How the counts must move when an entry goes from frame `a` to frame `b`. */
  ghost predicate CountsFollow(s: Machine, r: Machine, a: nat, b: nat)
  {
    && 0 < |r.refs| == |s.refs|
    && r.refs[0] == 1
    && (forall f :: 1 <= f < |s.refs| ==>
          r.refs[f] == s.refs[f] + (if f == b then 1 else 0) - (if f == a then 1 else 0))
    && (forall f: nat :: f in r.used <==> f < |r.refs| && r.refs[f] > 0)
  }

  lemma AccountingKept(s: Machine, r: Machine, t: nat, j: nat, slot: Slot)
    requires WellFormed(s) && WellFormed(r) && Accounting(s) && HasSlot(s, t, j)
    requires r.tables == s.tables[t := s.tables[t][j := slot]]
    requires CountsFollow(s, r, s.tables[t][j].frame, slot.frame)
    ensures Accounting(r)
  {
    forall f | 1 <= f < |r.refs| ensures r.refs[f] == |Holders(r, f)| {
      HoldersMove(s, r, t, j, slot, f);
    }
  }

  lemma HoldersMove(s: Machine, r: Machine, t: nat, j: nat, slot: Slot, f: nat)
    requires HasSlot(s, t, j) && r.tables == s.tables[t := s.tables[t][j := slot]]
    ensures |Holders(r, f)| == |Holders(s, f)| + (if f == slot.frame then 1 else 0)
                                               - (if f == s.tables[t][j].frame then 1 else 0)
  {
    HoldersAfter(s, r, t, j, slot, f);
    InHolders(s, t, j, f);
  }

  lemma InHolders(s: Machine, t: nat, j: nat, f: nat)
    ensures (t, j) in Holders(s, f) <==> HasSlot(s, t, j) && s.tables[t][j].frame == f
  {
  }

  lemma HoldersAfter(s: Machine, r: Machine, t: nat, j: nat, slot: Slot, f: nat)
    requires HasSlot(s, t, j) && r.tables == s.tables[t := s.tables[t][j := slot]]
    ensures Holders(r, f) == if f == slot.frame then Holders(s, f) + {(t, j)} else Holders(s, f) - {(t, j)}
  {
    forall t': nat, j': nat
      ensures (t', j') in Holders(r, f) <==> if (t', j') == (t, j) then f == slot.frame else (t', j') in Holders(s, f)
    {
      InHolders(s, t', j', f);
      InHolders(r, t', j', f);
    }
  }

  /**
   The one step all routines are made of: entry (t, j) becomes `slot`, the counts follow,
   and memory changes at most in frames that no other entry maps.
   */
  lemma SlotStep(s: Machine, r: Machine, t: nat, j: nat, slot: Slot)
    requires TableInv(s) && HasSlot(s, t, j) && slot.frame < |s.memory|
    requires r.tables == s.tables[t := s.tables[t][j := slot]] && r.kernel == s.kernel && |r.memory| == |s.memory|
    requires CountsFollow(s, r, s.tables[t][j].frame, slot.frame)
    requires if t in s.kernel then KernelSlot(slot) else UserSlot(slot)
    requires slot.present && slot.rw ==> SoleHolder(s, t, j, slot.frame)
    requires slot.present ==> OthersReadOnly(s, t, j, slot.frame)
    requires forall f :: 0 <= f < |s.memory| && r.memory[f] != s.memory[f] ==> SoleHolder(s, t, j, f)
    ensures TableInv(r)
    ensures OnlyAffects(s, r, t, j)
  {
    assert WellFormed(r);
    AccountingKept(s, r, t, j, slot);
    ExclusiveKept(s, r, t, j, slot);
  }

  lemma ExclusiveKept(s: Machine, r: Machine, t: nat, j: nat, slot: Slot)
    requires Exclusive(s) && HasSlot(s, t, j)
    requires r.tables == s.tables[t := s.tables[t][j := slot]]
    requires slot.present && slot.rw ==> SoleHolder(s, t, j, slot.frame)
    requires slot.present ==> OthersReadOnly(s, t, j, slot.frame)
    ensures Exclusive(r)
  {
    forall t1: nat, j1: nat | HasSlot(r, t1, j1) && r.tables[t1][j1].present && r.tables[t1][j1].rw
      ensures SoleHolder(r, t1, j1, r.tables[t1][j1].frame)
    {
      if (t1, j1) != (t, j) { assert SoleHolder(s, t1, j1, s.tables[t1][j1].frame); }
    }
  }

  /** No present entry other than (t, j) maps frame `f` with write access. */
  ghost predicate OthersReadOnly(s: Machine, t: nat, j: nat, f: nat)
  {
    forall t': nat, j': nat :: HasSlot(s, t', j') && (t', j') != (t, j) && s.tables[t'][j'].present &&
      s.tables[t'][j'].rw
      ==> s.tables[t'][j'].frame != f
  }

  // ---- One lemma for each routine ----

  lemma FrameFreeKeeps(s: Machine, t: nat, j: nat)
    requires TableInv(s) && HasSlot(s, t, j)
    ensures TableInv(FrameFree(s, t, j))
    ensures OnlyAffects(s, FrameFree(s, t, j), t, j)
    ensures s.tables[t][j].frame != 0 || t !in s.kernel ==> Content(FrameFree(s, t, j), t, j) == None
  {
    var f := s.tables[t][j].frame;
    if f != 0 {
      assert (t, j) in Holders(s, f);
      SlotStep(s, FrameFree(s, t, j), t, j, Freed(s.tables[t][j]));
    }
  }

  lemma AllocSlotKeeps(s: Machine, t: nat, j: nat, cow: bool, noshare: bool)
    requires TableInv(s) && HasSlot(s, t, j) && FreeFrames(s) != {}
    requires s.tables[t][j].frame == 0 && !s.tables[t][j].present
    ensures TableInv(AllocSlot(s, t, j, cow, noshare))
    ensures OnlyAffects(s, AllocSlot(s, t, j, cow, noshare), t, j)
    ensures Content(AllocSlot(s, t, j, cow, noshare), t, j) ==
            Some(Mapping(s.memory[NextFrame(s)], true, true, cow, noshare))
  {
    NextFrameIsFresh(s);
    var r := AllocSlot(s, t, j, cow, noshare);
    var slot := Allocated(Prepared(s.tables[t][j], cow, noshare), NextFrame(s));
    assert r.tables[t] == s.tables[t][j := slot];
    assert r.tables == s.tables[t := s.tables[t][j := slot]];
    SlotStep(s, r, t, j, slot);
  }

  lemma ProtectKeeps(s: Machine, t: nat, j: nat)
    requires TableInv(s) && HasSlot(s, t, j) && t !in s.kernel
    requires s.tables[t][j].present && Shares(s.tables[t][j])
    ensures TableInv(SetSlot(s, t, j, Protected(s.tables[t][j])))
    ensures OnlyAffects(s, SetSlot(s, t, j, Protected(s.tables[t][j])), t, j)
  {
    SlotStep(s, SetSlot(s, t, j, Protected(s.tables[t][j])), t, j, Protected(s.tables[t][j]));
  }

  lemma ShareSlotKeeps(s: Machine, src: nat, dst: nat, j: nat)
    requires TableInv(s) && HasSlot(s, src, j) && HasSlot(s, dst, j) && src != dst
    requires src !in s.kernel && dst !in s.kernel
    requires s.tables[src][j].present && Shares(s.tables[src][j]) && !s.tables[dst][j].present
    ensures TableInv(ShareSlot(s, src, dst, j))
    ensures OnlyAffects(s, ShareSlot(s, src, dst, j), dst, j)
    ensures Content(ShareSlot(s, src, dst, j), dst, j) == Content(s, src, j)
    ensures FreeFrames(ShareSlot(s, src, dst, j)) == FreeFrames(s)
  {
    var slot := Protected(s.tables[src][j]);
    var s1 := SetSlot(s, src, j, slot);
    ProtectKeeps(s, src, j);
    assert (src, j) in Holders(s1, slot.frame);
    SlotStep(s1, ShareSlot(s, src, dst, j), dst, j, slot);
  }

  lemma CopySlotKeeps(s: Machine, src: nat, dst: nat, j: nat)
    requires TableInv(s) && HasSlot(s, src, j) && HasSlot(s, dst, j) && src != dst
    requires src !in s.kernel && dst !in s.kernel
    requires s.tables[src][j].present && !Shares(s.tables[src][j]) && !s.tables[dst][j].present
    requires FreeFrames(s) != {}
    ensures TableInv(CopySlot(s, src, dst, j))
    ensures OnlyAffects(s, CopySlot(s, src, dst, j), dst, j)
    ensures Content(CopySlot(s, src, dst, j), dst, j) == Content(s, src, j)
    ensures FreeFrames(CopySlot(s, src, dst, j)) == FreeFrames(s) - {NextFrame(s)}
  {
    NextFrameIsFresh(s);
    var slot := Copied(s.tables[src][j], NextFrame(s));
    var r := CopySlot(s, src, dst, j);
    assert r.tables[dst] == s.tables[dst][j := slot];
    assert r.tables == s.tables[dst := s.tables[dst][j := slot]];
    SlotStep(s, r, dst, j, slot);
  }

  /** A frame whose count is not one is held by another entry, so the bare decrement leaves it counted. */
  lemma BreakSharingKeeps(s: Machine, t: nat, j: nat)
    requires TableInv(s) && HasSlot(s, t, j) && t !in s.kernel && FreeFrames(s) != {}
    requires s.tables[t][j].present && !s.tables[t][j].commited && s.refs[s.tables[t][j].frame] != 1
    ensures TableInv(BreakSharing(s, t, j))
    ensures OnlyAffects(s, BreakSharing(s, t, j), t, j)
    ensures Content(BreakSharing(s, t, j), t, j) == Content(s, t, j)
    ensures SlotAt(BreakSharing(s, t, j), t, j).present && SlotAt(BreakSharing(s, t, j), t, j).rw
    ensures BreakSharing(s, t, j).kernel == s.kernel && BreakSharing(s, t, j).tables.Keys == s.tables.Keys
    ensures BreakSharing(s, t, j).refs[s.tables[t][j].frame] >= 1
  {
    NextFrameIsFresh(s);
    var f := s.tables[t][j].frame;
    assert (t, j) in Holders(s, f);
    var slot := Writable(Allocated(Detached(s.tables[t][j]), NextFrame(s)));
    var r := BreakSharing(s, t, j);
    assert r.tables[t] == s.tables[t][j := slot];
    assert r.tables == s.tables[t := s.tables[t][j := slot]];
    SlotStep(s, r, t, j, slot);
  }

  /** The last holder of a frame takes it back without a copy. */
  lemma ClaimKeeps(s: Machine, t: nat, j: nat)
    requires TableInv(s) && HasSlot(s, t, j)
    requires !s.tables[t][j].commited && s.refs[s.tables[t][j].frame] == 1
    ensures TableInv(Claim(s, t, j))
    ensures OnlyAffects(s, Claim(s, t, j), t, j)
    ensures Content(Claim(s, t, j), t, j) == Content(s, t, j)
  {
    var slot := s.tables[t][j];
    assert slot.present ==> t !in s.kernel;
    if slot.present { CountedOnce(s, t, j); }
    SlotStep(s, Claim(s, t, j), t, j, Claimed(slot));
  }

  lemma CountedOnce(s: Machine, t: nat, j: nat)
    requires WellFormed(s) && Accounting(s) && HasSlot(s, t, j)
    requires s.tables[t][j].frame != 0 && s.refs[s.tables[t][j].frame] == 1
    ensures SoleHolder(s, t, j, s.tables[t][j].frame)
  {
    var f := s.tables[t][j].frame;
    assert (t, j) in Holders(s, f);
    forall t': nat, j': nat | HasSlot(s, t', j') && s.tables[t'][j'].frame == f ensures (t', j') == (t, j) {
      OneElement(Holders(s, f), (t, j), (t', j'));
    }
  }

  lemma OneElement<T>(xs: set<T>, a: T, b: T)
    requires |xs| == 1 && a in xs && b in xs
    ensures a == b
  {
    assert |xs - {a}| == 0;
    assert b !in xs - {a};
  }

  lemma StoreKeeps(s: Machine, t: nat, j: nat, offset: Offset, value: Byte)
    requires TableInv(s) && HasSlot(s, t, j)
    requires s.tables[t][j].present && s.tables[t][j].rw
    ensures TableInv(Store(s, s.tables[t][j].frame, offset, value))
    ensures OnlyAffects(s, Store(s, s.tables[t][j].frame, offset, value), t, j)
    ensures Content(Store(s, s.tables[t][j].frame, offset, value), t, j) ==
            Some(Stored(Content(s, t, j).value, offset, value))
  {
    var r := Store(s, s.tables[t][j].frame, offset, value);
    assert s.tables[t][j := s.tables[t][j]] == s.tables[t];
    assert r.tables == s.tables[t := s.tables[t][j := s.tables[t][j]]];
    SlotStep(s, r, t, j, s.tables[t][j]);
  }

  /** The count that a write fault lowers without looking is never the last one. */
  lemma LoweredCountStaysPositive(s: Machine, t: nat, j: nat)
    requires WellFormed(s) && Accounting(s) && HasSlot(s, t, j)
    requires s.tables[t][j].frame != 0 && s.refs[s.tables[t][j].frame] != 1
    ensures s.refs[s.tables[t][j].frame] - 1 >= 1
  {
    var f := s.tables[t][j].frame;
    InHolders(s, t, j, f);
    assert s.refs[f] == |Holders(s, f)|;
  }

  /** A frame with two entries is write-protected in both. */
  lemma SharedIsReadOnly(s: Machine, t: nat, j: nat, t': nat, j': nat)
    requires TableInv(s) && HasSlot(s, t, j) && HasSlot(s, t', j') && (t, j) != (t', j')
    requires s.tables[t][j].present && s.tables[t'][j'].present && s.tables[t][j].frame == s.tables[t'][j'].frame
    ensures !s.tables[t][j].rw && !s.tables[t'][j'].rw
  {
  }
}

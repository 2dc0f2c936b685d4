/**
 kalloc, kfree, the buffer copy of fork and the release loop of execve, step by
 step on the bitmaps of module Memmaps (kernel/mmu.c, kernel/fork.c,
 kernel/scheduler.c). Mapping and unmapping the pages is not repeated here.
 */
module Kalloc {
  import opened Memmaps
  import opened AddressSpaces

  function PagesFor(sz: nat): nat
  {
    (sz + 0xFFF) / 0x1000
  }

  // ---- In bytes ----

  /** Page `x` holds some of the `sz` bytes from address `a` on, a page boundary. */
  predicate Touched(x: nat, a: nat, sz: nat)
  {
    a < 0x1000 * (x + 1) && 0x1000 * x < a + sz
  }

  /** `sz` bytes from address `a` on lie in the map, in pages that nobody uses. */
  ghost predicate Room(s: Space, a: nat, sz: nat)
  {
    a + sz <= 0x1000 * s.limit && forall x: nat :: Touched(x, a, sz) ==> x !in s.used
  }

  /**
   What a request for `sz` bytes does: it fails when one of the pages asked for is used or no place has
   room, and otherwise makes used exactly the pages that hold the bytes, at the place asked for or the
   lowest with room; a recorded buffer has less than a page more than the bytes.
   */
  ghost predicate AllocBytes(s: Space, vaddr: nat, sz: nat, record: bool, r: nat, s': Space)
  {
    if r == 0 then s' == s && if vaddr != 0 then !Room(s, vaddr, sz) else forall p: nat :: !Room(s, 0x1000 * p, sz)
    else
      && Room(s, r, sz) && (forall x: nat :: x in s'.used <==> x in s.used || Touched(x, r, sz))
      && (if vaddr != 0 then r == vaddr else forall p: nat :: Room(s, 0x1000 * p, sz) ==> r <= 0x1000 * p)
      && (record ==>
            exists b :: s'.buffers == s.buffers + [b] && 0x1000 * b.page == r && sz <= 0x1000 * b.pages < sz + 0x1000)
      && (!record ==> s'.buffers == s.buffers)
  }

  lemma PagesHold(sz: nat)
    ensures sz <= 0x1000 * PagesFor(sz) < sz + 0x1000
  {
  }

  lemma TouchedPages(x: nat, p: nat, sz: nat)
    ensures Touched(x, 0x1000 * p, sz) <==> Within(x, p, PagesFor(sz))
  {
    hide PagesFor;
    PagesHold(sz);
  }

  lemma RoomIsUnused(s: Space, p: nat, sz: nat)
    ensures Room(s, 0x1000 * p, sz) <==> Unused(s, p, PagesFor(sz))
  {
    hide PagesFor;
    PagesHold(sz);
    forall x: nat ensures Touched(x, 0x1000 * p, sz) <==> Within(x, p, PagesFor(sz)) { TouchedPages(x, p, sz); }
  }

  /** In pages and in bytes kalloc does the same. */
  lemma AllocInBytes(s: Space, vaddr: nat, sz: nat, record: bool, r: nat, s': Space)
    requires vaddr % 0x1000 == 0 && r % 0x1000 == 0
    requires vaddr != 0 ==> vaddr / 0x1000 + PagesFor(sz) <= s.limit
    requires AllocStep(s, vaddr / 0x1000, PagesFor(sz), record, r / 0x1000, s')
    ensures AllocBytes(s, vaddr, sz, record, r, s')
  {
    hide PagesFor, Room, Unused;
    var n := PagesFor(sz);
    forall p: nat ensures Room(s, 0x1000 * p, sz) <==> Unused(s, p, n) { RoomIsUnused(s, p, sz); }
    assert 0x1000 * (vaddr / 0x1000) == vaddr && 0x1000 * (r / 0x1000) == r;
    if r == 0 {
      if vaddr != 0 {
        TakenIsNotUnused(s, vaddr / 0x1000, n);
        RoomIsUnused(s, vaddr / 0x1000, sz);
      }
    } else {
      forall x: nat ensures Touched(x, r, sz) <==> Within(x, r / 0x1000, n) { TouchedPages(x, r / 0x1000, sz); }
      PagesHold(sz);
      if record { assert s'.buffers == s.buffers + [Buffer(r / 0x1000, n)]; }
    }
  }

  lemma TakenIsNotUnused(s: Space, p: nat, n: nat)
    ensures (exists x: nat :: Within(x, p, n) && x in s.used) ==> !Unused(s, p, n)
  {
  }

  /** The bytes of two buffers never overlap, whatever was asked for of their pages. */
  lemma BytesApart(s: Space, i: nat, j: nat, m: nat, n: nat)
    requires Agrees(s) && i < |s.buffers| && j < |s.buffers| && i != j
    requires m <= 0x1000 * s.buffers[i].pages && n <= 0x1000 * s.buffers[j].pages
    ensures var a, b := 0x1000 * s.buffers[i].page, 0x1000 * s.buffers[j].page; a + m <= b || b + n <= a
  {
    AllApart(s, i);
    assert Apart(s.buffers[j], s.buffers[i]);
  }

  /** Nor do the bytes of a kernel buffer and a process's. */
  lemma KernelBytesApart(sys: System, t: nat, i: nat, j: nat, m: nat, n: nat)
    requires SystemOk(sys) && t < |sys.users| && i < |sys.kernel.buffers| && j < |sys.users[t].buffers|
    requires m <= 0x1000 * sys.kernel.buffers[i].pages && n <= 0x1000 * sys.users[t].buffers[j].pages
    ensures var a, b := 0x1000 * sys.kernel.buffers[i].page, 0x1000 * sys.users[t].buffers[j].page;
            a + m <= b || b + n <= a
  {
    hide SystemOk;
    NoSharedAddress(sys, t, i, j);
  }

  class AddressSpace {
    const memmap: Memmap
    var buffers: seq<Buffer>
    ghost var base: set<nat>

    ghost predicate Valid()
      reads this, memmap
    {
      memmap.Valid()
    }

    ghost function State(): Space
      reads this, memmap, memmap.pagemap
    {
      Space(memmap.Used(), base, buffers, memmap.Limit())
    }

    constructor (pages: nat)
      ensures Valid() && fresh(memmap) && fresh(memmap.pagemap) && State() == Space({}, {}, [], 32 * (pages / 32))
    {
      memmap := new Memmap(pages);
      buffers, base := [], {};
    }

    /** fork: the child gets a copy of the bitmap and of the list. */
    constructor Fork(parent: AddressSpace)
      requires parent.Valid()
      ensures Valid() && fresh(memmap) && fresh(memmap.pagemap) && State() == parent.State()
    {
      memmap := new Memmap.Clone(parent.memmap);
      var copy: seq<Buffer> := [];
      while |copy| < |parent.buffers|
        invariant |copy| <= |parent.buffers| && copy == parent.buffers[..|copy|]
        decreases |parent.buffers| - |copy|
      {
        var b := parent.buffers[|copy|];
        copy := copy + [Buffer(b.page, b.pages)];
      }
      buffers, base := copy, parent.base;
    }

    /** The test for a placed request: is one of the pages taken? */
    method AnyTaken(vaddr: nat, sz: nat) returns (taken: bool)
      requires Valid() && vaddr % 0x1000 == 0 && vaddr / 0x1000 + PagesFor(sz) <= memmap.Limit()
      ensures taken <==> exists x: nat :: Within(x, vaddr / 0x1000, PagesFor(sz)) && x in memmap.Used()
      ensures taken <==> exists x: nat :: Touched(x, vaddr, sz) && x in memmap.Used()
    {
      forall x: nat ensures Touched(x, vaddr, sz) <==> Within(x, vaddr / 0x1000, PagesFor(sz)) {
        TouchedPages(x, vaddr / 0x1000, sz);
      }
      var a, p := vaddr, vaddr / 0x1000;
      while a < vaddr + sz
        invariant a == 0x1000 * p && vaddr / 0x1000 <= p <= vaddr / 0x1000 + PagesFor(sz)
        invariant forall x: nat :: vaddr / 0x1000 <= x < p ==> x !in memmap.Used()
        decreases vaddr + sz - a
      {
        var bit := memmap.TestPage(a);
        if bit != 0 {
          assert Within(p, vaddr / 0x1000, PagesFor(sz));
          return true;
        }
        a, p := a + 0x1000, p + 1;
      }
      taken := false;
    }

    /** The loop that marks the pages of a request. */
    method Mark(vaddr: nat, sz: nat)
      requires Valid() && vaddr % 0x1000 == 0 && vaddr / 0x1000 + PagesFor(sz) <= memmap.Limit()
      modifies memmap.pagemap
      ensures Valid() && memmap.Used() == old(memmap.Used()) + Range(vaddr / 0x1000, PagesFor(sz))
      ensures forall x: nat :: x in memmap.Used() <==> x in old(memmap.Used()) || Touched(x, vaddr, sz)
    {
      forall x: nat ensures Touched(x, vaddr, sz) <==> Within(x, vaddr / 0x1000, PagesFor(sz)) {
        TouchedPages(x, vaddr / 0x1000, sz);
      }
      var a, p := vaddr, vaddr / 0x1000;
      while a < vaddr + sz
        invariant a == 0x1000 * p && vaddr / 0x1000 <= p <= vaddr / 0x1000 + PagesFor(sz)
        invariant memmap.Used() == old(memmap.Used()) + Range(vaddr / 0x1000, p - vaddr / 0x1000)
        decreases vaddr + sz - a
      {
        RangeOneMore(vaddr / 0x1000, p - vaddr / 0x1000);
        memmap.SetPage(a);
        a, p := a + 0x1000, p + 1;
      }
    }

    /** kalloc; `vaddr` 0 leaves the place open, `record` is false for buffers that are never freed. 0 is failure. */
    method Alloc(sz: nat, vaddr: nat, record: bool) returns (r: nat)
      requires Valid() && vaddr % 0x1000 == 0 && (vaddr == 0 ==> sz > 0)
      requires vaddr != 0 ==> vaddr / 0x1000 + PagesFor(sz) <= memmap.Limit()
      requires 0 in memmap.Used()
      modifies this, memmap.pagemap
      ensures Valid() && r % 0x1000 == 0
      ensures AllocStep(old(State()), vaddr / 0x1000, PagesFor(sz), record, r / 0x1000, State())
      ensures AllocBytes(old(State()), vaddr, sz, record, r, State())
    {
      hide AllocBytes, Touched;
      ghost var s, n := State(), PagesFor(sz);
      r := vaddr;
      if vaddr != 0 {
        var taken := AnyTaken(vaddr, sz);
        if taken {
          AllocInBytes(s, vaddr, sz, record, 0, State());
          return 0;
        }
      } else {
        var page := memmap.FindFreePages(PagesFor(sz));
        RunsAreUnused(s, n);
        r := page * 0x1000;
        if r == 0 {
          AllocInBytes(s, vaddr, sz, record, r, State());
          return;
        }
      }
      assert Unused(s, r / 0x1000, n);
      Mark(r, sz);
      if record {
        buffers := buffers + [Buffer(r / 0x1000, PagesFor(sz))];
      } else {
        base := base + Range(r / 0x1000, n);
      }
      AllocInBytes(s, vaddr, sz, record, r, State());
    }

    /** The loop of kfree that clears the pages of a buffer. */
    method Unmark(page: nat, pages: nat)
      requires Valid() && page + pages <= memmap.Limit()
      modifies memmap.pagemap
      ensures Valid() && memmap.Used() == old(memmap.Used()) - Range(page, pages)
    {
      var i := 0;
      var addr := page * 0x1000;
      while i < pages
        invariant i <= pages && addr == (page + i) * 0x1000
        invariant memmap.Used() == old(memmap.Used()) - Range(page, i)
      {
        RangeOneMore(page, i);
        memmap.ClearPage(addr);
        addr := addr + 0x1000;
        i := i + 1;
      }
    }

    /** The search of kfree along a list. */
    method Lookup(page: nat) returns (k: nat)
      ensures k == Find(buffers, page)
    {
      k := 0;
      while k < |buffers| && buffers[k].page != page
        invariant k <= |buffers| && forall i :: 0 <= i < k ==> buffers[i].page != page
      {
        k := k + 1;
      }
      FoundFirst(buffers, page, k);
    }

    method Remove(k: nat)
      requires Valid() && k < |buffers| && buffers[k].page + buffers[k].pages <= memmap.Limit()
      modifies this, memmap.pagemap
      ensures Valid() && State() == Released(old(State()), k)
    {
      Unmark(buffers[k].page, buffers[k].pages);
      buffers := buffers[..k] + buffers[k + 1..];
    }
  }

  lemma RangeOneMore(p: nat, n: nat)
    ensures Range(p, n + 1) == Range(p, n) + {p + n}
  {
    var longer, grown := Range(p, n + 1), Range(p, n) + {p + n};
    forall x: nat ensures x in longer <==> x in grown {
      assert Within(x, p, n + 1) <==> Within(x, p, n) || x == p + n;
    }
  }

  /** The two ways of saying that a run of pages is free. */
  lemma RunsAreUnused(s: Space, n: nat)
    ensures forall p: nat :: FreeRun(s.used, s.limit, p, n) <==> Unused(s, p, n)
  {
    forall p: nat ensures FreeRun(s.used, s.limit, p, n) <==> Unused(s, p, n) {
      if Unused(s, p, n) {
        forall x | p <= x < p + n ensures x !in s.used { assert Within(x, p, n); }
      }
    }
  }

  lemma {:induction false} FoundFirst(buffers: seq<Buffer>, page: nat, k: nat)
    requires k <= |buffers| && (k < |buffers| ==> buffers[k].page == page)
    requires forall i :: 0 <= i < k ==> buffers[i].page != page
    ensures Find(buffers, page) == k
  {
    if buffers != [] && buffers[0].page != page { FoundFirst(buffers[1..], page, k - 1); }
  }

  /** What kfree does for a task, as the two spaces it looks at. */
  ghost function FreedPair(kernel: Space, user: Space, page: nat): (r: (Space, Space))
  {
    var sys := Freed(System(kernel, [user], 0), 0, page);
    (sys.kernel, sys.users[0])
  }

  ghost predicate Fitting(s: Space)
  {
    forall k :: 0 <= k < |s.buffers| ==> s.buffers[k].page + s.buffers[k].pages <= s.limit
  }

  /** kfree; the address is one of the kernel's buffers or one of the process's. */
  method Free(kernel: AddressSpace, user: AddressSpace, ptr: nat)
    requires kernel.Valid() && user.Valid() && kernel != user && kernel.memmap != user.memmap
    requires kernel.memmap.pagemap != user.memmap.pagemap
    requires Fitting(kernel.State()) && Fitting(user.State()) && ptr % 0x1000 == 0
    requires Find(kernel.buffers, ptr / 0x1000) < |kernel.buffers| || Find(user.buffers, ptr / 0x1000) < |user.buffers|
    modifies kernel, user, kernel.memmap.pagemap, user.memmap.pagemap
    ensures kernel.Valid() && user.Valid()
    ensures (kernel.State(), user.State()) == FreedPair(old(kernel.State()), old(user.State()), ptr / 0x1000)
  {
    var k := kernel.Lookup(ptr / 0x1000);
    if k < |kernel.buffers| {
      kernel.Remove(k);
    } else {
      k := user.Lookup(ptr / 0x1000);
      user.Remove(k);
    }
  }

  /** The loop at the start of execve. */
  method ReleaseBuffers(kernel: AddressSpace, user: AddressSpace, ghost end: nat)
    requires kernel.Valid() && user.Valid() && kernel != user && kernel.memmap != user.memmap
    requires kernel.memmap.pagemap != user.memmap.pagemap
    requires SystemOk(System(kernel.State(), [user.State()], end))
    modifies kernel, user, kernel.memmap.pagemap, user.memmap.pagemap
    ensures kernel.Valid() && user.Valid() && kernel.State() == old(kernel.State())
    ensures user.State() == old(user.State()).(used := old(user.base), buffers := [])
  {
    ghost var sys := System(kernel.State(), [user.State()], end);
    ReleasedAllIsBase(sys, 0);
    ghost var all := ReleasedAll(sys, 0);
    while user.buffers != []
      invariant kernel.Valid() && user.Valid()
      invariant SystemOk(System(kernel.State(), [user.State()], end))
      invariant ReleasedAll(System(kernel.State(), [user.State()], end), 0) == all
      decreases |user.buffers|
    {
      ghost var now := System(kernel.State(), [user.State()], end);
      AllFit(now);
      FreedOk(now, 0, user.buffers[0].page);
      FreesOwnBuffer(now, 0, 0);
      FreedHere(now, user.buffers[0].page);
      Free(kernel, user, user.buffers[0].page * 0x1000);
    }
  }

  lemma AllFit(sys: System)
    requires SystemOk(sys) && |sys.users| == 1
    ensures Fitting(sys.kernel) && Fitting(sys.users[0])
  {
    assert UserOk(sys, sys.users[0]);
    forall k | 0 <= k < |sys.kernel.buffers|
      ensures sys.kernel.buffers[k].page + sys.kernel.buffers[k].pages <= sys.kernel.limit
    {
      assert BufferOk(sys.kernel, sys.kernel.buffers[k]);
    }
    forall k | 0 <= k < |sys.users[0].buffers|
      ensures sys.users[0].buffers[k].page + sys.users[0].buffers[k].pages <= sys.users[0].limit
    {
      assert BufferOk(sys.users[0], sys.users[0].buffers[k]);
    }
  }

  lemma FreedHere(sys: System, page: nat)
    requires |sys.users| == 1
    ensures FreedPair(sys.kernel, sys.users[0], page) == (Freed(sys, 0, page).kernel, Freed(sys, 0, page).users[0])
    ensures Freed(sys, 0, page) == System(Freed(sys, 0, page).kernel, [Freed(sys, 0, page).users[0]], sys.end)
  {
  }
}

/**
 The page bitmap and the list of live buffers that kalloc and kfree keep for the
 kernel and for every task (kernel/mmu.c), in whole pages.

 `base` are the pages that are reserved for good: what was in use at the start,
 for a task the whole of the kernel's part, and buffers asked for without a record.
 */
module AddressSpaces {

  /** A buffer by its first page and its number of pages. */
  datatype Buffer = Buffer(page: nat, pages: nat)

  datatype Space = Space(used: set<nat>, base: set<nat>, buffers: seq<Buffer>, limit: nat)

  predicate Within(x: int, p: int, n: int)
  {
    p <= x < p + n
  }

  function Range(p: nat, n: nat): (r: set<nat>)
    ensures forall x: nat :: x in r <==> Within(x, p, n)
  {
    set x: nat | p <= x < p + n && Within(x, p, n)
  }

  predicate Covers(b: Buffer, x: nat)
  {
    Within(x, b.page, b.pages)
  }

  predicate Apart(a: Buffer, b: Buffer)
  {
    a.page + a.pages <= b.page || b.page + b.pages <= a.page
  }

  predicate InSome(buffers: seq<Buffer>, x: nat)
  {
    exists k :: 0 <= k < |buffers| && Covers(buffers[k], x)
  }

  predicate BufferOk(s: Space, b: Buffer)
  {
    b.pages > 0 && b.page + b.pages <= s.limit && forall x: nat :: Covers(b, x) ==> x !in s.base
  }

  /** The bitmap marks the reserved pages and the pages of the recorded buffers, which are disjoint. */
  ghost predicate Agrees(s: Space)
  {
    && 0 in s.base
    && (forall x: nat :: x in s.used <==> x in s.base || InSome(s.buffers, x))
    && (forall k :: 0 <= k < |s.buffers| ==> BufferOk(s, s.buffers[k]))
    && (forall i, j :: 0 <= i < j < |s.buffers| ==> Apart(s.buffers[i], s.buffers[j]))
  }

  // ---- Allocation ----

  ghost predicate Unused(s: Space, p: nat, n: nat)
  {
    p + n <= s.limit && forall x: nat :: Within(x, p, n) ==> x !in s.used
  }

  /** The pages from `p` on become a buffer, or are reserved when no record is kept. */
  function Allocated(s: Space, p: nat, n: nat, record: bool): Space
  {
    if record then s.(used := s.used + Range(p, n), buffers := s.buffers + [Buffer(p, n)])
    else s.(used := s.used + Range(p, n), base := s.base + Range(p, n))
  }

  /**
   What kalloc may do for `n` pages: at page `at`, or with 0 at the lowest place that is free.
   The result 0 is failure.
   */
  ghost predicate AllocStep(s: Space, at: nat, n: nat, record: bool, r: nat, s': Space)
  {
    if r == 0
    then && s' == s
         && (if at != 0 then exists x: nat :: Within(x, at, n) && x in s.used else forall p: nat :: !Unused(s, p, n))
    else && s' == Allocated(s, r, n, record) && Unused(s, r, n)
         && (if at != 0 then r == at else forall p: nat :: Unused(s, p, n) ==> r <= p)
  }

  lemma AllocatedAgrees(s: Space, p: nat, n: nat, record: bool)
    requires Agrees(s) && n > 0 && Unused(s, p, n)
    ensures Agrees(Allocated(s, p, n, record))
  {
    var r := Allocated(s, p, n, record);
    forall x: nat ensures x in r.used <==> x in r.base || InSome(r.buffers, x) {
      assert x in s.used <==> x in s.base || InSome(s.buffers, x);
      if record {
        AppendedSome(s.buffers, Buffer(p, n), x);
      }
    }
    forall k | 0 <= k < |r.buffers| ensures BufferOk(r, r.buffers[k]) {
      if k < |s.buffers| { NotInBuffer(s, p, n, k); }
    }
    forall k | 0 <= k < |s.buffers| ensures Apart(s.buffers[k], Buffer(p, n)) {
      NotInBuffer(s, p, n, k);
    }
  }

  lemma AppendedSome(buffers: seq<Buffer>, b: Buffer, x: nat)
    ensures InSome(buffers + [b], x) <==> InSome(buffers, x) || Covers(b, x)
  {
    var r := buffers + [b];
    if InSome(buffers, x) {
      var k :| 0 <= k < |buffers| && Covers(buffers[k], x);
      assert Covers(r[k], x);
    }
    if Covers(b, x) { assert Covers(r[|buffers|], x); }
  }

  lemma NotInBuffer(s: Space, p: nat, n: nat, k: nat)
    requires Agrees(s) && n > 0 && Unused(s, p, n) && k < |s.buffers|
    ensures Apart(s.buffers[k], Buffer(p, n)) && BufferOk(s, s.buffers[k])
    ensures forall x: nat :: Covers(s.buffers[k], x) ==> !Within(x, p, n)
  {
    var b := s.buffers[k];
    assert BufferOk(s, b);
    forall x: nat | Covers(b, x) ensures !Within(x, p, n) {
      assert InSome(s.buffers, x);
    }
    assert Covers(b, b.page) && Within(p, p, n);
    assert Covers(b, p) || Within(b.page, p, n) || Apart(b, Buffer(p, n));
  }

  // ---- Release ----

  function Without(buffers: seq<Buffer>, k: nat): (r: seq<Buffer>)
    requires k < |buffers|
    ensures |r| == |buffers| - 1 && forall i :: 0 <= i < |r| ==> r[i] == buffers[if i < k then i else i + 1]
  {
    buffers[..k] + buffers[k + 1..]
  }

  function Released(s: Space, k: nat): Space
    requires k < |s.buffers|
  {
    s.(used := s.used - Range(s.buffers[k].page, s.buffers[k].pages), buffers := Without(s.buffers, k))
  }

  lemma WithoutSome(buffers: seq<Buffer>, k: nat, x: nat)
    requires k < |buffers| && forall i :: 0 <= i < |buffers| && i != k ==> Apart(buffers[i], buffers[k])
    ensures InSome(Without(buffers, k), x) <==> InSome(buffers, x) && !Covers(buffers[k], x)
  {
    hide Without;
    var r := Without(buffers, k);
    if InSome(buffers, x) && !Covers(buffers[k], x) {
      var i :| 0 <= i < |buffers| && Covers(buffers[i], x);
      assert Covers(r[if i < k then i else i - 1], x);
    }
    if InSome(r, x) {
      var i :| 0 <= i < |r| && Covers(r[i], x);
      assert Covers(buffers[if i < k then i else i + 1], x);
    }
  }

  lemma AllApart(s: Space, k: nat)
    requires Agrees(s) && k < |s.buffers|
    ensures forall i :: 0 <= i < |s.buffers| && i != k ==> Apart(s.buffers[i], s.buffers[k])
  {
    forall i | 0 <= i < |s.buffers| && i != k ensures Apart(s.buffers[i], s.buffers[k]) {
      assert Apart(s.buffers[if i < k then i else k], s.buffers[if i < k then k else i]);
    }
  }

  /** Taking one buffer out of the list and its pages out of the bitmap keeps the two in step. */
  lemma ReleasedAgrees(s: Space, k: nat)
    requires Agrees(s) && k < |s.buffers|
    ensures Agrees(Released(s, k))
  {
    hide Without;
    var r := Released(s, k);
    AllApart(s, k);
    assert BufferOk(s, s.buffers[k]);
    forall x: nat ensures x in r.used <==> x in r.base || InSome(r.buffers, x) {
      WithoutSome(s.buffers, k, x);
      assert x in s.used <==> x in s.base || InSome(s.buffers, x);
    }
    forall i, j | 0 <= i < j < |r.buffers| ensures Apart(r.buffers[i], r.buffers[j]) {
      assert Apart(s.buffers[if i < k then i else i + 1], s.buffers[if j < k then j else j + 1]);
    }
  }

  /** Buffers of one space have different addresses. */
  lemma AddressesDiffer(s: Space, i: nat, j: nat)
    requires Agrees(s) && i < j < |s.buffers|
    ensures s.buffers[i].page != s.buffers[j].page
  {
    assert Apart(s.buffers[i], s.buffers[j]) && BufferOk(s, s.buffers[i]) && BufferOk(s, s.buffers[j]);
  }

  /** kalloc and kfree of the result leave the space as it was. */
  lemma AllocThenRelease(s: Space, p: nat, n: nat)
    requires Agrees(s) && n > 0 && Unused(s, p, n)
    ensures Released(Allocated(s, p, n, true), |s.buffers|) == s
  {
    var r := Allocated(s, p, n, true);
    assert Without(r.buffers, |s.buffers|) == s.buffers;
    assert r.used - Range(p, n) == s.used;
  }

  // ---- The kernel and its tasks ----

  /** `users` are the spaces of processes; the kernel's pages end at `end`. */
  datatype System = System(kernel: Space, users: seq<Space>, end: nat)

  ghost predicate UserOk(sys: System, u: Space)
  {
    Agrees(u) && forall x: nat :: x < sys.end ==> x in u.base
  }

  ghost predicate SystemOk(sys: System)
  {
    && Agrees(sys.kernel) && sys.kernel.limit <= sys.end
    && forall t :: 0 <= t < |sys.users| ==> UserOk(sys, sys.users[t])
  }

  /** No address is both a kernel buffer and a task's buffer. */
  lemma NoSharedAddress(sys: System, t: nat, i: nat, j: nat)
    requires SystemOk(sys) && t < |sys.users| && i < |sys.kernel.buffers| && j < |sys.users[t].buffers|
    ensures sys.kernel.buffers[i].page != sys.users[t].buffers[j].page
    ensures Apart(sys.kernel.buffers[i], sys.users[t].buffers[j])
  {
    var a, b := sys.kernel.buffers[i], sys.users[t].buffers[j];
    assert UserOk(sys, sys.users[t]);
    assert BufferOk(sys.kernel, a) && BufferOk(sys.users[t], b);
    assert Covers(b, b.page);
  }

  function Find(buffers: seq<Buffer>, page: nat): (k: nat)
    ensures k <= |buffers| && (k < |buffers| ==> buffers[k].page == page)
    ensures forall i :: 0 <= i < k ==> buffers[i].page != page
  {
    if buffers == [] then 0 else if buffers[0].page == page then 0 else 1 + Find(buffers[1..], page)
  }

  /** kfree for task `t`: the kernel's buffers are searched first. */
  function Freed(sys: System, t: nat, page: nat): System
    requires t < |sys.users|
  {
    var k := Find(sys.kernel.buffers, page);
    var j := Find(sys.users[t].buffers, page);
    if k < |sys.kernel.buffers| then sys.(kernel := Released(sys.kernel, k))
    else if j < |sys.users[t].buffers| then sys.(users := sys.users[t := Released(sys.users[t], j)])
    else sys
  }

  lemma FreedOk(sys: System, t: nat, page: nat)
    requires SystemOk(sys) && t < |sys.users|
    ensures SystemOk(Freed(sys, t, page))
  {
    hide Agrees;
    assert UserOk(sys, sys.users[t]);
    var r := Freed(sys, t, page);
    var k := Find(sys.kernel.buffers, page);
    var j := Find(sys.users[t].buffers, page);
    if k < |sys.kernel.buffers| { ReleasedAgrees(sys.kernel, k); }
    else if j < |sys.users[t].buffers| { ReleasedAgrees(sys.users[t], j); }
    forall i | 0 <= i < |r.users| ensures UserOk(r, r.users[i]) { assert UserOk(sys, sys.users[i]); }
  }

  /** Freeing a task's own buffer frees that buffer. */
  lemma FreesOwnBuffer(sys: System, t: nat, j: nat)
    requires SystemOk(sys) && t < |sys.users| && j < |sys.users[t].buffers|
    ensures Freed(sys, t, sys.users[t].buffers[j].page) == sys.(users := sys.users[t := Released(sys.users[t], j)])
  {
    var page := sys.users[t].buffers[j].page;
    assert UserOk(sys, sys.users[t]);
    forall k | 0 <= k < |sys.kernel.buffers| ensures sys.kernel.buffers[k].page != page {
      NoSharedAddress(sys, t, k, j);
    }
    forall i | 0 <= i < j ensures sys.users[t].buffers[i].page != page { AddressesDiffer(sys.users[t], i, j); }
  }

  /** What is left of a space when the buffer at position `k` is gone: the others in order, and all other pages. */
  ghost predicate Lost(s: Space, r: Space, k: nat)
    requires k < |s.buffers|
  {
    && r.buffers == s.buffers[..k] + s.buffers[k + 1..] && r.base == s.base && r.limit == s.limit
    && var b := s.buffers[k];
    forall x: nat :: x in r.used <==> x in s.used && !(b.page <= x < b.page + b.pages)
  }

  /** kfree of a process's buffer takes that buffer out of its list and map, and leaves everything else. */
  lemma FreesExactly(sys: System, t: nat, j: nat)
    requires SystemOk(sys) && t < |sys.users| && j < |sys.users[t].buffers|
    ensures var r := Freed(sys, t, sys.users[t].buffers[j].page);
            && |r.users| == |sys.users| && Lost(sys.users[t], r.users[t], j)
            && r.kernel == sys.kernel && r.end == sys.end
            && forall i :: 0 <= i < |sys.users| && i != t ==> r.users[i] == sys.users[i]
  {
    FreesOwnBuffer(sys, t, j);
    var b := sys.users[t].buffers[j];
    assert forall x: nat :: x in Range(b.page, b.pages) <==> Within(x, b.page, b.pages);
  }

  /** kfree of a kernel buffer, from any process, takes that buffer out of the kernel's. */
  lemma FreesKernelBuffer(sys: System, t: nat, k: nat)
    requires SystemOk(sys) && t < |sys.users| && k < |sys.kernel.buffers|
    ensures var r := Freed(sys, t, sys.kernel.buffers[k].page);
            Lost(sys.kernel, r.kernel, k) && r.users == sys.users && r.end == sys.end
  {
    var b := sys.kernel.buffers[k];
    forall i | 0 <= i < k ensures sys.kernel.buffers[i].page != b.page { AddressesDiffer(sys.kernel, i, k); }
    assert forall x: nat :: x in Range(b.page, b.pages) <==> Within(x, b.page, b.pages);
  }

  /** The loop of execve: free the first buffer of a process until there is none. */
  function ReleasedAll(sys: System, t: nat): (r: System)
    requires SystemOk(sys) && t < |sys.users|
    decreases |sys.users[t].buffers|
  {
    if sys.users[t].buffers == [] then sys
    else
      FreedOk(sys, t, sys.users[t].buffers[0].page);
      FreesOwnBuffer(sys, t, 0);
      ReleasedAll(Freed(sys, t, sys.users[t].buffers[0].page), t)
  }

  /** It ends with that process's bitmap back at its reserved pages, and nothing else changed. */
  lemma {:induction false} ReleasedAllIsBase(sys: System, t: nat)
    requires SystemOk(sys) && t < |sys.users|
    ensures var u := sys.users[t].(used := sys.users[t].base, buffers := []);
            ReleasedAll(sys, t) == sys.(users := sys.users[t := u])
    decreases |sys.users[t].buffers|
  {
    var u := sys.users[t];
    assert UserOk(sys, u);
    if u.buffers == [] {
      assert u.used == u.base;
      assert sys.users[t := u] == sys.users;
    } else {
      FreedOk(sys, t, u.buffers[0].page);
      FreesOwnBuffer(sys, t, 0);
      ReleasedAllIsBase(Freed(sys, t, u.buffers[0].page), t);
    }
  }

  // ---- Runs ----

  datatype Call =
    | KallocKernel(at: nat, n: nat, record: bool, r: nat)
    | KallocUser(t: nat, at: nat, n: nat, record: bool, r: nat)
    | Kfree(t: nat, page: nat)
    | Fork(t: nat)
    | Exec(t: nat)

  /** One call; every allocation asks for at least a page. */
  ghost predicate Step(sys: System, c: Call, sys': System)
    requires SystemOk(sys)
  {
    match c
    case KallocKernel(at, n, record, r) =>
      n > 0 && AllocStep(sys.kernel, at, n, record, r, sys'.kernel) && sys' == sys.(kernel := sys'.kernel)
    case KallocUser(t, at, n, record, r) =>
      && n > 0 && t < |sys.users| && t < |sys'.users| && AllocStep(sys.users[t], at, n, record, r, sys'.users[t])
      && sys' == sys.(users := sys.users[t := sys'.users[t]])
    case Kfree(t, page) => t < |sys.users| && sys' == Freed(sys, t, page)
    case Fork(t) => t < |sys.users| && sys' == sys.(users := sys.users + [sys.users[t]])
    case Exec(t) => t < |sys.users| && sys' == ReleasedAll(sys, t)
  }

  lemma StepOk(sys: System, c: Call, sys': System)
    requires SystemOk(sys) && Step(sys, c, sys')
    ensures SystemOk(sys')
  {
    match c
    case KallocKernel(at, n, record, r) =>
      if r != 0 { AllocatedAgrees(sys.kernel, r, n, record); }
      AllUsersOk(sys, sys');
    case KallocUser(t, at, n, record, r) => UserAllocOk(sys, t, at, n, record, r, sys');
    case Kfree(t, page) => FreedOk(sys, t, page);
    case Fork(t) => ForkOk(sys, t);
    case Exec(t) =>
      ReleasedAllIsBase(sys, t);
      BaseOk(sys, t);
  }

  lemma AllUsersOk(sys: System, sys': System)
    requires SystemOk(sys) && sys'.users == sys.users && sys'.end == sys.end
    ensures forall t :: 0 <= t < |sys'.users| ==> UserOk(sys', sys'.users[t])
  {
    forall t | 0 <= t < |sys'.users| ensures UserOk(sys', sys'.users[t]) { assert UserOk(sys, sys.users[t]); }
  }

  lemma UserAllocOk(sys: System, t: nat, at: nat, n: nat, record: bool, r: nat, sys': System)
    requires SystemOk(sys) && Step(sys, KallocUser(t, at, n, record, r), sys')
    ensures SystemOk(sys')
  {
    assert UserOk(sys, sys.users[t]);
    if r != 0 { AllocatedAgrees(sys.users[t], r, n, record); }
    hide Agrees;
    forall i | 0 <= i < |sys'.users| ensures UserOk(sys', sys'.users[i]) { assert UserOk(sys, sys.users[i]); }
  }

  lemma ForkOk(sys: System, t: nat)
    requires SystemOk(sys) && t < |sys.users|
    ensures SystemOk(sys.(users := sys.users + [sys.users[t]]))
  {
    hide Agrees;
    var r := sys.(users := sys.users + [sys.users[t]]);
    forall i | 0 <= i < |r.users|
      ensures UserOk(r, r.users[i])
    {
      assert UserOk(sys, sys.users[if i < |sys.users| then i else t]);
    }
  }

  lemma BaseOk(sys: System, t: nat)
    requires SystemOk(sys) && t < |sys.users|
    ensures SystemOk(sys.(users := sys.users[t := sys.users[t].(used := sys.users[t].base, buffers := [])]))
  {
    var u := sys.users[t].(used := sys.users[t].base, buffers := []);
    assert UserOk(sys, sys.users[t]);
    assert Agrees(u);
    hide Agrees;
    var r := sys.(users := sys.users[t := u]);
    forall i | 0 <= i < |r.users| ensures UserOk(r, r.users[i]) { assert UserOk(sys, sys.users[i]); }
  }

  /** The maps after start-up: the kernel's own pages are in use, and for tasks all of the kernel's part. */
  function Boot(placed: nat, end: nat, limit: nat): System
  {
    System(Space(Range(0, placed), Range(0, placed), [], end), [Space(Range(0, end), Range(0, end), [], limit)], end)
  }

  ghost predicate Run(placed: nat, end: nat, limit: nat, ss: seq<System>, calls: seq<Call>)
  {
    && |ss| == |calls| + 1 && ss[0] == Boot(placed, end, limit)
    && forall i :: 0 <= i < |calls| ==> SystemOk(ss[i]) ==> Step(ss[i], calls[i], ss[i + 1])
  }

  /** In every run bitmap and buffer lists agree, in the kernel and in every task. */
  lemma {:induction false} RunsAgree(placed: nat, end: nat, limit: nat, ss: seq<System>, calls: seq<Call>, i: nat)
    requires 0 < placed <= end && Run(placed, end, limit, ss, calls) && i <= |calls|
    ensures SystemOk(ss[i])
    decreases i
  {
    if i == 0 {
      BootOk(placed, end, limit);
    } else {
      hide SystemOk, Step;
      RunsAgree(placed, end, limit, ss, calls, i - 1);
      assert Step(ss[i - 1], calls[i - 1], ss[i - 1 + 1]);
      StepOk(ss[i - 1], calls[i - 1], ss[i]);
    }
  }

  lemma BootOk(placed: nat, end: nat, limit: nat)
    requires 0 < placed <= end
    ensures SystemOk(Boot(placed, end, limit))
  {
    var sys := Boot(placed, end, limit);
    assert Within(0, 0, placed) && Within(0, 0, end);
    assert Agrees(sys.kernel) && Agrees(sys.users[0]);
    assert forall x: nat :: x < end ==> Within(x, 0, end);
  }

  // ---- Requests for no bytes ----

  /** Neither the kernel nor process `t` has a buffer at page `p`. */
  predicate NoneAt(sys: System, t: nat, p: nat)
    requires t < |sys.users|
  {
    && Find(sys.kernel.buffers, p) == |sys.kernel.buffers|
    && Find(sys.users[t].buffers, p) == |sys.users[t].buffers|
  }

  lemma UnusedIsFresh(sys: System, t: nat, p: nat, n: nat)
    requires SystemOk(sys) && t < |sys.users| && n > 0 && Unused(sys.users[t], p, n)
    ensures NoneAt(sys, t, p)
  {
    var u := sys.users[t];
    assert UserOk(sys, u) && Within(p, p, n);
    assert p in u.used <==> p in u.base || InSome(u.buffers, p);
    forall j | 0 <= j < |u.buffers| ensures u.buffers[j].page != p { NotInBuffer(u, p, n, j); }
  }

  lemma FindLast(buffers: seq<Buffer>, b: Buffer)
    ensures Find(buffers + [b], b.page) == Find(buffers, b.page)
  {
    var i, j, all := Find(buffers, b.page), Find(buffers + [b], b.page), buffers + [b];
    assert all[|buffers|] == b;
    assert i < |buffers| ==> all[i] == buffers[i];
    assert j < |buffers| ==> all[j] == buffers[j];
    assert forall k :: 0 <= k < |buffers| ==> all[k] == buffers[k];
  }

  /**
   A placed request for no bytes passes every test. Freeing what a task's recorded request gave
   takes the system back to what it was exactly when the request was for some bytes, or no
   buffer was at its address.
   */
  lemma EmptyRequest(sys: System, t: nat, p: nat, n: nat)
    requires SystemOk(sys) && t < |sys.users| && Unused(sys.users[t], p, n)
    ensures var sys' := sys.(users := sys.users[t := Allocated(sys.users[t], p, n, true)]);
            Freed(sys', t, p) == sys <==> n > 0 || NoneAt(sys, t, p)
  {
    var u := sys.users[t];
    var r := Allocated(u, p, n, true);
    FindLast(u.buffers, Buffer(p, n));
    if n > 0 { UnusedIsFresh(sys, t, p, n); }
    if NoneAt(sys, t, p) {
      assert Without(r.buffers, |u.buffers|) == u.buffers;
      assert r.used - Range(p, n) == u.used;
      assert sys.users[t := u] == sys.users;
    } else if Find(sys.kernel.buffers, p) == |sys.kernel.buffers| {
      var j, last := Find(u.buffers, p), |u.buffers| - 1;
      assert UserOk(sys, u);
      assert BufferOk(u, u.buffers[last]);
      assert Without(r.buffers, j)[last] == Buffer(p, n);
    }
  }

  /** Recorded, it can take the address of a kernel buffer, and freeing it frees that one instead. */
  lemma EmptyRequestFreesAnother()
    ensures var kernel := Space({0, 1}, {0}, [Buffer(1, 1)], 2);
            var user := Space({0, 1}, {0, 1}, [], 8);
            var sys := System(kernel, [user], 2);
            var sys' := sys.(users := [Allocated(user, 1, 0, true)]);
            && SystemOk(sys) && Unused(user, 1, 0)
            && Freed(sys', 0, 1).kernel.buffers == [] && Freed(sys', 0, 1).users == sys'.users
  {
    var kernel := Space({0, 1}, {0}, [Buffer(1, 1)], 2);
    var user := Space({0, 1}, {0, 1}, [], 8);
    assert Covers(kernel.buffers[0], 1);
    forall x: nat ensures x in kernel.used <==> x in kernel.base || InSome(kernel.buffers, x) {
      if x == 1 { assert Covers(kernel.buffers[0], x); }
    }
    assert Agrees(kernel) && Agrees(user);
  }
}

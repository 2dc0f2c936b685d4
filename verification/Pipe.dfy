/** The pipe of kernel/io.c with one reader and one writer. */
module Pipe {

  // The pipe is a ring of one cell more than the buffer size, with a semaphore that
  // counts, from the full size down, what the reader may still not take. The writer
  // stores a byte and then signals; the reader waits and then copies. The two halves
  // of each are separate steps here. Module PipeThreads runs the ring with the
  // semaphore itself and proves that what it does are these steps.

  import opened Values

  datatype State = State(
    cells: seq<Byte>, r: nat, w: nat, cnt: int,
    acquired: bool, stored: bool,
    written: seq<Byte>, read: seq<Byte>)

  datatype Event = Write(b: Byte) | Publish | Acquire | Copy

  function Initial(n: nat): State
  {
    State(seq(n + 1, i => 0), 0, 0, n, false, false, [], [])
  }

  /** `ptr++; if (ptr > buf_end) ptr = buf;` */
  function Next(n: nat, p: nat): nat
  {
    if p + 1 > n then 0 else p + 1
  }

  /** A step that cannot be taken yet changes nothing: its thread waits. */
  function Step(n: nat, s: State, e: Event): State
    requires |s.cells| == n + 1 && s.r <= n && s.w <= n
  {
    match e
    case Write(b) =>
      if s.stored then s
      else s.(cells := s.cells[s.w := b], w := Next(n, s.w), stored := true, written := s.written + [b])
    case Publish =>
      if s.stored && s.cnt > 0 then s.(cnt := s.cnt - 1, stored := false) else s
    case Acquire =>
      if !s.acquired && s.cnt < n then s.(cnt := s.cnt + 1, acquired := true) else s
    case Copy =>
      if s.acquired then s.(r := Next(n, s.r), acquired := false, read := s.read + [s.cells[s.r]]) else s
  }

  // ---- The ring ----

  function Held(s: State): int
  {
    |s.written| - |s.read|
  }

  /** Cell `k` after the read pointer. */
  function Slot(n: nat, r: nat, k: nat): nat
  {
    if r + k <= n then r + k else if r + k <= 2 * n + 1 then r + k - (n + 1) else r + k - 2 * (n + 1)
  }

  predicate Counted(n: nat, s: State)
  {
    && |s.cells| == n + 1 && s.r <= n && s.w <= n && 0 <= s.cnt <= n
    && Held(s) == n - s.cnt + (if s.acquired then 1 else 0) + (if s.stored then 1 else 0)
    && s.w == Slot(n, s.r, Held(s))
  }

  /** Cell `k` after the read pointer holds the byte written `k` after the last one read. */
  predicate CellOk(n: nat, s: State, k: nat)
    requires Counted(n, s) && k < Held(s)
  {
    Slot(n, s.r, k) <= n && s.cells[Slot(n, s.r, k)] == s.written[|s.read| + k]
  }

  /** All held bytes are in their cells; with two bytes more than the size only the oldest may be gone. */
  ghost predicate Ring(n: nat, s: State)
  {
    && Counted(n, s)
    && forall k :: 0 <= k < Held(s) && (k > 0 || Held(s) <= n + 1) ==> CellOk(n, s, k)
  }

  lemma StepCounted(n: nat, s: State, e: Event)
    requires n > 0 && Counted(n, s)
    ensures Counted(n, Step(n, s, e))
  {
  }

  /** A cell that must be right after a step. */
  predicate Kept(n: nat, s: State, k: nat)
  {
    k < Held(s) && (k > 0 || Held(s) <= n + 1)
  }

  lemma CopyKeeps(n: nat, s: State, k: nat)
    requires n > 0 && Ring(n, s) && s.acquired && Counted(n, Step(n, s, Copy)) && Kept(n, Step(n, s, Copy), k)
    ensures CellOk(n, Step(n, s, Copy), k)
  {
    assert CellOk(n, s, k + 1);
    SlotShift(n, s.r, k);
  }

  lemma WriteKeeps(n: nat, s: State, b: Byte, k: nat)
    requires n > 0 && Ring(n, s) && !s.stored && Counted(n, Step(n, s, Write(b))) && Kept(n, Step(n, s, Write(b)), k)
    ensures CellOk(n, Step(n, s, Write(b)), k)
  {
    if k < Held(s) {
      assert CellOk(n, s, k);
      SlotApart(n, s.r, k, Held(s));
    }
  }

  lemma StepRing(n: nat, s: State, e: Event)
    requires n > 0 && Ring(n, s)
    ensures Ring(n, Step(n, s, e))
  {
    hide Slot, Next;
    var t := Step(n, s, e);
    StepCounted(n, s, e);
    forall k: nat | Kept(n, t, k) ensures CellOk(n, t, k) {
      if e.Copy? && s.acquired {
        CopyKeeps(n, s, k);
      } else if e.Write? && !s.stored {
        WriteKeeps(n, s, e.b, k);
      } else {
        assert CellOk(n, s, k);
      }
    }
  }

  lemma SlotShift(n: nat, r: nat, k: nat)
    requires r <= n && k + 1 <= n + 2
    ensures Slot(n, Next(n, r), k) == Slot(n, r, k + 1)
  {
  }

  lemma SlotApart(n: nat, r: nat, k: nat, l: nat)
    requires r <= n && k < l <= n + 1 && l - k <= n
    ensures Slot(n, r, k) != Slot(n, r, l)
  {
  }

  function Run(n: nat, es: seq<Event>): (s: State)
    requires n > 0
    ensures Counted(n, s)
  {
    if es == [] then Initial(n)
    else
      var s := Run(n, es[..|es| - 1]);
      StepCounted(n, s, es[|es| - 1]);
      Step(n, s, es[|es| - 1])
  }

  lemma {:induction false} RunRing(n: nat, es: seq<Event>)
    requires n > 0
    ensures Ring(n, Run(n, es))
  {
    if es != [] {
      RunRing(n, es[..|es| - 1]);
      StepRing(n, Run(n, es[..|es| - 1]), es[|es| - 1]);
    }
  }

  // ---- When the pipe is a queue ----

  /** What was read is how the written bytes begin. */
  predicate Fifo(s: State)
  {
    s.read <= s.written
  }

  /** The next byte the reader copies is the right one. */
  predicate Fresh(n: nat, s: State)
    requires Counted(n, s)
  {
    s.acquired ==> s.cells[s.r] == s.written[|s.read|]
  }

  /** The writer stores while the ring is full and the reader sits between waiting and copying. */
  predicate Clobbers(n: nat, s: State, e: Event)
    requires Counted(n, s)
  {
    e.Write? && !s.stored && s.acquired && s.cnt == 0 && e.b != s.written[|s.read|]
  }

  lemma StepClean(n: nat, s: State, e: Event)
    requires n > 0 && Ring(n, s) && Fifo(s) && Fresh(n, s) && !Clobbers(n, s, e)
    ensures Counted(n, Step(n, s, e)) && Fifo(Step(n, s, e)) && Fresh(n, Step(n, s, e))
  {
    StepCounted(n, s, e);
    var t := Step(n, s, e);
    if e.Acquire? && !s.acquired && s.cnt < n { assert CellOk(n, s, 0); }
    if e.Write? && !s.stored && s.acquired && s.cnt > 0 { SlotApart(n, s.r, 0, Held(s)); }
  }

  /** The next copy will be wrong, or one was. */
  predicate Spoilt(n: nat, s: State)
    requires Counted(n, s)
  {
    !Fifo(s) || (s.acquired && s.stored && s.cnt == 0 && s.cells[s.r] != s.written[|s.read|])
  }

  lemma StepSpoils(n: nat, s: State, e: Event)
    requires n > 0 && Ring(n, s) && (Spoilt(n, s) || (Fifo(s) && Clobbers(n, s, e)))
    ensures Counted(n, Step(n, s, e)) && Spoilt(n, Step(n, s, e))
  {
    StepCounted(n, s, e);
    var t := Step(n, s, e);
    if !Fifo(s) {
      StaysWrong(s, t);
    } else if Clobbers(n, s, e) {
      assert s.w == s.r;
    } else if e.Copy? {
      assert t.read[|s.read|] != t.written[|s.read|];
    }
  }

  lemma StaysWrong(s: State, t: State)
    requires !Fifo(s) && |s.read| <= |s.written| && s.read <= t.read && s.written <= t.written
    ensures !Fifo(t)
  {
    var j :| 0 <= j < |s.read| && s.read[j] != s.written[j];
    assert t.read[j] != t.written[j];
  }

  ghost predicate NoClobber(n: nat, es: seq<Event>)
    requires n > 0
  {
    forall k :: 0 <= k < |es| ==> !Clobbers(n, Run(n, es[..k]), es[k])
  }

  lemma {:induction false} CleanOrSpoilt(n: nat, es: seq<Event>)
    requires n > 0
    ensures if NoClobber(n, es) then Fifo(Run(n, es)) && Fresh(n, Run(n, es)) else Spoilt(n, Run(n, es))
  {
    if es != [] {
      var k := |es| - 1;
      assert forall j :: 0 <= j < k ==> es[..k][..j] == es[..j];
      CleanOrSpoilt(n, es[..k]);
      RunRing(n, es[..k]);
      LastClobber(n, es);
      if NoClobber(n, es) {
        StepClean(n, Run(n, es[..k]), es[k]);
      } else {
        StepSpoils(n, Run(n, es[..k]), es[k]);
      }
    }
  }

  lemma LastClobber(n: nat, es: seq<Event>)
    requires n > 0 && es != []
    ensures var k := |es| - 1; NoClobber(n, es) <==> NoClobber(n, es[..k]) && !Clobbers(n, Run(n, es[..k]), es[k])
  {
    hide Run, Clobbers;
    var k := |es| - 1;
    assert forall j :: 0 <= j < k ==> es[..k][..j] == es[..j] && es[..k][j] == es[j];
    if NoClobber(n, es[..k]) && !Clobbers(n, Run(n, es[..k]), es[k]) {
      forall j | 0 <= j < |es| ensures !Clobbers(n, Run(n, es[..j]), es[j]) {
        if j < k { assert !Clobbers(n, Run(n, es[..k][..j]), es[..k][j]); }
      }
    }
    if NoClobber(n, es) {
      forall j | 0 <= j < k ensures !Clobbers(n, Run(n, es[..k][..j]), es[..k][j]) {
        assert !Clobbers(n, Run(n, es[..j]), es[j]);
      }
    }
  }

  /**
   With every step of reader and writer interleaved, the pipe is a queue exactly when the writer
   never stores a different byte into a full ring between the reader's wait and its copy.
   */
  lemma FifoExactly(n: nat, es: seq<Event>)
    requires n > 0 && !Run(n, es).acquired
    ensures Fifo(Run(n, es)) <==> NoClobber(n, es)
  {
    CleanOrSpoilt(n, es);
  }

  /** The reader's wait and copy are not interrupted. */
  predicate Uninterrupted(es: seq<Event>)
  {
    forall k :: 0 <= k < |es| && es[k].Acquire? ==> k + 1 < |es| && es[k + 1].Copy?
  }

  lemma {:induction false} NeverBetween(n: nat, es: seq<Event>, k: nat)
    requires n > 0 && Uninterrupted(es) && k <= |es| && (k < |es| ==> !es[k].Copy?)
    ensures !Run(n, es[..k]).acquired
    decreases k
  {
    if k > 0 {
      assert es[..k][..k - 1] == es[..k - 1];
      if !es[k - 1].Copy? { NeverBetween(n, es, k - 1); }
    }
  }

  /** Then the pipe loses, repeats and reorders nothing, whatever the two do in between. */
  lemma PipeIsQueue(n: nat, es: seq<Event>)
    requires n > 0 && Uninterrupted(es)
    ensures Fifo(Run(n, es)) && |Run(n, es).written| - |Run(n, es).read| <= n + 1
  {
    forall k | 0 <= k < |es| ensures !Clobbers(n, Run(n, es[..k]), es[k]) {
      if !es[k].Copy? { NeverBetween(n, es, k); }
    }
    CleanOrSpoilt(n, es);
    NeverBetween(n, es, |es|);
    assert es[..|es|] == es;
  }

  lemma RunOne(n: nat, es: seq<Event>, e: Event)
    requires n > 0
    ensures Run(n, es + [e]) == Step(n, Run(n, es), e)
  {
    assert (es + [e])[..|es|] == es;
  }

  lemma RunNone(n: nat)
    requires n > 0
    ensures Run(n, []) == Initial(n)
  {
  }

  /** A byte the reader waits for and does not copy, and `k` more. */
  function Filling(k: nat): seq<Event>
  {
    if k == 0 then [Write(1)] + [Publish] + [Acquire] else Filling(k - 1) + [Write(2)] + [Publish]
  }

  lemma {:induction false} Filled(n: nat, k: nat)
    requires 0 < n && k <= n
    ensures var s := Run(n, Filling(k));
            && s.acquired && !s.stored && s.cnt == n - k && s.r == 0
            && s.read == [] && |s.written| == k + 1 && s.written[0] == 1
    decreases k
  {
    hide Run;
    if k == 0 {
      RunNone(n);
      assert [] + [Write(1)] == [Write(1)];
      RunOne(n, [], Write(1));
      RunOne(n, [Write(1)], Publish);
      RunOne(n, [Write(1)] + [Publish], Acquire);
    } else {
      Filled(n, k - 1);
      RunOne(n, Filling(k - 1), Write(2));
      RunOne(n, Filling(k - 1) + [Write(2)], Publish);
    }
  }

  /**
   A reader caught between the two halves while the ring fills up, whatever its size: the first
   byte is never read.
   */
  lemma InterruptedReader(n: nat)
    requires n > 0
    ensures var s := Run(n, Filling(n) + [Write(3)] + [Copy]);
            !s.acquired && |s.written| == n + 2 && s.written[0] == 1 && s.read == [3] && !Fifo(s)
  {
    Filled(n, n);
    RunOne(n, Filling(n), Write(3));
    RunOne(n, Filling(n) + [Write(3)], Copy);
  }
}

/**
 The signals of a task as kernel/signal.c keeps them: four words of pending bits,
 four of delivered bits, one row of four entries per signal and a mask.
 */
module SignalPlanes {
  import opened Words
  import opened Signals

  // ---- Bit planes as counters ----

  /** Each plane is a subset of the one before it. */
  ghost predicate Nested(planes: seq<Word>)
    requires |planes| == DEPTH
  {
    forall i :: 0 <= i < SIGNALS ==> NestedAt(planes, i)
  }

  predicate NestedAt(planes: seq<Word>, i: nat)
    requires |planes| == DEPTH
  {
    && (Test(planes[1], i) ==> Test(planes[0], i))
    && (Test(planes[2], i) ==> Test(planes[1], i))
    && (Test(planes[3], i) ==> Test(planes[2], i))
  }

  /** The number of planes that hold bit `i`. */
  function Level(planes: seq<Word>, i: nat): (n: nat)
    requires |planes| == DEPTH
    ensures n <= DEPTH
  {
    if !Test(planes[0], i) then 0
    else if !Test(planes[1], i) then 1
    else if !Test(planes[2], i) then 2
    else if !Test(planes[3], i) then 3
    else 4
  }

  lemma RaiseAt(planes: seq<Word>, i: nat, k: nat)
    requires |planes| == DEPTH && i < SIGNALS && Level(planes, i) < DEPTH && NestedAt(planes, k)
    ensures Or(planes[Level(planes, i)], Pow2(i)) < 0x1_0000_0000
    ensures var p := planes[Level(planes, i) := Or(planes[Level(planes, i)], Pow2(i))];
            NestedAt(p, k) && (NestedAt(planes, i) ==> Level(p, k) == Level(planes, k) + if k == i then 1 else 0)
  {
    SetBit(planes[Level(planes, i)], i, k);
  }

  lemma LowerAt(planes: seq<Word>, i: nat, k: nat)
    requires |planes| == DEPTH && i < SIGNALS && Level(planes, i) > 0 && NestedAt(planes, k)
    ensures var n := Level(planes, i) - 1;
            && AndNot(planes[n], Pow2(i)) <= planes[n]
            && var p := planes[n := AndNot(planes[n], Pow2(i))];
            NestedAt(p, k) && (NestedAt(planes, i) ==> Level(p, k) == Level(planes, k) - if k == i then 1 else 0)
  {
    ClearBit(planes[Level(planes, i) - 1], i, k);
  }

  function Raised(planes: seq<Word>, i: nat): (p: seq<Word>)
    requires |planes| == DEPTH && i < SIGNALS && Level(planes, i) < DEPTH
    ensures |p| == DEPTH
  {
    SetBit(planes[Level(planes, i)], i, i);
    planes[Level(planes, i) := Or(planes[Level(planes, i)], Pow2(i))]
  }

  function Lowered(planes: seq<Word>, i: nat): (p: seq<Word>)
    requires |planes| == DEPTH && i < SIGNALS && Level(planes, i) > 0
    ensures |p| == DEPTH
  {
    ClearBit(planes[Level(planes, i) - 1], i, i);
    planes[Level(planes, i) - 1 := AndNot(planes[Level(planes, i) - 1], Pow2(i))]
  }

  /** Setting the bit in the first plane without it counts up, for this signal only. */
  lemma RaisedLevels(planes: seq<Word>, i: nat)
    requires |planes| == DEPTH && i < SIGNALS && Level(planes, i) < DEPTH && Nested(planes)
    ensures Nested(Raised(planes, i))
    ensures forall k :: 0 <= k < SIGNALS ==> Level(Raised(planes, i), k) == Level(planes, k) + if k == i then 1 else 0
  {
    hide Level, NestedAt;
    forall k | 0 <= k < SIGNALS
      ensures NestedAt(Raised(planes, i), k)
      ensures Level(Raised(planes, i), k) == Level(planes, k) + if k == i then 1 else 0
    {
      RaiseAt(planes, i, k);
    }
  }

  /** Clearing the bit in the last plane that has it counts down, for this signal only. */
  lemma LoweredLevels(planes: seq<Word>, i: nat)
    requires |planes| == DEPTH && i < SIGNALS && Level(planes, i) > 0 && Nested(planes)
    ensures Nested(Lowered(planes, i))
    ensures forall k :: 0 <= k < SIGNALS ==> Level(Lowered(planes, i), k) == Level(planes, k) - if k == i then 1 else 0
  {
    hide Level, NestedAt;
    forall k | 0 <= k < SIGNALS
      ensures NestedAt(Lowered(planes, i), k)
      ensures Level(Lowered(planes, i), k) == Level(planes, k) - if k == i then 1 else 0
    {
      LowerAt(planes, i, k);
    }
  }

  // ---- What planes and rows stand for ----

  function Row(info: seq<Info>, i: nat, n: nat): seq<Info>
    requires |info| == SIGNALS * DEPTH && i < SIGNALS && n <= DEPTH
  {
    info[DEPTH * i..DEPTH * i + n]
  }

  function Queues(planes: seq<Word>, info: seq<Info>): (r: seq<seq<Info>>)
    requires |planes| == DEPTH && |info| == SIGNALS * DEPTH
    ensures |r| == SIGNALS && forall i :: 0 <= i < SIGNALS ==> r[i] == Row(info, i, Level(planes, i))
  {
    seq(SIGNALS, i requires 0 <= i < SIGNALS => Row(info, i, Level(planes, i)))
  }

  function Levels(planes: seq<Word>): (r: seq<nat>)
    requires |planes| == DEPTH
    ensures |r| == SIGNALS && forall i :: 0 <= i < SIGNALS ==> r[i] == Level(planes, i)
  {
    seq(SIGNALS, i requires 0 <= i < SIGNALS => Level(planes, i))
  }

  function Meaning(pending: seq<Word>, delivered: seq<Word>, info: seq<Info>, mask: Word): (s: State)
    requires |pending| == DEPTH && |delivered| == DEPTH && |info| == SIGNALS * DEPTH
    ensures Bounded(s)
  {
    State(Queues(pending, info), Levels(delivered), mask)
  }

  /** A new entry goes where the row ends. */
  lemma AppendedQueues(planes: seq<Word>, info: seq<Info>, i: nat, x: Info)
    requires |planes| == DEPTH && |info| == SIGNALS * DEPTH && i < SIGNALS && Level(planes, i) < DEPTH && Nested(planes)
    ensures Queues(Raised(planes, i), info[DEPTH * i + Level(planes, i) := x]) ==
            Queues(planes, info)[i := Queues(planes, info)[i] + [x]]
  {
    hide Level, Raised, Nested;
    RaisedLevels(planes, i);
    var n := Level(planes, i);
    var info' := info[DEPTH * i + n := x];
    var r, r0 := Queues(Raised(planes, i), info'), Queues(planes, info);
    forall k | 0 <= k < SIGNALS ensures r[k] == r0[i := r0[i] + [x]][k] {
      if k == i {
        assert Row(info', i, n + 1) == Row(info, i, n) + [x];
      } else {
        assert Row(info', k, Level(planes, k)) == Row(info, k, Level(planes, k));
      }
    }
  }

  function Moved(info: seq<Info>, i: nat): seq<Info>
    requires |info| == SIGNALS * DEPTH && i < SIGNALS
  {
    info[DEPTH * i := info[DEPTH * i + 1]][DEPTH * i + 1 := info[DEPTH * i + 2]][DEPTH * i + 2 := info[DEPTH * i + 3]]
  }

  /** Shifting a row and lowering the level takes the oldest entry out. */
  lemma RemovedQueues(planes: seq<Word>, info: seq<Info>, i: nat)
    requires |planes| == DEPTH && |info| == SIGNALS * DEPTH && i < SIGNALS && Level(planes, i) > 0 && Nested(planes)
    ensures Queues(planes, info)[i] != [] && Queues(planes, info)[i][0] == info[DEPTH * i]
    ensures Queues(Lowered(planes, i), Moved(info, i)) == Queues(planes, info)[i := Queues(planes, info)[i][1..]]
  {
    hide Level, Lowered, Nested;
    LoweredLevels(planes, i);
    var n := Level(planes, i);
    var info' := Moved(info, i);
    var r, r0 := Queues(Lowered(planes, i), info'), Queues(planes, info);
    forall k | 0 <= k < SIGNALS ensures r[k] == r0[i := r0[i][1..]][k] {
      if k == i {
        assert Row(info', i, n - 1) == Row(info, i, n)[1..];
      } else {
        assert Row(info', k, Level(planes, k)) == Row(info, k, Level(planes, k));
      }
    }
  }

  lemma ReplacedQueues(planes: seq<Word>, info: seq<Info>, i: nat, n: nat, x: Info)
    requires |planes| == DEPTH && |info| == SIGNALS * DEPTH && i < SIGNALS && n < Level(planes, i)
    ensures Queues(planes, info[DEPTH * i + n := x]) == Queues(planes, info)[i := Queues(planes, info)[i][n := x]]
  {
    hide Level;
    var info' := info[DEPTH * i + n := x];
    var r, r0 := Queues(planes, info'), Queues(planes, info);
    forall k | 0 <= k < SIGNALS ensures r[k] == r0[i := r0[i][n := x]][k] {
      if k == i {
        assert Row(info', i, Level(planes, i)) == Row(info, i, Level(planes, i))[n := x];
      } else {
        assert Row(info', k, Level(planes, k)) == Row(info, k, Level(planes, k));
      }
    }
  }

  // ---- Dispositions ----

  datatype Disposition = Default | Ignore | Caught

  datatype Errno = Success | Invalid | Again | NoSuchTask

  /** The signals, by their numbers in the source, whose default action is to end their receiver. */
  const TERMINATING: set<nat> := {1, 2, 3, 4, 5, 6, 7, 8, 9, 10, 11, 13, 14, 15, 16, 23, 24, 25, 26, 30, 31}

  function Fatal(actions: seq<Disposition>): set<nat>
    requires |actions| == SIGNALS
  {
    set i | 0 <= i < SIGNALS && actions[i] == Default && i + 1 in TERMINATING
  }

  lemma FatalIs(actions: seq<Disposition>, i: nat)
    requires |actions| == SIGNALS && i < SIGNALS
    ensures i in Fatal(actions) <==> actions[i] == Default && i + 1 in TERMINATING
  {
  }

  /** By default a signal ends its receiver unless it stops or continues it, is ignored, or has no case of its own. */
  lemma TerminatingIs(sig: nat)
    requires 1 <= sig <= 32
    ensures sig in TERMINATING <==>
            && sig !in {17, 18, 21, 22} // SIGSTOP, SIGTSTP, SIGTTIN, SIGTTOU
            && sig != 19                // SIGCONT
            && sig !in {20, 27}         // SIGCHLD, SIGURG
            && sig !in {12, 28, 29, 32} // SIGTHREAD and the numbers without a name
  {
  }

  /** The loop that shifts a word right until its lowest bit is set. */
  method LowestBit(w: Word) returns (i: nat)
    requires w != 0
    ensures i < 32 && Test(w, i) && forall k :: 0 <= k < i ==> !Test(w, k)
  {
    hide Test, Shifted;
    var v: nat := w;
    i := 0;
    ghost var top := TopBit(w);
    ShiftedNone(w);
    while v % 2 != 1
      invariant v == Shifted(w, i) && i <= top < 32 && Test(w, top)
      invariant forall k :: 0 <= k < i ==> !Test(w, k)
      decreases top - i
    {
      ShiftedLow(w, i);
      ShiftedOne(w, i);
      v := v / 2;
      i := i + 1;
    }
    ShiftedLow(w, i);
  }

  /** A word shifted right. */
  function Shifted(w: nat, i: nat): nat
  {
    if i == 0 then w else Shifted(w, i - 1) / 2
  }

  lemma ShiftedNone(w: nat)
    ensures Shifted(w, 0) == w
  {
  }

  lemma ShiftedOne(w: nat, i: nat)
    ensures Shifted(w, i + 1) == Shifted(w, i) / 2
  {
  }

  lemma {:induction false} ShiftedBit(w: nat, i: nat, k: nat)
    ensures Test(Shifted(w, i), k) <==> Test(w, i + k)
    decreases i
  {
    if i > 0 {
      assert Test(Shifted(w, i - 1), k + 1) == Test(Shifted(w, i), k);
      ShiftedBit(w, i - 1, k + 1);
    }
  }

  lemma ShiftedLow(w: nat, i: nat)
    ensures Shifted(w, i) % 2 == 1 <==> Test(w, i)
  {
    ShiftedBit(w, i, 0);
  }

  lemma TopBit(w: Word) returns (top: nat)
    requires 0 < w
    ensures top < 32 && Test(w, top)
  {
    PowerOf32();
    top := SomeBit(w, 32);
  }

  class Task {
    const id: int
    const pending: array<Word>
    const delivered: array<Word>
    const info: array<Info>
    var mask: Word

    ghost predicate Valid()
      reads this, pending, delivered
    {
      && pending.Length == DEPTH && delivered.Length == DEPTH && info.Length == SIGNALS * DEPTH
      && pending != delivered
      && Nested(pending[..]) && Nested(delivered[..])
    }

    ghost function State(): (s: State)
      requires Valid()
      reads this, pending, delivered, info
      ensures Bounded(s)
    {
      Meaning(pending[..], delivered[..], info[..], mask)
    }

    /** A task without signals. */
    constructor (id: int)
      ensures Valid() && fresh(pending) && fresh(delivered) && fresh(info) && this.id == id
      ensures forall i :: 0 <= i < SIGNALS ==> State().queues[i] == [] && State().delivered[i] == 0
    {
      this.id := id;
      var p := new Word[DEPTH](i => 0);
      var d := new Word[DEPTH](i => 0);
      pending, delivered := p, d;
      info := new Info[SIGNALS * DEPTH](i => Info(0, 0, 0, 0, SiUser));
      mask := 0;
      forall i | 0 <= i < SIGNALS
        ensures NestedAt(p[..], i) && NestedAt(d[..], i) && Level(p[..], i) == 0 && Level(d[..], i) == 0
      {
        TestZero(i);
      }
    }

    /** A new entry in the first plane without the bit. */
    method Append(i: nat, x: Info)
      requires Valid() && i < SIGNALS && Level(pending[..], i) < DEPTH
      modifies pending, info
      ensures Valid()
      ensures State() == old(State()).(queues := old(State()).queues[i := old(State()).queues[i] + [x]])
    {
      hide Nested, Raised, Level, Queues, Levels, Row;
      var n := FirstWithout(pending, i);
      AppendedQueues(pending[..], info[..], i, x);
      RaisedLevels(pending[..], i);
      RaisedIs(pending[..], i);
      pending[n] := Or(pending[n], Pow2(i));
      info[DEPTH * i + n] := x;
      assert pending[..] == old(Raised(pending[..], i));
      assert info[..] == old(info[..])[DEPTH * i + n := x];
    }

    /** The part of sigqueue that works on a task once found. */
    method Queue(sig: int, value: int, uid: int, pid: int) returns (r: Errno)
      requires Valid()
      modifies pending, info
      ensures Valid()
      ensures !(1 <= sig <= 32) ==> r == Invalid && State() == old(State())
      ensures 1 <= sig <= 32 ==>
                && State() == Queued(old(State()), sig - 1, Info(value, sig, uid, pid, SiQueue))
                && r == if |old(State()).queues[sig - 1]| < DEPTH then Success else Again
    {
      hide Nested, Raised, Level, Queues, Levels;
      if sig < 1 || sig > 32 { return Invalid; }
      var n := FirstWithout(pending, sig - 1);
      if n == DEPTH { return Again; }
      Append(sig - 1, Info(value, sig, uid, pid, SiQueue));
      r := Success;
    }

    /** kill: the macro queue_signal, with its `== 1` tests. */
    method Post(sig: int, uid: int, pid: int)
      requires Valid() && 0 <= sig <= 32
      modifies pending, info
      ensures Valid()
      ensures State() ==
              if sig == 0 then old(State())
              else Killed(old(State()), sig - 1, Info(0, sig, uid, pid, SiUser))
    {
      hide Nested, Raised, Killed, Level, Queues, Levels;
      if sig == 0 { return; }
      var i := sig - 1;
      var x := Info(0, sig, uid, pid, SiUser);
      var bit := Pow2(i);
      PostBits(pending[..], i);
      KilledIs(State(), i, x);
      if And(pending[0], bit) == 0 {
        AppendedQueues(pending[..], info[..], i, x);
        RaisedLevels(pending[..], i);
        RaisedIs(pending[..], i);
        pending[0] := Or(pending[0], bit);
        info[DEPTH * i] := x;
        assert pending[..] == old(Raised(pending[..], i));
        assert info[..] == old(info[..])[DEPTH * i := x];
      } else if And(pending[1], bit) == 1 {
        ReplacedQueues(pending[..], info[..], i, 1, x);
        OrKept(pending[1], i);
        pending[1] := Or(pending[1], bit);
        info[DEPTH * i + 1] := x;
        assert pending[..] == old(pending[..]);
        assert info[..] == old(info[..])[DEPTH * i + 1 := x];
      } else if And(pending[2], bit) == 1 {
        assert false;
      } else if And(pending[3], bit) == 1 {
        assert false;
      }
    }

    /** One turn of signal_handler up to the disposition: take the oldest entry and count it as delivered. */
    method Take(i: nat) returns (x: Info)
      requires Valid() && i < SIGNALS && State().queues[i] != []
      modifies pending, delivered, info
      ensures Valid() && State() == Taken(old(State()), i) && x == old(State()).queues[i][0]
    {
      hide Nested, Raised, Lowered, Level;
      RemovedQueues(pending[..], info[..], i);
      LoweredLevels(pending[..], i);
      ClearLast(pending, i);
      x := info[DEPTH * i];
      info[DEPTH * i] := info[DEPTH * i + 1];
      info[DEPTH * i + 1] := info[DEPTH * i + 2];
      info[DEPTH * i + 2] := info[DEPTH * i + 3];
      assert info[..] == old(Moved(info[..], i));
      CountedLevels(delivered[..], i);
      SetFirst(delivered, i);
    }

    /** One turn of the loop of signal_handler, up to the disposition. */
    method HandleLowest(todo: Word, ghost was: State, ghost log: seq<Handled>) returns (i: nat, x: Info)
      requires Valid() && todo == AndNot(pending[0], mask) && todo != 0
      requires Bounded(was) && State() == Advanced(was, log) && Backlog(was, 0) == log + Backlog(State(), 0)
      modifies pending, delivered, info
      ensures Valid() && i < SIGNALS
      ensures State() == Advanced(was, log + [Handled(i, x)])
      ensures Backlog(was, 0) == log + [Handled(i, x)] + Backlog(State(), 0)
      ensures |Backlog(State(), 0)| < |Backlog(old(State()), 0)|
    {
      hide Nested, Backlog, Advanced, Taken, Test, AndNot;
      i := LowestBit(todo);
      LowestOpen(pending[..], delivered[..], info[..], mask, i);
      TakeIsFirst(State(), i);
      AdvancedOne(was, log, i);
      x := Take(i);
    }

    /** signal_handler, for dispositions that come back without sending signals. */
    method Handle(actions: seq<Disposition>) returns (log: seq<Handled>, exited: bool)
      requires Valid() && |actions| == SIGNALS
      modifies pending, delivered, info
      ensures Valid() && State() == Advanced(old(State()), log)
      ensures log == Backlog(old(State()), 0)[..Until(Fatal(actions), Backlog(old(State()), 0))]
      ensures exited <==> log != [] && log[|log| - 1].sig in Fatal(actions)
    {
      hide Nested, Backlog, Advanced, Until, Test, AndNot, Meaning, Fatal, Open;
      ghost var was := State();
      log, exited := [], false;
      AdvancedNone(was);
      MaskedIsWord(pending[0], mask);
      var todo: Word := AndNot(pending[0], mask);
      while todo != 0
        invariant Valid() && todo == AndNot(pending[0], mask)
        invariant State() == Advanced(was, log) && Backlog(was, 0) == log + Backlog(State(), 0)
        invariant forall j :: 0 <= j < |log| ==> log[j].sig !in Fatal(actions)
        decreases |Backlog(State(), 0)|
      {
        var i, x := HandleLowest(todo, was, log);
        log := log + [Handled(i, x)];
        FatalIs(actions, i);
        if actions[i] == Default && i + 1 in TERMINATING {
          UntilAt(Fatal(actions), Backlog(was, 0), |log|);
          return log, true;
        }
        MaskedIsWord(pending[0], mask);
        todo := AndNot(pending[0], mask);
      }
      NoneOpen(pending[..], delivered[..], info[..], mask);
      NothingOpen(State());
      UntilAt(Fatal(actions), log, |log|);
    }

    /** The scan of sigwait; 0 where the source goes to sleep and tries again. */
    method Accept(wanted: Word) returns (sig: nat)
      requires Valid()
      modifies delivered
      ensures Valid() && sig <= 32
      ensures sig == 0 ==> State() == old(State()) && forall k :: 0 <= k < SIGNALS ==> !Awaited(State(), wanted, k)
      ensures sig > 0 ==> Awaited(old(State()), wanted, sig - 1) && State() == Accepted(old(State()), sig - 1)
                          && forall k :: 0 <= k < sig - 1 ==> !Awaited(old(State()), wanted, k)
      ensures sig > 0 ==> State().delivered[sig - 1] == old(State()).delivered[sig - 1] - 1
      ensures forall k :: 0 <= k < SIGNALS && k != sig - 1 ==> State().delivered[k] == old(State()).delivered[k]
      ensures State().queues == old(State()).queues && State().mask == old(State()).mask
    {
      hide Nested, Lowered, Test, And;
      if And(delivered[0], wanted) == 0 {
        NoneAwaited(delivered[..], wanted);
        return 0;
      }
      ghost var top := SomeAwaited(delivered[..], wanted);
      var signum := 0;
      while And(And(Pow2(signum), wanted), delivered[0]) == 0
        invariant Valid() && State() == old(State()) && delivered[..] == old(delivered[..])
        invariant signum <= top && forall k :: 0 <= k < signum ==> !Awaited(State(), wanted, k)
        decreases SIGNALS - signum
      {
        AwaitedBit(delivered[..], wanted, signum);
        signum := signum + 1;
      }
      AwaitedBit(delivered[..], wanted, signum);
      LoweredLevels(delivered[..], signum);
      ClearLast(delivered, signum);
      sig := signum + 1;
    }

    /** sighold */
    method Hold(sig: int) returns (ok: bool)
      requires Valid()
      modifies `mask
      ensures Valid() && ok == (1 <= sig <= 32) && State() == old(State()).(mask := mask)
      ensures forall k: nat :: Test(mask, k) <==> Test(old(mask), k) || (ok && k == sig - 1)
    {
      if sig < 1 || sig > 32 { return false; }
      forall k: nat
        ensures Or(mask, Pow2(sig - 1)) < 0x1_0000_0000
        ensures Test(Or(mask, Pow2(sig - 1)), k) <==> Test(mask, k) || k == sig - 1
      {
        SetBit(mask, sig - 1, k);
      }
      SetBit(mask, sig - 1, 0);
      mask := Or(mask, Pow2(sig - 1));
      ok := true;
    }

    /** sigrelse */
    method Unhold(sig: int) returns (ok: bool)
      requires Valid()
      modifies `mask
      ensures Valid() && ok == (1 <= sig <= 32) && State() == old(State()).(mask := mask)
      ensures forall k: nat :: Test(mask, k) <==> Test(old(mask), k) && !(ok && k == sig - 1)
    {
      if sig < 1 || sig > 32 { return false; }
      forall k: nat
        ensures AndNot(mask, Pow2(sig - 1)) <= mask
        ensures Test(AndNot(mask, Pow2(sig - 1)), k) <==> Test(mask, k) && k != sig - 1
      {
        ClearBit(mask, sig - 1, k);
      }
      ClearBit(mask, sig - 1, 0);
      mask := AndNot(mask, Pow2(sig - 1));
      ok := true;
    }
  }

  /** The chain of tests for the first plane without the bit. */
  method FirstWithout(planes: array<Word>, i: nat) returns (n: nat)
    requires planes.Length == DEPTH && i < SIGNALS
    ensures n == Level(planes[..], i)
  {
    var bit := Pow2(i);
    AndBit(planes[0], i);
    AndBit(planes[1], i);
    AndBit(planes[2], i);
    AndBit(planes[3], i);
    if And(planes[0], bit) == 0 { n := 0; }
    else if And(planes[1], bit) == 0 { n := 1; }
    else if And(planes[2], bit) == 0 { n := 2; }
    else if And(planes[3], bit) == 0 { n := 3; }
    else { n := 4; }
  }

  lemma RaisedIs(planes: seq<Word>, i: nat)
    requires |planes| == DEPTH && i < SIGNALS && Level(planes, i) < DEPTH
    ensures Or(planes[Level(planes, i)], Pow2(i)) < 0x1_0000_0000
    ensures Raised(planes, i) == planes[Level(planes, i) := Or(planes[Level(planes, i)], Pow2(i))]
  {
    SetBit(planes[Level(planes, i)], i, i);
  }

  /** What the tests of queue_signal find. */
  lemma PostBits(planes: seq<Word>, i: nat)
    requires |planes| == DEPTH && i < SIGNALS && Nested(planes)
    ensures And(planes[0], Pow2(i)) == 0 <==> Level(planes, i) == 0
    ensures And(planes[0], Pow2(i)) != 0 ==> (And(planes[1], Pow2(i)) == 1 <==> i == 0 && Level(planes, i) >= 2)
    ensures And(planes[1], Pow2(i)) != 1 ==> And(planes[2], Pow2(i)) != 1 && And(planes[3], Pow2(i)) != 1
  {
    assert NestedAt(planes, i);
    AndBit(planes[0], i);
    AndBitIsOne(planes[1], i);
    AndBitIsOne(planes[2], i);
    AndBitIsOne(planes[3], i);
  }

  lemma KilledIs(s: State, i: nat, x: Info)
    requires i < |s.queues|
    ensures s.queues[i] == [] ==> Killed(s, i, x).queues == s.queues[i := s.queues[i] + [x]]
    ensures s.queues[i] != [] && i == 0 && |s.queues[i]| >= 2 ==>
            Killed(s, i, x).queues == s.queues[i := s.queues[i][1 := x]]
    ensures s.queues[i] != [] && !(i == 0 && |s.queues[i]| >= 2) ==> Killed(s, i, x).queues == s.queues
    ensures Killed(s, i, x).delivered == s.delivered && Killed(s, i, x).mask == s.mask
  {
    assert s.queues[i] == [] ==> s.queues[i] + [x] == [x];
  }

  lemma OrKept(w: Word, i: nat)
    requires i == 0 && And(w, Pow2(i)) == 1
    ensures Or(w, Pow2(i)) == w
  {
    AndBitIsOne(w, i);
    OrLowBit(w);
  }

  /** The chain that clears the bit in the last plane that has it. */
  method ClearLast(planes: array<Word>, i: nat)
    requires planes.Length == DEPTH && i < SIGNALS && Nested(planes[..])
    modifies planes
    ensures planes[..] == old(if Level(planes[..], i) > 0 then Lowered(planes[..], i) else planes[..])
  {
    var bit := Pow2(i);
    assert NestedAt(planes[..], i);
    AndBit(planes[0], i);
    AndBit(planes[1], i);
    AndBit(planes[2], i);
    AndBit(planes[3], i);
    ClearBit(planes[0], i, i);
    ClearBit(planes[1], i, i);
    ClearBit(planes[2], i, i);
    ClearBit(planes[3], i, i);
    if And(planes[3], bit) != 0 { planes[3] := AndNot(planes[3], bit); }
    else if And(planes[2], bit) != 0 { planes[2] := AndNot(planes[2], bit); }
    else if And(planes[1], bit) != 0 { planes[1] := AndNot(planes[1], bit); }
    else if And(planes[0], bit) != 0 { planes[0] := AndNot(planes[0], bit); }
  }

  /** The chain that sets the bit in the first plane without it; nothing if all have it. */
  method SetFirst(planes: array<Word>, i: nat)
    requires planes.Length == DEPTH && i < SIGNALS
    modifies planes
    ensures planes[..] == old(Counted(planes[..], i))
  {
    var n := FirstWithout(planes, i);
    if n < DEPTH {
      RaisedIs(planes[..], i);
      planes[n] := Or(planes[n], Pow2(i));
    }
  }

  function Counted(planes: seq<Word>, i: nat): (p: seq<Word>)
    requires |planes| == DEPTH && i < SIGNALS
    ensures |p| == DEPTH
  {
    if Level(planes, i) < DEPTH then Raised(planes, i) else planes
  }

  lemma CountedLevels(planes: seq<Word>, i: nat)
    requires |planes| == DEPTH && i < SIGNALS && Nested(planes)
    ensures Nested(Counted(planes, i))
    ensures var n := Levels(planes)[i];
            Levels(Counted(planes, i)) == Levels(planes)[i := if n < DEPTH then n + 1 else n]
  {
    hide Nested, Level, Raised;
    if Level(planes, i) < DEPTH { RaisedLevels(planes, i); }
  }

  lemma MaskedIsWord(w: Word, mask: Word)
    ensures AndNot(w, mask) < 0x1_0000_0000
  {
    AndNotIsMinus(w, mask);
  }

  /** A bit of `pending[0] & ~mask` is an open signal. */
  lemma OpenBit(pending: seq<Word>, delivered: seq<Word>, info: seq<Info>, mask: Word, i: nat)
    requires |pending| == DEPTH && |delivered| == DEPTH && |info| == SIGNALS * DEPTH && i < SIGNALS
    ensures Test(AndNot(pending[0], mask), i) <==> Open(Meaning(pending, delivered, info, mask), i)
  {
    TestAndNot(pending[0], mask, i);
  }

  lemma LowestOpen(pending: seq<Word>, delivered: seq<Word>, info: seq<Info>, mask: Word, i: nat)
    requires |pending| == DEPTH && |delivered| == DEPTH && |info| == SIGNALS * DEPTH && i < SIGNALS
    requires Test(AndNot(pending[0], mask), i) && forall k :: 0 <= k < i ==> !Test(AndNot(pending[0], mask), k)
    ensures Open(Meaning(pending, delivered, info, mask), i)
    ensures forall k :: 0 <= k < i ==> !Open(Meaning(pending, delivered, info, mask), k)
  {
    hide Open, Meaning, Test, AndNot;
    OpenBit(pending, delivered, info, mask, i);
    forall k | 0 <= k < i ensures !Open(Meaning(pending, delivered, info, mask), k) {
      OpenBit(pending, delivered, info, mask, k);
    }
  }

  lemma NoneOpen(pending: seq<Word>, delivered: seq<Word>, info: seq<Info>, mask: Word)
    requires |pending| == DEPTH && |delivered| == DEPTH && |info| == SIGNALS * DEPTH && AndNot(pending[0], mask) == 0
    ensures forall k :: 0 <= k < SIGNALS ==> !Open(Meaning(pending, delivered, info, mask), k)
  {
    hide Open, Meaning, Test, AndNot;
    forall k | 0 <= k < SIGNALS ensures !Open(Meaning(pending, delivered, info, mask), k) {
      OpenBit(pending, delivered, info, mask, k);
      TestZero(k);
    }
  }

  /** A bit of the wanted set that is set in the first delivered plane is a signal waited for. */
  lemma AwaitedBit(delivered: seq<Word>, wanted: Word, i: nat)
    requires |delivered| == DEPTH && i < SIGNALS
    ensures And(And(Pow2(i), wanted), delivered[0]) != 0 <==> Level(delivered, i) > 0 && Test(wanted, i)
  {
    var w := And(And(Pow2(i), wanted), delivered[0]);
    if w == 0 {
      TestZero(i);
    } else {
      AndBounds(And(Pow2(i), wanted), delivered[0]);
      AndBounds(Pow2(i), wanted);
      PowerOf32();
      var j := SomeBit(w, 32);
      TestAnd(And(Pow2(i), wanted), delivered[0], j);
      TestAnd(Pow2(i), wanted, j);
      TestPow2(i, j);
    }
    TestAnd(And(Pow2(i), wanted), delivered[0], i);
    TestAnd(Pow2(i), wanted, i);
    TestPow2(i, i);
  }

  lemma SomeAwaited(delivered: seq<Word>, wanted: Word) returns (i: nat)
    requires |delivered| == DEPTH && And(delivered[0], wanted) != 0
    ensures i < SIGNALS && Level(delivered, i) > 0 && Test(wanted, i)
  {
    AndBounds(delivered[0], wanted);
    PowerOf32();
    i := SomeBit(And(delivered[0], wanted), 32);
    TestAnd(delivered[0], wanted, i);
  }

  lemma NoneAwaited(delivered: seq<Word>, wanted: Word)
    requires |delivered| == DEPTH && And(delivered[0], wanted) == 0
    ensures forall i :: 0 <= i < SIGNALS ==> !(Level(delivered, i) > 0 && Test(wanted, i))
  {
    forall i | 0 <= i < SIGNALS ensures !(Level(delivered, i) > 0 && Test(wanted, i)) {
      TestAnd(delivered[0], wanted, i);
      TestZero(i);
    }
  }

  // ---- Lists of tasks ----

  /** No two tasks of the list share storage. */
  ghost predicate Separate(tasks: seq<Task>)
  {
    forall i, j :: 0 <= i < |tasks| && 0 <= j < |tasks| && i != j ==>
      tasks[i].pending != tasks[j].pending && tasks[i].pending != tasks[j].delivered && tasks[i].info != tasks[j].info
  }

  ghost predicate AllValid(tasks: seq<Task>)
    reads tasks, set t | t in tasks :: t.pending, set t | t in tasks :: t.delivered
  {
    forall k :: 0 <= k < |tasks| ==> tasks[k].Valid()
  }

  /** LINKED_LIST_SEEK_UNTIL for a task id. */
  method Seek(tasks: seq<Task>, tid: int) returns (k: nat)
    ensures k <= |tasks| && (k < |tasks| ==> tasks[k].id == tid) && forall j :: 0 <= j < k ==> tasks[j].id != tid
  {
    k := 0;
    while k < |tasks| && tasks[k].id != tid
      invariant k <= |tasks| && forall j :: 0 <= j < k ==> tasks[j].id != tid
    {
      k := k + 1;
    }
  }

  /** sigqueue */
  method SigQueue(tasks: seq<Task>, tid: int, sig: int, value: int, uid: int, pid: int) returns (r: Errno)
    requires AllValid(tasks) && Separate(tasks)
    modifies set t | t in tasks :: t.pending, set t | t in tasks :: t.info
    ensures AllValid(tasks)
    ensures r == Invalid <==> !(1 <= sig <= 32)
    ensures r == NoSuchTask <==> 1 <= sig <= 32 && forall k :: 0 <= k < |tasks| ==> tasks[k].id != tid
    ensures forall k :: 0 <= k < |tasks| ==>
              tasks[k].State() == if 1 <= sig <= 32 && IsFirst(tasks, tid, k)
                                  then Queued(old(tasks[k].State()), sig - 1, Info(value, sig, uid, pid, SiQueue))
                                  else old(tasks[k].State())
    ensures forall k :: 0 <= k < |tasks| && 1 <= sig <= 32 && IsFirst(tasks, tid, k) ==>
              (r == Again <==> |old(tasks[k].State()).queues[sig - 1]| == DEPTH)
  {
    hide Nested, Meaning, Queued;
    if sig < 1 || sig > 32 { return Invalid; }
    var n := Seek(tasks, tid);
    if n == |tasks| { return NoSuchTask; }
    r := tasks[n].Queue(sig, value, uid, pid);
  }

  /** Task `k` is the one a search for `tid` finds. */
  predicate IsFirst(tasks: seq<Task>, tid: int, k: nat)
    requires k < |tasks|
  {
    tasks[k].id == tid && forall j :: 0 <= j < k ==> tasks[j].id != tid
  }

  /** pthread_kill_nolock: to one thread, or with id 0 to all of them. */
  method KillThread(tasks: seq<Task>, tid: int, sig: int, uid: int, pid: int) returns (r: int)
    requires AllValid(tasks) && Separate(tasks) && 0 <= sig <= 32
    modifies set t | t in tasks :: t.pending, set t | t in tasks :: t.info
    ensures AllValid(tasks)
    ensures r == -1 <==> tid != 0 && forall k :: 0 <= k < |tasks| ==> tasks[k].id != tid
    ensures r == 0 || r == -1
    ensures forall k :: 0 <= k < |tasks| ==>
              tasks[k].State() == if sig != 0 && (tid == 0 || IsFirst(tasks, tid, k))
                                  then Killed(old(tasks[k].State()), sig - 1, Info(0, sig, uid, pid, SiUser))
                                  else old(tasks[k].State())
  {
    hide Nested, Meaning, Killed;
    if tid == 0 {
      var n := 0;
      while n < |tasks|
        invariant n <= |tasks| && AllValid(tasks)
        invariant forall k :: n <= k < |tasks| ==> tasks[k].State() == old(tasks[k].State())
        invariant forall k :: 0 <= k < n ==>
                    tasks[k].State() ==
                    if sig == 0 then old(tasks[k].State())
                    else Killed(old(tasks[k].State()), sig - 1, Info(0, sig, uid, pid, SiUser))
      {
        tasks[n].Post(sig, uid, pid);
        n := n + 1;
      }
    } else {
      var n := Seek(tasks, tid);
      if n == |tasks| { return -1; }
      tasks[n].Post(sig, uid, pid);
    }
    r := 0;
  }
}

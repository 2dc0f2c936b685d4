/** The counting semaphore with an exclusive mode (kernel/semaphore.c). */
module Semaphore {

  // The semaphore is built from test-and-set words (kernel/include/mutex.h). The model
  // has any number of threads and every interleaving of their loads, stores and
  // exchanges. A thread is a program counter. Sleeping and yielding only delay a
  // thread, so they are steps without effect; the wait, busywait and waitsleep forms
  // then make the same steps.

  type Tid = int

  datatype Mode = Shared | Exclusive

  /** The try forms give up; the waiting forms go round again. */
  datatype Style = Once | Retry

  datatype Pc =
    | Idle
    | GetExclusive(mode: Mode, style: Style)
    | GetEnter(mode: Mode, style: Style)
    | Check(mode: Mode, style: Style)
    | Load
    | Store(v: int)
    | LeaveEnter(mode: Mode, style: Style, got: bool)
    | Rest(mode: Mode)
    | LeaveExclusive(got: bool)
    | SigEnter(style: Style)
    | SigCheck(style: Style)
    | SigLoad
    | SigStore(v: int)
    | SigWake
    | SigLeave(style: Style, done: bool)
    | SigExclusive

  /** What an idle thread may call. */
  datatype Op = Acquire(mode: Mode, style: Style) | Signal(style: Style) | SignalExclusive

  datatype Owner = Nobody | By(t: Tid)

  /**
   For every thread, what its last call answered, how many of its calls answered yes, and how often it
   took or gave back a slot or got the grant.
   */
  datatype Log = Log(answers: map<Tid, bool>, yes: map<Tid, nat>, wins: map<Tid, nat>)

  function Times(m: map<Tid, nat>, t: Tid): nat
  {
    if t in m then m[t] else 0
  }

  function Said(l: Log, t: Tid, answer: bool): (r: Log)
    ensures t in r.answers && r.answers[t] == answer
  {
    Log(l.answers[t := answer], if answer then l.yes[t := Times(l.yes, t) + 1] else l.yes, l.wins)
  }

  function Won(l: Log, t: Tid): (r: Log)
    ensures r.answers == l.answers
  {
    l.(wins := l.wins[t := Times(l.wins, t) + 1])
  }

  /** The words of the semaphore, where every thread is, and a record of what happened. */
  datatype State = State(
    cnt: int, max: int, enter: int, exclusive: int,
    pcs: map<Tid, Pc>, log: Log, grant: Owner,
    inEnter: Owner, inExclusive: Owner,
    initial: int, taken: nat, given: nat)

  function PcOf(s: State, t: Tid): Pc
  {
    if t in s.pcs then s.pcs[t] else Idle
  }

  function At(s: State, t: Tid, pc: Pc): State
  {
    s.(pcs := s.pcs[t := pc])
  }

  function Initial(max: int, count: int): State
  {
    State(count, max, 0, 0, map[], Log(map[], map[], map[]), Nobody, Nobody, Nobody, count, 0, 0)
  }

  /** A call returns; only the try forms have an answer, the others come back when they have what they want. */
  function Return(s: State, t: Tid, answer: bool): State
  {
    At(s, t, Idle).(log := Said(s.log, t, answer))
  }

  // ---- Steps ----

  function Begin(s: State, t: Tid, op: Op): State
  {
    match op
    case Acquire(mode, style) => At(s, t, GetExclusive(mode, style))
    case Signal(style) => At(s, t, SigEnter(style))
    case SignalExclusive => if s.grant == By(t) then At(s, t, SigExclusive) else s
  }

  /** An exchange with 1 on `exclusive`; it is ours if it held 0. */
  function SwapExclusive(s: State, t: Tid): State
  {
    if s.exclusive == 0 then s.(exclusive := 1, inExclusive := By(t)) else s.(exclusive := 1)
  }

  function SwapEnter(s: State, t: Tid): State
  {
    if s.enter == 0 then s.(enter := 1, inEnter := By(t)) else s.(enter := 1)
  }

  function FreeEnter(s: State): State
  {
    s.(enter := 0, inEnter := Nobody)
  }

  function FreeExclusive(s: State): State
  {
    s.(exclusive := 0, inExclusive := Nobody)
  }

  /** Where a thread goes after it has released `enter`. */
  function Left(s: State, t: Tid, mode: Mode, style: Style, got: bool): State
  {
    if got && mode == Exclusive then At(s, t, Idle).(log := Said(Won(s.log, t), t, true), grant := By(t))
    else At(s, t, if got || style == Once then LeaveExclusive(got) else Rest(mode))
  }

  /** One atomic step of thread `t`; `op` is what it calls if it is idle. */
  function Step(s: State, t: Tid, op: Op): State
  {
    match PcOf(s, t)
    case Idle => Begin(s, t, op)
    case GetExclusive(mode, style) =>
      var r := SwapExclusive(s, t);
      if s.exclusive == 0 then At(r, t, GetEnter(mode, style)) else if style == Once then Return(r, t, false) else r
    case GetEnter(mode, style) =>
      var r := SwapEnter(s, t);
      if s.enter == 0 then At(r, t, Check(mode, style))
      else if style == Once then At(r, t, LeaveExclusive(false))
      else r
    case Check(mode, style) =>
      if mode == Shared && s.cnt < s.max then At(s, t, Load)
      else At(s, t, LeaveEnter(mode, style, mode == Exclusive && s.cnt == 0))
    case Load => At(s, t, Store(s.cnt))
    case Store(v) =>
      At(s, t, LeaveEnter(Shared, Retry, true)).(cnt := v + 1, taken := s.taken + 1, log := Won(s.log, t))
    case LeaveEnter(mode, style, got) => Left(FreeEnter(s), t, mode, style, got)
    case Rest(mode) => At(s, t, GetEnter(mode, Retry))
    case LeaveExclusive(got) => Return(FreeExclusive(s), t, got)
    case SigEnter(style) =>
      var r := SwapEnter(s, t);
      if s.enter == 0 then At(r, t, SigCheck(style)) else if style == Once then Return(r, t, false) else r
    case SigCheck(style) => At(s, t, if s.cnt > 0 then SigLoad else SigLeave(style, false))
    case SigLoad => At(s, t, SigStore(s.cnt))
    case SigStore(v) => At(s, t, SigWake).(cnt := v - 1, given := s.given + 1, log := Won(s.log, t))
    case SigWake => At(s, t, SigLeave(Once, true))
    case SigLeave(style, done) =>
      if done || style == Once then Return(FreeEnter(s), t, done) else At(FreeEnter(s), t, SigEnter(style))
    case SigExclusive => At(FreeExclusive(s), t, Idle).(grant := Nobody)
  }

  // ---- The invariant ----

  predicate HoldsEnter(pc: Pc)
  {
    || pc.Check? || pc.Load? || pc.Store? || pc.LeaveEnter?
    || pc.SigCheck? || pc.SigLoad? || pc.SigStore? || pc.SigWake? || pc.SigLeave?
  }

  predicate HoldsExclusive(pc: Pc)
  {
    pc.GetEnter? || pc.Check? || pc.Load? || pc.Store? || pc.LeaveEnter? || pc.Rest? || pc.LeaveExclusive?
  }

  /** What a thread may rely on where it is. */
  predicate Assured(s: State, t: Tid)
  {
    match PcOf(s, t)
    case Load => s.cnt < s.max
    case Store(v) => v == s.cnt < s.max
    case LeaveEnter(mode, style, got) => mode == Exclusive && got ==> s.cnt == 0
    case SigLoad => s.cnt > 0
    case SigStore(v) => v == s.cnt > 0
    case SigExclusive => s.grant == By(t)
    case _ => true
  }

  predicate ThreadOk(s: State, t: Tid)
  {
    && (HoldsEnter(PcOf(s, t)) <==> s.inEnter == By(t))
    && (HoldsExclusive(PcOf(s, t)) || s.grant == By(t) <==> s.inExclusive == By(t))
    && !(HoldsExclusive(PcOf(s, t)) && s.grant == By(t))
    && Assured(s, t)
  }

  /** What holds of the words, whoever the threads are. */
  predicate WordsOk(s: State)
  {
    && 0 <= s.cnt <= s.max
    && s.cnt - s.initial == s.taken - s.given
    && s.enter == (if s.inEnter == Nobody then 0 else 1)
    && s.exclusive == (if s.inExclusive == Nobody then 0 else 1)
    && (s.grant != Nobody ==> s.cnt == 0 && s.inExclusive == s.grant)
  }

  ghost predicate Inv(s: State)
  {
    WordsOk(s) && forall t :: ThreadOk(s, t)
  }

  /** Ownership passes only between nobody and `t`. */
  predicate Passes(o: Owner, p: Owner, t: Tid)
  {
    o == p || ((o == Nobody || o == By(t)) && (p == Nobody || p == By(t)))
  }

  /** What a step of `t` leaves alone: other threads, other owners, and the count unless `t` is inside. */
  ghost predicate Local(s: State, r: State, t: Tid)
  {
    && (forall u :: u != t ==> PcOf(r, u) == PcOf(s, u))
    && Passes(s.inEnter, r.inEnter, t) && Passes(s.inExclusive, r.inExclusive, t) && Passes(s.grant, r.grant, t)
    && (r.cnt == s.cnt || s.inEnter == By(t)) && r.max == s.max
  }

  lemma OtherOk(s: State, r: State, t: Tid, u: Tid)
    requires ThreadOk(s, u) && u != t && Local(s, r, t)
    ensures ThreadOk(r, u)
  {
    assert PcOf(r, u) == PcOf(s, u);
  }

  lemma SwapExclusiveStep(s: State, t: Tid, op: Op)
    requires WordsOk(s) && ThreadOk(s, t)
    requires var pc := PcOf(s, t); pc.GetExclusive?
    ensures var r := Step(s, t, op); WordsOk(r) && ThreadOk(r, t) && Local(s, r, t)
  {
    hide Said, Won;
  }

  lemma SwapEnterStep(s: State, t: Tid, op: Op)
    requires WordsOk(s) && ThreadOk(s, t)
    requires var pc := PcOf(s, t); pc.GetEnter? || pc.SigEnter?
    ensures var r := Step(s, t, op); WordsOk(r) && ThreadOk(r, t) && Local(s, r, t)
  {
    hide Said, Won;
  }

  lemma AcquireStep(s: State, t: Tid, op: Op)
    requires WordsOk(s) && ThreadOk(s, t)
    requires var pc := PcOf(s, t); pc.Check? || pc.Load? || pc.Store? || pc.Rest?
    ensures var r := Step(s, t, op); WordsOk(r) && ThreadOk(r, t) && Local(s, r, t)
  {
    hide Said, Won;
  }

  lemma LeaveStep(s: State, t: Tid, op: Op)
    requires WordsOk(s) && ThreadOk(s, t)
    requires var pc := PcOf(s, t); pc.LeaveEnter? || pc.LeaveExclusive?
    ensures var r := Step(s, t, op); WordsOk(r) && ThreadOk(r, t) && Local(s, r, t)
  {
    hide Said, Won;
  }

  lemma SignalStep(s: State, t: Tid, op: Op)
    requires WordsOk(s) && ThreadOk(s, t)
    requires var pc := PcOf(s, t); pc.SigCheck? || pc.SigLoad? || pc.SigStore? || pc.SigWake?
    ensures var r := Step(s, t, op); WordsOk(r) && ThreadOk(r, t) && Local(s, r, t)
  {
    hide Said, Won;
  }

  lemma ReturnStep(s: State, t: Tid, op: Op)
    requires WordsOk(s) && ThreadOk(s, t)
    requires var pc := PcOf(s, t); pc.SigLeave? || pc.SigExclusive?
    ensures var r := Step(s, t, op); WordsOk(r) && ThreadOk(r, t) && Local(s, r, t)
  {
    hide Said, Won;
  }

  lemma BeginStep(s: State, t: Tid, op: Op)
    requires WordsOk(s) && ThreadOk(s, t)
    requires var pc := PcOf(s, t); pc.Idle?
    ensures var r := Step(s, t, op); WordsOk(r) && ThreadOk(r, t) && Local(s, r, t)
  {
    hide Said, Won;
  }

  /** Every step of every thread keeps the invariant. */
  lemma StepKeeps(s: State, t: Tid, op: Op)
    requires Inv(s)
    ensures Inv(Step(s, t, op))
  {
    hide Step, Local, ThreadOk, WordsOk;
    var pc, r := PcOf(s, t), Step(s, t, op);
    assert ThreadOk(s, t);
    if pc.GetExclusive? {
      SwapExclusiveStep(s, t, op);
    } else if pc.GetEnter? || pc.SigEnter? {
      SwapEnterStep(s, t, op);
    } else if pc.Check? || pc.Load? || pc.Store? || pc.Rest? {
      AcquireStep(s, t, op);
    } else if pc.LeaveEnter? || pc.LeaveExclusive? {
      LeaveStep(s, t, op);
    } else if pc.SigCheck? || pc.SigLoad? || pc.SigStore? || pc.SigWake? {
      SignalStep(s, t, op);
    } else if pc.SigLeave? || pc.SigExclusive? {
      ReturnStep(s, t, op);
    } else {
      BeginStep(s, t, op);
    }
    forall u ensures ThreadOk(r, u) {
      if u != t { OtherOk(s, r, t, u); }
    }
  }

  // ---- Runs ----

  datatype Move = Move(t: Tid, op: Op)

  function Run(max: int, count: int, moves: seq<Move>): State
  {
    if moves == [] then Initial(max, count)
    else Step(Run(max, count, moves[..|moves| - 1]), moves[|moves| - 1].t, moves[|moves| - 1].op)
  }

  lemma {:induction false} Reachable(max: int, count: int, moves: seq<Move>)
    requires 0 <= count <= max
    ensures Inv(Run(max, count, moves))
  {
    if moves != [] {
      Reachable(max, count, moves[..|moves| - 1]);
      StepKeeps(Run(max, count, moves[..|moves| - 1]), moves[|moves| - 1].t, moves[|moves| - 1].op);
    }
  }

  /** A thread whose next step is mutex_release on `enter`, or on `exclusive`. */
  predicate ReleasesEnter(pc: Pc)
  {
    pc.LeaveEnter? || pc.SigLeave?
  }

  predicate ReleasesExclusive(pc: Pc)
  {
    pc.LeaveExclusive? || pc.SigExclusive?
  }

  lemma StepKeepsRecord(s: State, t: Tid, op: Op)
    ensures Step(s, t, op).max == s.max && Step(s, t, op).initial == s.initial
  {
    hide Said, Won;
  }

  lemma {:induction false} Bookkeeping(max: int, count: int, moves: seq<Move>)
    ensures Run(max, count, moves).max == max && Run(max, count, moves).initial == count
  {
    hide Step;
    if moves != [] {
      var less, last := moves[..|moves| - 1], moves[|moves| - 1];
      Bookkeeping(max, count, less);
      StepKeepsRecord(Run(max, count, less), last.t, last.op);
    }
  }

  /**
   In every reachable state: the count stays in range and is what was taken less what was given;
   no two threads are inside `enter`, nor hold `exclusive`; a release finds its word set; and
   while the semaphore is granted exclusively no slot is taken and nobody is taking one.
   */
  lemma Safety(max: int, count: int, moves: seq<Move>, t: Tid, u: Tid)
    requires 0 <= count <= max
    ensures var s := Run(max, count, moves);
            && 0 <= s.cnt <= max && s.cnt - count == s.taken - s.given
            && (t != u ==> !(HoldsEnter(PcOf(s, t)) && HoldsEnter(PcOf(s, u))))
            && (t != u ==> !(HoldsExclusive(PcOf(s, t)) && HoldsExclusive(PcOf(s, u))))
            && (ReleasesEnter(PcOf(s, t)) ==> s.enter == 1)
            && (ReleasesExclusive(PcOf(s, t)) ==> s.exclusive == 1)
            && (s.grant != Nobody ==> s.cnt == 0 && !PcOf(s, t).Load? && !PcOf(s, t).Store?)
  {
    hide Run, Step;
    Reachable(max, count, moves);
    Bookkeeping(max, count, moves);
    var s := Run(max, count, moves);
    assert ThreadOk(s, t) && ThreadOk(s, u);
  }

  /** Once granted, the semaphore stays with its owner and empty until that owner releases it. */
  lemma {:induction false} GrantLasts(max: int, count: int, moves: seq<Move>, more: seq<Move>, t: Tid)
    requires 0 <= count <= max && Run(max, count, moves).grant == By(t)
    requires forall k :: 0 <= k < |more| ==>
               !(more[k].t == t && PcOf(Run(max, count, moves + more[..k]), t).SigExclusive?)
    ensures Run(max, count, moves + more).grant == By(t) && Run(max, count, moves + more).cnt == 0
    decreases |more|
  {
    hide Step, Inv;
    Reachable(max, count, moves + more);
    GrantedIsEmpty(Run(max, count, moves + more));
    if more == [] {
      assert moves + more == moves;
    } else {
      var n := |more| - 1;
      assert (moves + more)[..|moves + more| - 1] == moves + more[..n];
      assert forall k :: 0 <= k < n ==> more[..n][..k] == more[..k];
      GrantLasts(max, count, moves, more[..n], t);
      Reachable(max, count, moves + more[..n]);
      GrantStep(Run(max, count, moves + more[..n]), t, more[n]);
    }
  }

  lemma GrantedIsEmpty(s: State)
    requires Inv(s)
    ensures s.grant != Nobody ==> s.cnt == 0
  {
  }

  lemma GrantStep(s: State, t: Tid, move: Move)
    requires Inv(s) && s.grant == By(t) && !(move.t == t && PcOf(s, t).SigExclusive?)
    ensures Step(s, move.t, move.op).grant == By(t)
  {
    assert ThreadOk(s, move.t);
  }

  /**
   How the count moves in a reachable state: up by one, and only below the maximum, where a slot is
   taken; down by one, and only above zero, where one is given back; and nowhere else.
   */
  lemma CountMoves(max: int, count: int, moves: seq<Move>, t: Tid, op: Op)
    requires 0 <= count <= max
    ensures var s := Run(max, count, moves); var r := Step(s, t, op); var pc := PcOf(s, t);
            && r.cnt == s.cnt + (if pc.Store? then 1 else if pc.SigStore? then -1 else 0)
            && (pc.Store? ==> s.cnt < max) && (pc.SigStore? ==> s.cnt > 0)
  {
    hide Run;
    Reachable(max, count, moves);
    Bookkeeping(max, count, moves);
    assert ThreadOk(Run(max, count, moves), t);
  }

  // ---- Answers ----

  /** It has what it called for and is about to say so. */
  predicate Owes(pc: Pc)
  {
    match pc
    case LeaveEnter(mode, _, got) => got && mode == Shared
    case LeaveExclusive(got) => got
    case SigWake => true
    case SigLeave(_, done) => done
    case _ => false
  }

  predicate Honest(s: State, t: Tid)
  {
    Times(s.log.wins, t) == Times(s.log.yes, t) + if Owes(PcOf(s, t)) then 1 else 0
  }

  /** How answers and wins are counted. */
  lemma Counts(l: Log, t: Tid, u: Tid)
    ensures forall answer: bool ::
              && Times(Said(l, t, answer).yes, u) == Times(l.yes, u) + (if answer && u == t then 1 else 0)
              && Said(l, t, answer).wins == l.wins
    ensures Times(Won(l, t).wins, u) == Times(l.wins, u) + (if u == t then 1 else 0) && Won(l, t).yes == l.yes
    ensures var r := Said(Won(l, t), t, true);
            && Times(r.wins, u) == Times(l.wins, u) + (if u == t then 1 else 0)
            && Times(r.yes, u) == Times(l.yes, u) + (if u == t then 1 else 0)
  {
  }

  lemma SwapHonest(s: State, t: Tid, op: Op, u: Tid)
    requires Honest(s, u)
    requires var pc := PcOf(s, t); pc.GetExclusive? || pc.GetEnter?
    ensures Honest(Step(s, t, op), u)
  {
    hide Said, Won, Times;
    Counts(s.log, t, u);
  }

  lemma BeginHonest(s: State, t: Tid, op: Op, u: Tid)
    requires Honest(s, u)
    requires var pc := PcOf(s, t); pc.SigEnter? || pc.Idle?
    ensures Honest(Step(s, t, op), u)
  {
    hide Said, Won, Times;
    Counts(s.log, t, u);
  }

  lemma LeaveHonest(s: State, t: Tid, op: Op, u: Tid)
    requires Honest(s, u)
    requires var pc := PcOf(s, t); pc.LeaveEnter? || pc.LeaveExclusive?
    ensures Honest(Step(s, t, op), u)
  {
    hide Said, Won, Times;
    Counts(s.log, t, u);
  }

  lemma ReturnHonest(s: State, t: Tid, op: Op, u: Tid)
    requires Honest(s, u)
    requires var pc := PcOf(s, t); pc.SigLeave? || pc.SigExclusive?
    ensures Honest(Step(s, t, op), u)
  {
    hide Said, Won, Times;
    Counts(s.log, t, u);
  }

  lemma AcquireHonest(s: State, t: Tid, op: Op, u: Tid)
    requires Honest(s, u)
    requires var pc := PcOf(s, t); pc.Check? || pc.Load? || pc.Store? || pc.Rest?
    ensures Honest(Step(s, t, op), u)
  {
    hide Said, Won, Times;
    Counts(s.log, t, u);
  }

  lemma SignalHonest(s: State, t: Tid, op: Op, u: Tid)
    requires Honest(s, u)
    requires var pc := PcOf(s, t); pc.SigCheck? || pc.SigLoad? || pc.SigStore? || pc.SigWake?
    ensures Honest(Step(s, t, op), u)
  {
    hide Said, Won, Times;
    Counts(s.log, t, u);
  }

  lemma StepHonest(s: State, t: Tid, op: Op, u: Tid)
    requires Honest(s, u)
    ensures Honest(Step(s, t, op), u)
  {
    hide Step, Honest;
    var pc := PcOf(s, t);
    if pc.GetExclusive? || pc.GetEnter? {
      SwapHonest(s, t, op, u);
    } else if pc.SigEnter? || pc.Idle? {
      BeginHonest(s, t, op, u);
    } else if pc.LeaveEnter? || pc.LeaveExclusive? {
      LeaveHonest(s, t, op, u);
    } else if pc.SigLeave? || pc.SigExclusive? {
      ReturnHonest(s, t, op, u);
    } else if pc.Check? || pc.Load? || pc.Store? || pc.Rest? {
      AcquireHonest(s, t, op, u);
    } else {
      SignalHonest(s, t, op, u);
    }
  }

  /**
   In every run, between its calls, a thread was answered yes as often as it took or gave back a slot or
   got the grant.
   */
  lemma {:induction false} AnswersAreTrue(max: int, count: int, moves: seq<Move>, u: Tid)
    ensures Honest(Run(max, count, moves), u)
    ensures var s := Run(max, count, moves); PcOf(s, u).Idle? ==> Times(s.log.yes, u) == Times(s.log.wins, u)
  {
    hide Step;
    if moves != [] {
      var less, last := moves[..|moves| - 1], moves[|moves| - 1];
      AnswersAreTrue(max, count, less, u);
      StepHonest(Run(max, count, less), last.t, last.op, u);
    }
  }

  // ---- Releases without a grant ----

  /** semaphore_signal_excl by an idle thread, which the source does not refuse to one without the grant. */
  function Unchecked(s: State, t: Tid): State
  {
    At(FreeExclusive(s), t, Idle).(grant := if s.grant == By(t) then Nobody else s.grant)
  }

  /** Some thread has `exclusive`, or believes so. */
  ghost predicate Held(s: State)
  {
    exists t :: HoldsExclusive(PcOf(s, t)) || s.grant == By(t)
  }

  /** It finds the word set, and leaves it clear with nobody holding it, exactly when the thread has the grant. */
  lemma ReleaseNeedsGrant(s: State, t: Tid)
    requires Inv(s) && PcOf(s, t).Idle?
    ensures s.exclusive == 1 && !Held(Unchecked(s, t)) <==> s.grant == By(t)
  {
    var r := Unchecked(s, t);
    assert ThreadOk(s, t);
    if s.grant == By(t) {
      forall u ensures !HoldsExclusive(PcOf(r, u)) { assert ThreadOk(s, u); }
    } else if s.exclusive == 1 {
      var u := s.inExclusive.t;
      assert ThreadOk(s, u);
      assert HoldsExclusive(PcOf(r, u)) || r.grant == By(u);
    }
  }

  /** While one thread has the semaphore exclusively, another releases it and can then get hold of it too. */
  lemma UngrantedReleaseSplits(s: State, a: Tid, b: Tid)
    requires Inv(s) && s.grant == By(a) && a != b && PcOf(s, b).Idle?
    ensures var r := Step(At(Unchecked(s, b), b, GetExclusive(Shared, Retry)), b, SignalExclusive);
            r.grant == By(a) && HoldsExclusive(PcOf(r, b))
  {
  }
}

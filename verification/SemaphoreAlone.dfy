/** What a call of the semaphore comes to when its thread is not disturbed. */
module SemaphoreAlone {
  import opened Semaphore

  // ---- A thread that is not disturbed ----

  /** The states a thread goes through when it alone moves. */
  ghost predicate Alone(path: seq<State>, t: Tid, op: Op)
  {
    path != [] && forall i :: 0 < i < |path| ==> path[i] == Step(path[i - 1], t, op)
  }

  predicate WordsClear(s: State)
  {
    s.enter == 0 && s.exclusive == 0
  }

  /** Inside both words, about to look at the count. */
  lemma Enters(s: State, t: Tid, mode: Mode, style: Style) returns (path: seq<State>)
    requires PcOf(s, t).Idle? && WordsClear(s)
    ensures Alone(path, t, Acquire(mode, style)) && |path| == 4 && path[0] == s
    ensures PcOf(path[1], t) == GetExclusive(mode, style) && PcOf(path[2], t) == GetEnter(mode, style)
    ensures PcOf(path[3], t) == Check(mode, style) && Same(s, path[3]) && path[3].exclusive == 1
  {
    var op := Acquire(mode, style);
    var s1 := Step(s, t, op);
    var s2 := Step(s1, t, op);
    var s3 := Step(s2, t, op);
    path := [s, s1, s2, s3];
  }

  /** The record is the same. */
  predicate Same(s: State, r: State)
  {
    r.cnt == s.cnt && r.max == s.max && r.taken == s.taken && r.given == s.given && r.grant == s.grant
  }

  /** From there, with a slot free: it is taken, both words are released and the answer is yes. */
  lemma Takes(s: State, t: Tid, style: Style) returns (path: seq<State>)
    requires PcOf(s, t) == Check(Shared, style) && s.cnt < s.max
    ensures Alone(path, t, Acquire(Shared, style)) && |path| == 6 && path[0] == s
    ensures forall i :: 0 <= i < 5 ==> !PcOf(path[i], t).Idle?
    ensures PcOf(path[5], t).Idle? && WordsClear(path[5]) && t in path[5].log.answers && path[5].log.answers[t]
    ensures path[5].cnt == s.cnt + 1 && path[5].taken == s.taken + 1 && path[5].given == s.given
  {
    var op := Acquire(Shared, style);
    var s1 := Step(s, t, op);
    var s2 := Step(s1, t, op);
    assert PcOf(s2, t) == Store(s.cnt);
    var s3 := Step(s2, t, op);
    var s4 := Step(s3, t, op);
    assert PcOf(s4, t) == LeaveExclusive(true);
    var s5 := Step(s4, t, op);
    path := [s, s1, s2, s3, s4, s5];
  }

  /** With no slot free the count is left alone, both words are released and the answer is no. */
  lemma Refuses(s: State, t: Tid, mode: Mode) returns (path: seq<State>)
    requires PcOf(s, t) == Check(mode, Once) && !Available(s, mode)
    ensures Alone(path, t, Acquire(mode, Once)) && |path| == 4 && path[0] == s
    ensures forall i :: 0 < i < 3 ==> !PcOf(path[i], t).Idle?
    ensures PcOf(path[3], t).Idle? && WordsClear(path[3]) && Same(s, path[3])
    ensures t in path[3].log.answers && !path[3].log.answers[t]
  {
    var op := Acquire(mode, Once);
    var s1 := Step(s, t, op);
    var s2 := Step(s1, t, op);
    assert PcOf(s2, t) == LeaveExclusive(false);
    var s3 := Step(s2, t, op);
    path := [s, s1, s2, s3];
  }

  /** With no slot taken the exclusive form keeps `exclusive`, releases `enter` and has the grant. */
  lemma Grants(s: State, t: Tid, style: Style) returns (path: seq<State>)
    requires PcOf(s, t) == Check(Exclusive, style) && s.cnt == 0 && s.exclusive == 1
    ensures Alone(path, t, Acquire(Exclusive, style)) && |path| == 3 && path[0] == s
    ensures !PcOf(path[1], t).Idle? && PcOf(path[2], t).Idle?
    ensures path[2].enter == 0 && path[2].exclusive == 1 && path[2].grant == By(t)
    ensures path[2].cnt == s.cnt && path[2].taken == s.taken && path[2].given == s.given
    ensures t in path[2].log.answers && path[2].log.answers[t]
  {
    var op := Acquire(Exclusive, style);
    var s1 := Step(s, t, op);
    var s2 := Step(s1, t, op);
    path := [s, s1, s2];
  }

  /** What the count test of the mode asks for. */
  predicate Available(s: State, mode: Mode)
  {
    if mode == Shared then s.cnt < s.max else s.cnt == 0
  }

  // ---- Runs ----

  function Solo(t: Tid, op: Op, n: nat): (r: seq<Move>)
    ensures |r| == n
  {
    seq(n, _ => Move(t, op))
  }

  lemma {:induction false} RunAlone(max: int, count: int, moves: seq<Move>, path: seq<State>, t: Tid, op: Op)
    requires Alone(path, t, op) && path[0] == Run(max, count, moves)
    ensures Run(max, count, moves + Solo(t, op, |path| - 1)) == path[|path| - 1]
    decreases |path|
  {
    hide Step;
    var n := |path| - 1;
    if n == 0 {
      assert moves + Solo(t, op, 0) == moves;
    } else {
      RunAlone(max, count, moves, path[..n], t, op);
      var all := moves + Solo(t, op, n);
      assert all[..|all| - 1] == moves + Solo(t, op, n - 1);
      assert all[|all| - 1] == Move(t, op);
    }
  }

  lemma Joins(a: seq<State>, b: seq<State>, t: Tid, op: Op)
    requires Alone(a, t, op) && Alone(b, t, op) && a[|a| - 1] == b[0]
    ensures Alone(a + b[1..], t, op)
  {
    hide Step;
  }

  /** What a call that returned has done. */
  ghost predicate Done(s: State, r: State, t: Tid, mode: Mode, free: bool)
  {
    && PcOf(r, t).Idle? && t in r.log.answers && r.log.answers[t] == free && r.enter == 0 && r.given == s.given
    && r.cnt == s.cnt + (if free && mode == Shared then 1 else 0)
    && r.taken == s.taken + (if free && mode == Shared then 1 else 0)
    && (if free && mode == Exclusive then r.grant == By(t) && r.exclusive == 1 else r.exclusive == 0)
  }

  /** The states of a whole call that returns. */
  lemma Acquires(s: State, t: Tid, mode: Mode, style: Style) returns (path: seq<State>)
    requires PcOf(s, t).Idle? && WordsClear(s) && (Available(s, mode) || style == Once)
    ensures Alone(path, t, Acquire(mode, style)) && path[0] == s
    ensures |path| > 1 && forall i :: 0 < i < |path| - 1 ==> !PcOf(path[i], t).Idle?
    ensures Done(s, path[|path| - 1], t, mode, Available(s, mode))
  {
    hide Step, Alone;
    var enters := Enters(s, t, mode, style);
    var s3 := enters[3];
    var rest;
    if !Available(s, mode) {
      rest := Refuses(s3, t, mode);
    } else if mode == Shared {
      rest := Takes(s3, t, style);
    } else {
      rest := Grants(s3, t, style);
    }
    Joins(enters, rest, t, Acquire(mode, style));
    path := enters + rest[1..];
  }

  /** Going round between the tests. */
  predicate Waiting(s: State, t: Tid, mode: Mode)
  {
    match PcOf(s, t)
    case GetExclusive(m, style) => m == mode && style == Retry
    case GetEnter(m, style) => m == mode && style == Retry
    case Check(m, style) => m == mode && style == Retry
    case LeaveEnter(m, style, got) => m == mode && style == Retry && !got
    case Rest(m) => m == mode
    case _ => false
  }

  lemma WaitsOn(s: State, t: Tid, mode: Mode)
    requires (PcOf(s, t).Idle? || Waiting(s, t, mode)) && !Available(s, mode)
    ensures var r := Step(s, t, Acquire(mode, Retry)); Waiting(r, t, mode) && Same(s, r)
  {
  }

  lemma {:induction false} KeepsWaiting(max: int, count: int, moves: seq<Move>, t: Tid, mode: Mode, n: nat)
    requires var s := Run(max, count, moves); PcOf(s, t).Idle? && !Available(s, mode)
    ensures var s, r := Run(max, count, moves), Run(max, count, moves + Solo(t, Acquire(mode, Retry), n));
            Same(s, r) && (if n == 0 then r == s else Waiting(r, t, mode))
  {
    hide Step, Run;
    var op := Acquire(mode, Retry);
    if n == 0 {
      assert moves + Solo(t, op, 0) == moves;
    } else {
      KeepsWaiting(max, count, moves, t, mode, n - 1);
      var all := moves + Solo(t, op, n);
      assert all[..|all| - 1] == moves + Solo(t, op, n - 1);
      RunLast(max, count, all);
      WaitsOn(Run(max, count, moves + Solo(t, op, n - 1)), t, mode);
    }
  }

  lemma RunLast(max: int, count: int, moves: seq<Move>)
    requires moves != []
    ensures Run(max, count, moves) ==
            Step(Run(max, count, moves[..|moves| - 1]), moves[|moves| - 1].t, moves[|moves| - 1].op)
  {
    hide Step;
  }

  /**
   Every acquiring call from a reachable state with both words clear, its thread moving alone: it
   returns exactly when a slot is free (for the exclusive form: when none is taken) or it is a try
   form; a try form answers whether it was; and a slot is taken, or the grant given, exactly then.
   */
  lemma AcquireAlone(max: int, count: int, moves: seq<Move>, t: Tid, mode: Mode, style: Style) returns (n: nat)
    requires 0 <= count <= max
    requires var s := Run(max, count, moves); PcOf(s, t).Idle? && WordsClear(s)
    ensures var s := Run(max, count, moves); var free := if mode == Shared then s.cnt < max else s.cnt == 0;
            if free || style == Once
            then Done(s, Run(max, count, moves + Solo(t, Acquire(mode, style), n)), t, mode, free)
            else forall k: nat :: k > 0 ==>
                   !PcOf(Run(max, count, moves + Solo(t, Acquire(mode, style), k)), t).Idle? &&
                   Same(s, Run(max, count, moves + Solo(t, Acquire(mode, style), k)))
  {
    hide Step, Run, Done;
    Bookkeeping(max, count, moves);
    var s := Run(max, count, moves);
    n := 0;
    if Available(s, mode) || style == Once {
      var path := Acquires(s, t, mode, style);
      n := |path| - 1;
      RunAlone(max, count, moves, path, t, Acquire(mode, style));
    } else {
      forall k: nat | k > 0
        ensures !PcOf(Run(max, count, moves + Solo(t, Acquire(mode, style), k)), t).Idle?
        ensures Same(s, Run(max, count, moves + Solo(t, Acquire(mode, style), k)))
      {
        KeepsWaiting(max, count, moves, t, mode, k);
      }
    }
  }

  // ---- Signals ----

  /** Up to the store of the count. */
  lemma SignalEnters(s: State, t: Tid, style: Style) returns (path: seq<State>)
    requires PcOf(s, t).Idle? && s.enter == 0 && s.cnt > 0
    ensures Alone(path, t, Signal(style)) && |path| == 5 && path[0] == s
    ensures forall i :: 0 < i < 5 ==> !PcOf(path[i], t).Idle?
    ensures PcOf(path[4], t) == SigStore(s.cnt) && Same(s, path[4]) && path[4].exclusive == s.exclusive
  {
    var op := Signal(style);
    var s1 := Step(s, t, op);
    var s2 := Step(s1, t, op);
    var s3 := Step(s2, t, op);
    assert PcOf(s3, t) == SigLoad;
    var s4 := Step(s3, t, op);
    path := [s, s1, s2, s3, s4];
  }

  lemma SignalGives(s: State, t: Tid, style: Style) returns (path: seq<State>)
    requires PcOf(s, t) == SigStore(s.cnt)
    ensures Alone(path, t, Signal(style)) && |path| == 4 && path[0] == s
    ensures forall i :: 0 < i < 3 ==> !PcOf(path[i], t).Idle?
    ensures Signalled(s, path[3], t, true)
  {
    var op := Signal(style);
    var s1 := Step(s, t, op);
    var s2 := Step(s1, t, op);
    assert PcOf(s2, t) == SigLeave(Once, true);
    var s3 := Step(s2, t, op);
    path := [s, s1, s2, s3];
  }

  lemma Signals(s: State, t: Tid, style: Style) returns (path: seq<State>)
    requires PcOf(s, t).Idle? && s.enter == 0 && s.cnt > 0
    ensures Alone(path, t, Signal(style)) && |path| == 8 && path[0] == s
    ensures forall i :: 0 < i < 7 ==> !PcOf(path[i], t).Idle?
    ensures Signalled(s, path[7], t, true)
  {
    hide Step, Alone;
    var enters := SignalEnters(s, t, style);
    var gives := SignalGives(enters[4], t, style);
    Joins(enters, gives, t, Signal(style));
    path := enters + gives[1..];
  }

  ghost predicate Signalled(s: State, r: State, t: Tid, given: bool)
  {
    && PcOf(r, t).Idle? && t in r.log.answers && r.log.answers[t] == given && r.enter == 0 && r.exclusive == s.exclusive
    && r.grant == s.grant && r.taken == s.taken
    && r.cnt == s.cnt - (if given then 1 else 0) && r.given == s.given + (if given then 1 else 0)
  }

  lemma SignalRefuses(s: State, t: Tid) returns (path: seq<State>)
    requires PcOf(s, t).Idle? && s.enter == 0 && s.cnt <= 0
    ensures Alone(path, t, Signal(Once)) && |path| == 5 && path[0] == s && Signalled(s, path[4], t, false)
  {
    var op := Signal(Once);
    var s1 := Step(s, t, op);
    var s2 := Step(s1, t, op);
    var s3 := Step(s2, t, op);
    var s4 := Step(s3, t, op);
    path := [s, s1, s2, s3, s4];
  }

  predicate SignalWaiting(s: State, t: Tid)
  {
    match PcOf(s, t)
    case SigEnter(style) => style == Retry
    case SigCheck(style) => style == Retry
    case SigLeave(style, done) => style == Retry && !done
    case _ => false
  }

  lemma {:induction false} SignalKeepsWaiting(max: int, count: int, moves: seq<Move>, t: Tid, n: nat)
    requires var s := Run(max, count, moves); PcOf(s, t).Idle? && s.cnt <= 0
    ensures var s, r := Run(max, count, moves), Run(max, count, moves + Solo(t, Signal(Retry), n));
            Same(s, r) && (if n == 0 then r == s else SignalWaiting(r, t))
  {
    hide Run;
    if n == 0 {
      assert moves + Solo(t, Signal(Retry), 0) == moves;
    } else {
      SignalKeepsWaiting(max, count, moves, t, n - 1);
      var all := moves + Solo(t, Signal(Retry), n);
      assert all[..|all| - 1] == moves + Solo(t, Signal(Retry), n - 1);
      RunLast(max, count, all);
    }
  }

  /** Every signal from a reachable state with `enter` clear: a slot is given back exactly when one is taken. */
  lemma SignalAlone(max: int, count: int, moves: seq<Move>, t: Tid, style: Style) returns (n: nat)
    requires 0 <= count <= max
    requires var s := Run(max, count, moves); PcOf(s, t).Idle? && s.enter == 0
    ensures var s := Run(max, count, moves);
            if s.cnt > 0 || style == Once
            then Signalled(s, Run(max, count, moves + Solo(t, Signal(style), n)), t, s.cnt > 0)
            else forall k: nat :: k > 0 ==>
                   !PcOf(Run(max, count, moves + Solo(t, Signal(style), k)), t).Idle? &&
                   Same(s, Run(max, count, moves + Solo(t, Signal(style), k)))
  {
    hide Step, Run, Signalled;
    var s := Run(max, count, moves);
    n := 0;
    if s.cnt > 0 || style == Once {
      var path;
      if s.cnt > 0 { path := Signals(s, t, style); } else { path := SignalRefuses(s, t); }
      n := |path| - 1;
      RunAlone(max, count, moves, path, t, Signal(style));
    } else {
      forall k: nat | k > 0
        ensures !PcOf(Run(max, count, moves + Solo(t, Signal(style), k)), t).Idle?
        ensures Same(s, Run(max, count, moves + Solo(t, Signal(style), k)))
      {
        SignalKeepsWaiting(max, count, moves, t, k);
      }
    }
  }

  /** The owner of the grant gives it up: `exclusive` is clear and nobody has the semaphore exclusively. */
  lemma ExclusiveSignalAlone(max: int, count: int, moves: seq<Move>, t: Tid)
    requires 0 <= count <= max
    requires var s := Run(max, count, moves); PcOf(s, t).Idle? && s.grant == By(t)
    ensures var r := Run(max, count, moves + Solo(t, SignalExclusive, 2));
            PcOf(r, t).Idle? && r.exclusive == 0 && r.grant == Nobody && r.cnt == Run(max, count, moves).cnt
  {
    hide Run;
    var s := Run(max, count, moves);
    var s1 := Step(s, t, SignalExclusive);
    var s2 := Step(s1, t, SignalExclusive);
    RunAlone(max, count, moves, [s, s1, s2], t, SignalExclusive);
  }
}

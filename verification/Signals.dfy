/**
 What the signals of a task mean: for each of 32 signals a queue of at most four
 entries, and a count of deliveries not yet waited for that stops at four.

 Signals are numbered from 0 here, one less than their numbers in the source.
 */
module Signals {
  import opened Words

  const SIGNALS: nat := 32
  const DEPTH: nat := 4

  datatype Code = SiUser | SiQueue

  datatype Info = Info(value: int, signo: int, uid: int, pid: int, code: Code)

  datatype State = State(queues: seq<seq<Info>>, delivered: seq<nat>, mask: Word)

  datatype Handled = Handled(sig: nat, info: Info)

  predicate Bounded(s: State)
  {
    && |s.queues| == SIGNALS && |s.delivered| == SIGNALS
    && (forall i :: 0 <= i < SIGNALS ==> |s.queues[i]| <= DEPTH)
    && (forall i :: 0 <= i < SIGNALS ==> s.delivered[i] <= DEPTH)
  }

  // ---- Sending ----

  /** sigqueue: an entry at the end, or no room. */
  function Queued(s: State, i: nat, info: Info): State
    requires i < |s.queues|
  {
    if |s.queues[i]| < DEPTH then s.(queues := s.queues[i := s.queues[i] + [info]]) else s
  }

  /**
   kill: an entry if there is none. For the lowest signal, and for it alone, the source's `== 1`
   tests succeed, and the second entry is written over if there is one.
   */
  function Killed(s: State, i: nat, info: Info): State
    requires i < |s.queues|
  {
    if s.queues[i] == [] then s.(queues := s.queues[i := [info]])
    else if i == 0 && |s.queues[i]| >= 2 then s.(queues := s.queues[i := s.queues[i][1 := info]])
    else s
  }

  // ---- Handling ----

  predicate Open(s: State, i: nat)
    requires i < |s.queues|
  {
    s.queues[i] != [] && !Test(s.mask, i)
  }

  /** One turn of the loop of signal_handler. */
  function Taken(s: State, i: nat): State
    requires i < |s.queues| && i < |s.delivered| && s.queues[i] != []
  {
    s.(queues := s.queues[i := s.queues[i][1..]],
       delivered := s.delivered[i := if s.delivered[i] < DEPTH then s.delivered[i] + 1 else s.delivered[i]])
  }

  function Tagged(i: nat, q: seq<Info>): (r: seq<Handled>)
    ensures |r| == |q| && forall j :: 0 <= j < |q| ==> r[j] == Handled(i, q[j])
  {
    seq(|q|, j requires 0 <= j < |q| => Handled(i, q[j]))
  }

  /**
   Everything a handler that is never interrupted has to do: ascending numbers, oldest first,
   masked ones left out.
   */
  function Backlog(s: State, i: nat): seq<Handled>
    requires |s.queues| == SIGNALS && i <= SIGNALS
    decreases |s.queues| - i
  {
    if i == SIGNALS then [] else (if Test(s.mask, i) then [] else Tagged(i, s.queues[i])) + Backlog(s, i + 1)
  }

  /** How far a handler gets: through the first entry whose disposition ends its receiver, or to the end. */
  function Until(fatal: set<nat>, log: seq<Handled>): (n: nat)
    ensures n <= |log|
    ensures forall j :: 0 <= j < n - 1 ==> log[j].sig !in fatal
    ensures n < |log| ==> n > 0 && log[n - 1].sig in fatal
    ensures n == |log| > 0 ==> log[n - 1].sig in fatal || forall j :: 0 <= j < n ==> log[j].sig !in fatal
  {
    if log == [] then 0 else if log[0].sig in fatal then 1 else 1 + Until(fatal, log[1..])
  }

  lemma {:induction false} UntilAt(fatal: set<nat>, log: seq<Handled>, n: nat)
    requires n <= |log| && forall j :: 0 <= j < n - 1 ==> log[j].sig !in fatal
    requires n == 0 || log[n - 1].sig in fatal || n == |log|
    requires n == 0 ==> log == []
    ensures Until(fatal, log) == n
  {
    if n > 1 { UntilAt(fatal, log[1..], n - 1); }
  }

  /** The state after the given entries were handled. */
  function Advanced(s: State, log: seq<Handled>): (r: State)
    requires Bounded(s)
    ensures Bounded(r) && r.mask == s.mask
  {
    if log == [] then s
    else
      var t := Advanced(s, log[..|log| - 1]);
      var i := log[|log| - 1].sig;
      if i < SIGNALS && t.queues[i] != [] then Taken(t, i) else t
  }

  lemma {:induction false} BacklogSkips(s: State, i: nat, j: nat)
    requires |s.queues| == SIGNALS && i <= j <= SIGNALS
    requires forall k :: i <= k < j ==> !Open(s, k)
    ensures Backlog(s, i) == Backlog(s, j)
    decreases j - i
  {
    if i < j {
      BacklogSkips(s, i + 1, j);
      assert !Open(s, i);
    }
  }

  lemma {:induction false} BacklogSame(s: State, t: State, i: nat)
    requires |s.queues| == SIGNALS && |t.queues| == SIGNALS && i <= SIGNALS && s.mask == t.mask
    requires forall k :: i <= k < SIGNALS ==> s.queues[k] == t.queues[k]
    ensures Backlog(s, i) == Backlog(t, i)
    decreases SIGNALS - i
  {
    if i < SIGNALS { BacklogSame(s, t, i + 1); }
  }

  lemma BacklogAt(s: State, i: nat)
    requires |s.queues| == SIGNALS && i < SIGNALS
    ensures Backlog(s, i) == (if Test(s.mask, i) then [] else Tagged(i, s.queues[i])) + Backlog(s, i + 1)
  {
  }

  lemma TakenQueues(s: State, i: nat)
    requires i < |s.queues| && i < |s.delivered| && s.queues[i] != []
    ensures var t := Taken(s, i);
            && |t.queues| == |s.queues| && t.mask == s.mask && t.queues[i] == s.queues[i][1..]
            && forall k :: 0 <= k < |s.queues| && k != i ==> t.queues[k] == s.queues[k]
  {
  }

  lemma TaggedFirst(i: nat, q: seq<Info>)
    requires q != []
    ensures Tagged(i, q) == [Handled(i, q[0])] + Tagged(i, q[1..])
  {
  }

  lemma OneThenRest(x: Handled, a: seq<Handled>, b: seq<Handled>)
    ensures [x] + a + b == [x] + (a + b)
  {
  }

  /** Taking the oldest entry of the lowest open signal is taking the first of the backlog. */
  lemma TakeIsFirst(s: State, i: nat)
    requires Bounded(s) && i < SIGNALS && Open(s, i) && forall k :: 0 <= k < i ==> !Open(s, k)
    ensures Backlog(s, 0) == [Handled(i, s.queues[i][0])] + Backlog(Taken(s, i), 0)
  {
    hide Backlog, Test, Tagged, Taken;
    var t := Taken(s, i);
    TakenQueues(s, i);
    BacklogAt(s, i);
    BacklogAt(t, i);
    BacklogSkips(s, 0, i);
    forall k | 0 <= k < i ensures !Open(t, k) { assert !Open(s, k); }
    BacklogSkips(t, 0, i);
    BacklogSame(s, t, i + 1);
    TaggedFirst(i, s.queues[i]);
    OneThenRest(Handled(i, s.queues[i][0]), Tagged(i, t.queues[i]), Backlog(t, i + 1));
  }

  /** Nothing open, nothing to do. */
  lemma NothingOpen(s: State)
    requires |s.queues| == SIGNALS && forall k :: 0 <= k < SIGNALS ==> !Open(s, k)
    ensures Backlog(s, 0) == []
  {
    BacklogSkips(s, 0, SIGNALS);
  }

  lemma AdvancedOne(s: State, log: seq<Handled>, i: nat)
    requires Bounded(s) && i < SIGNALS && Advanced(s, log).queues[i] != []
    ensures Advanced(s, log + [Handled(i, Advanced(s, log).queues[i][0])]) == Taken(Advanced(s, log), i)
  {
    assert (log + [Handled(i, Advanced(s, log).queues[i][0])])[..|log|] == log;
  }

  lemma AdvancedNone(s: State)
    requires Bounded(s)
    ensures Advanced(s, []) == s
  {
  }

  // ---- What a full drain does ----

  function Capped(n: nat): nat
  {
    if n < DEPTH then n else DEPTH
  }

  function Occurrences(log: seq<Handled>, i: nat): nat
  {
    if log == [] then 0 else Occurrences(log[..|log| - 1], i) + if log[|log| - 1].sig == i then 1 else 0
  }

  lemma {:induction false} OccurrencesConcat(a: seq<Handled>, b: seq<Handled>, i: nat)
    ensures Occurrences(a + b, i) == Occurrences(a, i) + Occurrences(b, i)
    decreases |b|
  {
    if b == [] {
      assert a + b == a;
    } else {
      assert (a + b)[..|a + b| - 1] == a + b[..|b| - 1];
      OccurrencesConcat(a, b[..|b| - 1], i);
    }
  }

  lemma {:induction false} OccurrencesTagged(i: nat, q: seq<Info>, k: nat)
    ensures Occurrences(Tagged(i, q), k) == if i == k then |q| else 0
    decreases |q|
  {
    if q != [] {
      assert Tagged(i, q)[..|q| - 1] == Tagged(i, q[..|q| - 1]);
      OccurrencesTagged(i, q[..|q| - 1], k);
    }
  }

  lemma BacklogEnd(s: State, k: nat)
    requires |s.queues| == SIGNALS
    ensures Backlog(s, SIGNALS) == [] && Occurrences([], k) == 0
  {
  }

  lemma {:induction false} OccurrencesBacklog(s: State, i: nat, k: nat)
    requires |s.queues| == SIGNALS && i <= SIGNALS && k < SIGNALS
    ensures Occurrences(Backlog(s, i), k) == if i <= k && !Test(s.mask, k) then |s.queues[k]| else 0
    decreases SIGNALS - i
  {
    hide Backlog, Occurrences, Test, Tagged;
    BacklogEnd(s, k);
    if i < SIGNALS {
      BacklogAt(s, i);
      var first := if Test(s.mask, i) then [] else Tagged(i, s.queues[i]);
      OccurrencesConcat(first, Backlog(s, i + 1), k);
      OccurrencesTagged(i, s.queues[i], k);
      OccurrencesBacklog(s, i + 1, k);
    }
  }

  /** Handling entries moves them from the front of their queues to the delivery counts. */
  lemma {:induction false} AdvancedQueues(s: State, log: seq<Handled>, k: nat)
    requires Bounded(s) && k < SIGNALS && Occurrences(log, k) <= |s.queues[k]|
    ensures Advanced(s, log).queues[k] == s.queues[k][Occurrences(log, k)..]
    ensures Advanced(s, log).delivered[k] == Capped(s.delivered[k] + Occurrences(log, k))
    decreases |log|
  {
    if log != [] { AdvancedQueues(s, log[..|log| - 1], k); }
  }

  /** A drain leaves nothing open, masked queues alone, and counts every delivery up to four. */
  lemma DrainedState(s: State, k: nat)
    requires Bounded(s) && k < SIGNALS
    ensures var t := Advanced(s, Backlog(s, 0));
            if Test(s.mask, k) then t.queues[k] == s.queues[k] && t.delivered[k] == s.delivered[k]
            else t.queues[k] == [] && t.delivered[k] == Capped(s.delivered[k] + |s.queues[k]|)
  {
    hide Advanced, Backlog, Occurrences, Test;
    OccurrencesBacklog(s, 0, k);
    AdvancedQueues(s, Backlog(s, 0), k);
  }

  /** A backlog goes through the signals in ascending order. */
  lemma {:induction false} BacklogAscends(s: State, i: nat, a: nat, b: nat)
    requires |s.queues| == SIGNALS && i <= SIGNALS && a < b < |Backlog(s, i)|
    ensures i <= Backlog(s, i)[a].sig <= Backlog(s, i)[b].sig < SIGNALS
    decreases SIGNALS - i
  {
    hide Backlog, Test;
    BacklogEnd(s, 0);
    BacklogAt(s, i);
    var first := if Test(s.mask, i) then [] else Tagged(i, s.queues[i]);
    BacklogSignals(s, i, b);
    if a >= |first| { BacklogAscends(s, i + 1, a - |first|, b - |first|); }
  }

  lemma {:induction false} BacklogSignals(s: State, i: nat, a: nat)
    requires |s.queues| == SIGNALS && i <= SIGNALS && a < |Backlog(s, i)|
    ensures i <= Backlog(s, i)[a].sig < SIGNALS
    decreases SIGNALS - i
  {
    hide Backlog, Test;
    BacklogEnd(s, 0);
    BacklogAt(s, i);
    var first := if Test(s.mask, i) then [] else Tagged(i, s.queues[i]);
    if a >= |first| { BacklogSignals(s, i + 1, a - |first|); }
  }

  // ---- Waiting ----

  predicate Awaited(s: State, set_: Word, i: nat)
    requires i < |s.delivered|
  {
    s.delivered[i] > 0 && Test(set_, i)
  }

  function Accepted(s: State, i: nat): State
    requires i < |s.delivered| && s.delivered[i] > 0
  {
    s.(delivered := s.delivered[i := s.delivered[i] - 1])
  }
}

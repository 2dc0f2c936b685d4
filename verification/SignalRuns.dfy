/**
 Every run of sends, mask changes, handler calls and waits on one task.
 */
module SignalRuns {
  import opened Words
  import opened Signals

  datatype Event =
    | Queue(i: nat, x: Info)
    | Kill(i: nat, x: Info)
    | SetMask(w: Word)
    | Handle(fatal: set<nat>)
    | Wait(wanted: Word)

  /**
   A task's signals, what was ever accepted for each signal, what was ever handled of it, and how
   many waits came back with it.
   */
  datatype History = History(state: State, accepted: seq<seq<Info>>, handled: seq<seq<Info>>, waits: seq<nat>)

  predicate Sound(h: History)
  {
    Bounded(h.state) && |h.accepted| == SIGNALS && |h.handled| == SIGNALS && |h.waits| == SIGNALS
  }

  predicate Possible(e: Event)
  {
    match e
    case Queue(i, _) => i < SIGNALS
    case Kill(i, _) => i < SIGNALS
    case _ => true
  }

  function HandledNow(s: State, fatal: set<nat>): seq<Handled>
    requires Bounded(s)
  {
    Backlog(s, 0)[..Until(fatal, Backlog(s, 0))]
  }

  /** The entries of one signal in a log. */
  function Of(log: seq<Handled>, i: nat): seq<Info>
  {
    if log == [] then [] else Of(log[..|log| - 1], i) + if log[|log| - 1].sig == i then [log[|log| - 1].info] else []
  }

  function LowestAwaited(s: State, wanted: Word, i: nat): (r: int)
    requires |s.delivered| == SIGNALS && i <= SIGNALS
    ensures r == -1 || (i <= r < SIGNALS && Awaited(s, wanted, r))
    ensures forall k :: i <= k < (if r == -1 then SIGNALS else r) ==> !Awaited(s, wanted, k)
    decreases SIGNALS - i
  {
    if i == SIGNALS then -1 else if Awaited(s, wanted, i) then i else LowestAwaited(s, wanted, i + 1)
  }

  function Step(h: History, e: Event): (r: History)
    requires Sound(h) && Possible(e)
    ensures Sound(r)
  {
    match e
    case Queue(i, x) =>
      if |h.state.queues[i]| == DEPTH then h
      else h.(state := Queued(h.state, i, x), accepted := h.accepted[i := h.accepted[i] + [x]])
    case Kill(i, x) =>
      var accepted := if h.state.queues[i] == [] then h.accepted[i := h.accepted[i] + [x]] else h.accepted;
      h.(state := Killed(h.state, i, x), accepted := accepted)
    case SetMask(w) => h.(state := h.state.(mask := w))
    case Handle(fatal) =>
      var log := HandledNow(h.state, fatal);
      h.(state := Advanced(h.state, log),
         handled := seq(SIGNALS, i requires 0 <= i < SIGNALS => h.handled[i] + Of(log, i)))
    case Wait(wanted) =>
      var i := LowestAwaited(h.state, wanted, 0);
      if i == -1 then h else h.(state := Accepted(h.state, i), waits := h.waits[i := h.waits[i] + 1])
  }

  function Initial(): History
  {
    History(
      State(seq(SIGNALS, i => []), seq(SIGNALS, i => 0), 0),
      seq(SIGNALS, i => []), seq(SIGNALS, i => []), seq(SIGNALS, i => 0))
  }

  function Run(es: seq<Event>): (h: History)
    requires forall k :: 0 <= k < |es| ==> Possible(es[k])
    ensures Sound(h)
  {
    if es == [] then Initial() else Step(Run(es[..|es| - 1]), es[|es| - 1])
  }

  // ---- First in, first out ----

  lemma {:induction false} OfConcat(a: seq<Handled>, b: seq<Handled>, i: nat)
    ensures Of(a + b, i) == Of(a, i) + Of(b, i)
    decreases |b|
  {
    if b == [] {
      assert a + b == a;
    } else {
      assert (a + b)[..|a + b| - 1] == a + b[..|b| - 1];
      OfConcat(a, b[..|b| - 1], i);
    }
  }

  lemma {:induction false} OfTagged(i: nat, q: seq<Info>, k: nat)
    ensures Of(Tagged(i, q), k) == if i == k then q else []
    decreases |q|
  {
    if q != [] {
      assert Tagged(i, q)[..|q| - 1] == Tagged(i, q[..|q| - 1]);
      OfTagged(i, q[..|q| - 1], k);
    }
  }

  lemma {:induction false} OfBacklog(s: State, i: nat, k: nat)
    requires |s.queues| == SIGNALS && i <= SIGNALS && k < SIGNALS
    ensures Of(Backlog(s, i), k) == if i <= k && !Test(s.mask, k) then s.queues[k] else []
    decreases SIGNALS - i
  {
    hide Backlog, Test, Tagged;
    BacklogEnd(s, k);
    if i < SIGNALS {
      BacklogAt(s, i);
      var first := if Test(s.mask, i) then [] else Tagged(i, s.queues[i]);
      hide Of;
      OfConcat(first, Backlog(s, i + 1), k);
      OfTagged(i, s.queues[i], k);
      OfTagged(i, [], k);
      OfBacklog(s, i + 1, k);
    }
  }

  lemma {:induction false} OfLength(log: seq<Handled>, k: nat)
    ensures |Of(log, k)| == Occurrences(log, k)
  {
    if log != [] { OfLength(log[..|log| - 1], k); }
  }

  /** What one call of the handler logs of a signal is the front of its queue; the rest stays. */
  lemma HandlerTakesFront(s: State, fatal: set<nat>, k: nat)
    requires Bounded(s) && k < SIGNALS
    ensures Of(HandledNow(s, fatal), k) + Advanced(s, HandledNow(s, fatal)).queues[k] == s.queues[k]
  {
    hide Backlog, Test, Advanced, Of, Occurrences, Until;
    var all := Backlog(s, 0);
    var n := Until(fatal, all);
    var log := HandledNow(s, fatal);
    assert all == log + all[n..];
    OfConcat(log, all[n..], k);
    OfBacklog(s, 0, k);
    OfLength(log, k);
    AdvancedQueues(s, log, k);
  }

  /** What was accepted for a signal is what was handled followed by what is queued. */
  predicate InOrder(h: History, k: nat)
    requires Sound(h) && k < SIGNALS
  {
    h.accepted[k] == h.handled[k] + h.state.queues[k]
  }

  /** A kill of the lowest signal that finds a different second entry in its queue. */
  predicate Overwrites(h: History, e: Event)
    requires Sound(h)
  {
    e.Kill? && e.i == 0 && |h.state.queues[0]| >= 2 && h.state.queues[0][1] != e.x
  }

  /** One event keeps the order of a signal exactly when it does not write over its second entry. */
  lemma StepOrder(h: History, e: Event, k: nat)
    requires Sound(h) && Possible(e) && k < SIGNALS && InOrder(h, k)
    ensures InOrder(Step(h, e), k) <==> k != 0 || !Overwrites(h, e)
  {
    match e
    case Queue(i, x) =>
    case Kill(i, x) => KillOrder(h, i, x, k);
    case SetMask(w) =>
    case Handle(fatal) => HandlerTakesFront(h.state, fatal, k);
    case Wait(wanted) =>
  }

  lemma KillOrder(h: History, i: nat, x: Info, k: nat)
    requires Sound(h) && i < SIGNALS && k < SIGNALS && InOrder(h, k)
    ensures InOrder(Step(h, Kill(i, x)), k) <==> k != 0 || !Overwrites(h, Kill(i, x))
  {
    var done, q := h.handled[k], h.state.queues[k];
    if k == 0 && i == 0 && |q| >= 2 {
      assert (done + q)[|done| + 1] == q[1] && (done + q[1 := x])[|done| + 1] == x;
      if q[1] == x { assert q[1 := x] == q; }
    }
  }

  ghost predicate AllPossible(es: seq<Event>)
  {
    forall k :: 0 <= k < |es| ==> Possible(es[k])
  }

  /** The signal is in order after each event of the run. */
  ghost predicate AlwaysInOrder(es: seq<Event>, k: nat)
    requires AllPossible(es) && k < SIGNALS
  {
    forall j :: 0 <= j <= |es| ==> InOrder(Run(es[..j]), k)
  }

  /** No event of the run writes over an entry. */
  ghost predicate NothingOverwritten(es: seq<Event>)
    requires AllPossible(es)
  {
    forall j :: 0 <= j < |es| ==> !Overwrites(Run(es[..j]), es[j])
  }

  /**
   First in, first out: in every run, what was accepted for a signal is at all times what was
   handled followed by what is queued, so that nothing is lost, repeated or reordered. For the
   lowest signal this is so exactly when no kill meets a queue with a different second entry.
   */
  lemma {:induction false} FirstInFirstOut(es: seq<Event>, k: nat)
    requires AllPossible(es) && k < SIGNALS
    ensures AlwaysInOrder(es, k) <==> k != 0 || NothingOverwritten(es)
  {
    hide Run, Step, InOrder, Overwrites;
    RunStep(es);
    if es == [] {
      StartsInOrder(k);
      assert es[..0] == [];
    } else {
      var n := |es| - 1;
      var less := es[..n];
      FirstInFirstOut(less, k);
      Shortened(es);
      if InOrder(Run(less), k) { StepOrder(Run(less), es[n], k); }
    }
  }

  lemma Shortened(es: seq<Event>)
    requires es != []
    ensures es[..|es|] == es && es[..|es| - 1][..|es| - 1] == es[..|es| - 1]
    ensures forall j :: 0 <= j < |es| ==> es[..|es| - 1][..j] == es[..j]
  {
  }

  lemma RunStep(es: seq<Event>)
    requires AllPossible(es)
    ensures Run(es) == if es == [] then Initial() else Step(Run(es[..|es| - 1]), es[|es| - 1])
  {
    hide Step;
  }

  lemma StartsInOrder(k: nat)
    requires k < SIGNALS
    ensures Sound(Initial()) && InOrder(Initial(), k)
  {
  }

  /** Two queued hang-ups and a kill: the second value is gone. */
  lemma HangupIsOverwritten(a: Info, b: Info, c: Info)
    requires b != c
    ensures var h := Run([Queue(0, a), Queue(0, b), Kill(0, c)]);
            h.accepted[0] == [a, b] && h.state.queues[0] == [a, c] && h.handled[0] == []
  {
    var h1 := Step(Initial(), Queue(0, a));
    var h2 := Step(h1, Queue(0, b));
    var h3 := Step(h2, Kill(0, c));
    assert h1.state.queues[0] == [a] && h1.accepted[0] == [a];
    assert h2.state.queues[0] == [a, b] && h2.accepted[0] == [a, b];
    assert h3.state.queues[0] == [a, c];
    var es := [Queue(0, a), Queue(0, b), Kill(0, c)];
    assert es[..2][..1][..0] == [] && es[..2][..1] == [Queue(0, a)] && es[..2] == [Queue(0, a), Queue(0, b)];
    assert Run([Queue(0, a)]) == h1;
    assert Run([Queue(0, a), Queue(0, b)]) == h2;
  }

  // ---- Deliveries and waits ----

  /** What can still be waited for is what was handled less the waits that came back. */
  predicate Balanced(h: History, k: nat)
    requires Sound(h) && k < SIGNALS
  {
    h.state.delivered[k] + h.waits[k] == |h.handled[k]|
  }

  /** A handler call that handles more entries of a signal than there is room for deliveries. */
  predicate Overflows(h: History, e: Event, k: nat)
    requires Sound(h) && k < SIGNALS
  {
    e.Handle? && h.state.delivered[k] + |Of(HandledNow(h.state, e.fatal), k)| > DEPTH
  }

  lemma HandlerDelivers(s: State, fatal: set<nat>, k: nat)
    requires Bounded(s) && k < SIGNALS
    ensures Advanced(s, HandledNow(s, fatal)).delivered[k] == Capped(s.delivered[k] + |Of(HandledNow(s, fatal), k)|)
  {
    hide Backlog, Test, Advanced, Of, Occurrences, Until;
    var all, log := Backlog(s, 0), HandledNow(s, fatal);
    var n := Until(fatal, all);
    OfBacklog(s, 0, k);
    assert all == log + all[n..];
    OfConcat(log, all[n..], k);
    OfLength(log, k);
    AdvancedQueues(s, log, k);
  }

  /** One event keeps the balance exactly when no delivery is lost; it never lets waits run ahead. */
  lemma StepBalance(h: History, e: Event, k: nat)
    requires Sound(h) && Possible(e) && k < SIGNALS
    ensures Balanced(h, k) ==> (Balanced(Step(h, e), k) <==> !Overflows(h, e, k))
    ensures var r := Step(h, e);
            h.state.delivered[k] + h.waits[k] <= |h.handled[k]| ==> r.state.delivered[k] + r.waits[k] <= |r.handled[k]|
  {
    match e
    case Handle(fatal) => HandlerDelivers(h.state, fatal, k);
    case _ =>
  }

  /**
   Waits and deliveries over every run: no more waits come back with a signal than entries of it were
   handled, and at all times the count of deliveries is handled less waits, exactly when no handler
   call overflows the count.
   */
  lemma {:induction false} WaitsFollowDeliveries(es: seq<Event>, k: nat)
    requires AllPossible(es) && k < SIGNALS
    ensures Run(es).state.delivered[k] + Run(es).waits[k] <= |Run(es).handled[k]|
    ensures (forall j :: 0 <= j <= |es| ==> Balanced(Run(es[..j]), k)) <==>
            (forall j :: 0 <= j < |es| ==> !Overflows(Run(es[..j]), es[j], k))
  {
    hide Run, Step, Balanced, Overflows;
    RunStep(es);
    if es == [] {
      StartsBalanced(k);
      assert es[..0] == [];
    } else {
      var n := |es| - 1;
      var less := es[..n];
      WaitsFollowDeliveries(less, k);
      Shortened(es);
      StepBalance(Run(less), es[n], k);
    }
  }

  lemma StartsBalanced(k: nat)
    requires k < SIGNALS
    ensures Sound(Initial()) && Balanced(Initial(), k) && |Initial().handled[k]| == 0
  {
  }

  /** After a call of the handler that is not cut short, nothing that may be handled is left. */
  lemma HandlerLeavesNothingOpen(h: History, fatal: set<nat>, k: nat)
    requires Sound(h) && k < SIGNALS
    requires forall j :: 0 <= j < |Backlog(h.state, 0)| ==> Backlog(h.state, 0)[j].sig !in fatal
    ensures !Open(Step(h, Handle(fatal)).state, k)
  {
    hide Backlog, Test, Advanced, Until, Of;
    var all := Backlog(h.state, 0);
    if all != [] { UntilAt(fatal, all, |all|); } else { UntilAt(fatal, all, 0); }
    assert HandledNow(h.state, fatal) == all;
    DrainedState(h.state, k);
  }
}

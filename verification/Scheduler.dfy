/**
 The choice of the next task in schedule_prelocked (kernel/scheduler.c): a cyclic
 scan of the list of tasks that starts after the current task, with a fall back to
 the idle task.

 Tasks are their positions in a list that does not change; IDLE is the idle task
 and the length of the list stands for the null cursor.
 */
module Scheduler {
  import opened Words

  datatype Status = Running | Waiting | Stopped | Zombie

  const IDLE: int := -1

  /** Running, or asleep with a signal to wake it. */
  predicate Runnable(status: Status, pending: Word)
  {
    status == Running || (status == Waiting && pending != 0)
  }

  /** Where the scan starts. */
  function Start(cur: int): int
  {
    cur + 1
  }

  predicate NoneIn(run: seq<bool>, lo: int, hi: int)
    requires 0 <= lo && hi <= |run|
  {
    forall j :: lo <= j < hi ==> !run[j]
  }

  /** `r` is the first runnable task from the start round to the start again, or idle if there is none. */
  predicate Chosen(run: seq<bool>, cur: int, r: int)
    requires IDLE <= cur < |run|
  {
    if r == IDLE then NoneIn(run, 0, |run|)
    else && 0 <= r < |run| && run[r]
         && (if r >= Start(cur) then NoneIn(run, Start(cur), r)
             else NoneIn(run, Start(cur), |run|) && NoneIn(run, 0, r))
  }

  class TaskList {
    const status: array<Status>
    const pending: array<Word>
    var cursor: int
    var current: int

    ghost predicate Valid()
      reads this
    {
      && status.Length == pending.Length
      && IDLE <= current < status.Length
      && 0 <= cursor <= status.Length
      && (current != IDLE ==> cursor == current)
    }

    ghost function View(): (v: seq<bool>)
      requires Valid()
      reads this, status, pending
      ensures |v| == status.Length && forall i :: 0 <= i < |v| ==> v[i] == Runnable(status[i], pending[i])
    {
      Ready(status[..], pending[..])
    }

    constructor (n: nat)
      ensures Valid() && current == IDLE && status.Length == n
    {
      status := new Status[n](i => Waiting);
      pending := new Word[n](i => 0);
      cursor, current := 0, IDLE;
    }

    /** The selection; the caller then switches to the result. */
    method Select() returns (next: int)
      requires Valid()
      modifies this, status
      ensures Valid() && current == next && Chosen(old(View()), old(current), next)
      ensures next != IDLE ==> status[next] == Running
      ensures next != IDLE ==>
                old(status[next]) == Running || (old(status[next]) == Waiting && pending[next] != 0)
      ensures next == IDLE ==>
                forall i :: 0 <= i < status.Length ==>
                  status[i] != Running && !(status[i] == Waiting && pending[i] != 0)
      ensures forall i :: 0 <= i < status.Length && i != next ==> status[i] == old(status[i])
    {
      ghost var was := View();
      var n := status.Length;
      var tmp: int;
      if current == IDLE {
        if n == 0 { return IDLE; }
        cursor := 0;
        tmp := 0;
      } else {
        cursor := cursor + 1;
        tmp := cursor;
      }
      var x := 0;
      var done := false;
      ghost var start := Start(current);
      while !done
        invariant current == old(current) && 0 <= cursor <= n
        invariant !done ==> 0 <= x <= 1 && 0 <= tmp == cursor <= n && status[..] == old(status[..])
        invariant !done && x == 0 ==> start <= tmp && NoneIn(was, start, tmp)
        invariant !done && x == 1 ==> NoneIn(was, start, n) && NoneIn(was, 0, tmp)
        invariant !done && x == 1 && current != IDLE ==> tmp <= current
        invariant done ==> Chosen(was, current, tmp) && (tmp != IDLE ==> cursor == tmp && status[tmp] == Running)
        invariant done ==> forall i :: 0 <= i < n && i != tmp ==> status[i] == old(status[i])
        decreases !done, 1 - x, n - tmp
      {
        if tmp == n {
          if x > 0 {
            x := x + 1;
            tmp := IDLE;
            done := true;
          } else {
            x := x + 1;
            cursor := 0;
            tmp := 0;
          }
        }
        if !done {
          if pending[tmp] != 0 && status[tmp] == Waiting {
            status[tmp] := Running;
          }
          if tmp == current && status[current] != Running {
            tmp := IDLE;
          }
          if tmp == IDLE || status[tmp] == Running {
            done := true;
          } else {
            cursor := cursor + 1;
            tmp := cursor;
          }
        }
      }
      current := tmp;
      next := tmp;
    }
  }

  function Ready(status: seq<Status>, pending: seq<Word>): (v: seq<bool>)
    requires |status| == |pending|
    ensures |v| == |status| && forall i :: 0 <= i < |v| ==> v[i] == Runnable(status[i], pending[i])
  {
    seq(|status|, i requires 0 <= i < |status| => Runnable(status[i], pending[i]))
  }

  // ---- Fairness ----

  /** How many tasks a scan from `cur` looks at up to and including `i`. */
  function Distance(n: nat, cur: int, i: nat): int
    requires IDLE <= cur < n && i < n
  {
    if i >= Start(cur) then i - cur else i + n - cur
  }

  /** The idle task is chosen only if no task can run, and the choice is unique. */
  lemma ChosenIsUnique(run: seq<bool>, cur: int, r: int, q: int)
    requires IDLE <= cur < |run| && Chosen(run, cur, r) && Chosen(run, cur, q)
    ensures r == q && (r == IDLE <==> forall i :: 0 <= i < |run| ==> !run[i])
  {
  }

  /** A runnable task that is passed over is closer to its turn afterwards. */
  lemma PassedOver(run: seq<bool>, cur: int, r: int, i: nat)
    requires IDLE <= cur < |run| && Chosen(run, cur, r) && i < |run| && run[i] && r != i
    ensures 0 <= r < |run| && 0 < Distance(|run|, r, i) < Distance(|run|, cur, i) <= |run|
  {
  }

  /** A history of choices: `views[k]` is who could run when choice `k` was made. */
  ghost predicate History(n: nat, cs: seq<int>, views: seq<seq<bool>>)
  {
    && |cs| == |views| + 1 && IDLE <= cs[0] < n
    && forall k :: 0 <= k < |views| ==> |views[k]| == n && IDLE <= cs[k] < n && Chosen(views[k], cs[k], cs[k + 1])
  }

  lemma {:induction false} GetsCloser(n: nat, cs: seq<int>, views: seq<seq<bool>>, i: nat, k: nat)
    requires History(n, cs, views) && i < n && k <= |views|
    requires (forall j :: 0 <= j < k ==> views[j][i]) && forall j :: 0 < j <= k ==> cs[j] != i
    ensures IDLE <= cs[k] < n && Distance(n, cs[k], i) <= n - k
    decreases k
  {
    if k > 0 {
      GetsCloser(n, cs, views, i, k - 1);
      assert Chosen(views[k - 1], cs[k - 1], cs[k - 1 + 1]);
      PassedOver(views[k - 1], cs[k - 1], cs[k], i);
    }
  }

  /** A task that stays runnable is chosen within as many switches as there are tasks. */
  lemma BoundedBypass(n: nat, cs: seq<int>, views: seq<seq<bool>>, i: nat)
    requires History(n, cs, views) && i < n <= |views| && forall k :: 0 <= k < n ==> views[k][i]
    ensures exists k :: 0 < k <= n && cs[k] == i
  {
    if forall k :: 0 < k <= n ==> cs[k] != i {
      GetsCloser(n, cs, views, i, n);
      assert false;
    }
  }
}

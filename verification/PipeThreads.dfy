/** The pipe of kernel/io.c as its two threads run it, every step of the semaphore interleaved. */
module PipeThreads {
  import opened Values
  import Pipe
  import Sem = Semaphore
  import SemaphoreAlone

  const READER: Sem.Tid := 0
  const WRITER: Sem.Tid := 1

  /**
   The reader is in semaphore_waitsleep or about to copy; the writer is about to store or in
   semaphore_signal_sleep.
   */
  datatype ReaderAt = Waits | Copies
  datatype WriterAt = Stores | Signals

  datatype State = State(
    sem: Sem.State, cells: seq<Byte>, r: nat, w: nat,
    reader: ReaderAt, writer: WriterAt,
    written: seq<Byte>, read: seq<Byte>)

  /** Whose turn it is; `b` is what the writer stores if it is about to. */
  datatype Turn = ReaderTurn | WriterTurn(b: Byte)

  function Initial(n: nat): State
  {
    State(Sem.Initial(n, n), seq(n + 1, i => 0), 0, 0, Waits, Stores, [], [])
  }

  /** One atomic step; a call of the semaphore has returned when the thread is idle again. */
  function Step(n: nat, s: State, turn: Turn): State
    requires |s.cells| == n + 1 && s.r <= n && s.w <= n
  {
    match turn
    case ReaderTurn =>
      if s.reader == Copies
      then s.(r := Pipe.Next(n, s.r), read := s.read + [s.cells[s.r]], reader := Waits)
      else
        var sem := Sem.Step(s.sem, READER, Sem.Acquire(Sem.Shared, Sem.Retry));
        s.(sem := sem, reader := if Sem.PcOf(sem, READER).Idle? then Copies else Waits)
    case WriterTurn(b) =>
      if s.writer == Stores
      then s.(cells := s.cells[s.w := b], w := Pipe.Next(n, s.w), written := s.written + [b], writer := Signals)
      else
        var sem := Sem.Step(s.sem, WRITER, Sem.Signal(Sem.Retry));
        s.(sem := sem, writer := if Sem.PcOf(sem, WRITER).Idle? then Stores else Signals)
  }

  // ---- The ring in it ----

  /** The reader's slot is taken and it is on its way out. */
  predicate Took(pc: Sem.Pc)
  {
    (pc.LeaveExclusive? || pc.LeaveEnter?) && pc.got
  }

  predicate Gave(pc: Sem.Pc)
  {
    pc.SigWake? || (pc.SigLeave? && pc.done)
  }

  function Ring(s: State): Pipe.State
  {
    Pipe.State(
      s.cells, s.r, s.w, s.sem.cnt,
      s.reader == Copies || Took(Sem.PcOf(s.sem, READER)),
      s.writer == Signals && !Gave(Sem.PcOf(s.sem, WRITER)),
      s.written, s.read)
  }

  /** Which step of the ring a turn is, if it is one. */
  function EventOf(s: State, turn: Turn): (es: seq<Pipe.Event>)
    ensures |es| <= 1
  {
    match turn
    case ReaderTurn =>
      if s.reader == Copies then [Pipe.Copy]
      else if Sem.PcOf(s.sem, READER).Store? then [Pipe.Acquire]
      else []
    case WriterTurn(b) =>
      if s.writer == Stores then [Pipe.Write(b)]
      else if Sem.PcOf(s.sem, WRITER).SigStore? then [Pipe.Publish]
      else []
  }

  predicate ReaderOk(s: State)
  {
    match Sem.PcOf(s.sem, READER)
    case Idle => true
    case GetExclusive(mode, style) => s.reader == Waits && mode == Sem.Shared && style == Sem.Retry
    case GetEnter(mode, style) => s.reader == Waits && mode == Sem.Shared && style == Sem.Retry
    case Check(mode, style) => s.reader == Waits && mode == Sem.Shared && style == Sem.Retry
    case Load => s.reader == Waits
    case Store(_) => s.reader == Waits
    case LeaveEnter(mode, style, _) => s.reader == Waits && mode == Sem.Shared && style == Sem.Retry
    case Rest(mode) => s.reader == Waits && mode == Sem.Shared
    case LeaveExclusive(got) => s.reader == Waits && got
    case _ => false
  }

  predicate WriterOk(s: State)
  {
    match Sem.PcOf(s.sem, WRITER)
    case Idle => true
    case SigEnter(style) => s.writer == Signals && style == Sem.Retry
    case SigCheck(style) => s.writer == Signals && style == Sem.Retry
    case SigLoad => s.writer == Signals
    case SigStore(_) => s.writer == Signals
    case SigWake => s.writer == Signals
    case SigLeave(style, done) => s.writer == Signals && (done || style == Sem.Retry)
    case _ => false
  }

  ghost predicate Ok(n: nat, s: State)
  {
    && Sem.Inv(s.sem) && s.sem.max == n && s.sem.grant == Sem.Nobody
    && ReaderOk(s) && WriterOk(s)
    && |s.cells| == n + 1 && s.r <= n && s.w <= n
  }

  /** The ring after a turn is the ring after the step that the turn is. */
  predicate Matches(n: nat, s: State, turn: Turn, r: State)
    requires |s.cells| == n + 1 && s.r <= n && s.w <= n
  {
    var es := EventOf(s, turn);
    Ring(r) == if es == [] then Ring(s) else Pipe.Step(n, Ring(s), es[0])
  }

  /** A step of the reader inside the semaphore. */
  lemma ReaderMoves(n: nat, s: State)
    requires s.reader == Waits && ReaderOk(s) && WriterOk(s) && s.sem.grant == Sem.Nobody && s.sem.max == n
    requires |s.cells| == n + 1 && s.r <= n && s.w <= n
    ensures var r := Step(n, s, ReaderTurn); ReaderOk(r) && WriterOk(r) && r.sem.max == n && r.sem.grant == Sem.Nobody
  {
  }

  lemma ReaderMatches(n: nat, s: State)
    requires s.reader == Waits && ReaderOk(s) && s.sem.max == n && Sem.Assured(s.sem, READER)
    requires |s.cells| == n + 1 && s.r <= n && s.w <= n
    ensures Matches(n, s, ReaderTurn, Step(n, s, ReaderTurn))
  {
  }

  lemma WriterMoves(n: nat, s: State, b: Byte)
    requires s.writer == Signals && ReaderOk(s) && WriterOk(s) && s.sem.grant == Sem.Nobody && s.sem.max == n
    requires |s.cells| == n + 1 && s.r <= n && s.w <= n
    ensures var r := Step(n, s, WriterTurn(b));
            ReaderOk(r) && WriterOk(r) && r.sem.max == n && r.sem.grant == Sem.Nobody
  {
  }

  lemma WriterMatches(n: nat, s: State, b: Byte)
    requires s.writer == Signals && WriterOk(s) && s.sem.max == n && Sem.Assured(s.sem, WRITER)
    requires |s.cells| == n + 1 && s.r <= n && s.w <= n
    ensures Matches(n, s, WriterTurn(b), Step(n, s, WriterTurn(b)))
  {
  }

  lemma ReaderStep(n: nat, s: State)
    requires Ok(n, s)
    ensures Ok(n, Step(n, s, ReaderTurn)) && Matches(n, s, ReaderTurn, Step(n, s, ReaderTurn))
  {
    hide Sem.Step, Sem.WordsOk, Sem.Assured;
    if s.reader == Waits {
      Sem.StepKeeps(s.sem, READER, Sem.Acquire(Sem.Shared, Sem.Retry));
      assert Sem.ThreadOk(s.sem, READER);
      hide Sem.Inv, ReaderOk, WriterOk, Matches;
      ReaderMoves(n, s);
      ReaderMatches(n, s);
    }
  }

  lemma WriterStep(n: nat, s: State, b: Byte)
    requires Ok(n, s)
    ensures Ok(n, Step(n, s, WriterTurn(b))) && Matches(n, s, WriterTurn(b), Step(n, s, WriterTurn(b)))
  {
    hide Sem.Step, Sem.WordsOk, Sem.Assured;
    if s.writer == Signals {
      Sem.StepKeeps(s.sem, WRITER, Sem.Signal(Sem.Retry));
      assert Sem.ThreadOk(s.sem, WRITER);
      hide Sem.Inv, ReaderOk, WriterOk, Matches;
      WriterMoves(n, s, b);
      WriterMatches(n, s, b);
    }
  }

  lemma StepMatches(n: nat, s: State, turn: Turn)
    requires Ok(n, s)
    ensures Ok(n, Step(n, s, turn)) && Matches(n, s, turn, Step(n, s, turn))
  {
    match turn
    case ReaderTurn => ReaderStep(n, s);
    case WriterTurn(b) => WriterStep(n, s, b);
  }

  // ---- Runs ----

  lemma InitialOk(n: nat)
    ensures Ok(n, Initial(n)) && Ring(Initial(n)) == Pipe.Initial(n)
  {
  }

  ghost function Run(n: nat, turns: seq<Turn>): (s: State)
    ensures Ok(n, s)
  {
    if turns == [] then
      InitialOk(n);
      Initial(n)
    else
      var s := Run(n, turns[..|turns| - 1]);
      StepMatches(n, s, turns[|turns| - 1]);
      Step(n, s, turns[|turns| - 1])
  }

  /** The steps of the ring in a run. */
  ghost function Events(n: nat, turns: seq<Turn>): seq<Pipe.Event>
  {
    if turns == [] then []
    else Events(n, turns[..|turns| - 1]) + EventOf(Run(n, turns[..|turns| - 1]), turns[|turns| - 1])
  }

  /** Whatever the interleaving of the semaphore's loads, stores and exchanges, the ring does what module Pipe says. */
  lemma {:induction false} RingRuns(n: nat, turns: seq<Turn>)
    requires n > 0
    ensures Ring(Run(n, turns)) == Pipe.Run(n, Events(n, turns))
  {
    hide Ok, Step, Ring, EventOf;
    if turns == [] {
      InitialOk(n);
    } else {
      var less, turn := turns[..|turns| - 1], turns[|turns| - 1];
      RingRuns(n, less);
      var s := Run(n, less);
      LastTurn(n, turns);
      var es := EventOf(s, turn);
      if es == [] {
        assert Events(n, less) + es == Events(n, less);
      } else {
        assert es == [es[0]];
        Pipe.RunOne(n, Events(n, less), es[0]);
      }
    }
  }

  lemma LastTurn(n: nat, turns: seq<Turn>)
    requires turns != []
    ensures var s := Run(n, turns[..|turns| - 1]); var es := EventOf(s, turns[|turns| - 1]);
            && |s.cells| == n + 1 && s.r <= n && s.w <= n
            && Ring(Run(n, turns)) == if es == [] then Ring(s) else Pipe.Step(n, Ring(s), es[0])
  {
    hide Step, Ring, EventOf;
    StepMatches(n, Run(n, turns[..|turns| - 1]), turns[|turns| - 1]);
  }

  /**
   First in, first out over every interleaving of the two threads: what was read is how the written
   bytes begin, exactly when no different byte went into a full ring between the reader's wait and its copy.
   */
  lemma PipeIsQueueExactly(n: nat, turns: seq<Turn>)
    requires n > 0 && !Ring(Run(n, turns)).acquired
    ensures Run(n, turns).read <= Run(n, turns).written <==> Pipe.NoClobber(n, Events(n, turns))
  {
    RingRuns(n, turns);
    Pipe.FifoExactly(n, Events(n, turns));
  }

  // ---- A thread that is not disturbed ----

  function Again(turn: Turn, k: nat): (r: seq<Turn>)
    ensures |r| == k
  {
    seq(k, _ => turn)
  }

  lemma RunOneMore(n: nat, turns: seq<Turn>, turn: Turn, k: nat)
    ensures Run(n, turns + Again(turn, k + 1)) == Step(n, Run(n, turns + Again(turn, k)), turn)
  {
    hide Step, Ok;
    var all := turns + Again(turn, k + 1);
    assert all[..|all| - 1] == turns + Again(turn, k) && all[|all| - 1] == turn;
    CellsThere(n, turns + Again(turn, k));
  }

  lemma RunMax(n: nat, turns: seq<Turn>)
    ensures Run(n, turns).sem.max == n
  {
    hide Run;
    assert Ok(n, Run(n, turns));
  }

  lemma CellsThere(n: nat, turns: seq<Turn>)
    ensures var s := Run(n, turns); |s.cells| == n + 1 && s.r <= n && s.w <= n
  {
    hide Run, Step;
  }

  /** While the reader is in the semaphore, what moves is the semaphore. */
  lemma {:induction false} ReaderFollows(n: nat, turns: seq<Turn>, path: seq<Sem.State>, i: nat)
    requires var s := Run(n, turns); s.reader == Waits && path != [] && path[0] == s.sem
    requires SemaphoreAlone.Alone(path, READER, Sem.Acquire(Sem.Shared, Sem.Retry)) && i < |path|
    requires forall j :: 0 < j < |path| - 1 ==> !Sem.PcOf(path[j], READER).Idle?
    ensures var s := Run(n, turns);
            Run(n, turns + Again(ReaderTurn, i)) ==
            s.(sem := path[i], reader := if i > 0 && Sem.PcOf(path[i], READER).Idle? then Copies else Waits)
  {
    hide Sem.Step, Run, Ok;
    if i == 0 {
      assert turns + Again(ReaderTurn, 0) == turns;
    } else {
      ReaderFollows(n, turns, path, i - 1);
      RunOneMore(n, turns, ReaderTurn, i - 1);
    }
  }

  /** When the reader is not between its wait and its copy, the next cell holds the oldest byte it has not read. */
  lemma NextByte(n: nat, turns: seq<Turn>)
    requires n > 0 && !Ring(Run(n, turns)).acquired && Run(n, turns).sem.cnt < n
    ensures var s := Run(n, turns);
            |s.read| < |s.written| && s.r < |s.cells| && s.cells[s.r] == s.written[|s.read|]
  {
    hide Run, Ok;
    RingRuns(n, turns);
    Pipe.RunRing(n, Events(n, turns));
    assert Pipe.CellOk(n, Ring(Run(n, turns)), 0);
  }

  /** A reader that moves alone with a byte published gets the oldest byte it has not read. */
  lemma ReaderAlone(n: nat, turns: seq<Turn>) returns (k: nat)
    requires var s := Run(n, turns);
             && n > 0 && s.reader == Waits && Sem.PcOf(s.sem, READER).Idle?
             && SemaphoreAlone.WordsClear(s.sem) && s.sem.cnt < n
    ensures var s, r := Run(n, turns), Run(n, turns + Again(ReaderTurn, k));
            && |s.read| < |s.written| && r.read == s.read + [s.written[|s.read|]] && r.written == s.written
            && r.reader == Waits && Sem.PcOf(r.sem, READER).Idle? && r.sem.cnt == s.sem.cnt + 1
  {
    hide Sem.Step, Run, SemaphoreAlone.Alone, Ok;
    var s := Run(n, turns);
    CellsThere(n, turns);
    NextByte(n, turns);
    RunMax(n, turns);
    var path := SemaphoreAlone.Acquires(s.sem, READER, Sem.Shared, Sem.Retry);
    var last := |path| - 1;
    ReaderFollows(n, turns, path, last);
    RunOneMore(n, turns, ReaderTurn, last);
    k := last + 1;
  }

  lemma {:induction false} WriterFollows(n: nat, turns: seq<Turn>, b: Byte, path: seq<Sem.State>, i: nat)
    requires var s := Run(n, turns); s.writer == Signals && path != [] && path[0] == s.sem
    requires SemaphoreAlone.Alone(path, WRITER, Sem.Signal(Sem.Retry)) && i < |path|
    requires forall j :: 0 < j < |path| - 1 ==> !Sem.PcOf(path[j], WRITER).Idle?
    ensures var s := Run(n, turns);
            Run(n, turns + Again(WriterTurn(b), i)) ==
            s.(sem := path[i], writer := if i > 0 && Sem.PcOf(path[i], WRITER).Idle? then Stores else Signals)
  {
    hide Sem.Step, Run, Ok;
    if i == 0 {
      assert turns + Again(WriterTurn(b), 0) == turns;
    } else {
      WriterFollows(n, turns, b, path, i - 1);
      RunOneMore(n, turns, WriterTurn(b), i - 1);
    }
  }

  /** A writer that moves alone with room in the ring stores its byte and publishes it. */
  lemma WriterAlone(n: nat, turns: seq<Turn>, b: Byte)
    requires var s := Run(n, turns);
             s.writer == Stores && Sem.PcOf(s.sem, WRITER).Idle? && s.sem.enter == 0 && s.sem.cnt > 0
    ensures var s, r := Run(n, turns), Run(n, turns + Again(WriterTurn(b), 8));
            && r.written == s.written + [b] && r.read == s.read
            && r.writer == Stores && Sem.PcOf(r.sem, WRITER).Idle? && r.sem.cnt == s.sem.cnt - 1
  {
    hide Sem.Step, Run, SemaphoreAlone.Alone;
    var s := Run(n, turns);
    RunOneMore(n, turns, WriterTurn(b), 0);
    assert turns + Again(WriterTurn(b), 0) == turns;
    var more := turns + Again(WriterTurn(b), 1);
    var path := SemaphoreAlone.Signals(s.sem, WRITER, Sem.Retry);
    WriterFollows(n, more, b, path, 7);
    assert more + Again(WriterTurn(b), 7) == turns + Again(WriterTurn(b), 8);
  }
}

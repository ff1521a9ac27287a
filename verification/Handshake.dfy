/**
 The writer and reader of sem_reader_writer.c: one shared value, two semaphores that start at 0, every
 semaphore operation with SEM_UNDO. The writer stores data[0], data[1], ... (the program: 1..100).
 */
module Handshake {

  datatype WriterPc = Store | SignalReader | AwaitReader
  datatype ReaderPc = AwaitWriter | Read | SignalWriter

  /**
   `written` and `done` count finished rounds; undo0 and undo1 are the reader's adjustments, which
   the kernel applies when the reader exits.
   */
  datatype State = State(
    val: int, s0: int, s1: int,
    w: WriterPc, written: nat,
    r: ReaderPc, done: nat, got: seq<int>, undo0: int, undo1: int, exited: bool)

  datatype Action = Writer | Reader | ReaderExit

  const INIT := State(0, 0, 0, Store, 0, AwaitWriter, 0, [], 0, 0, false)

  predicate Enabled(s: State, a: Action, data: seq<int>) {
    match a
    case Writer => s.written < |data| && (s.w.AwaitReader? ==> s.s1 >= 1)
    case Reader => !s.exited && s.done < |data| && (s.r.AwaitWriter? ==> s.s0 >= 1)
    case ReaderExit => !s.exited && s.done >= |data|
  }

  function Floor(n: int): int { if n < 0 then 0 else n }

  function Next(s: State, a: Action, data: seq<int>): State
    requires Enabled(s, a, data)
  {
    match a
    case Writer =>
      (match s.w
       case Store => s.(val := data[s.written], w := SignalReader)
       case SignalReader => s.(s0 := s.s0 + 1, w := AwaitReader)
       case AwaitReader => s.(s1 := s.s1 - 1, w := Store, written := s.written + 1))
    case Reader =>
      (match s.r
       case AwaitWriter => s.(s0 := s.s0 - 1, undo0 := s.undo0 + 1, r := Read)
       case Read => s.(got := s.got + [s.val], r := SignalWriter)
       case SignalWriter => s.(s1 := s.s1 + 1, undo1 := s.undo1 - 1, r := AwaitWriter, done := s.done + 1))
    case ReaderExit =>
      s.(s0 := Floor(s.s0 + s.undo0), s1 := Floor(s.s1 + s.undo1), exited := true)
  }

  /** Actions that are blocked are skipped, so every interleaving is some sequence of actions. */
  function Run(s: State, actions: seq<Action>, data: seq<int>): State
    decreases |actions|
  {
    if actions == [] then s
    else Run(if Enabled(s, actions[0], data) then Next(s, actions[0], data) else s, actions[1..], data)
  }

  /** Before the reader exits: who may be where. */
  ghost predicate Turns(s: State, data: seq<int>) {
    && s.written <= |data|
    && (s.written < |data| || s.w.Store?)
    && s.got <= data
    && |s.got| == s.done + (if s.r.SignalWriter? then 1 else 0) <= |data|
    && (!s.w.Store? ==> s.val == data[s.written])
    && (s.w.AwaitReader? || (s.r.AwaitWriter? && s.s0 == 0 && s.s1 == 0 && s.done == s.written))
    && (s.w.AwaitReader? ==>
          if s.done == s.written then s.s1 == 0 && s.s0 == (if s.r.AwaitWriter? then 1 else 0)
          else s.done == s.written + 1 && s.r.AwaitWriter? && s.s0 == 0 && s.s1 == 1)
    && s.undo0 == s.done + (if s.r.AwaitWriter? then 0 else 1)
    && s.undo1 == 0 - s.done
  }

  /** After it: either the writer was done, or it waits for a signal that was taken back. */
  ghost predicate Aftermath(s: State, data: seq<int>) {
    && s.got == data && s.done == |data| && s.s1 == 0 && s.r.AwaitWriter?
    && (s.written == |data| || (s.written + 1 == |data| && s.w.AwaitReader?))
  }

  ghost predicate Inv(s: State, data: seq<int>) {
    if s.exited then Aftermath(s, data) else Turns(s, data)
  }

  lemma NextKeepsInv(s: State, a: Action, data: seq<int>)
    requires Inv(s, data) && Enabled(s, a, data)
    ensures Inv(Next(s, a, data), data)
  {
    if a.ReaderExit? && s.done == |data| {
      assert s.got == data[..|s.got|] == data;
    }
  }

  lemma {:induction false} RunKeepsInv(s: State, actions: seq<Action>, data: seq<int>)
    requires Inv(s, data)
    ensures Inv(Run(s, actions, data), data)
    decreases |actions|
  {
    if actions != [] {
      if Enabled(s, actions[0], data) { NextKeepsInv(s, actions[0], data); }
      RunKeepsInv(if Enabled(s, actions[0], data) then Next(s, actions[0], data) else s, actions[1..], data);
    }
  }

  /** In every interleaving the k-th read is the k-th written value, and the two sides strictly alternate. */
  lemma ReadsFollowWrites(actions: seq<Action>, data: seq<int>)
    ensures var s := Run(INIT, actions, data);
            && s.got <= data
            && s.written <= s.done <= s.written + 1
            && (!s.exited ==> 0 <= s.s0 && 0 <= s.s1 && s.s0 + s.s1 <= 1)
            && (s.r.Read? ==> s.w.AwaitReader?)
  {
    RunKeepsInv(INIT, actions, data);
  }

  // ---------- progress, up to the reader's exit ----------

  /** Steps taken so far: three by each side in every round. */
  function Steps(s: State): nat {
    3 * s.written + 3 * s.done
    + (match s.w case Store => 0 case SignalReader => 1 case AwaitReader => 2)
    + (match s.r case AwaitWriter => 0 case Read => 1 case SignalWriter => 2)
  }

  /** No deadlock: while the reader lives and a round is missing somebody can step, and there are 6 steps per round. */
  lemma Progress(actions: seq<Action>, data: seq<int>)
    ensures var s := Run(INIT, actions, data);
            !s.exited ==>
              && Steps(s) <= 6 * |data|
              && (Steps(s) == 6 * |data| <==> s.written == |data| && s.done == |data|)
              && (Steps(s) < 6 * |data| ==> Enabled(s, Writer, data) || Enabled(s, Reader, data))
  {
    RunKeepsInv(INIT, actions, data);
  }

  lemma EveryStepCounts(s: State, a: Action, data: seq<int>)
    requires Enabled(s, a, data) && !a.ReaderExit?
    ensures Steps(Next(s, a, data)) == Steps(s) + 1
  {
  }

  // ---------- what the exit does ----------

  /** A writer that still waits when the reader exits waits for ever. */
  lemma {:induction false} StuckForEver(s: State, actions: seq<Action>, data: seq<int>)
    requires s.exited && s.s1 == 0 && s.w.AwaitReader?
    ensures Run(s, actions, data) == s
    decreases |actions|
  {
    if actions != [] {
      StuckForEver(s, actions[1..], data);
    }
  }

  ghost predicate CanFinish(s: State, data: seq<int>) {
    exists more: seq<Action> :: Run(s, more, data).written == |data|
  }

  /** After an exit the writer can still finish, in some continuation, iff it had finished before. */
  lemma FinishesIffBeforeExit(actions: seq<Action>, data: seq<int>)
    requires Run(INIT, actions, data).exited
    ensures CanFinish(Run(INIT, actions, data), data) <==> Run(INIT, actions, data).written == |data|
  {
    RunKeepsInv(INIT, actions, data);
    var s := Run(INIT, actions, data);
    if s.written == |data| {
      assert Run(s, [], data) == s;
    } else {
      forall more: seq<Action> ensures Run(s, more, data).written != |data| {
        StuckForEver(s, more, data);
      }
    }
  }

  /** It happens for every non-empty run: the reader leaves before the writer's last P. */
  lemma EarlyExitStrandsTheWriter(data: seq<int>)
    requires data != []
    ensures exists actions: seq<Action> ::
              var s := Run(INIT, actions, data);
              s.exited && s.written < |data|
  {
    var s := RoundsReachable(|data| - 1, data);
    FiveSteps(s, data);
    var last := AfterFive(s, data);
    ReachableMore(last, ReaderExit, data);
    var actions :| Run(INIT, actions, data) == Next(last, ReaderExit, data);
  }

  ghost predicate Reachable(t: State, data: seq<int>) {
    exists actions: seq<Action> :: Run(INIT, actions, data) == t
  }

  lemma {:induction false} RunLast(s: State, actions: seq<Action>, a: Action, data: seq<int>)
    requires Enabled(Run(s, actions, data), a, data)
    ensures Run(s, actions + [a], data) == Next(Run(s, actions, data), a, data)
    decreases |actions|
  {
    if actions != [] {
      assert (actions + [a])[1..] == actions[1..] + [a];
      RunLast(if Enabled(s, actions[0], data) then Next(s, actions[0], data) else s, actions[1..], a, data);
    }
  }

  lemma ReachableMore(t: State, a: Action, data: seq<int>)
    requires Reachable(t, data) && Enabled(t, a, data)
    ensures Reachable(Next(t, a, data), data)
  {
    var actions :| Run(INIT, actions, data) == t;
    RunLast(INIT, actions, a, data);
  }

  ghost predicate RoundStart(s: State, n: nat, data: seq<int>) {
    Turns(s, data) && !s.exited && s.w.Store? && s.written == n && s.r.AwaitWriter?
  }

  /** All of a round but the writer's last P. */
  function AfterFive(s: State, data: seq<int>): State
    requires s.written < |data|
  {
    s.(val := data[s.written], w := AwaitReader, s1 := s.s1 + 1, done := s.done + 1,
       got := s.got + [data[s.written]], undo0 := s.undo0 + 1, undo1 := s.undo1 - 1)
  }

  lemma TwoWrites(s: State, data: seq<int>)
    requires Reachable(s, data) && RoundStart(s, s.written, data) && s.written < |data|
    ensures Reachable(s.(val := data[s.written], s0 := s.s0 + 1, w := AwaitReader), data)
  {
    ReachableMore(s, Writer, data);
    ReachableMore(Next(s, Writer, data), Writer, data);
  }

  lemma FiveSteps(s: State, data: seq<int>)
    requires Reachable(s, data) && RoundStart(s, s.written, data) && s.written < |data|
    ensures Reachable(AfterFive(s, data), data)
  {
    TwoWrites(s, data);
    var s2 := s.(val := data[s.written], s0 := s.s0 + 1, w := AwaitReader);
    ReachableMore(s2, Reader, data);
    var s3 := Next(s2, Reader, data);
    ReachableMore(s3, Reader, data);
    ReachableMore(Next(s3, Reader, data), Reader, data);
  }

  lemma {:induction false} RoundsReachable(n: nat, data: seq<int>) returns (s: State)
    requires n <= |data|
    ensures Reachable(s, data) && RoundStart(s, n, data)
  {
    s := INIT;
    assert Run(INIT, [], data) == INIT;
    if n > 0 {
      var before := RoundsReachable(n - 1, data);
      FiveSteps(before, data);
      s := AfterFive(before, data);
      ReachableMore(s, Writer, data);
      s := Next(s, Writer, data);
    }
  }

  // ---------- both programs under an arbitrary scheduler ----------

  /**
   The two loops run to their ends, the scheduler choosing among the sides that are not blocked: the
   reader has then read exactly what was written. (The reader exits after this.)
   */
  method RunBoth(data: seq<int>) returns (got: seq<int>)
    ensures got == data
  {
    var s := INIT;
    while s.written < |data| || s.done < |data|
      invariant !s.exited && Turns(s, data)
      decreases 6 * |data| - Steps(s)
    {
      ghost var before := s;
      if
      case Enabled(s, Writer, data) =>
        match s.w {
          case Store => s := s.(val := data[s.written], w := SignalReader);
          case SignalReader => s := s.(s0 := s.s0 + 1, w := AwaitReader);
          case AwaitReader => s := s.(s1 := s.s1 - 1, w := Store, written := s.written + 1);
        }
        NextKeepsInv(before, Writer, data);
      case Enabled(s, Reader, data) =>
        match s.r {
          case AwaitWriter => s := s.(s0 := s.s0 - 1, undo0 := s.undo0 + 1, r := Read);
          case Read => s := s.(got := s.got + [s.val], r := SignalWriter);
          case SignalWriter =>
            s := s.(s1 := s.s1 + 1, undo1 := s.undo1 - 1, r := AwaitWriter, done := s.done + 1);
        }
        NextKeepsInv(before, Reader, data);
    }
    got := s.got;
    assert s.got == data[..|s.got|] == data;
  }
}

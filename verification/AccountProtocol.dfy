/**
 N processes (shm_account.c, SEM_UNDO) or N threads (account.c, sem_t) on one account, as interleaved
 atomic steps. A process may start any operation at any time and may die between any two steps.
 */
module AccountProtocol {
  import opened Wrappers

  datatype Op = Withdraw(amt: real) | Deposit(amt: real) | GetBalance

  /** What an operation does when it has the account to itself: new balance and returned amount. */
  function Serial(balance: real, op: Op): (real, real) {
    match op
    case Withdraw(amt) => if amt < 0.0 || amt > balance then (balance, 0.0) else (balance - amt, amt)
    case Deposit(amt) => if amt < 0.0 then (balance, 0.0) else (balance + amt, amt)
    case GetBalance => (balance, balance)
  }

  /**
   `undo`: semaphore operations carry SEM_UNDO, as in shm_account.c. `early`: deposit tests the amount
   before the lock, as in account.c.
   */
  datatype Flavour = Flavour(undo: bool, early: bool)

  datatype Pc =
    | Idle
    | Waiting(op: Op)               // about to do P
    | Entered(op: Op)               // holds the semaphore, nothing read yet
    | Loaded(op: Op, local: real)   // has copied the balance
    | Leaving(result: real)         // about to do V
    | Dead(held: bool)              // died; held: the semaphore went with it

  /** `adj`: what the kernel adds to the semaphore when the process dies. */
  datatype Proc = Proc(pc: Pc, adj: int, results: seq<real>)

  datatype Commit = Commit(pid: nat, op: Op, result: real)

  /** `log`: the operations in the order in which they took effect. */
  datatype State = State(sem: int, balance: real, procs: seq<Proc>, log: seq<Commit>)

  datatype Action = Start(pid: nat, op: Op) | Step(pid: nat) | Die(pid: nat)

  function Init(n: nat, balance: real): State {
    State(1, balance, seq(n, _ => Proc(Idle, 0, [])), [])
  }

  predicate InCritical(pc: Pc) { pc.Entered? || pc.Loaded? || pc.Leaving? }

  /** Who keeps the semaphore from being 1: a live holder, or one that took it to the grave. */
  predicate Heavy(pc: Pc) { InCritical(pc) || pc == Dead(true) }

  function Moved(s: State, p: nat, pc: Pc): State
    requires p < |s.procs|
  {
    s.(procs := s.procs[p := s.procs[p].(pc := pc)])
  }

  function Committed(s: State, p: nat, op: Op, result: real): State {
    s.(log := s.log + [Commit(p, op, result)])
  }

  function Returned(s: State, p: nat, result: real): State
    requires p < |s.procs|
  {
    s.(procs := s.procs[p := s.procs[p].(pc := Idle, results := s.procs[p].results + [result])])
  }

  /** semop on the one semaphore, which also books the undo adjustment. */
  function SemOp(s: State, fl: Flavour, p: nat, delta: int): State
    requires p < |s.procs|
  {
    s.(sem := s.sem + delta,
       procs := s.procs[p := s.procs[p].(adj := s.procs[p].adj - if fl.undo then delta else 0)])
  }

  /** The next step of process p inside an operation; None when it is blocked or has nothing to do. */
  function Advance(fl: Flavour, s: State, p: nat): Option<State>
    requires p < |s.procs|
  {
    match s.procs[p].pc
    case Waiting(op) =>
      if fl.early && op.Deposit? && op.amt < 0.0 then
        Some(Returned(Committed(s, p, op, 0.0), p, 0.0))
      else if s.sem >= 1 then Some(Moved(SemOp(s, fl, p, -1), p, Entered(op)))
      else None
    case Entered(op) => Some(Check(s, p, op))
    case Loaded(op, local) =>
      (match op
       case Withdraw(amt) => Some(Moved(Committed(s.(balance := local - amt), p, op, amt), p, Leaving(amt)))
       case Deposit(amt) => Some(Moved(Committed(s.(balance := local + amt), p, op, amt), p, Leaving(amt)))
       case GetBalance => None)
    case Leaving(result) => Some(Returned(SemOp(s, fl, p, 1), p, result))
    case _ => None
  }

  /** The test of the amount, then the load of the balance. */
  function Check(s: State, p: nat, op: Op): State
    requires p < |s.procs|
  {
    match op
    case Withdraw(amt) =>
      if amt < 0.0 || amt > s.balance then Moved(Committed(s, p, op, 0.0), p, Leaving(0.0))
      else Moved(s, p, Loaded(op, s.balance))
    case Deposit(amt) =>
      if amt < 0.0 then Moved(Committed(s, p, op, 0.0), p, Leaving(0.0))
      else Moved(s, p, Loaded(op, s.balance))
    case GetBalance => Moved(Committed(s, p, op, s.balance), p, Leaving(s.balance))
  }

  /** Death: the kernel applies the adjustment, never below zero; the balance stays as it is. */
  function Kill(fl: Flavour, s: State, p: nat): State
    requires p < |s.procs|
  {
    var q := s.procs[p];
    var sem := if s.sem + q.adj < 0 then 0 else s.sem + q.adj;
    State(sem, s.balance, s.procs[p := Proc(Dead(!fl.undo && InCritical(q.pc)), 0, q.results)], s.log)
  }

  /** One action of the whole system, or None when it is not possible now. */
  function Next(fl: Flavour, s: State, a: Action): Option<State> {
    if a.pid >= |s.procs| then None
    else
      match a
      case Start(p, op) => if s.procs[p].pc.Idle? then Some(Moved(s, p, Waiting(op))) else None
      case Step(p) => Advance(fl, s, p)
      case Die(p) => if s.procs[p].pc.Dead? then None else Some(Kill(fl, s, p))
  }

  /** Impossible actions are skipped: every interleaving is some sequence of actions. */
  function Run(fl: Flavour, s: State, actions: seq<Action>): State
    decreases |actions|
  {
    if actions == [] then s
    else
      match Next(fl, s, actions[0])
      case Some(t) => Run(fl, t, actions[1..])
      case None => Run(fl, s, actions[1..])
  }

  // ---------- the invariant ----------

  /** Replaying the log one operation at a time gives every recorded result; this is the final balance. */
  function Replay(balance: real, log: seq<Commit>): Option<real> {
    if log == [] then Some(balance)
    else
      match Replay(balance, log[..|log| - 1])
      case None => None
      case Some(b) =>
        var c := log[|log| - 1];
        if Serial(b, c.op).1 == c.result then Some(Serial(b, c.op).0) else None
  }

  function ResultsOf(log: seq<Commit>, p: nat): seq<real> {
    if log == [] then []
    else
      var c := log[|log| - 1];
      ResultsOf(log[..|log| - 1], p) + if c.pid == p then [c.result] else []
  }

  ghost predicate LockOk(fl: Flavour, s: State) {
    && 0 <= s.sem <= 1
    && (forall i :: 0 <= i < |s.procs| && Heavy(s.procs[i].pc) ==> s.sem == 0)
    && (forall i, j :: 0 <= i < j < |s.procs| ==> !(Heavy(s.procs[i].pc) && Heavy(s.procs[j].pc)))
    && (s.sem == 0 ==> exists i :: 0 <= i < |s.procs| && Heavy(s.procs[i].pc))
    && (forall i :: 0 <= i < |s.procs| ==>
          s.procs[i].adj == if fl.undo && InCritical(s.procs[i].pc) then 1 else 0)
    && (fl.undo ==> forall i :: 0 <= i < |s.procs| ==> s.procs[i].pc != Dead(true))
  }

  /** A copied balance is current, and belongs to an accepted amount. */
  ghost predicate LoadOk(s: State) {
    forall i :: 0 <= i < |s.procs| && s.procs[i].pc.Loaded? ==>
      && s.procs[i].pc.local == s.balance
      && !s.procs[i].pc.op.GetBalance?
      && Serial(s.balance, s.procs[i].pc.op).1 == s.procs[i].pc.op.amt
      && s.procs[i].pc.op.amt >= 0.0
      && (s.procs[i].pc.op.Withdraw? ==> s.procs[i].pc.op.amt <= s.balance)
  }

  /** What each process was told is what the log says, except for a result it died before receiving. */
  ghost predicate ToldOk(s: State) {
    forall i :: 0 <= i < |s.procs| ==>
      var q := s.procs[i];
      if q.pc.Dead? then q.results <= ResultsOf(s.log, i)
      else ResultsOf(s.log, i) == q.results + if q.pc.Leaving? then [q.pc.result] else []
  }

  ghost predicate Inv(fl: Flavour, s: State, start: real) {
    LockOk(fl, s) && LoadOk(s) && ToldOk(s) && Replay(start, s.log) == Some(s.balance)
  }

  lemma InitInv(fl: Flavour, n: nat, start: real)
    ensures Inv(fl, Init(n, start), start)
  {
  }

  lemma CommitLog(log: seq<Commit>, c: Commit, start: real, b: real, p: nat)
    requires Replay(start, log) == Some(b) && Serial(b, c.op).1 == c.result
    ensures Replay(start, log + [c]) == Some(Serial(b, c.op).0)
    ensures ResultsOf(log + [c], p) == ResultsOf(log, p) + if c.pid == p then [c.result] else []
  {
    assert (log + [c])[..|log|] == log;
  }

  lemma ToldAfterCommit(log: seq<Commit>, c: Commit)
    ensures forall p: nat :: ResultsOf(log + [c], p) == ResultsOf(log, p) + if c.pid == p then [c.result] else []
  {
    assert (log + [c])[..|log|] == log;
  }

  /** Nothing about the lock changes as long as everybody keeps his part in it. */
  lemma LockUnmoved(fl: Flavour, s: State, t: State)
    requires LockOk(fl, s) && t.sem == s.sem && |t.procs| == |s.procs|
    requires forall i :: 0 <= i < |s.procs| ==>
               && InCritical(t.procs[i].pc) == InCritical(s.procs[i].pc)
               && (t.procs[i].pc == Dead(true) <==> s.procs[i].pc == Dead(true))
               && t.procs[i].adj == s.procs[i].adj
    ensures LockOk(fl, t)
  {
    assert forall i :: 0 <= i < |s.procs| ==> Heavy(t.procs[i].pc) == Heavy(s.procs[i].pc);
    if s.sem == 0 {
      var h :| 0 <= h < |s.procs| && Heavy(s.procs[h].pc);
      assert Heavy(t.procs[h].pc);
    }
  }

  lemma StartKeepsInv(fl: Flavour, s: State, start: real, p: nat, op: Op)
    requires Inv(fl, s, start) && p < |s.procs| && s.procs[p].pc.Idle?
    ensures Inv(fl, Moved(s, p, Waiting(op)), start)
  {
    LockUnmoved(fl, s, Moved(s, p, Waiting(op)));
  }

  lemma KillKeepsInv(fl: Flavour, s: State, start: real, p: nat)
    requires Inv(fl, s, start) && p < |s.procs| && !s.procs[p].pc.Dead?
    ensures Inv(fl, Kill(fl, s, p), start)
  {
    var t := Kill(fl, s, p);
    if t.sem == 0 {
      var h :| 0 <= h < |s.procs| && Heavy(s.procs[h].pc);
      assert Heavy(t.procs[h].pc);
    }
  }

  lemma EnterKeepsInv(fl: Flavour, s: State, start: real, p: nat, op: Op)
    requires Inv(fl, s, start) && p < |s.procs| && s.procs[p].pc == Waiting(op) && s.sem >= 1
    ensures Inv(fl, Moved(SemOp(s, fl, p, -1), p, Entered(op)), start)
  {
    var t := Moved(SemOp(s, fl, p, -1), p, Entered(op));
    assert Heavy(t.procs[p].pc);
  }

  lemma LeaveKeepsInv(fl: Flavour, s: State, start: real, p: nat, r: real)
    requires Inv(fl, s, start) && p < |s.procs| && s.procs[p].pc == Leaving(r)
    ensures Inv(fl, Returned(SemOp(s, fl, p, 1), p, r), start)
  {
  }

  lemma RejectEarlyKeepsInv(fl: Flavour, s: State, start: real, p: nat, op: Op)
    requires Inv(fl, s, start) && p < |s.procs| && s.procs[p].pc == Waiting(op) && op.Deposit? && op.amt < 0.0
    ensures Inv(fl, Returned(Committed(s, p, op, 0.0), p, 0.0), start)
  {
    CommitLog(s.log, Commit(p, op, 0.0), start, s.balance, p);
    LockUnmoved(fl, s, Returned(Committed(s, p, op, 0.0), p, 0.0));
    RejectTells(s, p, op);
  }

  lemma RejectTells(s: State, p: nat, op: Op)
    requires ToldOk(s) && p < |s.procs| && s.procs[p].pc == Waiting(op)
    ensures ToldOk(Returned(Committed(s, p, op, 0.0), p, 0.0))
  {
    ToldAfterCommit(s.log, Commit(p, op, 0.0));
  }

  /** A process gets past its P iff the semaphore is free, or if it is a deposit refused before the P. */
  lemma EntersIff(fl: Flavour, s: State, p: nat, op: Op)
    requires p < |s.procs| && s.procs[p].pc == Waiting(op)
    ensures Next(fl, s, Step(p)).Some? <==> s.sem >= 1 || (fl.early && op.Deposit? && op.amt < 0.0)
  {
  }

  /** The state in which operation `op` of p has taken effect and p is about to leave. */
  function Effect(s: State, p: nat, op: Op): State
    requires p < |s.procs|
  {
    var (b, r) := Serial(s.balance, op);
    Moved(Committed(s.(balance := b), p, op, r), p, Leaving(r))
  }

  lemma EffectTells(s: State, p: nat, op: Op)
    requires ToldOk(s) && p < |s.procs| && (s.procs[p].pc.Entered? || s.procs[p].pc.Loaded?)
    ensures ToldOk(Effect(s, p, op))
  {
    ToldAfterCommit(s.log, Commit(p, op, Serial(s.balance, op).1));
  }

  lemma EffectLoads(fl: Flavour, s: State, p: nat, op: Op)
    requires LockOk(fl, s) && p < |s.procs| && (s.procs[p].pc.Entered? || s.procs[p].pc.Loaded?)
    ensures LoadOk(Effect(s, p, op))
  {
    assert Heavy(s.procs[p].pc);
    assert forall i :: 0 <= i < |s.procs| && i != p ==> !Heavy(s.procs[i].pc);
  }

  /** Inside the critical section an operation takes effect as if it were alone. */
  lemma EffectKeepsInv(fl: Flavour, s: State, start: real, p: nat, op: Op)
    requires Inv(fl, s, start) && p < |s.procs| && (s.procs[p].pc.Entered? || s.procs[p].pc.Loaded?)
    ensures Inv(fl, Effect(s, p, op), start)
  {
    CommitLog(s.log, Commit(p, op, Serial(s.balance, op).1), start, s.balance, p);
    LockUnmoved(fl, s, Effect(s, p, op));
    EffectLoads(fl, s, p, op);
    EffectTells(s, p, op);
  }

  lemma LoadKeepsInv(fl: Flavour, s: State, start: real, p: nat, op: Op)
    requires Inv(fl, s, start) && p < |s.procs| && s.procs[p].pc == Entered(op)
    requires !op.GetBalance? && op.amt >= 0.0 && (op.Withdraw? ==> op.amt <= s.balance)
    ensures Inv(fl, Moved(s, p, Loaded(op, s.balance)), start)
  {
    assert Heavy(Moved(s, p, Loaded(op, s.balance)).procs[p].pc);
  }

  lemma CheckKeepsInv(fl: Flavour, s: State, start: real, p: nat, op: Op)
    requires Inv(fl, s, start) && p < |s.procs| && s.procs[p].pc == Entered(op)
    ensures Inv(fl, Check(s, p, op), start)
  {
    if op.GetBalance? || op.amt < 0.0 || (op.Withdraw? && op.amt > s.balance) {
      EffectKeepsInv(fl, s, start, p, op);
      assert s.(balance := s.balance) == s;
    } else {
      LoadKeepsInv(fl, s, start, p, op);
    }
  }

  /** A current copy makes the store the serial effect: no update is lost. */
  lemma StoreIsEffect(fl: Flavour, s: State, p: nat)
    requires LoadOk(s) && p < |s.procs| && s.procs[p].pc.Loaded?
    ensures Advance(fl, s, p) == Some(Effect(s, p, s.procs[p].pc.op))
  {
  }

  lemma StoreKeepsInv(fl: Flavour, s: State, start: real, p: nat)
    requires Inv(fl, s, start) && p < |s.procs| && s.procs[p].pc.Loaded?
    ensures Advance(fl, s, p).Some? && Inv(fl, Advance(fl, s, p).value, start)
  {
    StoreIsEffect(fl, s, p);
    EffectKeepsInv(fl, s, start, p, s.procs[p].pc.op);
  }

  lemma AdvanceKeepsInv(fl: Flavour, s: State, start: real, p: nat)
    requires Inv(fl, s, start) && p < |s.procs| && Advance(fl, s, p).Some?
    ensures Inv(fl, Advance(fl, s, p).value, start)
  {
    match s.procs[p].pc
    case Waiting(op) =>
      if fl.early && op.Deposit? && op.amt < 0.0 {
        RejectEarlyKeepsInv(fl, s, start, p, op);
      } else {
        EnterKeepsInv(fl, s, start, p, op);
      }
    case Entered(op) => CheckKeepsInv(fl, s, start, p, op);
    case Loaded(_, _) => StoreKeepsInv(fl, s, start, p);
    case Leaving(r) => LeaveKeepsInv(fl, s, start, p, r);
    case _ =>
  }

  lemma NextKeepsInv(fl: Flavour, s: State, a: Action, start: real)
    requires Inv(fl, s, start) && Next(fl, s, a).Some?
    ensures Inv(fl, Next(fl, s, a).value, start)
  {
    match a
    case Start(p, op) => StartKeepsInv(fl, s, start, p, op);
    case Die(p) => KillKeepsInv(fl, s, start, p);
    case Step(p) => AdvanceKeepsInv(fl, s, start, p);
  }

  lemma {:induction false} RunKeepsInv(fl: Flavour, s: State, actions: seq<Action>, start: real)
    requires Inv(fl, s, start)
    ensures Inv(fl, Run(fl, s, actions), start)
    decreases |actions|
  {
    if actions != [] {
      if Next(fl, s, actions[0]).Some? {
        NextKeepsInv(fl, s, actions[0], start);
        RunKeepsInv(fl, Next(fl, s, actions[0]).value, actions[1..], start);
      } else {
        RunKeepsInv(fl, s, actions[1..], start);
      }
    }
  }

  // ---------- one process on its own ----------

  /** State s when operation `op` of p has run from its call to its return with nobody in between. */
  function Returns(s: State, p: nat, op: Op): State
    requires p < |s.procs|
  {
    var (b, r) := Serial(s.balance, op);
    Returned(Committed(s.(balance := b), p, op, r), p, r)
  }

  /** n steps of p and of nobody else, as far as it can step. */
  function Alone(fl: Flavour, s: State, p: nat, n: nat): State {
    if n == 0 then s
    else
      var t := Alone(fl, s, p, n - 1);
      match Next(fl, t, Step(p))
      case Some(u) => u
      case None => t
  }

  lemma AloneMore(fl: Flavour, s: State, p: nat, n: nat, next: nat, t: State, u: State)
    requires Alone(fl, s, p, n) == t && next == n + 1
    requires match Next(fl, t, Step(p)) case Some(v) => u == v case None => u == t
    ensures Alone(fl, s, p, next) == u
  {
  }

  /** The state in which operation `op` of p holds the semaphore. */
  function Inside(fl: Flavour, s: State, p: nat, op: Op): State
    requires p < |s.procs|
  {
    Moved(SemOp(Moved(s, p, Waiting(op)), fl, p, -1), p, Entered(op))
  }

  /** ... and in which it is about to give it back. */
  function Served(fl: Flavour, s: State, p: nat, op: Op): State
    requires p < |s.procs|
  {
    Effect(Inside(fl, s, p, op), p, op)
  }

  lemma CheckAlone(fl: Flavour, s: State, p: nat, op: Op)
    requires p < |s.procs|
    ensures var u := Check(Inside(fl, s, p, op), p, op);
            u == Served(fl, s, p, op) || Next(fl, u, Step(p)) == Some(Served(fl, s, p, op))
  {
    var t := Inside(fl, s, p, op);
    var u := Check(t, p, op);
    if u.procs[p].pc.Loaded? {
      assert Advance(fl, u, p).value.procs == Served(fl, s, p, op).procs;
    } else {
      assert t.(balance := t.balance) == t;
    }
  }

  lemma LeaveAlone(fl: Flavour, s: State, p: nat, op: Op)
    requires p < |s.procs|
    ensures Next(fl, Served(fl, s, p, op), Step(p)) == Some(Returns(s, p, op))
    ensures Next(fl, Returns(s, p, op), Step(p)).None?
  {
    var v := Served(fl, s, p, op);
    assert Advance(fl, v, p).value.procs == Returns(s, p, op).procs;
  }

  /**
   A process that finds the semaphore free and is not interrupted: after at most four steps it has
   returned the serial result, the balance is the serial one, and semaphore and adjustment are as before.
   */
  lemma AloneIsSerial(fl: Flavour, s: State, p: nat, op: Op)
    requires p < |s.procs| && s.procs[p].pc.Idle? && s.sem == 1
    ensures Next(fl, s, Start(p, op)).Some?
    ensures Alone(fl, Next(fl, s, Start(p, op)).value, p, 4) == Returns(s, p, op)
  {
    var w, t, done := Moved(s, p, Waiting(op)), Inside(fl, s, p, op), Returns(s, p, op);
    LeaveAlone(fl, s, p, op);
    if fl.early && op.Deposit? && op.amt < 0.0 {
      AloneMore(fl, w, p, 0, 1, w, done);
      AloneMore(fl, w, p, 1, 2, done, done);
      AloneMore(fl, w, p, 2, 3, done, done);
    } else {
      var u, v := Check(t, p, op), Served(fl, s, p, op);
      CheckAlone(fl, s, p, op);
      AloneMore(fl, w, p, 0, 1, w, t);
      AloneMore(fl, w, p, 1, 2, t, u);
      AloneMore(fl, w, p, 2, 3, u, if u == v then done else v);
    }
    AloneMore(fl, w, p, 3, 4, Alone(fl, w, p, 3), done);
  }

  // ---------- what every run gives ----------

  /** The processes that keep the semaphore: live ones inside, and without undo also one that died there. */
  ghost function Holders(s: State): set<nat> {
    set i: nat | i < |s.procs| && Heavy(s.procs[i].pc)
  }

  /** Semaphore value plus holders is one, whatever was interleaved and whoever died; with undo all holders live. */
  lemma SemaphorePlusHolders(fl: Flavour, n: nat, start: real, actions: seq<Action>)
    ensures var s := Run(fl, Init(n, start), actions);
            && s.sem + |Holders(s)| == 1
            && (fl.undo ==> forall i :: i in Holders(s) ==> InCritical(s.procs[i].pc))
  {
    InitInv(fl, n, start);
    RunKeepsInv(fl, Init(n, start), actions, start);
    CountHolders(fl, Run(fl, Init(n, start), actions));
  }

  lemma CountHolders(fl: Flavour, s: State)
    requires LockOk(fl, s)
    ensures s.sem + |Holders(s)| == 1
    ensures fl.undo ==> forall i :: i in Holders(s) ==> InCritical(s.procs[i].pc)
  {
    if s.sem == 0 {
      var h :| 0 <= h < |s.procs| && Heavy(s.procs[h].pc);
      assert Holders(s) == {h};
    } else {
      assert Holders(s) == {};
    }
  }

  // ---------- the log holds the operations that were called ----------

  function OpsOf(log: seq<Commit>, p: nat): seq<Op> {
    if log == [] then []
    else
      var c := log[|log| - 1];
      OpsOf(log[..|log| - 1], p) + if c.pid == p then [c.op] else []
  }

  /** The operation that is under way and has not taken effect. */
  function Pending(pc: Pc): seq<Op> {
    if pc.Waiting? || pc.Entered? || pc.Loaded? then [pc.op] else []
  }

  /** The operation that an action has p call. */
  function CallOf(a: Action, p: nat): seq<Op> {
    if a.Start? && a.pid == p then [a.op] else []
  }

  /** The operations p called during a run. */
  function Called(fl: Flavour, s: State, actions: seq<Action>, p: nat): seq<Op>
    decreases |actions|
  {
    if actions == [] then []
    else
      match Next(fl, s, actions[0])
      case Some(t) => CallOf(actions[0], p) + Called(fl, t, actions[1..], p)
      case None => Called(fl, s, actions[1..], p)
  }

  /** What p called took effect, in this order, up to what is under way; death loses at most one operation. */
  ghost predicate TookEffect(log: seq<Commit>, pc: Pc, p: nat, called: seq<Op>) {
    if pc.Dead? then OpsOf(log, p) <= called && |called| <= |OpsOf(log, p)| + 1
    else called == OpsOf(log, p) + Pending(pc)
  }

  lemma OpsMore(log: seq<Commit>, c: Commit, p: nat)
    ensures OpsOf(log + [c], p) == OpsOf(log, p) + if c.pid == p then [c.op] else []
  {
    assert (log + [c])[..|log|] == log;
  }

  /** A step of a process either logs nothing and keeps its pending operation, or logs exactly that. */
  lemma AdvanceLogs(fl: Flavour, s: State, q: nat, c: Commit)
    requires q < |s.procs| && Advance(fl, s, q).Some?
    requires Pending(s.procs[q].pc) != [] ==> c.pid == q && c.op == s.procs[q].pc.op
    ensures var t := Advance(fl, s, q).value;
            && |t.procs| == |s.procs| && !s.procs[q].pc.Dead? && !t.procs[q].pc.Dead?
            && (forall i :: 0 <= i < |s.procs| && i != q ==> t.procs[i] == s.procs[i])
            && (if Pending(t.procs[q].pc) == Pending(s.procs[q].pc) then t.log == s.log
                else
                  && Pending(s.procs[q].pc) != [] && Pending(t.procs[q].pc) == []
                  && t.log == s.log + [Commit(q, c.op, t.log[|s.log|].result)])
  {
  }

  lemma AdvanceTookEffect(fl: Flavour, s: State, q: nat, p: nat, called: seq<Op>)
    requires q < |s.procs| && Advance(fl, s, q).Some? && p < |s.procs|
    requires TookEffect(s.log, s.procs[p].pc, p, called)
    ensures var t := Advance(fl, s, q).value;
            |t.procs| == |s.procs| && TookEffect(t.log, t.procs[p].pc, p, called)
  {
    var t := Advance(fl, s, q).value;
    var op := if Pending(s.procs[q].pc) == [] then GetBalance else s.procs[q].pc.op;
    AdvanceLogs(fl, s, q, Commit(q, op, 0.0));
    if t.log != s.log {
      OpsMore(s.log, t.log[|s.log|], p);
    }
  }

  lemma NextTookEffect(fl: Flavour, s: State, a: Action, p: nat, called: seq<Op>)
    requires Next(fl, s, a).Some? && p < |s.procs|
    requires TookEffect(s.log, s.procs[p].pc, p, called)
    ensures var t := Next(fl, s, a).value;
            |t.procs| == |s.procs| && TookEffect(t.log, t.procs[p].pc, p, called + CallOf(a, p))
  {
    assert called + [] == called;
    if a.Step? {
      AdvanceTookEffect(fl, s, a.pid, p, called);
    }
  }

  lemma CallsJoin(a: seq<Op>, b: seq<Op>, c: seq<Op>)
    ensures (a + b) + c == a + (b + c)
  {
  }

  lemma RunNext(fl: Flavour, s: State, actions: seq<Action>, p: nat, t: State, rest: seq<Action>)
    requires actions != [] && rest == actions[1..] && Next(fl, s, actions[0]) == Some(t)
    ensures Run(fl, s, actions) == Run(fl, t, rest)
    ensures Called(fl, s, actions, p) == CallOf(actions[0], p) + Called(fl, t, rest, p)
  {
  }

  lemma RunSkip(fl: Flavour, s: State, actions: seq<Action>, p: nat, rest: seq<Action>)
    requires actions != [] && rest == actions[1..] && Next(fl, s, actions[0]).None?
    ensures Run(fl, s, actions) == Run(fl, s, rest) && Called(fl, s, actions, p) == Called(fl, s, rest, p)
  {
  }

  /** State t is where `called` has taken effect for p, up to what is under way. */
  ghost predicate EffectOf(t: State, n: nat, p: nat, called: seq<Op>) {
    |t.procs| == n && p < n && TookEffect(t.log, t.procs[p].pc, p, called)
  }

  lemma {:induction false} RunTookEffect(fl: Flavour, s: State, actions: seq<Action>, n: nat, p: nat, called: seq<Op>)
    requires EffectOf(s, n, p, called)
    ensures EffectOf(Run(fl, s, actions), n, p, called + Called(fl, s, actions, p))
    decreases |actions|
  {
    if actions == [] {
      assert called + [] == called;
    } else {
      var rest := actions[1..];
      match Next(fl, s, actions[0])
      case Some(t) =>
        var called' := called + CallOf(actions[0], p);
        NextTookEffect(fl, s, actions[0], p, called);
        RunTookEffect(fl, t, rest, n, p, called');
        RunNext(fl, s, actions, p, t, rest);
        CallsJoin(called, CallOf(actions[0], p), Called(fl, t, rest, p));
      case None =>
        RunTookEffect(fl, s, rest, n, p, called);
        RunSkip(fl, s, actions, p, rest);
    }
  }

  /** For every process, what it called and what the log says it did. */
  ghost predicate LogIsCalls(fl: Flavour, n: nat, start: real, actions: seq<Action>) {
    var s := Run(fl, Init(n, start), actions);
    && |s.procs| == n
    && forall p: nat :: p < n ==> TookEffect(s.log, s.procs[p].pc, p, Called(fl, Init(n, start), actions, p))
  }

  lemma LogsCalls(fl: Flavour, n: nat, start: real, actions: seq<Action>)
    ensures LogIsCalls(fl, n, start, actions)
  {
    ProcsStay(fl, Init(n, start), actions);
    forall p: nat | p < n
      ensures TookEffect(Run(fl, Init(n, start), actions).log, Run(fl, Init(n, start), actions).procs[p].pc, p,
                         Called(fl, Init(n, start), actions, p))
    {
      RunTookEffect(fl, Init(n, start), actions, n, p, []);
      assert [] + Called(fl, Init(n, start), actions, p) == Called(fl, Init(n, start), actions, p);
    }
  }

  lemma {:induction false} ProcsStay(fl: Flavour, s: State, actions: seq<Action>)
    ensures |Run(fl, s, actions).procs| == |s.procs|
    decreases |actions|
  {
    if actions != [] {
      if Next(fl, s, actions[0]).Some? {
        assert |Next(fl, s, actions[0]).value.procs| == |s.procs|;
        ProcsStay(fl, Next(fl, s, actions[0]).value, actions[1..]);
      } else {
        ProcsStay(fl, s, actions[1..]);
      }
    }
  }

  function Deposited(log: seq<Commit>): real {
    if log == [] then 0.0
    else
      var c := log[|log| - 1];
      Deposited(log[..|log| - 1]) + if c.op.Deposit? then c.result else 0.0
  }

  function Withdrawn(log: seq<Commit>): real {
    if log == [] then 0.0
    else
      var c := log[|log| - 1];
      Withdrawn(log[..|log| - 1]) + if c.op.Withdraw? then c.result else 0.0
  }

  /** The balance after the first k operations of the log. */
  function BalanceAfter(start: real, log: seq<Commit>, k: nat): real
    requires k <= |log|
  {
    start + Deposited(log[..k]) - Withdrawn(log[..k])
  }

  /** What operation k of the log answered, in amounts: get_balance the balance, the others what they moved. */
  ghost predicate AnsweredRight(start: real, log: seq<Commit>, k: nat)
    requires k < |log|
  {
    var b := BalanceAfter(start, log, k);
    match log[k].op
    case GetBalance => log[k].result == b
    case Withdraw(amt) => log[k].result == if 0.0 <= amt <= b then amt else 0.0
    case Deposit(amt) => log[k].result == if amt >= 0.0 then amt else 0.0
  }

  lemma {:induction false} ReplayBalance(start: real, log: seq<Commit>)
    requires Replay(start, log).Some?
    ensures Replay(start, log).value == start + Deposited(log) - Withdrawn(log)
    decreases |log|
  {
    if log != [] {
      ReplayBalance(start, log[..|log| - 1]);
    }
  }

  lemma {:induction false} ReplayAnswers(start: real, log: seq<Commit>, k: nat)
    requires Replay(start, log).Some? && k < |log|
    ensures AnsweredRight(start, log, k)
    decreases |log|
  {
    var front := log[..|log| - 1];
    if k < |front| {
      ReplayAnswers(start, front, k);
      assert front[..k] == log[..k];
    } else {
      ReplayBalance(start, front);
    }
  }

  /** Every run is a run of the called operations one after the other, in critical-section order. */
  lemma Linearisable(fl: Flavour, n: nat, start: real, actions: seq<Action>)
    ensures var s := Run(fl, Init(n, start), actions);
            && Replay(start, s.log) == Some(s.balance) && ToldOk(s)
            && forall k :: 0 <= k < |s.log| ==> AnsweredRight(start, s.log, k)
    ensures LogIsCalls(fl, n, start, actions)
  {
    InitInv(fl, n, start);
    RunKeepsInv(fl, Init(n, start), actions, start);
    LogsCalls(fl, n, start, actions);
    var log := Run(fl, Init(n, start), actions).log;
    forall k | 0 <= k < |log| ensures AnsweredRight(start, log, k) {
      ReplayAnswers(start, log, k);
    }
  }

  /** Money is conserved along the log and the balance never goes below zero. */
  lemma {:induction false} ReplayConserves(start: real, log: seq<Commit>)
    requires start >= 0.0 && Replay(start, log).Some?
    ensures Replay(start, log).value == start + Deposited(log) - Withdrawn(log) >= 0.0
  {
    if log != [] {
      ReplayConserves(start, log[..|log| - 1]);
    }
  }

  /** The balance that is actually stored, at any moment of any run, deaths included. */
  lemma BalanceConserved(fl: Flavour, n: nat, start: real, actions: seq<Action>)
    requires start >= 0.0
    ensures var s := Run(fl, Init(n, start), actions);
            s.balance == start + Deposited(s.log) - Withdrawn(s.log) >= 0.0
    ensures LogIsCalls(fl, n, start, actions)
  {
    Linearisable(fl, n, start, actions);
    ReplayConserves(start, Run(fl, Init(n, start), actions).log);
  }

  // ---------- death and progress ----------

  /** A holder's death frees the semaphore exactly with SEM_UNDO. */
  lemma DeathFreesIff(fl: Flavour, n: nat, start: real, actions: seq<Action>, p: nat)
    requires var s := Run(fl, Init(n, start), actions); p < |s.procs| && InCritical(s.procs[p].pc)
    ensures var s := Run(fl, Init(n, start), actions);
            Next(fl, s, Die(p)).value.sem == 1 <==> fl.undo
  {
    InitInv(fl, n, start);
    RunKeepsInv(fl, Init(n, start), actions, start);
  }

  ghost predicate DiedInside(s: State, p: nat) {
    p < |s.procs| && s.procs[p].pc == Dead(true)
  }

  lemma NextAfterLoss(fl: Flavour, s: State, a: Action, start: real, p: nat, t: State)
    requires Inv(fl, s, start) && DiedInside(s, p) && Next(fl, s, a) == Some(t)
    ensures Inv(fl, t, start) && DiedInside(t, p) && t.balance == s.balance
  {
    NextKeepsInv(fl, s, a, start);
    assert Heavy(s.procs[p].pc);
  }

  lemma NobodyInside(fl: Flavour, s: State, start: real, p: nat)
    requires Inv(fl, s, start) && DiedInside(s, p)
    ensures s.sem == 0 && forall i :: 0 <= i < |s.procs| ==> !InCritical(s.procs[i].pc)
  {
    assert Heavy(s.procs[p].pc);
  }

  /** Without it nobody enters again: the semaphore stays 0 and no process is ever in the critical section. */
  lemma {:induction false} LostLockIsForEver(fl: Flavour, s: State, actions: seq<Action>, start: real, p: nat)
    requires Inv(fl, s, start) && DiedInside(s, p)
    ensures var t := Run(fl, s, actions);
            t.sem == 0 && t.balance == s.balance
            && forall i :: 0 <= i < |t.procs| ==> !InCritical(t.procs[i].pc)
    decreases |actions|
  {
    if actions == [] {
      NobodyInside(fl, s, start, p);
    } else {
      match Next(fl, s, actions[0])
      case Some(t) =>
        NextAfterLoss(fl, s, actions[0], start, p, t);
        LostLockIsForEver(fl, t, actions[1..], start, p);
      case None => LostLockIsForEver(fl, s, actions[1..], start, p);
    }
  }

  predicate Busy(pc: Pc) { !pc.Idle? && !pc.Dead? }

  /** While an operation is under way and nobody died holding the semaphore, some process can step. */
  lemma SomebodyCanStep(fl: Flavour, n: nat, start: real, actions: seq<Action>)
    requires var s := Run(fl, Init(n, start), actions);
             && (exists i :: 0 <= i < |s.procs| && Busy(s.procs[i].pc))
             && (!fl.undo ==> forall i :: 0 <= i < |s.procs| ==> s.procs[i].pc != Dead(true))
    ensures var s := Run(fl, Init(n, start), actions);
            exists i :: 0 <= i < |s.procs| && Next(fl, s, Step(i)).Some?
  {
    InitInv(fl, n, start);
    RunKeepsInv(fl, Init(n, start), actions, start);
    SomebodySteps(fl, Run(fl, Init(n, start), actions));
  }

  lemma SomebodySteps(fl: Flavour, s: State)
    requires LockOk(fl, s) && LoadOk(s)
    requires exists i :: 0 <= i < |s.procs| && Busy(s.procs[i].pc)
    requires !fl.undo ==> forall i :: 0 <= i < |s.procs| ==> s.procs[i].pc != Dead(true)
    ensures exists i :: 0 <= i < |s.procs| && Next(fl, s, Step(i)).Some?
  {
    if s.sem == 0 {
      var h :| 0 <= h < |s.procs| && Heavy(s.procs[h].pc);
      assert Next(fl, s, Step(h)).Some?;
    } else {
      var w :| 0 <= w < |s.procs| && Busy(s.procs[w].pc);
      assert Next(fl, s, Step(w)).Some?;
    }
  }

  /** Steps left until the running operation returns. */
  function Remaining(pc: Pc): nat {
    match pc
    case Waiting(_) => 4
    case Entered(_) => 3
    case Loaded(_, _) => 2
    case Leaving(_) => 1
    case _ => 0
  }

  /** Every step brings its own process closer to its return and moves no other process. */
  lemma StepsMakeProgress(fl: Flavour, s: State, p: nat)
    requires p < |s.procs| && Next(fl, s, Step(p)).Some?
    ensures var t := Next(fl, s, Step(p)).value;
            && |t.procs| == |s.procs|
            && Remaining(t.procs[p].pc) < Remaining(s.procs[p].pc)
            && forall i :: 0 <= i < |s.procs| && i != p ==> t.procs[i] == s.procs[i]
  {
  }
}

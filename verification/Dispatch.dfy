/**
 One pass of doEventLoop over a poll snapshot while the callbacks change the lists. The callback run for
 snapshot entry i makes the calls `script(i)`: every theorem holds for every script.
 */
module Dispatch {
  import opened Wrappers
  import opened KeyedLists
  import opened Timers
  import opened EventRegistry

  /** `now`: what time(NULL) answers while the entry is handled, an answer of the system like revents. */
  datatype PollFd = PollFd(fd: int, events: bv16, revents: int, now: int)

  datatype Ready = Ready(revents: int, now: int)

  const POLLIN: bv16 := 1

  /** The events field of pollfd is a short: of an unsigned int it keeps the lower half. */
  function Low16(m: Mask): bv16 { (m & 0xFFFF) as bv16 }

  datatype Event =
    | TimerRead(fd: int)
    | IoCall(fd: int, revents: int, cb: Callback, arg: int)
    | TimerCall(fd: int, timeMs: int, cb: Callback, arg: int)

  type Script = nat -> seq<Command>

  /** The poll array: io events first, then the timers. */
  function Snapshot(r: Registry): (poll: seq<PollFd>)
    ensures |poll| == |r.io| + |r.timers|
    ensures forall i :: 0 <= i < |poll| ==> poll[i].fd == if i < |r.io| then r.io[i].key else r.timers[i - |r.io|].key
  {
    seq(|r.io|, i requires 0 <= i < |r.io| => PollFd(r.io[i].key, Low16(r.io[i].data.event), 0, 0))
    + seq(|r.timers|, i requires 0 <= i < |r.timers| => PollFd(r.timers[i].key, POLLIN, 0, 0))
  }

  /** The kernel is asked for the events registered, as far as a short holds them, and for input (1) of timers. */
  lemma SnapshotAsks(r: Registry, i: nat)
    requires i < |Snapshot(r)|
    ensures i < |r.io| ==> Snapshot(r)[i].events as bv32 == r.io[i].data.event & 0xFFFF
    ensures i >= |r.io| ==> Snapshot(r)[i].events == 1
  {
    if i < |r.io| { LowerHalf(r.io[i].data.event); }
  }

  lemma LowerHalf(m: Mask)
    ensures Low16(m) as bv32 == m & 0xFFFF
  {
  }

  /** What the two inner loops do for one entry: io list first, timer list only without an io match. */
  function React(r: Registry, p: PollFd): seq<Event> {
    var i, t := At(r.io, p.fd), At(r.timers, p.fd);
    if p.revents == 0 then []
    else if i < |r.io| then
      var e := r.io[i].data;
      if e.cb.Some? then [IoCall(p.fd, p.revents, e.cb.value, e.arg)] else []
    else if t < |r.timers| then
      var e := r.timers[t].data;
      [TimerRead(p.fd)] + (if e.cb.Some? then [TimerCall(p.fd, p.now * 1000, e.cb.value, e.arg)] else [])
    else []
  }

  predicate HasCall(events: seq<Event>) {
    exists i :: 0 <= i < |events| && !events[i].TimerRead?
  }

  /** The commands executed while entry p is handled. */
  function Executed(r: Registry, p: PollFd, cs: seq<Command>): seq<Command> {
    if HasCall(React(r, p)) then cs else []
  }

  function NextState(r: Registry, p: PollFd, cs: seq<Command>): Registry {
    ExecAll(r, Executed(r, p, cs))
  }

  /** The lists just before entry k. */
  function StateAt(r: Registry, poll: seq<PollFd>, script: Script, k: nat): Registry
    requires k <= |poll|
  {
    if k == 0 then r
    else NextState(StateAt(r, poll, script, k - 1), poll[k - 1], script(k - 1))
  }

  /** What the callback of entry k did, if there was one. */
  function ExecutedAt(r: Registry, poll: seq<PollFd>, script: Script, k: nat): seq<Command>
    requires k < |poll|
  {
    Executed(StateAt(r, poll, script, k), poll[k], script(k))
  }

  /** Entry by entry, what the pass does to the outside. */
  function Trace(r: Registry, poll: seq<PollFd>, script: Script): (tr: seq<seq<Event>>)
    ensures |tr| == |poll|
  {
    seq(|poll|, k requires 0 <= k < |poll| => React(StateAt(r, poll, script, k), poll[k]))
  }

  /** One entry handled: what it did to the outside, and the lists behind it. */
  ghost predicate IsTurn(r: Registry, p: PollFd, cs: seq<Command>, events: seq<Event>, s: Registry) {
    events == React(r, p) && s == NextState(r, p, cs)
  }

  ghost predicate TurnAt(poll: seq<PollFd>, script: Script, states: seq<Registry>, trace: seq<seq<Event>>, k: nat)
    requires k < |poll| && k < |trace| && k + 1 < |states|
  {
    IsTurn(states[k], poll[k], script(k), trace[k], states[k + 1])
  }

  lemma TurnAdded(poll: seq<PollFd>, script: Script, states: seq<Registry>, trace: seq<seq<Event>>,
                  s: Registry, events: seq<Event>)
    requires |trace| < |poll| && |states| == |trace| + 1
    requires forall k :: 0 <= k < |trace| ==> TurnAt(poll, script, states, trace, k)
    requires IsTurn(states[|trace|], poll[|trace|], script(|trace|), events, s)
    ensures forall k :: 0 <= k <= |trace| ==> TurnAt(poll, script, states + [s], trace + [events], k)
  {
    forall k | 0 <= k < |trace| ensures TurnAt(poll, script, states + [s], trace + [events], k) {
      assert TurnAt(poll, script, states, trace, k);
    }
  }

  lemma {:induction false} TurnsReach(poll: seq<PollFd>, script: Script, states: seq<Registry>,
                                      trace: seq<seq<Event>>, n: nat)
    requires |states| == |poll| + 1 && |trace| == |poll| && n <= |poll|
    requires forall k :: 0 <= k < |poll| ==> TurnAt(poll, script, states, trace, k)
    ensures states[n] == StateAt(states[0], poll, script, n)
  {
    if n > 0 {
      TurnsReach(poll, script, states, trace, n - 1);
      assert TurnAt(poll, script, states, trace, n - 1);
    }
  }

  lemma TurnsArePass(poll: seq<PollFd>, script: Script, states: seq<Registry>, trace: seq<seq<Event>>)
    requires |states| == |poll| + 1 && |trace| == |poll|
    requires forall k :: 0 <= k < |poll| ==> TurnAt(poll, script, states, trace, k)
    ensures trace == Trace(states[0], poll, script)
    ensures states[|poll|] == StateAt(states[0], poll, script, |poll|)
  {
    forall k | 0 <= k < |poll| ensures trace[k] == Trace(states[0], poll, script)[k] {
      TurnsReach(poll, script, states, trace, k);
      assert TurnAt(poll, script, states, trace, k);
    }
    TurnsReach(poll, script, states, trace, |poll|);
  }

  // ---------- the pass refines a pass over two maps ----------

  function ReactTable(t: Table, p: PollFd): seq<Event> {
    if p.revents == 0 then []
    else if p.fd in t.io then
      (match t.io[p.fd].cb
       case Some(cb) => [IoCall(p.fd, p.revents, cb, t.io[p.fd].arg)]
       case None => [])
    else if p.fd in t.timers then
      (match t.timers[p.fd].cb
       case Some(cb) => [TimerRead(p.fd), TimerCall(p.fd, p.now * 1000, cb, t.timers[p.fd].arg)]
       case None => [TimerRead(p.fd)])
    else []
  }

  function ExecTableAll(t: Table, cs: seq<Command>): Table
    decreases |cs|
  {
    if cs == [] then t else ExecTableAll(ExecTable(t, cs[0]), cs[1..])
  }

  function NextTable(t: Table, p: PollFd, cs: seq<Command>): Table {
    if HasCall(ReactTable(t, p)) then ExecTableAll(t, cs) else t
  }

  function TableAt(t: Table, poll: seq<PollFd>, script: Script, k: nat): Table
    requires k <= |poll|
  {
    if k == 0 then t
    else NextTable(TableAt(t, poll, script, k - 1), poll[k - 1], script(k - 1))
  }

  /** timerfd_create never hands out a descriptor that is still open. */
  ghost predicate FreshAll(r: Registry, cs: seq<Command>)
    decreases |cs|
  {
    cs != [] ==> Fresh(r, cs[0]) && FreshAll(Exec(r, cs[0]), cs[1..])
  }

  ghost predicate FreshPass(r: Registry, poll: seq<PollFd>, script: Script) {
    forall k {:trigger ExecutedAt(r, poll, script, k)} :: 0 <= k < |poll| ==>
      FreshAll(StateAt(r, poll, script, k), ExecutedAt(r, poll, script, k))
  }

  lemma ReactRefines(r: Registry, p: PollFd)
    ensures React(r, p) == ReactTable(Abs(r), p)
  {
    Lookup(r.io, p.fd);
    Lookup(r.timers, p.fd);
  }

  lemma {:induction false} ExecAllRefines(r: Registry, cs: seq<Command>)
    requires RegOk(r) && FreshAll(r, cs)
    ensures RegOk(ExecAll(r, cs)) && Abs(ExecAll(r, cs)) == ExecTableAll(Abs(r), cs)
    decreases |cs|
  {
    if cs != [] {
      ExecRefinesTable(r, cs[0]);
      ExecAllRefines(Exec(r, cs[0]), cs[1..]);
    }
  }

  lemma StepRefines(r: Registry, p: PollFd, cs: seq<Command>)
    requires RegOk(r) && FreshAll(r, Executed(r, p, cs))
    ensures RegOk(NextState(r, p, cs)) && Abs(NextState(r, p, cs)) == NextTable(Abs(r), p, cs)
  {
    ReactRefines(r, p);
    ExecAllRefines(r, Executed(r, p, cs));
  }

  /** Just before entry k the lists are sound and stand for the maps. */
  ghost predicate RefinesAt(r: Registry, poll: seq<PollFd>, script: Script, k: nat)
    requires k <= |poll|
  {
    RegOk(StateAt(r, poll, script, k)) && Abs(StateAt(r, poll, script, k)) == TableAt(Abs(r), poll, script, k)
  }

  lemma EntryRefines(r: Registry, poll: seq<PollFd>, script: Script, k: nat, next: nat)
    requires FreshPass(r, poll, script) && next == k + 1 <= |poll| && RefinesAt(r, poll, script, k)
    ensures RefinesAt(r, poll, script, next)
  {
    assert FreshAll(StateAt(r, poll, script, k), ExecutedAt(r, poll, script, k));
    StepRefines(StateAt(r, poll, script, k), poll[k], script(k));
    NextAt(r, poll, script, k, next);
  }

  lemma NextAt(r: Registry, poll: seq<PollFd>, script: Script, k: nat, next: nat)
    requires next == k + 1 <= |poll|
    ensures StateAt(r, poll, script, next) == NextState(StateAt(r, poll, script, k), poll[k], script(k))
    ensures TableAt(Abs(r), poll, script, next) == NextTable(TableAt(Abs(r), poll, script, k), poll[k], script(k))
  {
  }

  /** Whatever the callbacks do, list scans and map lookups see the same registrations all the way. */
  lemma {:induction false} PassRefinesTable(r: Registry, poll: seq<PollFd>, script: Script, k: nat)
    requires RegOk(r) && FreshPass(r, poll, script) && k <= |poll|
    ensures RefinesAt(r, poll, script, k)
    decreases k
  {
    if k > 0 {
      var j: nat := k - 1;
      PassRefinesTable(r, poll, script, j);
      EntryRefines(r, poll, script, j, k);
    }
  }

  lemma TraceRefinesTable(r: Registry, poll: seq<PollFd>, script: Script, k: nat)
    requires RegOk(r) && FreshPass(r, poll, script) && k < |poll|
    ensures Trace(r, poll, script)[k] == ReactTable(TableAt(Abs(r), poll, script, k), poll[k])
  {
    PassRefinesTable(r, poll, script, k);
    ReactRefines(StateAt(r, poll, script, k), poll[k]);
  }

  // ---------- what one entry does ----------

  predicate HasCallback(t: Table, fd: int) {
    if fd in t.io then t.io[fd].cb.Some? else fd in t.timers && t.timers[fd].cb.Some?
  }

  lemma HasCallIff(r: Registry, p: PollFd)
    ensures HasCall(React(r, p)) <==> p.revents != 0 && HasCallback(Abs(r), p.fd)
  {
    ReactRefines(r, p);
    var ev := React(r, p);
    if p.revents != 0 && HasCallback(Abs(r), p.fd) {
      assert !ev[|ev| - 1].TimerRead?;
    }
  }

  /**
   The calls of a callback, io or timer, have taken effect before the next entry; an entry that is not
   ready or has no callback registered when its turn comes changes nothing.
   */
  lemma EntryRuns(r: Registry, poll: seq<PollFd>, script: Script, k: nat)
    requires k < |poll|
    ensures StateAt(r, poll, script, k + 1)
         == if poll[k].revents != 0 && HasCallback(Abs(StateAt(r, poll, script, k)), poll[k].fd)
            then ExecAll(StateAt(r, poll, script, k), script(k))
            else StateAt(r, poll, script, k)
  {
    HasCallIff(StateAt(r, poll, script, k), poll[k]);
    NextAt(r, poll, script, k, k + 1);
  }

  /** A callback's calls are made one after the other. */
  lemma {:induction false} ExecAllLast(r: Registry, cs: seq<Command>, c: Command)
    ensures ExecAll(r, []) == r && ExecAll(r, cs + [c]) == Exec(ExecAll(r, cs), c)
    decreases |cs|
  {
    if cs == [] {
      assert [] + [c] == [c] && [c][1..] == [];
    } else {
      assert (cs + [c])[1..] == cs[1..] + [c];
      ExecAllLast(Exec(r, cs[0]), cs[1..], c);
    }
  }

  /** What an entry does to the outside, from the registrations on the two lists when its turn comes. */
  ghost predicate Effects(p: PollFd, s: Registry, ev: seq<Event>) {
    && (p.revents == 0 || (p.fd !in ToMap(s.io) && p.fd !in ToMap(s.timers)) ==> ev == [])
    && (p.revents != 0 && p.fd in ToMap(s.io) ==>
          ev == match ToMap(s.io)[p.fd].cb
                case Some(cb) => [IoCall(p.fd, p.revents, cb, ToMap(s.io)[p.fd].arg)]
                case None => [])
    && (p.revents != 0 && p.fd !in ToMap(s.io) && p.fd in ToMap(s.timers) ==>
          ev == match ToMap(s.timers)[p.fd].cb
                case Some(cb) => [TimerRead(p.fd), TimerCall(p.fd, 1000 * p.now, cb, ToMap(s.timers)[p.fd].arg)]
                case None => [TimerRead(p.fd)])
  }

  lemma ReactEffects(r: Registry, p: PollFd)
    ensures Effects(p, r, React(r, p))
  {
    ReactRefines(r, p);
  }

  lemma EntryEffects(r: Registry, poll: seq<PollFd>, script: Script, k: nat)
    requires k < |poll|
    ensures Effects(poll[k], StateAt(r, poll, script, k), Trace(r, poll, script)[k])
  {
    ReactEffects(StateAt(r, poll, script, k), poll[k]);
  }

  // ---------- what a callback sees of earlier callbacks ----------

  predicate Registers(c: Command, fd: int) {
    match c
    case AddIo(e) => e.key == fd
    case AddTimer(_, _, _) => c.Entry().key == fd
    case AddTimerMs(_, _, _) => c.Entry().key == fd
    case _ => false
  }

  predicate Touches(c: Command, fd: int) {
    Registers(c, fd) || c == DelIo(fd) || c == DelTimer(fd) || c == ClearTimers
  }

  /** What fd is registered for on either list. */
  function Held(t: Table, fd: int): (Option<IoReg>, Option<TimerReg>) {
    (if fd in t.io then Some(t.io[fd]) else None, if fd in t.timers then Some(t.timers[fd]) else None)
  }

  predicate Gone(t: Table, fd: int) { Held(t, fd) == (None, None) }

  /** The calls that could disturb fd: registrations only, or any change. */
  predicate Disturbs(c: Command, fd: int, any: bool) {
    if any then Touches(c, fd) else Registers(c, fd)
  }

  ghost predicate NoneIn(cs: seq<Command>, fd: int, any: bool) {
    forall c :: c in cs ==> !Disturbs(c, fd, any)
  }

  /** No callback of the entries [k, i) disturbed fd. */
  ghost predicate NoneOf(r: Registry, poll: seq<PollFd>, script: Script, k: nat, i: nat, fd: int, any: bool)
    requires k <= i <= |poll|
  {
    forall j {:trigger ExecutedAt(r, poll, script, j)} :: k <= j < i ==> NoneIn(ExecutedAt(r, poll, script, j), fd, any)
  }

  lemma {:induction false} UntouchedTable(t: Table, cs: seq<Command>, fd: int)
    requires NoneIn(cs, fd, true)
    ensures Held(ExecTableAll(t, cs), fd) == Held(t, fd)
    decreases |cs|
  {
    if cs != [] {
      assert !Disturbs(cs[0], fd, true);
      assert Held(ExecTable(t, cs[0]), fd) == Held(t, fd);
      UntouchedTable(ExecTable(t, cs[0]), cs[1..], fd);
    }
  }

  lemma {:induction false} GoneTable(t: Table, cs: seq<Command>, fd: int)
    requires Gone(t, fd) && NoneIn(cs, fd, false)
    ensures Gone(ExecTableAll(t, cs), fd)
    decreases |cs|
  {
    if cs != [] {
      assert !Disturbs(cs[0], fd, false);
      assert Gone(ExecTable(t, cs[0]), fd);
      GoneTable(ExecTable(t, cs[0]), cs[1..], fd);
    }
  }

  lemma UntouchedStep(r: Registry, poll: seq<PollFd>, script: Script, i: nat, next: nat, fd: int)
    requires RegOk(r) && FreshPass(r, poll, script) && next == i + 1 <= |poll|
    requires NoneIn(ExecutedAt(r, poll, script, i), fd, true)
    ensures Held(Abs(StateAt(r, poll, script, next)), fd) == Held(Abs(StateAt(r, poll, script, i)), fd)
  {
    var s, cs := StateAt(r, poll, script, i), ExecutedAt(r, poll, script, i);
    PassRefinesTable(r, poll, script, i);
    ExecAllRefines(s, cs);
    UntouchedTable(Abs(s), cs, fd);
  }

  lemma GoneStep(r: Registry, poll: seq<PollFd>, script: Script, i: nat, next: nat, fd: int)
    requires RegOk(r) && FreshPass(r, poll, script) && next == i + 1 <= |poll|
    requires Gone(Abs(StateAt(r, poll, script, i)), fd) && NoneIn(ExecutedAt(r, poll, script, i), fd, false)
    ensures Gone(Abs(StateAt(r, poll, script, next)), fd)
  {
    var s, cs := StateAt(r, poll, script, i), ExecutedAt(r, poll, script, i);
    PassRefinesTable(r, poll, script, i);
    ExecAllRefines(s, cs);
    GoneTable(Abs(s), cs, fd);
  }

  lemma {:induction false} UntouchedPass(r: Registry, poll: seq<PollFd>, script: Script,
                                         k: nat, i: nat, n: nat, fd: int)
    requires RegOk(r) && FreshPass(r, poll, script) && k <= i <= n <= |poll|
    requires NoneOf(r, poll, script, k, n, fd, true)
    ensures Held(Abs(StateAt(r, poll, script, i)), fd) == Held(Abs(StateAt(r, poll, script, k)), fd)
    decreases i
  {
    if k < i {
      var j: nat := i - 1;
      UntouchedPass(r, poll, script, k, j, n, fd);
      UntouchedStep(r, poll, script, j, i, fd);
    }
  }

  lemma {:induction false} GonePass(r: Registry, poll: seq<PollFd>, script: Script, k: nat, i: nat, n: nat, fd: int)
    requires RegOk(r) && FreshPass(r, poll, script) && k <= i <= n <= |poll|
    requires Gone(Abs(StateAt(r, poll, script, k)), fd)
    requires NoneOf(r, poll, script, k, n, fd, false)
    ensures Gone(Abs(StateAt(r, poll, script, i)), fd)
    decreases i
  {
    if k < i {
      var j: nat := i - 1;
      GonePass(r, poll, script, k, j, n, fd);
      GoneStep(r, poll, script, j, i, fd);
    }
  }

  /** A descriptor deregistered earlier in the pass, and not registered again, causes nothing. */
  lemma DeregisteredStaysSilent(r: Registry, poll: seq<PollFd>, script: Script, k: nat, i: nat)
    requires RegOk(r) && FreshPass(r, poll, script) && k <= i < |poll|
    requires Gone(Abs(StateAt(r, poll, script, k)), poll[i].fd)
    requires NoneOf(r, poll, script, k, i, poll[i].fd, false)
    ensures Trace(r, poll, script)[i] == []
  {
    GonePass(r, poll, script, k, i, i, poll[i].fd);
    ReactRefines(StateAt(r, poll, script, i), poll[i]);
  }

  /** A ready descriptor nobody touches is served exactly as registered before the pass, timers drained first. */
  lemma UntouchedIsServed(r: Registry, poll: seq<PollFd>, script: Script, i: nat)
    requires RegOk(r) && FreshPass(r, poll, script) && i < |poll|
    requires NoneOf(r, poll, script, 0, i, poll[i].fd, true)
    ensures Trace(r, poll, script)[i] == ReactTable(Abs(r), poll[i])
  {
    UntouchedPass(r, poll, script, 0, i, i, poll[i].fd);
    ReactRefines(StateAt(r, poll, script, i), poll[i]);
  }

  // ---------- one-shot timers ----------

  predicate Removes(c: Command, id: int) { c == DelTimer(id) || c == ClearTimers }

  ghost predicate Removed(cs: seq<Command>, id: int) {
    exists c :: c in cs && Removes(c, id)
  }

  /** One call: a handed-out descriptor stays handed out, so a removed timer does not come back. */
  lemma ListedAfter(r: Registry, c: Command, id: int)
    requires RegOk(r) && Fresh(r, c) && id in r.kernel
    ensures var s := Exec(r, c);
            && RegOk(s) && id in s.kernel
            && (id in ToMap(s.timers) <==> id in ToMap(r.timers) && !Removes(c, id))
            && (id in ToMap(s.timers) ==> ToMap(s.timers)[id] == ToMap(r.timers)[id])
  {
    ExecRefinesTable(r, c);
    if c.ClearTimers? {
      DisarmAll(r.kernel, r.timers);
    }
  }

  lemma {:induction false} ListedAfterAll(r: Registry, cs: seq<Command>, id: int)
    requires RegOk(r) && FreshAll(r, cs) && id in r.kernel
    ensures var s := ExecAll(r, cs);
            && RegOk(s) && id in s.kernel
            && (id in ToMap(s.timers) <==> id in ToMap(r.timers) && !Removed(cs, id))
            && (id in ToMap(s.timers) ==> ToMap(s.timers)[id] == ToMap(r.timers)[id])
    decreases |cs|
  {
    if cs != [] {
      ListedAfter(r, cs[0], id);
      ListedAfterAll(Exec(r, cs[0]), cs[1..], id);
      assert Removed(cs, id) <==> Removes(cs[0], id) || Removed(cs[1..], id) by {
        assert cs == [cs[0]] + cs[1..];
      }
    }
  }

  ghost predicate RemovedBefore(r: Registry, poll: seq<PollFd>, script: Script, k: nat, id: int)
    requires k <= |poll|
  {
    exists j {:trigger ExecutedAt(r, poll, script, j)} :: 0 <= j < k && Removed(ExecutedAt(r, poll, script, j), id)
  }

  /**
   The header lets one-shot timers disappear after firing. In the code a timer of any kind is still
   registered, unchanged, at any point of a pass iff no callback until then deleted it or all timers.
   */
  lemma {:induction false} OneShotSurvivesIff(r: Registry, poll: seq<PollFd>, script: Script, k: nat, id: int)
    requires RegOk(r) && FreshPass(r, poll, script) && id in ToMap(r.timers) && k <= |poll|
    ensures var s := StateAt(r, poll, script, k);
            && RegOk(s) && id in s.kernel
            && (id in ToMap(s.timers) <==> !RemovedBefore(r, poll, script, k, id))
            && (id in ToMap(s.timers) ==> ToMap(s.timers)[id] == ToMap(r.timers)[id])
    decreases k
  {
    Lookup(r.timers, id);
    if k > 0 {
      var j: nat := k - 1;
      OneShotSurvivesIff(r, poll, script, j, id);
      ListedAfterEntry(r, poll, script, j, k, id);
      RemovedUpTo(r, poll, script, j, k, id);
    }
  }

  lemma ListedAfterEntry(r: Registry, poll: seq<PollFd>, script: Script, k: nat, next: nat, id: int)
    requires next == k + 1 <= |poll| && FreshPass(r, poll, script)
    requires RegOk(StateAt(r, poll, script, k)) && id in StateAt(r, poll, script, k).kernel
    ensures var s, t := StateAt(r, poll, script, k), StateAt(r, poll, script, next);
            && RegOk(t) && id in t.kernel
            && (id in ToMap(t.timers) <==> id in ToMap(s.timers) && !Removed(ExecutedAt(r, poll, script, k), id))
            && (id in ToMap(t.timers) ==> ToMap(t.timers)[id] == ToMap(s.timers)[id])
  {
    var cs := ExecutedAt(r, poll, script, k);
    assert FreshAll(StateAt(r, poll, script, k), cs);
    ListedAfterAll(StateAt(r, poll, script, k), cs, id);
    NextAt(r, poll, script, k, next);
  }

  lemma RemovedUpTo(r: Registry, poll: seq<PollFd>, script: Script, k: nat, next: nat, id: int)
    requires next == k + 1 <= |poll|
    ensures RemovedBefore(r, poll, script, next, id)
            <==> RemovedBefore(r, poll, script, k, id) || Removed(ExecutedAt(r, poll, script, k), id)
  {
    if RemovedBefore(r, poll, script, next, id) {
      var j :| 0 <= j < next && Removed(ExecutedAt(r, poll, script, j), id);
      assert j < k || j == k;
    }
    if RemovedBefore(r, poll, script, k, id) {
      var j :| 0 <= j < k && Removed(ExecutedAt(r, poll, script, j), id);
      assert j < next && Removed(ExecutedAt(r, poll, script, j), id);
    }
  }

  // ---------- at most one callback per descriptor ----------

  function CallsOf(events: seq<Event>, fd: int): nat {
    if events == [] then 0
    else (if !events[0].TimerRead? && events[0].fd == fd then 1 else 0) + CallsOf(events[1..], fd)
  }

  function CallsIn(trace: seq<seq<Event>>, fd: int): nat {
    if trace == [] then 0 else CallsIn(trace[..|trace| - 1], fd) + CallsOf(trace[|trace| - 1], fd)
  }

  lemma ReactCallsOnce(r: Registry, p: PollFd, fd: int)
    ensures CallsOf(React(r, p), fd) <= if p.fd == fd then 1 else 0
  {
    var ev := React(r, p);
    if |ev| == 1 {
      assert ev[1..] == [];
    } else if |ev| == 2 {
      assert ev[1..] == [ev[1]] && ev[1..][1..] == [];
      assert CallsOf(ev, fd) == CallsOf([ev[1]], fd) <= 1;
    }
  }

  ghost predicate DistinctPoll(poll: seq<PollFd>) {
    forall i, j :: 0 <= i < j < |poll| ==> poll[i].fd != poll[j].fd
  }

  lemma CallsInPrefix(tr: seq<seq<Event>>, n: nat, fd: int)
    requires 0 < n <= |tr|
    ensures CallsIn(tr[..n], fd) == CallsIn(tr[..n - 1], fd) + CallsOf(tr[n - 1], fd)
  {
    assert tr[..n][..n - 1] == tr[..n - 1];
  }

  /** If entry k calls for nobody but its own fd, and at most once, distinct fds are called at most once. */
  lemma {:induction false} CallsUpTo(tr: seq<seq<Event>>, poll: seq<PollFd>, n: nat, fd: int)
    requires DistinctPoll(poll) && n <= |poll| == |tr|
    requires forall k :: 0 <= k < |tr| ==> CallsOf(tr[k], fd) <= if poll[k].fd == fd then 1 else 0
    ensures CallsIn(tr[..n], fd) <= 1
    ensures (forall i :: 0 <= i < n ==> poll[i].fd != fd) ==> CallsIn(tr[..n], fd) == 0
  {
    if n > 0 {
      CallsUpTo(tr, poll, n - 1, fd);
      CallsInPrefix(tr, n, fd);
    }
  }

  /** The poll array is the snapshot with the kernel's answers filled in. */
  ghost predicate Answers(poll: seq<PollFd>, r: Registry) {
    |poll| == |Snapshot(r)| && forall i :: 0 <= i < |poll| ==>
      poll[i].fd == Snapshot(r)[i].fd && poll[i].events == Snapshot(r)[i].events
  }

  function Answered(poll: seq<PollFd>, answers: seq<Ready>): (p: seq<PollFd>)
    requires |answers| == |poll|
    ensures |p| == |poll|
    ensures forall i :: 0 <= i < |p| ==>
              && p[i].fd == poll[i].fd && p[i].events == poll[i].events
              && p[i].revents == answers[i].revents && p[i].now == answers[i].now
  {
    seq(|poll|, i requires 0 <= i < |poll| => poll[i].(revents := answers[i].revents, now := answers[i].now))
  }

  /** A whole round: nothing is dispatched on an empty registry, a timeout (0) or an error (-1) of poll. */
  function RoundPoll(r: Registry, ret: int, answers: seq<Ready>): seq<PollFd>
    requires |answers| == |Snapshot(r)|
  {
    if |answers| == 0 || ret == 0 || ret == -1 then [] else Answered(Snapshot(r), answers)
  }

  lemma AnsweredAnswers(r: Registry, answers: seq<Ready>)
    requires |answers| == |Snapshot(r)|
    ensures Answers(Answered(Snapshot(r), answers), r)
  {
  }

  ghost predicate Disjoint(r: Registry) {
    forall i, j :: 0 <= i < |r.io| && 0 <= j < |r.timers| ==> r.io[i].key != r.timers[j].key
  }

  lemma DisjointSnapshot(r: Registry, poll: seq<PollFd>)
    requires RegOk(r) && Disjoint(r) && Answers(poll, r)
    ensures DistinctPoll(poll)
  {
  }

  lemma AtMostOneCallback(r: Registry, poll: seq<PollFd>, script: Script, fd: int)
    requires RegOk(r) && Disjoint(r) && Answers(poll, r)
    ensures CallsIn(Trace(r, poll, script), fd) <= 1
  {
    DisjointSnapshot(r, poll);
    var tr := Trace(r, poll, script);
    forall k | 0 <= k < |tr| ensures CallsOf(tr[k], fd) <= if poll[k].fd == fd then 1 else 0 {
      ReactCallsOnce(StateAt(r, poll, script, k), poll[k], fd);
    }
    CallsUpTo(tr, poll, |poll|, fd);
    assert tr[..|poll|] == tr;
  }

  lemma ReactCalls(r: Registry, p: PollFd)
    ensures CallsOf(React(r, p), p.fd) == if p.revents != 0 && HasCallback(Abs(r), p.fd) then 1 else 0
  {
    ReactRefines(r, p);
    var ev := React(r, p);
    if |ev| == 1 {
      assert ev[1..] == [];
    } else if |ev| == 2 {
      assert ev[1..] == [ev[1]] && ev[1..][1..] == [];
      assert CallsOf(ev, p.fd) == CallsOf([ev[1]], p.fd) == 1;
    }
  }

  /** When only entry i can call for fd, the calls for fd are those of entry i. */
  lemma {:induction false} CallsOnlyAt(tr: seq<seq<Event>>, i: nat, n: nat, fd: int)
    requires i < |tr| && n <= |tr|
    requires forall k :: 0 <= k < |tr| && k != i ==> CallsOf(tr[k], fd) == 0
    ensures CallsIn(tr[..n], fd) == if i < n then CallsOf(tr[i], fd) else 0
  {
    if n > 0 {
      CallsOnlyAt(tr, i, n - 1, fd);
      CallsInPrefix(tr, n, fd);
    }
  }

  /**
   Over the whole pass a descriptor of the poll array gets exactly one callback if it is ready and has
   one registered when its turn comes, and none otherwise, whatever earlier callbacks did to it.
   */
  lemma ExactlyOneCallback(r: Registry, poll: seq<PollFd>, script: Script, i: nat)
    requires RegOk(r) && Disjoint(r) && Answers(poll, r) && i < |poll|
    ensures CallsIn(Trace(r, poll, script), poll[i].fd)
         == if poll[i].revents != 0 && HasCallback(Abs(StateAt(r, poll, script, i)), poll[i].fd) then 1 else 0
  {
    var tr, fd := Trace(r, poll, script), poll[i].fd;
    DisjointSnapshot(r, poll);
    forall k | 0 <= k < |tr| && k != i ensures CallsOf(tr[k], fd) == 0 {
      ReactCallsOnce(StateAt(r, poll, script, k), poll[k], fd);
      assert poll[k].fd != fd;
    }
    ReactCalls(StateAt(r, poll, script, i), poll[i]);
    CallsOnlyAt(tr, i, |tr|, fd);
    assert tr[..|tr|] == tr;
  }

  /** A round does nothing at all, or is a pass over everything registered with the answers of poll. */
  lemma RoundIsPass(r: Registry, ret: int, answers: seq<Ready>, script: Script)
    requires |answers| == |Snapshot(r)|
    ensures ret == 0 || ret == -1 ==>
              Trace(r, RoundPoll(r, ret, answers), script) == []
              && StateAt(r, RoundPoll(r, ret, answers), script, |RoundPoll(r, ret, answers)|) == r
    ensures ret != 0 && ret != -1 ==> RoundPoll(r, ret, answers) == Answered(Snapshot(r), answers)
    ensures Answers(Answered(Snapshot(r), answers), r)
  {
    AnsweredAnswers(r, answers);
    if |answers| == 0 {
      assert Answered(Snapshot(r), answers) == [];
    }
  }

  /** The callbacks for descriptor i: one if it is ready and has a callback when its turn comes, else none. */
  ghost predicate CalledAsAnswered(r: Registry, answers: seq<Ready>, script: Script, i: nat, trace: seq<seq<Event>>)
    requires i < |answers| == |Snapshot(r)|
  {
    var fd := Snapshot(r)[i].fd;
    CallsIn(trace, fd)
    == if answers[i].revents != 0 && HasCallback(Abs(StateAt(r, Answered(Snapshot(r), answers), script, i)), fd)
       then 1 else 0
  }

  /**
   A round in which poll reports something calls every descriptor exactly once that is ready and has a
   callback when its turn comes, and no other.
   */
  lemma RoundCallsExactly(r: Registry, ret: int, answers: seq<Ready>, script: Script, i: nat)
    requires RegOk(r) && Disjoint(r) && i < |answers| == |Snapshot(r)| && ret != 0 && ret != -1
    ensures CalledAsAnswered(r, answers, script, i, Trace(r, RoundPoll(r, ret, answers), script))
  {
    RoundIsPass(r, ret, answers, script);
    ExactlyOneCallback(r, Answered(Snapshot(r), answers), script, i);
  }

  /** So a round of doEventLoop calls back at most once per descriptor, whatever poll answers. */
  lemma RoundCallsAtMostOnce(r: Registry, ret: int, answers: seq<Ready>, script: Script, fd: int)
    requires RegOk(r) && Disjoint(r) && |answers| == |Snapshot(r)|
    ensures CallsIn(Trace(r, RoundPoll(r, ret, answers), script), fd) <= 1
  {
    RoundIsPass(r, ret, answers, script);
    AtMostOneCallback(r, Answered(Snapshot(r), answers), script, fd);
  }

  /** What a whole round comes to, from the registry before it and the answers of poll. */
  lemma RoundFacts(r: Registry, ret: int, answers: seq<Ready>, script: Script, trace: seq<seq<Event>>, t: Registry)
    requires |answers| == |Snapshot(r)| && trace == Trace(r, RoundPoll(r, ret, answers), script)
    requires t == StateAt(r, RoundPoll(r, ret, answers), script, |trace|)
    ensures ret == 0 || ret == -1 ==> trace == [] && t == r
    ensures RegOk(r) && FreshPass(r, RoundPoll(r, ret, answers), script) ==> RegOk(t)
    ensures RegOk(r) && Disjoint(r) ==> forall fd :: CallsIn(trace, fd) <= 1
    ensures RegOk(r) && Disjoint(r) && ret != 0 && ret != -1 ==>
              forall i :: 0 <= i < |answers| ==> CalledAsAnswered(r, answers, script, i, trace)
  {
    RoundIsPass(r, ret, answers, script);
    if RegOk(r) && FreshPass(r, RoundPoll(r, ret, answers), script) {
      PassRefinesTable(r, RoundPoll(r, ret, answers), script, |trace|);
    }
    if RegOk(r) && Disjoint(r) {
      forall fd ensures CallsIn(trace, fd) <= 1 {
        RoundCallsAtMostOnce(r, ret, answers, script, fd);
      }
      forall i | 0 <= i < |answers| && ret != 0 && ret != -1 ensures CalledAsAnswered(r, answers, script, i, trace) {
        RoundCallsExactly(r, ret, answers, script, i);
      }
    }
  }

  function AllReady(r: Registry): (poll: seq<PollFd>)
    ensures Answers(poll, r)
    ensures forall p :: p in poll ==> p.revents == 1
  {
    seq(|Snapshot(r)|, i requires 0 <= i < |Snapshot(r)| => Snapshot(r)[i].(revents := 1))
  }

  lemma {:induction false} TwoCalls(trace: seq<seq<Event>>, a: nat, b: nat, fd: int)
    requires a < b < |trace| && CallsOf(trace[a], fd) >= 1 && CallsOf(trace[b], fd) >= 1
    ensures CallsIn(trace, fd) >= 2
    decreases |trace|
  {
    var front := trace[..|trace| - 1];
    if b < |front| {
      TwoCalls(front, a, b, fd);
    } else {
      OneCall(front, a, fd);
    }
  }

  lemma {:induction false} OneCall(trace: seq<seq<Event>>, a: nat, fd: int)
    requires a < |trace| && CallsOf(trace[a], fd) >= 1
    ensures CallsIn(trace, fd) >= 1
    decreases |trace|
  {
    if a < |trace| - 1 { OneCall(trace[..|trace| - 1], a, fd); }
  }

  lemma IoReacts(r: Registry, p: PollFd, i: nat)
    requires UniqueKeys(r.io) && i < |r.io| && r.io[i].key == p.fd && r.io[i].data.cb.Some? && p.revents != 0
    ensures CallsOf(React(r, p), p.fd) >= 1 && HasCall(React(r, p))
  {
    AtFirst(r.io, p.fd, i);
    assert !React(r, p)[0].TimerRead?;
  }

  lemma IoSilent(r: Registry, p: PollFd, i: nat)
    requires UniqueKeys(r.io) && i < |r.io| && r.io[i].key == p.fd && r.io[i].data.cb.None?
    ensures React(r, p) == []
  {
    AtFirst(r.io, p.fd, i);
  }

  ghost predicate OneCallbackAlways(r: Registry) {
    forall poll: seq<PollFd>, script: Script, fd: int ::
      Answers(poll, r) ==> CallsIn(Trace(r, poll, script), fd) <= 1
  }

  /** Every descriptor on both lists stands behind io entries without callbacks, and has none itself. */
  ghost predicate SharedAreSilent(r: Registry) {
    forall i, j, k :: 0 <= i < |r.io| && 0 <= j < |r.timers| && r.io[i].key == r.timers[j].key && 0 <= k <= i ==>
      r.io[k].data.cb.None?
  }

  /** Entries without callbacks change nothing. */
  lemma {:induction false} SilentPrefix(r: Registry, poll: seq<PollFd>, script: Script, k: nat)
    requires UniqueKeys(r.io) && Answers(poll, r) && k <= |r.io|
    requires forall j :: 0 <= j < k ==> r.io[j].data.cb.None?
    ensures StateAt(r, poll, script, k) == r
  {
    if k > 0 {
      SilentPrefix(r, poll, script, k - 1);
      IoSilent(r, poll[k - 1], k - 1);
    }
  }

  lemma SilentEntry(r: Registry, poll: seq<PollFd>, script: Script, k: nat, fd: int)
    requires RegOk(r) && SharedAreSilent(r) && Answers(poll, r) && k < |poll|
    requires poll[k].fd == fd ==>
               k < |r.io| && exists j :: 0 <= j < |r.timers| && r.timers[j].key == r.io[k].key
    ensures CallsOf(React(StateAt(r, poll, script, k), poll[k]), fd) == 0
  {
    ReactCallsOnce(StateAt(r, poll, script, k), poll[k], fd);
    if poll[k].fd == fd {
      SilentPrefix(r, poll, script, k);
      IoSilent(r, poll[k], k);
    }
  }

  /** With such lists only the timer entry of a shared descriptor can call. */
  lemma SilentSuffices(r: Registry, poll: seq<PollFd>, script: Script, fd: int)
    requires RegOk(r) && SharedAreSilent(r) && Answers(poll, r)
    ensures CallsIn(Trace(r, poll, script), fd) <= 1
  {
    var tr := Trace(r, poll, script);
    var last := LastEntry(r, poll, fd);
    forall k | 0 <= k < |tr| && k != last ensures CallsOf(tr[k], fd) == 0 {
      SilentEntry(r, poll, script, k, fd);
    }
    if last < |tr| {
      ReactCallsOnce(StateAt(r, poll, script, last), poll[last], fd);
      CallsOnlyAt(tr, last, |tr|, fd);
    } else {
      NoCalls(tr, |tr|, fd);
    }
    assert tr[..|tr|] == tr;
  }

  lemma {:induction false} NoCalls(tr: seq<seq<Event>>, n: nat, fd: int)
    requires n <= |tr| && forall k :: 0 <= k < |tr| ==> CallsOf(tr[k], fd) == 0
    ensures CallsIn(tr[..n], fd) == 0
  {
    if n > 0 {
      NoCalls(tr, n - 1, fd);
      CallsInPrefix(tr, n, fd);
    }
  }

  /** The last poll entry for fd, or |poll|; any other is the io entry of a descriptor that is on both lists. */
  lemma LastEntry(r: Registry, poll: seq<PollFd>, fd: int) returns (last: nat)
    requires RegOk(r) && Answers(poll, r)
    ensures last <= |poll|
    ensures forall k :: 0 <= k < |poll| && k != last && poll[k].fd == fd ==>
              k < |r.io| && exists j :: 0 <= j < |r.timers| && r.timers[j].key == r.io[k].key
  {
    if j :| 0 <= j < |r.timers| && r.timers[j].key == fd {
      last := |r.io| + j;
    } else if i :| 0 <= i < |r.io| && r.io[i].key == fd {
      last := i;
    } else {
      last := |poll|;
    }
  }

  /** A callback that registers fd, made when entry k is handled and at no other time. */
  function RegisterAt(k: nat, fd: int): Script {
    (n: nat) => if n == k then [AddIo(Entry(fd, IoReg(0, Some(0), 0)))] else []
  }

  lemma ExecOne(r: Registry, c: Command)
    ensures ExecAll(r, [c]) == Exec(r, c)
  {
    assert [c][1..] == [];
  }

  lemma {:induction false} StatesAround(r: Registry, poll: seq<PollFd>, k: nat, fd: int, n: nat)
    requires k < |poll| && n <= |poll| && HasCall(React(r, poll[k]))
    ensures StateAt(r, poll, RegisterAt(k, fd), n)
         == if n <= k then r else Exec(r, AddIo(Entry(fd, IoReg(0, Some(0), 0))))
  {
    if n > 0 {
      StatesAround(r, poll, k, fd, n - 1);
      if n - 1 == k {
        assert RegisterAt(k, fd)(k) == [AddIo(Entry(fd, IoReg(0, Some(0), 0)))];
        ExecOne(r, AddIo(Entry(fd, IoReg(0, Some(0), 0))));
      } else {
        assert RegisterAt(k, fd)(n - 1) == [];
      }
    }
  }

  lemma RegisteredReacts(r: Registry, p: PollFd)
    requires RegOk(r) && p.revents != 0
    ensures CallsOf(React(Exec(r, AddIo(Entry(p.fd, IoReg(0, Some(0), 0)))), p), p.fd) == 1
  {
    WithIsUpdate(r.io, Entry(p.fd, IoReg(0, Some(0), 0)));
    ReactCalls(Exec(r, AddIo(Entry(p.fd, IoReg(0, Some(0), 0)))), p);
  }

  /** Once entry k has called back, every later entry for fd calls as well. */
  lemma RegisteredCalls(r: Registry, poll: seq<PollFd>, k: nat, n: nat, fd: int)
    requires RegOk(r) && k <= n < |poll| && poll[n].fd == fd && poll[n].revents != 0
    requires HasCall(React(r, poll[k])) && (n == k ==> CallsOf(React(r, poll[k]), fd) >= 1)
    ensures CallsOf(React(StateAt(r, poll, RegisterAt(k, fd), n), poll[n]), fd) >= 1
  {
    StatesAround(r, poll, k, fd, n);
    if n > k {
      RegisteredReacts(r, poll[n]);
    }
  }

  lemma CalledTwice(r: Registry, poll: seq<PollFd>, script: Script, i: nat, m: nat, fd: int)
    requires i < m < |poll|
    requires CallsOf(React(StateAt(r, poll, script, i), poll[i]), fd) >= 1
    requires CallsOf(React(StateAt(r, poll, script, m), poll[m]), fd) >= 1
    ensures CallsIn(Trace(r, poll, script), fd) >= 2
  {
    TwoCalls(Trace(r, poll, script), i, m, fd);
  }

  /** A callback at or before the io entry of a shared descriptor makes both of its entries call. */
  lemma SharedCallsTwice(r: Registry, poll: seq<PollFd>, k: nat, i: nat, m: nat, fd: int)
    requires RegOk(r) && Answers(poll, r) && forall p :: p in poll ==> p.revents != 0
    requires k <= i < |r.io| && r.io[k].data.cb.Some?
    requires i < m < |poll| && poll[i].fd == poll[m].fd == fd
    ensures CallsIn(Trace(r, poll, RegisterAt(k, fd)), fd) >= 2
  {
    assert poll[k] in poll && poll[i] in poll && poll[m] in poll;
    IoReacts(r, poll[k], k);
    RegisteredCalls(r, poll, k, i, fd);
    RegisteredCalls(r, poll, k, m, fd);
    CalledTwice(r, poll, RegisterAt(k, fd), i, m, fd);
  }

  /**
   One callback per descriptor in every pass, for every poll answer and all callbacks: exactly when no
   descriptor is on both lists, save those at and before whose io entry no callback is registered.
   */
  lemma OneCallbackIff(r: Registry)
    requires RegOk(r)
    ensures OneCallbackAlways(r) <==> SharedAreSilent(r)
  {
    if SharedAreSilent(r) {
      forall poll: seq<PollFd>, script: Script, fd: int | Answers(poll, r)
        ensures CallsIn(Trace(r, poll, script), fd) <= 1
      {
        SilentSuffices(r, poll, script, fd);
      }
    } else {
      var i, j, k :| 0 <= i < |r.io| && 0 <= j < |r.timers| && r.io[i].key == r.timers[j].key && 0 <= k <= i
                     && r.io[k].data.cb.Some?;
      SharedCallsTwice(r, AllReady(r), k, i, |r.io| + j, r.io[i].key);
    }
  }
}

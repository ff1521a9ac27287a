/**
 What OMainLoop keeps: the io list, the timer list, and the timers the kernel holds for it. The class
 OMainLoop is proved equal to these functions; here they are proved to behave as two finite maps.
 */
module EventRegistry {
  import opened Wrappers
  import opened KeyedLists
  import opened Timers

  /** Callbacks are function pointers: only their identity matters. None is the null pointer. */
  type Callback = nat

  /** The unsigned int of poll options. */
  type Mask = bv32

  datatype IoReg = IoReg(event: Mask, cb: Option<Callback>, arg: int)

  datatype TimerReg = TimerReg(kind: Kind, time: int, start: int, cb: Option<Callback>, arg: int)

  type IoEvent = Entry<IoReg>
  type TimerData = Entry<TimerReg>

  /** `kernel`: every descriptor timerfd_create handed out (none is ever closed) with its current setting. */
  datatype Registry = Registry(io: seq<IoEvent>, timers: seq<TimerData>, kernel: map<int, ITimerSpec>)

  /** The common tail of timerAdd and timerAddMs; `created` is what timerfd_create returned. */
  function WithTimer(r: Registry, t: TimerData, spec: ITimerSpec): Registry {
    if t.key == -1 then r
    else if !spec.Accepted() then r.(kernel := r.kernel[t.key := DISARMED])
    else Registry(r.io, r.timers + [t], r.kernel[t.key := spec])
  }

  function WithoutTimer(r: Registry, id: int): Registry {
    if At(r.timers, id) < |r.timers| then Registry(r.io, Without(r.timers, id), r.kernel[id := DISARMED]) else r
  }

  function Disarm(kernel: map<int, ITimerSpec>, timers: seq<TimerData>): map<int, ITimerSpec>
    decreases |timers|
  {
    if timers == [] then kernel else Disarm(kernel[timers[0].key := DISARMED], timers[1..])
  }

  function WithoutTimers(r: Registry): Registry {
    Registry(r.io, [], Disarm(r.kernel, r.timers))
  }

  /** The calls a callback (or anyone else) can make; clock readings and kernel answers are parameters. */
  datatype Command =
    | AddIo(e: IoEvent)
    | DelIo(fd: int)
    | AddTimer(t: TimerData, t1: int, t2: int)
    | AddTimerMs(m: TimerData, timeMs: int, now: int)
    | DelTimer(id: int)
    | ClearTimers
  {
    /** The setting handed to the kernel. */
    function Spec(): ITimerSpec
      requires AddTimer? || AddTimerMs?
    {
      if AddTimer? then ArmSeconds(t.data.kind, t.data.time, t.data.start, t1, t2)
      else ArmMilliseconds(m.data.kind, timeMs, m.data.start, now)
    }

    /** The list entry; timerAddMs stores whole seconds. */
    function Entry(): TimerData
      requires AddTimer? || AddTimerMs?
    {
      if AddTimer? then t else m.(data := m.data.(time := CDiv(timeMs, 1000)))
    }
  }

  function Exec(r: Registry, c: Command): Registry {
    match c
    case AddIo(e) => r.(io := With(r.io, e))
    case DelIo(fd) => r.(io := Without(r.io, fd))
    case AddTimer(_, _, _) => WithTimer(r, c.Entry(), c.Spec())
    case AddTimerMs(_, _, _) => WithTimer(r, c.Entry(), c.Spec())
    case DelTimer(id) => WithoutTimer(r, id)
    case ClearTimers => WithoutTimers(r)
  }

  function ExecAll(r: Registry, cs: seq<Command>): Registry
    decreases |cs|
  {
    if cs == [] then r else ExecAll(Exec(r, cs[0]), cs[1..])
  }

  // ---------- the invariant ----------

  /** Keys are unique, every timer is a kernel timer, and the kernel runs no timer that is not listed. */
  ghost predicate RegOk(r: Registry) {
    && UniqueKeys(r.io)
    && UniqueKeys(r.timers)
    && (forall i :: 0 <= i < |r.timers| ==> r.timers[i].key in r.kernel)
    && (forall id :: id in r.kernel && r.kernel[id].Armed() ==> id in ToMap(r.timers))
  }

  /** timerfd_create answers -1 or a descriptor that is not open; timer descriptors stay open for ever. */
  ghost predicate Fresh(r: Registry, c: Command) {
    c.AddTimer? || c.AddTimerMs? ==> c.Entry().key !in r.kernel
  }

  lemma {:induction false} AppendIsUpdate(timers: seq<TimerData>, t: TimerData)
    requires At(timers, t.key) == |timers|
    ensures ToMap(timers + [t]) == ToMap(timers)[t.key := t.data]
  {
    WithIsUpdate(timers, t);
    assert With(timers, t) == timers + [t];
  }

  lemma AddTimerKeepsRegOk(r: Registry, t: TimerData, spec: ITimerSpec)
    requires RegOk(r) && t.key !in r.kernel
    ensures RegOk(WithTimer(r, t, spec))
  {
    assert At(r.timers, t.key) == |r.timers|;
    AppendIsUpdate(r.timers, t);
  }

  lemma DelTimerKeepsRegOk(r: Registry, id: int)
    requires RegOk(r)
    ensures RegOk(WithoutTimer(r, id))
  {
    WithoutIsRemoval(r.timers, id);
    WithoutKeepsUnique(r.timers, id);
  }

  lemma {:induction false} DisarmAll(kernel: map<int, ITimerSpec>, timers: seq<TimerData>)
    requires forall i :: 0 <= i < |timers| ==> timers[i].key in kernel
    ensures Disarm(kernel, timers).Keys == kernel.Keys
    ensures forall id :: id in kernel ==>
              Disarm(kernel, timers)[id] == if id in ToMap(timers) then DISARMED else kernel[id]
    decreases |timers|
  {
    if timers != [] {
      var k := kernel[timers[0].key := DISARMED];
      assert k.Keys == kernel.Keys;
      DisarmAll(k, timers[1..]);
    }
  }

  lemma StepKeepsRegOk(r: Registry, c: Command)
    requires RegOk(r) && Fresh(r, c)
    ensures RegOk(Exec(r, c))
  {
    match c
    case AddIo(e) => WithPositions(r.io, e);
    case DelIo(fd) => WithoutKeepsUnique(r.io, fd);
    case AddTimer(_, _, _) => AddTimerKeepsRegOk(r, c.Entry(), c.Spec());
    case AddTimerMs(_, _, _) => AddTimerKeepsRegOk(r, c.Entry(), c.Spec());
    case DelTimer(id) => DelTimerKeepsRegOk(r, id);
    case ClearTimers => DisarmAll(r.kernel, r.timers);
  }

  // ---------- refinement of two maps ----------

  /** The reference: what an fd is registered for, and nothing else. */
  datatype Table = Table(io: map<int, IoReg>, timers: map<int, TimerReg>)

  function Abs(r: Registry): Table { Table(ToMap(r.io), ToMap(r.timers)) }

  function ExecTable(t: Table, c: Command): Table {
    match c
    case AddIo(e) => t.(io := t.io[e.key := e.data])
    case DelIo(fd) => t.(io := t.io - {fd})
    case AddTimer(_, _, _) => TableTimer(t, c)
    case AddTimerMs(_, _, _) => TableTimer(t, c)
    case DelTimer(id) => t.(timers := t.timers - {id})
    case ClearTimers => t.(timers := map[])
  }

  function TableTimer(t: Table, c: Command): Table
    requires c.AddTimer? || c.AddTimerMs?
  {
    if c.Entry().key == -1 || !c.Spec().Accepted() then t
    else t.(timers := t.timers[c.Entry().key := c.Entry().data])
  }

  /** Every call on the lists is the map operation, and the invariant survives it. */
  lemma ExecRefinesTable(r: Registry, c: Command)
    requires RegOk(r) && Fresh(r, c)
    ensures RegOk(Exec(r, c)) && Abs(Exec(r, c)) == ExecTable(Abs(r), c)
  {
    StepKeepsRegOk(r, c);
    match c
    case AddIo(e) => WithIsUpdate(r.io, e);
    case DelIo(fd) => WithoutIsRemoval(r.io, fd);
    case DelTimer(id) =>
      WithoutIsRemoval(r.timers, id);
      Lookup(r.timers, id);
    case ClearTimers =>
    case _ =>
      assert At(r.timers, c.Entry().key) == |r.timers|;
      AppendIsUpdate(r.timers, c.Entry());
  }

  /**
   The comment has a new mask OR-ed into the old one, the code stores the new one: the same exactly
   when the old mask has no bit that the new one lacks.
   */
  lemma MaskIsMergedIff(r: Registry, e: IoEvent)
    requires RegOk(r) && e.key in ToMap(r.io)
    ensures e.key in ToMap(Exec(r, AddIo(e)).io)
    ensures var before, after := ToMap(r.io)[e.key].event, ToMap(Exec(r, AddIo(e)).io)[e.key].event;
            after == before | e.data.event <==> before & !e.data.event == 0
  {
    WithIsUpdate(r.io, e);
    OrIsNewIff(ToMap(r.io)[e.key].event, e.data.event);
  }

  lemma OrIsNewIff(before: Mask, again: Mask)
    ensures again == before | again <==> before & !again == 0
  {
  }

  /** Watched for input (1), registered again for output (4): input is no longer watched. */
  lemma ReRegistrationLosesABit()
    ensures var r := Exec(Registry([], [], map[]), AddIo(Entry(5, IoReg(1, Some(7), 0))));
            var s := Exec(r, AddIo(Entry(5, IoReg(4, Some(7), 0))));
            && RegOk(r) && ToMap(r.io)[5].event == 1
            && ToMap(s.io)[5].event == 4 && ToMap(s.io)[5].event != 1 | 4
  {
    var e := Entry(5, IoReg(1, Some(7), 0));
    assert With([], e) == [e];
    WithIsUpdate([e], Entry(5, IoReg(4, Some(7), 0)));
  }

  /** timerAddMs answers 0: deleting the answer deletes the new timer iff its descriptor is 0. */
  lemma ZeroIsTheTimerIff(r: Registry, c: Command)
    requires RegOk(r) && Fresh(r, c) && c.AddTimerMs? && c.Spec().Accepted() && c.Entry().key != -1
    ensures c.Entry().key !in ToMap(Exec(Exec(r, c), DelTimer(0)).timers) <==> c.Entry().key == 0
    ensures c.Entry().key !in ToMap(Exec(Exec(r, c), DelTimer(c.Entry().key)).timers)
  {
    ExecRefinesTable(r, c);
    ExecRefinesTable(Exec(r, c), DelTimer(0));
    ExecRefinesTable(Exec(r, c), DelTimer(c.Entry().key));
  }

  lemma ListedAreKernel(r: Registry)
    requires RegOk(r)
    ensures forall id :: id in ToMap(r.timers) ==> id in r.kernel
  {
    forall id | id in ToMap(r.timers) ensures id in r.kernel {
      Lookup(r.timers, id);
    }
  }

  // ---------- what the timers do that were added ----------

  /** timerAdd with one clock reading: every expiry the kernel will deliver, from the caller's arguments. */
  lemma SecondsFire(r: Registry, reg: TimerReg, now: int, created: int, k: nat)
    requires created != -1 && reg.time > 0 && k > 0
    ensures var s := Exec(r, AddTimer(Entry(created, reg), now, now));
            && s.timers == r.timers + [Entry(created, reg)] && created in s.kernel
            && s.kernel[created].Expiry(k)
            == match reg.kind
               case RunEvery => After((k * reg.time + Max(0, reg.start - now)) * BILLION)
               case RunAfter => if k == 1 then After((reg.time + Max(0, reg.start - now)) * BILLION) else Never
               case RunAt => if k == 1 && reg.time > now then After((reg.time - now) * BILLION) else Never
  {
    if reg.kind == RunEvery {
      PeriodInSeconds(reg.time, Max(0, reg.start - now), k);
    }
  }

  /**
   timerAdd when the clock moves between its two readings: the timer fires when it is due if that is
   ahead at the second reading, is silent if it is due right then, and is refused if that is over.
   */
  lemma SecondsFireLate(r: Registry, reg: TimerReg, t1: int, t2: int, created: int)
    requires created != -1 && reg.time > 0 && t1 <= t2
    ensures var s := Exec(r, AddTimer(Entry(created, reg), t1, t2));
            var due := if reg.kind == RunAt then reg.time else reg.time + if reg.start > t1 then reg.start else t2;
            && created in s.kernel
            && (if reg.kind == RunAt && reg.time <= t1 then
                  s.timers == r.timers + [Entry(created, reg)] && s.kernel[created].Expiry(1) == Never
                else if due < t2 then s.timers == r.timers && s.kernel[created].Expiry(1) == Never
                else
                  && s.timers == r.timers + [Entry(created, reg)]
                  && s.kernel[created].Expiry(1) == if due == t2 then Never else After((due - t2) * BILLION))
  {
  }

  lemma PeriodInSeconds(time: int, delay: int, k: nat)
    requires k > 0
    ensures (time + delay) * BILLION + (k - 1) * (time * BILLION) == (k * time + delay) * BILLION
  {
  }

  /** timerAddMs, in milliseconds; a RUN_AT timer counts whole seconds. */
  lemma MillisecondsFire(r: Registry, reg: TimerReg, timeMs: int, now: int, created: int, k: nat)
    requires created != -1 && k > 0 && timeMs >= 0 && (reg.kind == RunEvery ==> timeMs > 0)
    ensures var s := Exec(r, AddTimerMs(Entry(created, reg), timeMs, now));
            && s.timers == r.timers + [Entry(created, reg.(time := timeMs / 1000))] && created in s.kernel
            && s.kernel[created].Expiry(k)
            == match reg.kind
               case RunEvery => After((k * timeMs + 1000 * Max(0, reg.start - now)) * MILLION)
               case RunAfter =>
                 if k == 1 && (timeMs > 0 || reg.start > now) then
                   After((timeMs + 1000 * Max(0, reg.start - now)) * MILLION)
                 else Never
               case RunAt => if k == 1 && timeMs / 1000 > now then After((timeMs / 1000 - now) * BILLION) else Never
  {
    MillisecondsAccepted(reg.kind, timeMs, reg.start, now);
    match reg.kind
    case RunEvery => PeriodicExpiry(timeMs, reg.start, now, k);
    case RunAfter => DelayExpiry(timeMs, reg.start, now, k);
    case RunAt =>
  }

  /** timerAddMs refuses a negative period, and leaves the descriptor behind, switched off. */
  lemma NegativePeriodRefused(r: Registry, reg: TimerReg, timeMs: int, now: int, created: int)
    requires created != -1 && timeMs < 0 && reg.kind == RunEvery
    ensures var s := Exec(r, AddTimerMs(Entry(created, reg), timeMs, now));
            s.timers == r.timers && created in s.kernel && s.kernel[created].Expiry(1) == Never
  {
    MillisecondsAccepted(reg.kind, timeMs, reg.start, now);
  }
}

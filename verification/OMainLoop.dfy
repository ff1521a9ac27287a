/** The OMainLoop object: two OLists, the timers the kernel keeps for it, and the dispatch pass. */
module OMainLoops {
  import opened Wrappers
  import opened OLists
  import opened KeyedLists
  import opened Timers
  import opened EventRegistry
  import opened Dispatch

  // ---------- the loops over one list ----------

  /** The begin/next loop that looks for a key. */
  method FindKey<D>(list: OList<Entry<D>>, key: int) returns (iter: Node?<Entry<D>>, ghost k: nat)
    requires list.Valid()
    ensures k == At(list.contents, key)
    ensures iter == if k < |list.spine| then list.spine[k] else null
  {
    iter := list.Begin();
    var end := list.End();
    k := 0;
    while iter != end
      invariant k <= |list.spine| && iter == if k < |list.spine| then list.spine[k] else null
      invariant forall j :: 0 <= j < k ==> list.contents[j].key != key
      decreases |list.spine| - k
    {
      var data := list.Value(iter);
      if data.value.key == key {
        AtIs(list.contents, key, k);
        return;
      }
      list.IndexIs(k);
      iter := list.Next(iter);
      k := k + 1;
    }
    AtIs(list.contents, key, k);
  }

  /** The size/at loop that looks for a key. */
  method ScanFor<D>(list: OList<Entry<D>>, key: int) returns (r: Option<D>)
    requires list.Valid()
    ensures var i := At(list.contents, key);
            r == if i < |list.contents| then Some(list.contents[i].data) else None
  {
    var j := 0;
    var n := list.Size();
    while j < n
      invariant 0 <= j <= n == |list.spine|
      invariant forall k :: 0 <= k < j ==> list.contents[k].key != key
    {
      var e := list.At(j);
      if e.value.key == key {
        AtIs(list.contents, key, j);
        return Some(e.value.data);
      }
      j := j + 1;
    }
    AtIs(list.contents, key, n);
    r := None;
  }

  /** Writing through the pointer that value() returned. */
  method Overwrite<D>(list: OList<Entry<D>>, iter: Node<Entry<D>>, e: Entry<D>, ghost k: nat)
    requires list.Valid() && k < |list.spine| && iter == list.spine[k]
    modifies list.Repr
    ensures list.Valid() && list.spine == old(list.spine) && list.Repr == old(list.Repr)
    ensures list.contents == old(list.contents)[k := e]
  {
    iter.value := e;
    list.contents := list.contents[k := e];
  }

  method EraseFound<D>(list: OList<Entry<D>>, iter: Node<Entry<D>>, ghost key: int)
    requires list.Valid()
    requires At(list.contents, key) < |list.spine| && iter == list.spine[At(list.contents, key)]
    modifies list.Repr
    ensures list.Valid() && list.Repr == old(list.Repr)
    ensures list.contents == Without(old(list.contents), key)
  {
    list.IndexIs(At(list.contents, key));
    list.Erase(iter);
  }

  method AppendTo<D>(list: OList<Entry<D>>, e: Entry<D>)
    requires list.Valid()
    modifies list.Repr
    ensures list.Valid() && fresh(list.Repr - old(list.Repr))
    ensures list.contents == old(list.contents) + [e]
  {
    var node := list.Append(e);
  }

  // ---------- the time arithmetic ----------

  method SecondsSpec(kind: Kind, time: int, start: int, t1: int, t2: int) returns (its: ITimerSpec)
    ensures its == ArmSeconds(kind, time, start, t1, t2)
  {
    its := DISARMED;
    if kind == RunAt {
      if time > t1 { its := its.(sec := time - t2); }
    } else if kind == RunAfter {
      if time != 0 { its := its.(sec := time); }
      if start > t1 { its := its.(sec := its.sec + (start - t2)); }
    } else {
      if time != 0 { its := its.(sec := time, intervalSec := time); }
      if start > t1 { its := its.(sec := its.sec + (start - t2)); }
    }
  }

  method MillisecondsSpec(kind: Kind, timeMs: int, start: int, now: int) returns (its: ITimerSpec)
    ensures its == ArmMilliseconds(kind, timeMs, start, now)
  {
    var s, ns := CDiv(timeMs, 1000), CMod(timeMs, 1000) * 1000 * 1000;
    its := PartsSpec(kind, timeMs, s, ns, start, now);
  }

  method PartsSpec(kind: Kind, timeMs: int, s: int, ns: int, start: int, now: int) returns (its: ITimerSpec)
    requires timeMs == 0 ==> s == 0 && ns == 0
    ensures its == ArmParts(kind, s, ns, start, now)
  {
    its := DISARMED;
    if kind == RunAt {
      if s > now { its := its.(sec := s - now); }
    } else {
      if timeMs != 0 {
        its := its.(sec := s, nsec := ns);
        if kind == RunEvery {
          its := its.(intervalSec := its.sec, intervalNsec := its.nsec);
        }
      }
      if start > now { its := its.(sec := its.sec + (start - now)); }
    }
  }

  class OMainLoop {
    const ioEventList: OList<IoEvent>
    const timerList: OList<TimerData>
    /** The kernel's side: timer descriptors handed out and their settings. */
    var kernel: map<int, ITimerSpec>

    ghost function Repr(): set<object>
      reads this, ioEventList, timerList
    {
      {this} + ioEventList.Repr + timerList.Repr
    }

    ghost predicate Valid()
      reads this, ioEventList, ioEventList.Repr, timerList, timerList.Repr
    {
      && ioEventList.Valid() && timerList.Valid()
      && ioEventList.Repr !! timerList.Repr
      && this !in ioEventList.Repr && this !in timerList.Repr
    }

    ghost function View(): Registry
      reads this, ioEventList, timerList
    {
      Registry(ioEventList.contents, timerList.contents, kernel)
    }

    constructor ()
      ensures Valid() && View() == Registry([], [], map[]) && fresh(Repr())
    {
      ioEventList := new OList<IoEvent>();
      timerList := new OList<TimerData>();
      kernel := map[];
    }

    /** timerfd_settime: the kernel stores an acceptable setting and refuses any other. */
    method SetTime(fd: int, spec: ITimerSpec) returns (ret: int)
      modifies this`kernel
      ensures ret == if spec.Accepted() then 0 else -1
      ensures kernel == if spec.Accepted() then old(kernel)[fd := spec] else old(kernel)
    {
      if !spec.Accepted() {
        return -1;
      }
      kernel := kernel[fd := spec];
      ret := 0;
    }

    method IoEventAdd(fd: int, event: Mask, cb: Option<Callback>, arg: int) returns (ret: int)
      requires Valid()
      modifies ioEventList.Repr
      ensures Valid() && fresh(Repr() - old(Repr())) && ret == 0
      ensures View() == Exec(old(View()), AddIo(Entry(fd, IoReg(event, cb, arg))))
      ensures ToMap(View().io) == ToMap(old(View()).io)[fd := IoReg(event, cb, arg)]
      ensures View().timers == old(View()).timers && kernel == old(kernel)
    {
      WithIsUpdate(View().io, Entry(fd, IoReg(event, cb, arg)));
      var e := Entry(fd, IoReg(event, cb, arg));
      var iter, k := FindKey(ioEventList, fd);
      if iter != null {
        Overwrite(ioEventList, iter, e, k);
        return 0;
      }
      AppendTo(ioEventList, e);
      ret := 0;
    }

    method IoEventDel(fd: int) returns (ret: int)
      requires Valid()
      modifies ioEventList.Repr
      ensures Valid() && fresh(Repr() - old(Repr()))
      ensures View() == Exec(old(View()), DelIo(fd))
      ensures ret == if fd in ToMap(old(View()).io) then 0 else -1
      ensures UniqueKeys(old(View()).io) ==> ToMap(View().io) == ToMap(old(View()).io) - {fd}
      ensures View().timers == old(View()).timers && kernel == old(kernel)
    {
      RemovalWhenUnique(View().io, fd);
      var iter, k := FindKey(ioEventList, fd);
      Lookup(ioEventList.contents, fd);
      if iter == null {
        return -1;
      }
      EraseFound(ioEventList, iter, fd);
      ret := 0;
    }

    /** What both timer entry points do once the descriptor and its setting are known. */
    method Register(t: TimerData, spec: ITimerSpec) returns (ok: bool)
      requires Valid() && t.key != -1
      modifies this`kernel, timerList.Repr
      ensures Valid() && fresh(Repr() - old(Repr()))
      ensures View() == WithTimer(old(View()), t, spec) && (ok <==> spec.Accepted())
    {
      kernel := kernel[t.key := DISARMED];
      var ret := SetTime(t.key, spec);
      if ret == -1 {
        return false;
      }
      AppendTo(timerList, t);
      ok := true;
    }

    /** `created` is the answer of timerfd_create, t1 and t2 those of the two time(NULL) calls. */
    method TimerAdd(reg: TimerReg, t1: int, t2: int, created: int) returns (ret: int)
      requires Valid()
      modifies this`kernel, timerList.Repr
      ensures Valid() && fresh(Repr() - old(Repr()))
      ensures View() == Exec(old(View()), AddTimer(Entry(created, reg), t1, t2))
      ensures ret == if AddTimer(Entry(created, reg), t1, t2).Spec().Accepted() then created else -1
      ensures View().io == old(View()).io && (created == -1 ==> View() == old(View()))
      ensures View().timers == old(View()).timers + (if ret != -1 then [Entry(created, reg)] else [])
      ensures created != -1 && ret == -1 ==> created in kernel && kernel[created].Expiry(1) == Never
      ensures created != -1 && reg.time > 0 && t1 == t2 ==>
                created in kernel && forall k: nat {:trigger kernel[created].Expiry(k)} :: k > 0 ==>
                  kernel[created].Expiry(k)
                  == match reg.kind
                     case RunEvery => After((k * reg.time + Max(0, reg.start - t1)) * BILLION)
                     case RunAfter => if k == 1 then After((reg.time + Max(0, reg.start - t1)) * BILLION) else Never
                     case RunAt => if k == 1 && reg.time > t1 then After((reg.time - t1) * BILLION) else Never
    {
      if created == -1 {
        return -1;
      }
      ghost var r := View();
      var its := SecondsSpec(reg.kind, reg.time, reg.start, t1, t2);
      var ok := Register(Entry(created, reg), its);
      ret := if ok then created else -1;
      if reg.time > 0 && t1 == t2 {
        forall k: nat | k > 0 { SecondsFire(r, reg, t1, created, k); }
      }
    }

    /** The header promises the new timer's id; the code returns 0. */
    method TimerAddMs(reg: TimerReg, timeMs: int, now: int, created: int) returns (ret: int)
      requires Valid()
      modifies this`kernel, timerList.Repr
      ensures Valid() && fresh(Repr() - old(Repr()))
      ensures View() == Exec(old(View()), AddTimerMs(Entry(created, reg), timeMs, now))
      ensures ret == if created != -1 && AddTimerMs(Entry(created, reg), timeMs, now).Spec().Accepted() then 0 else -1
      ensures View().io == old(View()).io && (created == -1 ==> View() == old(View()))
      ensures ret == -1 ==> View().timers == old(View()).timers
      ensures created != -1 && ret == -1 ==> created in kernel && kernel[created].Expiry(1) == Never
      ensures created != -1 && timeMs > 0 ==>
                && View().timers == old(View()).timers + [Entry(created, reg.(time := timeMs / 1000))]
                && created in kernel && forall k: nat {:trigger kernel[created].Expiry(k)} :: k > 0 ==>
                  kernel[created].Expiry(k)
                  == match reg.kind
                     case RunEvery => After((k * timeMs + 1000 * Max(0, reg.start - now)) * MILLION)
                     case RunAfter =>
                       if k == 1 then After((timeMs + 1000 * Max(0, reg.start - now)) * MILLION) else Never
                     case RunAt =>
                       if k == 1 && timeMs / 1000 > now then After((timeMs / 1000 - now) * BILLION) else Never
    {
      if created == -1 {
        return -1;
      }
      ghost var r := View();
      var its := MillisecondsSpec(reg.kind, timeMs, reg.start, now);
      var ok := Register(Entry(created, reg.(time := CDiv(timeMs, 1000))), its);
      ret := if ok then 0 else -1;
      if timeMs > 0 {
        MillisecondsFire(r, reg, timeMs, now, created, 1);
        forall k: nat | k > 0 { MillisecondsFire(r, reg, timeMs, now, created, k); }
      }
    }

    method EraseTimer(iter: Node<TimerData>, ghost id: int)
      requires Valid() && At(View().timers, id) < |View().timers|
      requires iter == timerList.spine[At(View().timers, id)]
      modifies timerList.Repr
      ensures Valid() && fresh(Repr() - old(Repr()))
      ensures View() == old(View()).(timers := Without(old(View()).timers, id))
    {
      EraseFound(timerList, iter, id);
    }

    method TimerDel(id: int)
      requires Valid()
      modifies this`kernel, timerList.Repr
      ensures Valid() && fresh(Repr() - old(Repr()))
      ensures View() == Exec(old(View()), DelTimer(id)) && View().io == old(View()).io
      ensures UniqueKeys(old(View()).timers) ==> ToMap(View().timers) == ToMap(old(View()).timers) - {id}
      ensures id in ToMap(old(View()).timers) ==> id in kernel && kernel[id].Expiry(1) == Never
    {
      Lookup(View().timers, id);
      RemovalWhenUnique(View().timers, id);
      var iter, k := FindKey(timerList, id);
      ghost var r := View();
      if iter == null {
        assert WithoutTimer(r, id) == r;
        return;
      }
      var ret := SetTime(id, DISARMED);
      assert View() == r.(kernel := r.kernel[id := DISARMED]);
      EraseTimer(iter, id);
    }

    method DisarmNode(iter: Node<TimerData>, ghost k: nat) returns (succ: Node?<TimerData>)
      requires Valid() && k < |timerList.spine| && iter == timerList.spine[k]
      modifies this`kernel
      ensures kernel == old(kernel)[timerList.contents[k].key := DISARMED]
      ensures succ == if k + 1 < |timerList.spine| then timerList.spine[k + 1] else null
    {
      var data := timerList.Value(iter);
      var ret := SetTime(data.value.key, DISARMED);
      timerList.IndexIs(k);
      succ := timerList.Next(iter);
    }

    /** The loop of timerClear that switches every listed timer off. */
    method DisarmListed()
      requires Valid()
      modifies this`kernel
      ensures kernel == Disarm(old(kernel), timerList.contents)
    {
      var iter := timerList.Begin();
      var end := timerList.End();
      ghost var k := 0;
      ghost var all := timerList.contents;
      while iter != end
        invariant k <= |all| && iter == if k < |all| then timerList.spine[k] else null
        invariant Disarm(kernel, all[k..]) == Disarm(old(kernel), all)
        decreases |all| - k
      {
        iter := DisarmNode(iter, k);
        assert all[k..][1..] == all[k + 1..];
        k := k + 1;
      }
      assert all[k..] == [];
    }

    method TimerClear()
      requires Valid()
      modifies this`kernel, timerList.Repr
      ensures Valid() && fresh(Repr() - old(Repr()))
      ensures View() == Exec(old(View()), ClearTimers)
      ensures View().io == old(View()).io && View().timers == []
      ensures RegOk(old(View())) ==> forall id :: id in ToMap(old(View()).timers) ==>
                id in kernel && kernel[id].Expiry(1) == Never
    {
      ghost var r := View();
      if RegOk(r) {
        DisarmAll(r.kernel, r.timers);
        ListedAreKernel(r);
      }
      DisarmListed();
      timerList.Clear();
    }

    method Do(c: Command)
      requires Valid()
      modifies Repr()
      ensures Valid() && fresh(Repr() - old(Repr()))
      ensures View() == Exec(old(View()), c)
    {
      match c
      case AddIo(e) => var _ := IoEventAdd(e.key, e.data.event, e.data.cb, e.data.arg);
      case DelIo(fd) => var _ := IoEventDel(fd);
      case AddTimer(t, t1, t2) => var _ := TimerAdd(t.data, t1, t2, t.key);
      case AddTimerMs(m, timeMs, now) => var _ := TimerAddMs(m.data, timeMs, now, m.key);
      case DelTimer(id) => TimerDel(id);
      case ClearTimers => TimerClear();
    }

    /** A callback: some calls on the main loop, one after the other. */
    method RunCallback(cs: seq<Command>)
      requires Valid()
      modifies Repr()
      ensures Valid() && fresh(Repr() - old(Repr()))
      ensures View() == ExecAll(old(View()), cs)
      decreases |cs|
    {
      if cs != [] {
        Do(cs[0]);
        RunCallback(cs[1..]);
      }
    }

    /** The two loops that fill poll_fds; the array of the source holds 1024 entries. */
    method BuildPoll() returns (poll: seq<PollFd>)
      requires Valid() && |View().io| + |View().timers| <= 1024
      ensures poll == Snapshot(View()) && |poll| <= 1024
    {
      var ioPart := PollIo();
      var timerPart := PollTimers();
      poll := ioPart + timerPart;
    }

    method PollIo() returns (poll: seq<PollFd>)
      requires Valid()
      ensures |poll| == |View().io|
      ensures forall i :: 0 <= i < |poll| ==> poll[i] == PollFd(View().io[i].key, Low16(View().io[i].data.event), 0, 0)
    {
      poll := [];
      var n := ioEventList.Size();
      for i := 0 to n
        invariant |poll| == i
        invariant forall k :: 0 <= k < i ==> poll[k] == PollFd(View().io[k].key, Low16(View().io[k].data.event), 0, 0)
      {
        var e := ioEventList.At(i);
        poll := poll + [PollFd(e.value.key, Low16(e.value.data.event), 0, 0)];
      }
    }

    method PollTimers() returns (poll: seq<PollFd>)
      requires Valid()
      ensures |poll| == |View().timers|
      ensures forall i :: 0 <= i < |poll| ==> poll[i] == PollFd(View().timers[i].key, POLLIN, 0, 0)
    {
      poll := [];
      var n := timerList.Size();
      for i := 0 to n
        invariant |poll| == i
        invariant forall k :: 0 <= k < i ==> poll[k] == PollFd(View().timers[k].key, POLLIN, 0, 0)
      {
        var t := timerList.At(i);
        poll := poll + [PollFd(t.value.key, POLLIN, 0, 0)];
      }
    }

    /** The two inner loops for one entry, up to the callback they pick. */
    method Match(p: PollFd) returns (events: seq<Event>)
      requires Valid()
      ensures events == React(View(), p)
      ensures Effects(p, View(), events)
    {
      ReactEffects(View(), p);
      events := [];
      if p.revents != 0 {
        var io := ScanFor(ioEventList, p.fd);
        if io.Some? {
          if io.value.cb.Some? {
            events := [IoCall(p.fd, p.revents, io.value.cb.value, io.value.arg)];
          }
        } else {
          var timer := ScanFor(timerList, p.fd);
          if timer.Some? {
            events := [TimerRead(p.fd)];
            if timer.value.cb.Some? {
              events := events + [TimerCall(p.fd, p.now * 1000, timer.value.cb.value, timer.value.arg)];
            }
          }
        }
      }
    }

    /** One entry of the dispatch loop: match, and run the callback if there is one. */
    method Turn(p: PollFd, cs: seq<Command>) returns (events: seq<Event>)
      requires Valid()
      modifies Repr()
      ensures Valid() && fresh(Repr() - old(Repr()))
      ensures IsTurn(old(View()), p, cs, events, View())
    {
      events := Match(p);
      if HasCall(events) {
        RunCallback(cs);
      }
    }

    /** The dispatch loop of one doEventLoop round, for the poll answers given in `poll`. */
    method DispatchPass(poll: seq<PollFd>, script: Script) returns (trace: seq<seq<Event>>)
      requires Valid()
      modifies Repr()
      ensures Valid() && fresh(Repr() - old(Repr()))
      ensures trace == Trace(old(View()), poll, script)
      ensures View() == StateAt(old(View()), poll, script, |poll|)
    {
      trace := [];
      ghost var states := [View()];
      for i := 0 to |poll|
        invariant Valid() && fresh(Repr() - old(Repr()))
        invariant |trace| == i && |states| == i + 1 && states[0] == old(View()) && states[i] == View()
        invariant forall k :: 0 <= k < i ==> TurnAt(poll, script, states, trace, k)
      {
        var events := Turn(poll[i], script(i));
        TurnAdded(poll, script, states, trace, View(), events);
        trace := trace + [events];
        states := states + [View()];
      }
      TurnsArePass(poll, script, states, trace);
    }

    /** The poll call: `ret` and `answers` are its answer; on 0, -1 or no descriptors nothing is dispatched. */
    method Poll(ret: int, answers: seq<Ready>) returns (poll: seq<PollFd>)
      requires Valid() && |View().io| + |View().timers| == |answers| <= 1024
      ensures poll == RoundPoll(View(), ret, answers)
    {
      poll := BuildPoll();
      poll := if |poll| == 0 || ret == 0 || ret == -1 then [] else Answered(poll, answers);
    }

    /** One round of doEventLoop. */
    method Round(ret: int, answers: seq<Ready>, script: Script) returns (trace: seq<seq<Event>>)
      requires Valid() && |View().io| + |View().timers| == |answers| <= 1024
      modifies Repr()
      ensures Valid() && fresh(Repr() - old(Repr()))
      ensures trace == Trace(old(View()), RoundPoll(old(View()), ret, answers), script)
      ensures View() == StateAt(old(View()), RoundPoll(old(View()), ret, answers), script, |trace|)
      ensures ret == 0 || ret == -1 ==> trace == [] && View() == old(View())
      ensures RegOk(old(View())) && Disjoint(old(View())) ==> forall fd :: CallsIn(trace, fd) <= 1
      ensures RegOk(old(View())) && Disjoint(old(View())) && ret != 0 && ret != -1 ==>
                forall i :: 0 <= i < |answers| ==> CalledAsAnswered(old(View()), answers, script, i, trace)
      ensures RegOk(old(View())) && FreshPass(old(View()), RoundPoll(old(View()), ret, answers), script) ==>
                RegOk(View())
    {
      ghost var r := View();
      var poll := Poll(ret, answers);
      trace := DispatchPass(poll, script);
      RoundFacts(r, ret, answers, script, trace, View());
    }
  }
}

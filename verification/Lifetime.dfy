/** Whole lives of a main loop: calls from outside and rounds of doEventLoop, in any order. */
module Lifetimes {
  import opened KeyedLists
  import opened EventRegistry
  import opened Dispatch

  datatype Happening = Outside(c: Command) | Round(ret: int, answers: seq<Ready>, script: Script)

  const EMPTY := Registry([], [], map[])

  /** The poll array of a round; a call from outside polls nothing, nor does an answer of the wrong length. */
  function PollOf(r: Registry, h: Happening): seq<PollFd> {
    if h.Round? && |h.answers| == |Snapshot(r)| then RoundPoll(r, h.ret, h.answers) else []
  }

  function After(r: Registry, h: Happening): Registry {
    match h
    case Outside(c) => Exec(r, c)
    case Round(_, _, script) => StateAt(r, PollOf(r, h), script, |PollOf(r, h)|)
  }

  function AfterAll(r: Registry, hs: seq<Happening>): Registry
    decreases |hs|
  {
    if hs == [] then r else AfterAll(After(r, hs[0]), hs[1..])
  }

  /** All along, timerfd_create answers -1 or a descriptor that is not open. */
  ghost predicate FreshLife(r: Registry, hs: seq<Happening>)
    decreases |hs|
  {
    hs != [] ==> FreshIn(r, hs[0]) && FreshLife(After(r, hs[0]), hs[1..])
  }

  ghost predicate FreshIn(r: Registry, h: Happening) {
    match h
    case Outside(c) => Fresh(r, c)
    case Round(_, _, script) => FreshPass(r, PollOf(r, h), script)
  }

  function Polls(r: Registry, hs: seq<Happening>): (polls: seq<seq<PollFd>>)
    ensures |polls| == |hs|
    decreases |hs|
  {
    if hs == [] then [] else [PollOf(r, hs[0])] + Polls(After(r, hs[0]), hs[1..])
  }

  function TableAfter(t: Table, h: Happening, poll: seq<PollFd>): Table {
    match h
    case Outside(c) => ExecTable(t, c)
    case Round(_, _, script) => TableAt(t, poll, script, |poll|)
  }

  /** The same life on two maps, given what was polled in each round. */
  function TableAfterAll(t: Table, hs: seq<Happening>, polls: seq<seq<PollFd>>): Table
    requires |polls| == |hs|
    decreases |hs|
  {
    if hs == [] then t else TableAfterAll(TableAfter(t, hs[0], polls[0]), hs[1..], polls[1..])
  }

  lemma AfterRefines(r: Registry, h: Happening)
    requires RegOk(r) && FreshIn(r, h)
    ensures RegOk(After(r, h)) && Abs(After(r, h)) == TableAfter(Abs(r), h, PollOf(r, h))
  {
    match h
    case Outside(c) => ExecRefinesTable(r, c);
    case Round(_, _, script) => PassRefinesTable(r, PollOf(r, h), script, |PollOf(r, h)|);
  }

  lemma {:induction false} LifeRefines(r: Registry, hs: seq<Happening>)
    requires RegOk(r) && FreshLife(r, hs)
    ensures RegOk(AfterAll(r, hs))
    ensures Abs(AfterAll(r, hs)) == TableAfterAll(Abs(r), hs, Polls(r, hs))
    decreases |hs|
  {
    if hs != [] {
      AfterRefines(r, hs[0]);
      LifeRefines(After(r, hs[0]), hs[1..]);
      assert Polls(r, hs)[1..] == Polls(After(r, hs[0]), hs[1..]);
    }
  }

  /** From creation on: keys are distinct, no unlisted timer runs, and the two lists behave as two maps. */
  lemma EveryLifeIsTwoMaps(hs: seq<Happening>)
    requires FreshLife(EMPTY, hs)
    ensures RegOk(AfterAll(EMPTY, hs))
    ensures Abs(AfterAll(EMPTY, hs)) == TableAfterAll(Table(map[], map[]), hs, Polls(EMPTY, hs))
  {
    LifeRefines(EMPTY, hs);
  }
}

/**
 lock_write.c: processes that take the whole-file write lock (or do not), write their text byte by byte
 from their own offset 0, and unlock. Any process may die at any step; the kernel then drops its lock.
 */
module LockWrite {
  import opened CStrings
  import opened Wrappers

  /** write(fd, &b, 1) at offset `at`; a process is never past the end of the file. */
  function Put(file: seq<byte>, at: nat, b: byte): seq<byte>
    requires at <= |file|
  {
    if at < |file| then file[at := b] else file + [b]
  }

  /** The whole text laid over the beginning of the file. */
  function Overlay(file: seq<byte>, text: seq<byte>): (r: seq<byte>)
    ensures |r| == if |text| < |file| then |file| else |text|
    ensures text <= r && forall i :: |text| <= i < |file| ==> r[i] == file[i]
  {
    if |text| < |file| then text + file[|text|..] else text
  }

  function OverlayAll(file: seq<byte>, texts: seq<seq<byte>>): seq<byte> {
    if texts == [] then file else Overlay(OverlayAll(file, texts[..|texts| - 1]), texts[|texts| - 1])
  }

  lemma PutExtendsOverlay(file: seq<byte>, text: seq<byte>, k: nat)
    requires k < |text|
    ensures Put(Overlay(file, text[..k]), k, text[k]) == Overlay(file, text[..k + 1])
  {
    var a, b := Overlay(file, text[..k]), Overlay(file, text[..k + 1]);
    assert forall i :: k < i < |b| ==> b[i] == a[i] == file[i];
  }

  // ---------- the processes ----------

  /** `Ended(true)`: ran to its end; `Ended(false)`: died. */
  datatype Pc = Ready | Writing(k: nat) | Ended(complete: bool)

  datatype Proc = Proc(text: seq<byte>, locking: bool, pc: Pc)

  /** `log`: what the lock holders wrote, in the order in which they gave the lock back. */
  datatype Written = Written(pid: nat, bytes: seq<byte>)

  datatype State = State(file: seq<byte>, holder: Option<nat>, procs: seq<Proc>, log: seq<Written>)

  datatype Action = Step(pid: nat) | Die(pid: nat)

  ghost predicate Offsets(s: State) {
    && (forall i :: 0 <= i < |s.procs| && s.procs[i].pc.Writing? ==>
          s.procs[i].pc.k <= |s.procs[i].text| && s.procs[i].pc.k <= |s.file|)
  }

  function At(s: State, p: nat, pc: Pc): seq<Proc>
    requires p < |s.procs|
  {
    s.procs[p := s.procs[p].(pc := pc)]
  }

  /** Giving the lock back, by F_UNLCK or by dying. */
  function Release(s: State, p: nat, bytes: seq<byte>): State {
    if s.holder == Some(p) then s.(holder := None, log := s.log + [Written(p, bytes)]) else s
  }

  predicate Enabled(s: State, a: Action) {
    && a.pid < |s.procs| && !s.procs[a.pid].pc.Ended?
    && (a.Step? && s.procs[a.pid].pc.Ready? && s.procs[a.pid].locking ==> s.holder == None)
  }

  ghost function Next(s: State, a: Action): State
    requires Enabled(s, a) && Offsets(s)
  {
    var p := a.pid;
    var q := s.procs[p];
    if a.Die? then
      Release(s, p, if q.pc.Writing? then q.text[..q.pc.k] else []).(procs := At(s, p, Ended(false)))
    else if q.pc.Ready? then
      s.(holder := if q.locking then Some(p) else s.holder, procs := At(s, p, Writing(0)))
    else if q.pc.k < |q.text| then
      s.(file := Put(s.file, q.pc.k, q.text[q.pc.k]), procs := At(s, p, Writing(q.pc.k + 1)))
    else
      Release(s, p, q.text).(procs := At(s, p, Ended(true)))
  }

  lemma NextKeepsOffsets(s: State, a: Action)
    requires Enabled(s, a) && Offsets(s)
    ensures Offsets(Next(s, a)) && |Next(s, a).procs| == |s.procs|
  {
  }

  ghost function Run(s: State, actions: seq<Action>): (t: State)
    requires Offsets(s)
    ensures Offsets(t)
    decreases |actions|
  {
    if actions == [] then s
    else if Enabled(s, actions[0]) then
      NextKeepsOffsets(s, actions[0]);
      Run(Next(s, actions[0]), actions[1..])
    else Run(s, actions[1..])
  }

  // ---------- everybody locks ----------

  function Texts(log: seq<Written>): (r: seq<seq<byte>>)
    ensures |r| == |log| && forall i :: 0 <= i < |log| ==> r[i] == log[i].bytes
  {
    seq(|log|, i requires 0 <= i < |log| => log[i].bytes)
  }

  ghost predicate InLog(log: seq<Written>, p: nat) {
    exists i :: 0 <= i < |log| && log[i].pid == p
  }

  /** The file is the overlay of finished holders in lock order, plus what the present holder has written. */
  ghost predicate FileOk(s: State, start: seq<byte>) {
    s.file ==
      match s.holder
      case None => OverlayAll(start, Texts(s.log))
      case Some(p) =>
        if p < |s.procs| && s.procs[p].pc.Writing? && s.procs[p].pc.k <= |s.procs[p].text|
        then Overlay(OverlayAll(start, Texts(s.log)), s.procs[p].text[..s.procs[p].pc.k])
        else OverlayAll(start, Texts(s.log))
  }

  /** Only the holder writes; every process is logged once, when it gives the lock back, with what it wrote. */
  ghost predicate LockOk(s: State) {
    && (forall i :: 0 <= i < |s.procs| ==>
          s.procs[i].locking && (s.procs[i].pc.Writing? <==> s.holder == Some(i)))
    && (s.holder.Some? ==> s.holder.value < |s.procs|)
    && (forall i, j :: 0 <= i < j < |s.log| ==> s.log[i].pid != s.log[j].pid)
    && (forall i :: 0 <= i < |s.log| ==>
          var w := s.log[i];
          && w.pid < |s.procs| && s.procs[w.pid].pc.Ended? && w.bytes <= s.procs[w.pid].text
          && (s.procs[w.pid].pc.complete ==> w.bytes == s.procs[w.pid].text))
    && (forall i :: 0 <= i < |s.procs| && s.procs[i].pc == Ended(true) ==> InLog(s.log, i))
  }

  lemma LogMore(start: seq<byte>, log: seq<Written>, w: Written)
    ensures OverlayAll(start, Texts(log + [w])) == Overlay(OverlayAll(start, Texts(log)), w.bytes)
  {
    assert Texts(log + [w])[..|log|] == Texts(log);
  }

  lemma OverlayNothing(file: seq<byte>)
    ensures Overlay(file, []) == file
  {
  }

  lemma ReleaseKeepsFile(s: State, a: Action, start: seq<byte>)
    requires Enabled(s, a) && Offsets(s) && FileOk(s, start) && s.holder == Some(a.pid)
    requires s.procs[a.pid].pc.Writing? && (a.Step? ==> s.procs[a.pid].pc.k == |s.procs[a.pid].text|)
    ensures FileOk(Next(s, a), start)
  {
    var q := s.procs[a.pid];
    assert q.text[..|q.text|] == q.text;
    LogMore(start, s.log, Written(a.pid, if a.Die? then q.text[..q.pc.k] else q.text));
  }

  /** The finished process joins the log; being unfinished until now, it was not there. */
  lemma ReleaseKeepsLock(s: State, p: nat, bytes: seq<byte>, complete: bool)
    requires LockOk(s) && p < |s.procs| && s.procs[p].pc.Writing? && s.holder == Some(p)
    requires bytes <= s.procs[p].text && (complete ==> bytes == s.procs[p].text)
    ensures LockOk(Release(s, p, bytes).(procs := At(s, p, Ended(complete))))
  {
    var t := Release(s, p, bytes).(procs := At(s, p, Ended(complete)));
    forall i | 0 <= i < |t.procs| && t.procs[i].pc == Ended(true) ensures InLog(t.log, i) {
      if i == p {
        assert t.log[|s.log|].pid == p;
      } else {
        var k :| 0 <= k < |s.log| && s.log[k].pid == i;
        assert t.log[k].pid == i;
      }
    }
  }

  lemma ReleaseKeeps(s: State, a: Action, start: seq<byte>)
    requires Enabled(s, a) && Offsets(s) && LockOk(s) && FileOk(s, start)
    requires s.procs[a.pid].pc.Writing? && (a.Step? ==> s.procs[a.pid].pc.k == |s.procs[a.pid].text|)
    ensures LockOk(Next(s, a)) && FileOk(Next(s, a), start)
  {
    var q := s.procs[a.pid];
    ReleaseKeepsFile(s, a, start);
    ReleaseKeepsLock(s, a.pid, if a.Die? then q.text[..q.pc.k] else q.text, a.Step?);
  }

  lemma NextKeeps(s: State, a: Action, start: seq<byte>)
    requires Enabled(s, a) && Offsets(s) && LockOk(s) && FileOk(s, start)
    ensures LockOk(Next(s, a)) && FileOk(Next(s, a), start)
  {
    var q := s.procs[a.pid];
    if q.pc.Ready? {
      OverlayNothing(OverlayAll(start, Texts(s.log)));
    } else if a.Step? && q.pc.k < |q.text| {
      PutExtendsOverlay(OverlayAll(start, Texts(s.log)), q.text, q.pc.k);
    } else {
      ReleaseKeeps(s, a, start);
    }
  }

  lemma {:induction false} RunKeeps(s: State, actions: seq<Action>, start: seq<byte>)
    requires Offsets(s) && LockOk(s) && FileOk(s, start)
    ensures Offsets(Run(s, actions)) && LockOk(Run(s, actions)) && FileOk(Run(s, actions), start)
    decreases |actions|
  {
    if actions != [] {
      if Enabled(s, actions[0]) {
        NextKeepsOffsets(s, actions[0]);
        NextKeeps(s, actions[0], start);
        RunKeeps(Next(s, actions[0]), actions[1..], start);
      } else {
        RunKeeps(s, actions[1..], start);
      }
    }
  }

  function Init(file: seq<byte>, texts: seq<seq<byte>>, locking: bool): State {
    State(file, None, seq(|texts|, i requires 0 <= i < |texts| => Proc(texts[i], locking, Ready)), [])
  }

  /** The processes of s are those that were to write `texts`. */
  ghost predicate Carries(s: State, texts: seq<seq<byte>>) {
    |s.procs| == |texts| && forall i :: 0 <= i < |texts| ==> s.procs[i].text == texts[i]
  }

  lemma {:induction false} RunCarries(s: State, actions: seq<Action>, texts: seq<seq<byte>>)
    requires Offsets(s) && Carries(s, texts)
    ensures Carries(Run(s, actions), texts)
    decreases |actions|
  {
    if actions != [] {
      if Enabled(s, actions[0]) {
        NextKeepsOffsets(s, actions[0]);
        assert Carries(Next(s, actions[0]), texts);
        RunCarries(Next(s, actions[0]), actions[1..], texts);
      } else {
        RunCarries(s, actions[1..], texts);
      }
    }
  }

  /**
   When nobody holds the lock any more, the file is the overlay, in lock order, of one piece per
   process: the whole of the text it was given, or the part it had written when it died.
   */
  lemma LockSerialises(file: seq<byte>, texts: seq<seq<byte>>, actions: seq<Action>)
    requires Run(Init(file, texts, true), actions).holder == None
    ensures var s := Run(Init(file, texts, true), actions);
            s.file == OverlayAll(file, Texts(s.log)) && LockOk(s) && Carries(s, texts)
  {
    RunKeeps(Init(file, texts, true), actions, file);
    RunCarries(Init(file, texts, true), actions, texts);
  }

  /** Nobody waits for ever: while a process has not ended, some process can step. */
  lemma SomebodyCanWrite(file: seq<byte>, texts: seq<seq<byte>>, actions: seq<Action>, i: nat)
    requires var s := Run(Init(file, texts, true), actions); i < |s.procs| && !s.procs[i].pc.Ended?
    ensures var s := Run(Init(file, texts, true), actions);
            Enabled(s, Step(if s.holder.Some? then s.holder.value else i))
  {
    RunKeeps(Init(file, texts, true), actions, file);
  }

  lemma {:induction false} OverlayLength(file: seq<byte>, texts: seq<seq<byte>>)
    ensures |file| <= |OverlayAll(file, texts)|
    ensures forall t :: t in texts ==> |t| <= |OverlayAll(file, texts)|
    ensures |OverlayAll(file, texts)| == |file| || exists t :: t in texts && |t| == |OverlayAll(file, texts)|
    decreases |texts|
  {
    if texts != [] {
      var front, last := texts[..|texts| - 1], texts[|texts| - 1];
      OverlayLength(file, front);
      forall t | t in texts ensures t in front || t == last {
        var i :| 0 <= i < |texts| && texts[i] == t;
        if i < |front| { assert front[i] == t; }
      }
      assert last in texts;
      assert forall t :: t in front ==> t in texts;
    }
  }

  /** The file is exactly the last holder's text iff nothing longer was there or was written before it. */
  lemma LastTextWinsIff(file: seq<byte>, texts: seq<seq<byte>>)
    requires texts != []
    ensures OverlayAll(file, texts) == texts[|texts| - 1]
            <==> |file| <= |texts[|texts| - 1]| && forall t :: t in texts ==> |t| <= |texts[|texts| - 1]|
  {
    var front, last := texts[..|texts| - 1], texts[|texts| - 1];
    OverlayLength(file, texts);
    OverlayLength(file, front);
    assert forall t :: t in front ==> t in texts;
  }

  // ---------- nobody locks ----------

  /** Two processes that write a and b without locking. */
  ghost predicate TwoWriters(s: State, a: seq<byte>, b: seq<byte>) {
    && |s.procs| == 2 && s.holder == None
    && s.procs[0].text == a && s.procs[1].text == b
    && !s.procs[0].locking && !s.procs[1].locking
  }

  ghost predicate BothEnded(s: State) {
    |s.procs| == 2 && s.procs[0].pc == s.procs[1].pc == Ended(true)
  }

  /** How much of its text a process that did not die has written. */
  function Done(q: Proc): nat {
    match q.pc
    case Ready => 0
    case Writing(k) => k
    case Ended(complete) => if complete then |q.text| else 0
  }

  /** Where byte j of the file comes from when `a` is written up to ka and `b` up to kb. */
  predicate FromOne(file: seq<byte>, start: seq<byte>, a: seq<byte>, ka: nat, b: seq<byte>, kb: nat, j: nat)
    requires j < |file| && ka <= |a| && kb <= |b|
  {
    || (j < ka && file[j] == a[j])
    || (j < kb && file[j] == b[j])
    || (ka <= j && kb <= j < |start| && file[j] == start[j])
  }

  ghost predicate Mixed(file: seq<byte>, start: seq<byte>, a: seq<byte>, ka: nat, b: seq<byte>, kb: nat) {
    && ka <= |a| && kb <= |b| && |start| <= |file| && ka <= |file| && kb <= |file|
    && |file| in {|start|, ka, kb}
    && forall j :: 0 <= j < |file| ==> FromOne(file, start, a, ka, b, kb, j)
  }

  /** Somebody died, or every byte comes from one of the two texts or from the start. */
  ghost predicate MixOk(s: State, start: seq<byte>, a: seq<byte>, b: seq<byte>) {
    && TwoWriters(s, a, b)
    && (s.procs[0].pc == Ended(false) || s.procs[1].pc == Ended(false)
        || Mixed(s.file, start, a, Done(s.procs[0]), b, Done(s.procs[1])))
  }

  lemma PutMixes(file: seq<byte>, start: seq<byte>, a: seq<byte>, ka: nat, next: nat, b: seq<byte>, kb: nat)
    requires Mixed(file, start, a, ka, b, kb) && next == ka + 1 <= |a|
    ensures Mixed(Put(file, ka, a[ka]), start, a, next, b, kb)
  {
    var t := Put(file, ka, a[ka]);
    forall j | 0 <= j < |t| ensures FromOne(t, start, a, next, b, kb, j) {
      if j < |file| {
        assert FromOne(file, start, a, ka, b, kb, j);
      }
    }
  }

  lemma MixedSwap(file: seq<byte>, start: seq<byte>, a: seq<byte>, ka: nat, b: seq<byte>, kb: nat)
    requires Mixed(file, start, a, ka, b, kb)
    ensures Mixed(file, start, b, kb, a, ka)
  {
    forall j | 0 <= j < |file| ensures FromOne(file, start, b, kb, a, ka, j) {
      assert FromOne(file, start, a, ka, b, kb, j);
    }
  }

  lemma NextMixes(s: State, action: Action, start: seq<byte>, a: seq<byte>, b: seq<byte>)
    requires Enabled(s, action) && Offsets(s) && MixOk(s, start, a, b)
    ensures MixOk(Next(s, action), start, a, b)
  {
    var ka, kb := Done(s.procs[0]), Done(s.procs[1]);
    if Mixed(s.file, start, a, ka, b, kb) {
      if action.pid == 0 && ka < |a| {
        PutMixes(s.file, start, a, ka, ka + 1, b, kb);
      } else if action.pid == 1 && kb < |b| {
        MixedSwap(s.file, start, a, ka, b, kb);
        PutMixes(s.file, start, b, kb, kb + 1, a, ka);
        MixedSwap(Put(s.file, kb, b[kb]), start, b, kb + 1, a, ka);
      }
    }
  }

  lemma {:induction false} RunMixes(s: State, actions: seq<Action>, start: seq<byte>, a: seq<byte>, b: seq<byte>)
    requires Offsets(s) && MixOk(s, start, a, b)
    ensures MixOk(Run(s, actions), start, a, b)
    decreases |actions|
  {
    if actions != [] {
      if Enabled(s, actions[0]) {
        NextKeepsOffsets(s, actions[0]);
        NextMixes(s, actions[0], start, a, b);
        RunMixes(Next(s, actions[0]), actions[1..], start, a, b);
      } else {
        RunMixes(s, actions[1..], start, a, b);
      }
    }
  }

  lemma OverlayPair(start: seq<byte>, a: seq<byte>, b: seq<byte>)
    ensures OverlayAll(start, [a, b]) == Overlay(Overlay(start, a), b)
  {
    assert [a, b][..1] == [a] && [a][..0] == [];
    assert OverlayAll(start, [a]) == Overlay(start, a);
  }

  /** What either order of the two writers leaves. */
  ghost predicate EitherOrder(file: seq<byte>, start: seq<byte>, a: seq<byte>, b: seq<byte>) {
    file == OverlayAll(start, [a, b]) || file == OverlayAll(start, [b, a])
  }

  predicate DifferOnce(a: seq<byte>, b: seq<byte>) {
    forall i, j :: 0 <= i < j < |a| && j < |b| && a[i] != b[i] ==> a[j] == b[j]
  }

  /** A mix in which b won everywhere is b laid over a. */
  lemma AllFromLast(file: seq<byte>, start: seq<byte>, a: seq<byte>, b: seq<byte>)
    requires Mixed(file, start, a, |a|, b, |b|)
    requires forall j :: 0 <= j < |a| && j < |b| ==> file[j] == b[j]
    ensures file == OverlayAll(start, [a, b])
  {
    OverlayPair(start, a, b);
    var t := Overlay(Overlay(start, a), b);
    forall j | 0 <= j < |file| ensures file[j] == t[j] {
      assert FromOne(file, start, a, |a|, b, |b|, j);
    }
  }

  lemma OnceIsSerial(file: seq<byte>, start: seq<byte>, a: seq<byte>, b: seq<byte>)
    requires Mixed(file, start, a, |a|, b, |b|) && DifferOnce(a, b)
    ensures EitherOrder(file, start, a, b)
  {
    if i :| 0 <= i < |a| && i < |b| && file[i] != b[i] {
      assert FromOne(file, start, a, |a|, b, |b|, i);
      forall j | 0 <= j < |a| && j < |b| ensures file[j] == a[j] {
        assert FromOne(file, start, a, |a|, b, |b|, j);
      }
      MixedSwap(file, start, a, |a|, b, |b|);
      AllFromLast(file, start, b, a);
    } else {
      AllFromLast(file, start, a, b);
    }
  }

  // ---------- a run that mixes ----------

  ghost predicate Reachable(s: State, start: seq<byte>, a: seq<byte>, b: seq<byte>) {
    exists actions: seq<Action> :: Run(Init(start, [a, b], false), actions) == s
  }

  lemma {:induction false} RunLast(s: State, actions: seq<Action>, last: Action)
    requires Offsets(s) && Enabled(Run(s, actions), last)
    ensures Run(s, actions + [last]) == Next(Run(s, actions), last)
    decreases |actions|
  {
    if actions == [] {
      NextKeepsOffsets(s, last);
      assert [] + [last] == [last];
    } else {
      assert (actions + [last])[1..] == actions[1..] + [last];
      if Enabled(s, actions[0]) { NextKeepsOffsets(s, actions[0]); }
      RunLast(if Enabled(s, actions[0]) then Next(s, actions[0]) else s, actions[1..], last);
    }
  }

  lemma ReachableMore(s: State, p: nat, start: seq<byte>, a: seq<byte>, b: seq<byte>) returns (t: State)
    requires Reachable(s, start, a, b) && Enabled(s, Step(p))
    ensures Offsets(s) && t == Next(s, Step(p)) && Reachable(t, start, a, b)
  {
    var actions :| Run(Init(start, [a, b], false), actions) == s;
    RunLast(Init(start, [a, b], false), actions, Step(p));
    t := Next(s, Step(p));
  }

  /** Both have written k bytes, and `a` has won byte p. */
  ghost predicate Lockstep(s: State, a: seq<byte>, b: seq<byte>, p: nat, k: nat) {
    && TwoWriters(s, a, b) && k <= |a| && k <= |b| && k <= |s.file|
    && s.procs[0].pc == s.procs[1].pc == Writing(k)
    && forall j :: 0 <= j < k ==> s.file[j] == if j == p then a[j] else b[j]
  }

  lemma {:induction false} LockstepRun(start: seq<byte>, a: seq<byte>, b: seq<byte>, p: nat, k: nat)
    returns (s: State)
    requires k <= |a| && k <= |b|
    ensures Reachable(s, start, a, b) && Lockstep(s, a, b, p, k)
  {
    s := Init(start, [a, b], false);
    assert Run(s, []) == s;
    if k == 0 {
      s := ReachableMore(s, 0, start, a, b);
      s := ReachableMore(s, 1, start, a, b);
    } else {
      var before := LockstepRun(start, a, b, p, k - 1);
      var loser := if k - 1 == p then 1 else 0;
      s := ReachableMore(before, loser, start, a, b);
      s := ReachableMore(s, 1 - loser, start, a, b);
    }
  }

  /** A process that goes on alone ends without changing what lies before its offset. */
  lemma {:induction false} Finish(s: State, p: nat, k: nat, start: seq<byte>, a: seq<byte>, b: seq<byte>)
    returns (t: State)
    requires Reachable(s, start, a, b) && Offsets(s) && p < |s.procs| && s.procs[p].pc == Writing(k)
    requires s.holder == None
    ensures Reachable(t, start, a, b) && t.procs == At(s, p, Ended(true)) && t.holder == None
    ensures |s.file| <= |t.file| && t.file[..k] == s.file[..k]
    decreases |s.procs[p].text| - k
  {
    t := ReachableMore(s, p, start, a, b);
    if k < |s.procs[p].text| {
      var u := t;
      NextKeepsOffsets(s, Step(p));
      t := Finish(u, p, k + 1, start, a, b);
      assert t.file[..k] == t.file[..k + 1][..k] == u.file[..k + 1][..k] == s.file[..k];
    }
  }

  lemma MixingRun(start: seq<byte>, a: seq<byte>, b: seq<byte>, i: nat, j: nat) returns (s: State)
    requires i < j < |a| && j < |b| && a[i] != b[i] && a[j] != b[j]
    ensures Reachable(s, start, a, b) && BothEnded(s) && !EitherOrder(s.file, start, a, b)
  {
    s := LockstepRun(start, a, b, i, j + 1);
    var file := s.file;
    s := Finish(s, 0, j + 1, start, a, b);
    s := Finish(s, 1, j + 1, start, a, b);
    assert s.file[i] == file[i] == a[i] && s.file[j] == file[j] == b[j];
    OverlayPair(start, a, b);
    OverlayPair(start, b, a);
  }

  ghost predicate AlwaysSerial(start: seq<byte>, a: seq<byte>, b: seq<byte>) {
    forall actions: seq<Action> ::
      var s := Run(Init(start, [a, b], false), actions);
      BothEnded(s) ==> EitherOrder(s.file, start, a, b)
  }

  /**
   Without the lock, every run of two writers that both finish ends as if one had gone after the other
   exactly when their texts differ in at most one position that both have.
   */
  lemma UnlockedSerialIff(start: seq<byte>, a: seq<byte>, b: seq<byte>)
    ensures AlwaysSerial(start, a, b) <==> DifferOnce(a, b)
  {
    if DifferOnce(a, b) {
      forall actions: seq<Action> | BothEnded(Run(Init(start, [a, b], false), actions))
        ensures EitherOrder(Run(Init(start, [a, b], false), actions).file, start, a, b)
      {
        RunMixes(Init(start, [a, b], false), actions, start, a, b);
        OnceIsSerial(Run(Init(start, [a, b], false), actions).file, start, a, b);
      }
    } else {
      var i, j :| 0 <= i < j < |a| && j < |b| && a[i] != b[i] && a[j] != b[j];
      var s := MixingRun(start, a, b, i, j);
      assert BothEnded(s);
    }
  }

  // ---------- one process on its own ----------

  class LockedFile {
    var bytes: seq<byte>
    var holder: Option<nat>

    /** The main program with the "lock" argument, when it gets the lock at once. */
    method WriteLocked(pid: nat, text: seq<byte>)
      requires holder == None
      modifies this
      ensures holder == None && bytes == Overlay(old(bytes), text)
    {
      holder := Some(pid);
      var i := 0;
      OverlayNothing(bytes);
      while i < |text|
        invariant 0 <= i <= |text| && bytes == Overlay(old(bytes), text[..i])
      {
        PutExtendsOverlay(old(bytes), text, i);
        bytes := Put(bytes, i, text[i]);
        i := i + 1;
      }
      assert text[..|text|] == text;
      holder := None;
    }
  }
}

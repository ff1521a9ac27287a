/** Theorems about whole runs of OBuffer operations on its real memory. */
module BufferRuns {
  import opened CStrings
  import opened Wrappers
  import opened FrameRules
  import opened BufferMemory

  // ---------- the window over whole runs ----------

  datatype Op = Append(data: seq<byte>) | Remove(n: nat) | Clear | Get(rule: Rule, prior: int)

  /** A frame handed out, with its position in the stream of everything ever appended. */
  datatype Taken = Taken(start: int, bytes: seq<byte>)

  datatype Session = Dead | Live(mem: Mem, stream: seq<byte>, taken: seq<Taken>)

  ghost predicate OpOk(op: Op) { op.Get? ==> RuleOk(op.rule) }

  /** One call: the memory behind it, none if it overran, and the frame with its place in the buffer. */
  datatype Called = Called(mem: Option<Mem>, frame: Option<Taken>)

  ghost function Call(m: Mem, op: Op): (c: Called)
    requires m.Ok() && OpOk(op)
    ensures c.mem.Some? ==> c.mem.value.Ok()
  {
    match op
    case Append(data) => Called(Some(AppendTo(m, data)), None)
    case Remove(n) => Called(Some(RemoveFrom(m, n)), None)
    case Clear => Called(Some(Cleared(m)), None)
    case Get(rule, prior) =>
      var r := ExtractFrom(m, rule, prior);
      match r.1
      case NoFrame => Called(Some(m), None)
      case Overrun => Called(None, None)
      case Frame(bytes, _) => Called(Some(r.0), Some(Taken(Cut(m.Text(), m.Data(), rule).value.start, bytes)))
  }

  /** What a session remembers of a call: appended bytes, and the place of a frame in the stream. */
  ghost function Note(s: Session, op: Op, c: Called): Session
    requires s.Live?
  {
    if c.mem.None? then Dead
    else
      Live(c.mem.value,
           s.stream + (if op.Append? then op.data else []),
           s.taken + (match c.frame
                      case None => []
                      case Some(f) => [Taken(|s.stream| - s.mem.len + f.start, f.bytes)]))
  }

  ghost function Step(s: Session, op: Op): (t: Session)
    requires s.Live? ==> s.mem.Ok()
    requires OpOk(op)
    ensures t.Live? ==> t.mem.Ok()
  {
    if s.Dead? then s else Note(s, op, Call(s.mem, op))
  }

  /**
   The buffer is the newest `len` bytes of the stream, and the frames are disjoint pieces of the
   stream in order, all of them in front of the buffered bytes.
   */
  ghost predicate WindowInvariant(s: Session, size: nat) {
    s.Live? ==>
      && s.mem.Ok() && |s.mem.buf| == size && s.mem.len <= |s.stream|
      && s.mem.Data() == s.stream[|s.stream| - s.mem.len..]
      && InOrder(s.taken, s.stream, |s.stream| - s.mem.len)
  }

  predicate IsPiece(f: Taken, stream: seq<byte>, limit: int) {
    && 0 <= f.start && f.start + |f.bytes| <= limit <= |stream|
    && stream[f.start..f.start + |f.bytes|] == f.bytes
  }

  ghost predicate InOrder(taken: seq<Taken>, stream: seq<byte>, limit: int) {
    && (forall i :: 0 <= i < |taken| ==> IsPiece(taken[i], stream, limit))
    && (forall i, j :: 0 <= i < j < |taken| ==> taken[i].start + |taken[i].bytes| <= taken[j].start)
  }

  lemma PieceMore(f: Taken, stream: seq<byte>, limit: int, more: seq<byte>, limit': int)
    requires IsPiece(f, stream, limit) && limit <= limit' <= |stream + more|
    ensures IsPiece(f, stream + more, limit')
  {
    assert (stream + more)[f.start..f.start + |f.bytes|] == stream[f.start..f.start + |f.bytes|];
  }

  lemma InOrderMore(taken: seq<Taken>, stream: seq<byte>, limit: int, more: seq<byte>, limit': int)
    requires InOrder(taken, stream, limit) && limit <= limit' <= |stream + more|
    ensures InOrder(taken, stream + more, limit')
  {
    forall i | 0 <= i < |taken| ensures IsPiece(taken[i], stream + more, limit') {
      PieceMore(taken[i], stream, limit, more, limit');
    }
  }

  lemma NewestOfStream(stream: seq<byte>, data: seq<byte>, len: nat, size: nat)
    requires len <= |stream|
    ensures var kept := Last(stream[|stream| - len..] + data, size);
            |kept| <= len + |data| && kept == (stream + data)[|stream| + |data| - |kept|..]
  {
    assert stream[|stream| - len..] + data == (stream + data)[|stream| - len..];
  }

  lemma GrowKeepsWindow(s: Session, t: Session, data: seq<byte>, size: nat)
    requires s.Live? && WindowInvariant(s, size)
    requires t.Live? && t.mem.Ok() && |t.mem.buf| == size && t.mem.Data() == Last(s.mem.Data() + data, size)
    requires t.stream == s.stream + data && t.taken == s.taken
    ensures WindowInvariant(t, size)
  {
    NewestOfStream(s.stream, data, s.mem.len, size);
    InOrderMore(s.taken, s.stream, |s.stream| - s.mem.len, data, |t.stream| - t.mem.len);
  }

  lemma ShrinkKeepsWindow(s: Session, t: Session, size: nat)
    requires s.Live? && WindowInvariant(s, size)
    requires t.Live? && t.mem.Ok() && |t.mem.buf| == size && t.mem.len <= s.mem.len
    requires t.mem.Data() == s.mem.Data()[s.mem.len - t.mem.len..]
    requires t.stream == s.stream && t.taken == s.taken
    ensures WindowInvariant(t, size)
  {
    InOrderLater(s.taken, s.stream, |s.stream| - s.mem.len, |t.stream| - t.mem.len);
    PieceOfSuffix(s.stream, |s.stream| - s.mem.len, s.mem.len - t.mem.len, s.mem.len);
  }

  /** A frame is the piece of the buffered bytes that the rule selected; what follows it stays. */
  lemma FrameIsPiece(m: Mem, rule: Rule, prior: int)
    requires m.Ok() && RuleOk(rule) && ExtractFrom(m, rule, prior).1.Frame?
    ensures var span := Cut(m.Text(), m.Data(), rule).value;
            var r := ExtractFrom(m, rule, prior);
            && span.start <= span.end <= m.len
            && r.1.bytes == m.Data()[span.start..span.end]
            && r.0.Data() == m.Data()[span.end..]
  {
    HandOutIsPiece(m, Cut(m.Text(), m.Data(), rule), rule, prior);
  }

  lemma HandOutIsPiece(m: Mem, found: Option<Span>, rule: Rule, prior: int)
    requires m.Ok() && found.Some? && found.value.start <= found.value.end
    requires (rule.NoRule? ==> found.value == Span(0, m.len)) && HandOut(m, found, rule, prior).1.Frame?
    ensures var r := HandOut(m, found, rule, prior);
            && found.value.end <= m.len
            && r.1.bytes == m.Data()[found.value.start..found.value.end]
            && r.0.Data() == m.Data()[found.value.end..]
  {
    if rule.NoRule? {
      assert m.Data()[0..m.len] == m.Data();
    }
  }

  lemma TakeKeepsWindow(s: Session, t: Session, start: nat, end: nat, size: nat)
    requires s.Live? && WindowInvariant(s, size) && start <= end <= s.mem.len
    requires t.Live? && t.mem.Ok() && |t.mem.buf| == size && t.mem.Data() == s.mem.Data()[end..]
    requires t.stream == s.stream
    requires t.taken == s.taken + [Taken(|s.stream| - s.mem.len + start, s.mem.Data()[start..end])]
    ensures WindowInvariant(t, size)
  {
    var base := |s.stream| - s.mem.len;
    var frame := Taken(base + start, s.mem.Data()[start..end]);
    assert |frame.bytes| == end - start && t.mem.len == s.mem.len - end;
    PieceOfSuffix(s.stream, base, start, end);
    InOrderPush(s.taken, s.stream, base, frame);
  }

  lemma PieceOfSuffix(stream: seq<byte>, base: nat, start: nat, end: nat)
    requires start <= end && base + end <= |stream|
    ensures stream[base..][start..end] == stream[base + start..base + end]
    ensures stream[base..][end..] == stream[base + end..]
  {
  }

  lemma InOrderPush(taken: seq<Taken>, stream: seq<byte>, limit: int, frame: Taken)
    requires InOrder(taken, stream, limit) && limit <= frame.start
    requires IsPiece(frame, stream, frame.start + |frame.bytes|)
    ensures InOrder(taken + [frame], stream, frame.start + |frame.bytes|)
  {
    InOrderMore(taken, stream, limit, [], frame.start + |frame.bytes|);
    assert stream + [] == stream;
  }

  lemma InOrderLater(taken: seq<Taken>, stream: seq<byte>, limit: int, limit': int)
    requires InOrder(taken, stream, limit) && limit <= limit' <= |stream|
    ensures InOrder(taken, stream, limit')
  {
    InOrderMore(taken, stream, limit, [], limit');
    assert stream + [] == stream;
  }

  lemma GetKeepsWindow(s: Session, rule: Rule, prior: int, size: nat)
    requires s.Live? && WindowInvariant(s, size) && RuleOk(rule)
    ensures WindowInvariant(Step(s, Get(rule, prior)), size)
  {
    var t := Step(s, Get(rule, prior));
    if ExtractFrom(s.mem, rule, prior).1.Frame? {
      var span := Cut(s.mem.Text(), s.mem.Data(), rule).value;
      FrameIsPiece(s.mem, rule, prior);
      assert |t.mem.buf| == |s.mem.buf|;
      TakeKeepsWindow(s, t, span.start, span.end, size);
    } else {
      assert t == s || t == Dead;
    }
  }

  lemma StepKeepsWindow(s: Session, op: Op, size: nat)
    requires WindowInvariant(s, size) && OpOk(op)
    ensures WindowInvariant(Step(s, op), size)
  {
    if s.Live? {
      match op
      case Append(data) =>
        AppendKeepsNewest(s.mem, data);
        GrowKeepsWindow(s, Step(s, op), data, size);
      case Remove(n) =>
        RemoveDropsOldest(s.mem, n);
        ShrinkKeepsWindow(s, Step(s, op), size);
      case Clear => ShrinkKeepsWindow(s, Step(s, op), size);
      case Get(rule, prior) => GetKeepsWindow(s, rule, prior, size);
    }
  }

  ghost function Run(s: Session, ops: seq<Op>): Session
    requires s.Live? ==> s.mem.Ok()
    requires forall op :: op in ops ==> OpOk(op)
    decreases |ops|
  {
    if ops == [] then s else Run(Step(s, ops[0]), ops[1..])
  }

  lemma {:induction false} RunKeepsWindow(s: Session, ops: seq<Op>, size: nat)
    requires WindowInvariant(s, size)
    requires forall op :: op in ops ==> OpOk(op)
    ensures WindowInvariant(Run(s, ops), size)
    decreases |ops|
  {
    if ops != [] {
      StepKeepsWindow(s, ops[0], size);
      RunKeepsWindow(Step(s, ops[0]), ops[1..], size);
    }
  }

  /** Everything the operations append. */
  function Appended(ops: seq<Op>): seq<byte> {
    if ops == [] then []
    else (if ops[0].Append? then ops[0].data else []) + Appended(ops[1..])
  }

  /** What the operations do to the memory, with no stream and no positions: no memory once the code overran. */
  datatype Outcome = Outcome(frames: seq<seq<byte>>, mem: Option<Mem>)

  function FrameBytes(c: Called): seq<seq<byte>> {
    if c.frame.None? then [] else [c.frame.value.bytes]
  }

  ghost function Operate(m: Mem, ops: seq<Op>): Outcome
    requires m.Ok() && forall op :: op in ops ==> OpOk(op)
    decreases |ops|
  {
    if ops == [] then Outcome([], Some(m))
    else
      var c := Call(m, ops[0]);
      if c.mem.None? then Outcome([], None)
      else
        var later := Operate(c.mem.value, ops[1..]);
        Outcome(FrameBytes(c) + later.frames, later.mem)
  }

  function BytesOf(taken: seq<Taken>): (r: seq<seq<byte>>)
    ensures |r| == |taken|
  {
    if taken == [] then [] else BytesOf(taken[..|taken| - 1]) + [taken[|taken| - 1].bytes]
  }

  lemma BytesMore(taken: seq<Taken>, f: Taken)
    ensures BytesOf(taken + [f]) == BytesOf(taken) + [f.bytes]
  {
    assert (taken + [f])[..|taken|] == taken;
  }

  lemma {:induction false} DeadStays(ops: seq<Op>)
    requires forall op :: op in ops ==> OpOk(op)
    ensures Run(Dead, ops) == Dead
    decreases |ops|
  {
    if ops != [] { DeadStays(ops[1..]); }
  }

  /** What a session records is what was appended and what was handed out. */
  ghost predicate Records(s: Session, ops: seq<Op>, t: Session)
    requires s.Live? && s.mem.Ok() && forall op :: op in ops ==> OpOk(op)
  {
    var o := Operate(s.mem, ops);
    if t.Dead? then o.mem.None?
    else
      && o.mem == Some(t.mem)
      && t.stream == s.stream + Appended(ops)
      && BytesOf(t.taken) == BytesOf(s.taken) + o.frames
  }

  lemma {:induction false} RunRecords(s: Session, ops: seq<Op>)
    requires s.Live? && s.mem.Ok() && forall op :: op in ops ==> OpOk(op)
    ensures Records(s, ops, Run(s, ops))
    decreases |ops|
  {
    if ops == [] {
      assert s.stream + Appended(ops) == s.stream && BytesOf(s.taken) + [] == BytesOf(s.taken);
    } else {
      var c := Call(s.mem, ops[0]);
      var s' := Note(s, ops[0], c);
      if c.mem.None? {
        DeadStays(ops[1..]);
      } else {
        RunRecords(s', ops[1..]);
        NoteRecords(s, ops[0], c, Appended(ops[1..]), Operate(s'.mem, ops[1..]).frames);
      }
    }
  }

  lemma NoteRecords(s: Session, op: Op, c: Called, later: seq<byte>, frames: seq<seq<byte>>)
    requires s.Live? && c.mem.Some?
    ensures Note(s, op, c).stream + later == s.stream + ((if op.Append? then op.data else []) + later)
    ensures BytesOf(Note(s, op, c).taken) + frames == BytesOf(s.taken) + (FrameBytes(c) + frames)
  {
    var data := if op.Append? then op.data else [];
    assert (s.stream + data) + later == s.stream + (data + later);
    assert (BytesOf(s.taken) + FrameBytes(c)) + frames == BytesOf(s.taken) + (FrameBytes(c) + frames);
    if c.frame.Some? {
      BytesMore(s.taken, Note(s, op, c).taken[|s.taken|]);
    } else {
      assert s.taken + [] == s.taken;
      assert BytesOf(s.taken) + [] == BytesOf(s.taken);
    }
  }

  /**
   From creation on, whatever is called: unless the code overran, the stream is everything appended, the
   buffer is its window, and the frames handed out are disjoint pieces of it in order.
   */
  lemma EveryRunIsAWindow(bufferSize: int, ops: seq<Op>)
    requires forall op :: op in ops ==> OpOk(op)
    ensures var s, o := Run(Live(Create(bufferSize), [], []), ops), Operate(Create(bufferSize), ops);
            if s.Dead? then o.mem.None?
            else
              && o.mem == Some(s.mem) && s.stream == Appended(ops) && BytesOf(s.taken) == o.frames
              && WindowInvariant(s, |Create(bufferSize).buf|)
  {
    RunKeepsWindow(Live(Create(bufferSize), [], []), ops, |Create(bufferSize).buf|);
    RunRecords(Live(Create(bufferSize), [], []), ops);
    assert [] + Appended(ops) == Appended(ops);
    var frames := Operate(Create(bufferSize), ops).frames;
    assert BytesOf([]) + frames == frames;
  }

  // ---------- draining the real memory ----------

  /** Call bGetDataByRule until it stops producing frames; `overran` tells how the last call ended. */
  datatype Drained = Drained(frames: seq<seq<byte>>, mem: Mem, overran: bool)

  /** Rules whose calls can be repeated until they fail. A head-and-length frame contains its head. */
  ghost predicate Repeatable(rule: Rule) {
    StreamRule(rule) && MarkersOk(rule) && (rule.HeadLen? ==> |rule.head| <= rule.n)
  }

  lemma RepeatableOk(m: Mem, rule: Rule)
    requires m.Ok() && Repeatable(rule)
    ensures RuleOk(rule)
    ensures Cut(m.Text(), m.Data(), rule).Some? ==> 0 < Cut(m.Text(), m.Data(), rule).value.end
  {
    if rule.Custom? {
      forall d: seq<byte> | rule.matcher(d).Some?
        ensures 0 < rule.matcher(d).value.end
        ensures rule.matcher(d).value.start <= rule.matcher(d).value.end <= |d|
      {
        assert Extends(d, d);
      }
    }
  }

  ghost function DrainMemory(m: Mem, rule: Rule, prior: int): (r: Drained)
    requires m.Ok() && Repeatable(rule)
    ensures r.mem.Ok() && |r.mem.buf| == |m.buf|
    decreases m.len
  {
    RepeatableOk(m, rule);
    var r := ExtractFrom(m, rule, prior);
    match r.1
    case NoFrame => Drained([], m, false)
    case Overrun => Drained([], m, true)
    case Frame(bytes, _) =>
      var rest := DrainMemory(r.0, rule, prior);
      rest.(frames := [bytes] + rest.frames)
  }

  /**
   The bytes behind the residue when draining stops: every shift leaves the last bytes of the old
   data there, in front of what was there before.
   */
  ghost function StaleAfter(data: seq<byte>, behind: seq<byte>, next: Extractor): (r: seq<byte>)
    requires Streaming(next)
    decreases |data|
  {
    assert Extends(data, data);
    match next(data)
    case None => behind
    case Some(span) => StaleAfter(data[span.end..], data[|data| - span.end..] + behind, next)
  }

  /** The code finds something in a block of `residue` and stale bytes. */
  predicate Rematches(residue: seq<byte>, stale: seq<byte>, rule: Rule) {
    Cut(Mem(residue + stale, |residue|).Text(), residue, rule).Some?
  }

  /**
   On NUL-free data the code delivers exactly the promised frames and leaves exactly the promised
   residue. Only the last call can differ: it overruns instead of failing iff residue and stale bytes,
   which the data before the calls determine, hold another match; with a length rule they never do.
   */
  lemma DrainMemoryIsDrain(m: Mem, rule: Rule, prior: int)
    requires m.Ok() && Repeatable(rule) && 0 !in m.Data()
    ensures Streaming(ByRule(rule))
    ensures var r := DrainMemory(m, rule, prior);
            var residue := Drain(m.Data(), ByRule(rule)).1;
            var stale := StaleAfter(m.Data(), m.buf[m.len..], ByRule(rule));
            && r.frames == Drain(m.Data(), ByRule(rule)).0
            && r.mem == Mem(residue + stale, |residue|)
            && (r.overran <==> Rematches(residue, stale, rule))
            && (r.overran ==> rule.HeadTail? || rule.TailOnly?)
  {
    DrainFrames(m, rule, prior);
    DrainLeaves(m, rule, prior);
    var r := DrainMemory(m, rule, prior);
    var residue := Drain(m.Data(), ByRule(rule)).1;
    assert r.mem == Mem(residue + StaleAfter(m.Data(), m.buf[m.len..], ByRule(rule)), |residue|);
  }

  lemma {:induction false} DrainFrames(m: Mem, rule: Rule, prior: int)
    requires m.Ok() && Repeatable(rule) && 0 !in m.Data()
    ensures Streaming(ByRule(rule))
    ensures var r := DrainMemory(m, rule, prior);
            && (r.frames, r.mem.Data()) == Drain(m.Data(), ByRule(rule))
            && (r.overran <==> Cut(r.mem.Text(), r.mem.Data(), rule).Some?)
            && (r.overran ==> rule.HeadTail? || rule.TailOnly?)
    decreases m.len
  {
    RulesStream(rule);
    RepeatableOk(m, rule);
    CallOnText(m, rule, prior);
    var r := ExtractFrom(m, rule, prior);
    if r.1.Frame? {
      FrameIsPiece(m, rule, prior);
      NoNulBehind(m, FrameOf(m.Data(), rule).value.end);
      DrainFrames(r.0, rule, prior);
    }
  }

  /** A shift leaves the last bytes of the data where they were. */
  lemma ShiftLeaves(m: Mem, from: nat)
    requires m.Ok() && from <= m.len
    ensures var t := DropFront(m, from);
            t.buf == t.Data() + t.buf[t.len..] && t.buf[t.len..] == m.Data()[m.len - from..] + m.buf[m.len..]
  {
  }

  lemma DrainNext(m: Mem, rule: Rule, prior: int, t: Mem)
    requires m.Ok() && Repeatable(rule) && RuleOk(rule)
    requires ExtractFrom(m, rule, prior).1.Frame? && t == ExtractFrom(m, rule, prior).0
    ensures DrainMemory(m, rule, prior).mem == DrainMemory(t, rule, prior).mem
  {
  }

  lemma {:induction false} DrainLeaves(m: Mem, rule: Rule, prior: int)
    requires m.Ok() && Repeatable(rule) && 0 !in m.Data() && Streaming(ByRule(rule))
    ensures DrainMemory(m, rule, prior).mem.buf
         == Drain(m.Data(), ByRule(rule)).1 + StaleAfter(m.Data(), m.buf[m.len..], ByRule(rule))
    decreases m.len
  {
    RepeatableOk(m, rule);
    CallOnText(m, rule, prior);
    var t := ExtractFrom(m, rule, prior).0;
    if ExtractFrom(m, rule, prior).1.Frame? {
      FrameLeaves(m, rule, prior);
      DrainNext(m, rule, prior, t);
      DrainLeaves(t, rule, prior);
      StaleStep(m.Data(), m.buf[m.len..], ByRule(rule), t.Data(), t.buf[t.len..]);
    } else {
      assert m.buf == m.Data() + m.buf[m.len..];
    }
  }

  /** What a delivered frame leaves in the block, in terms of the promised frame. */
  lemma FrameLeaves(m: Mem, rule: Rule, prior: int)
    requires m.Ok() && Repeatable(rule) && RuleOk(rule) && 0 !in m.Data()
    requires ExtractFrom(m, rule, prior).1.Frame?
    ensures FrameOf(m.Data(), rule).Some?
    ensures var end, t := FrameOf(m.Data(), rule).value.end, ExtractFrom(m, rule, prior).0;
            && 0 < end <= m.len && t.len < m.len
            && t.Data() == m.Data()[end..] && 0 !in t.Data()
            && t.buf[t.len..] == m.Data()[m.len - end..] + m.buf[m.len..]
  {
    CallOnText(m, rule, prior);
    RepeatableOk(m, rule);
    FrameIsPiece(m, rule, prior);
    NoNulBehind(m, FrameOf(m.Data(), rule).value.end);
    ShiftLeaves(m, FrameOf(m.Data(), rule).value.end);
  }

  lemma StaleStep(data: seq<byte>, behind: seq<byte>, next: Extractor, data': seq<byte>, behind': seq<byte>)
    requires Streaming(next) && next(data).Some?
    requires Extends(data, data) && data' == data[next(data).value.end..]
    requires behind' == data[|data| - next(data).value.end..] + behind
    ensures Drain(data, next).1 == Drain(data', next).1
    ensures StaleAfter(data, behind, next) == StaleAfter(data', behind', next)
  {
  }

  lemma NoNulBehind(m: Mem, n: nat)
    requires m.Ok() && n <= m.len && 0 !in m.Data()
    ensures 0 !in m.Data()[n..]
  {
  }

  /** One call on NUL-free data: the promised frame, or nothing is promised and the call fails or overruns. */
  lemma CallOnText(m: Mem, rule: Rule, prior: int)
    requires m.Ok() && Repeatable(rule) && RuleOk(rule) && 0 !in m.Data()
    ensures ExtractFrom(m, rule, prior).1.Frame? <==> FrameOf(m.Data(), rule).Some?
    ensures ExtractFrom(m, rule, prior).1.Frame? ==>
              Cut(m.Text(), m.Data(), rule) == FrameOf(m.Data(), rule)
    ensures ExtractFrom(m, rule, prior).1 == Overrun ==> rule.HeadTail? || rule.TailOnly?
  {
    TextNeedsOnlyTheGuard(m, rule);
    SearchIsPromisedIff(m, rule);
    OverrunOnText(m, rule);
  }

  /** ... and hands out exactly the bytes of that frame and keeps exactly those behind it. */
  lemma FrameOnText(m: Mem, rule: Rule, prior: int)
    requires m.Ok() && Repeatable(rule) && RuleOk(rule) && 0 !in m.Data()
    requires ExtractFrom(m, rule, prior).1.Frame?
    ensures FrameOf(m.Data(), rule).Some?
    ensures var r, span := ExtractFrom(m, rule, prior), FrameOf(m.Data(), rule).value;
            && span.start <= span.end <= m.len
            && r.1.bytes == m.Data()[span.start..span.end] && r.0.Data() == m.Data()[span.end..]
  {
    CallOnText(m, rule, prior);
    FrameIsPiece(m, rule, prior);
  }

  /** Without a rule everything buffered is handed out, and the whole block is cleared. */
  lemma NoRuleTakesAll(m: Mem, prior: int)
    requires m.Ok()
    ensures var r := ExtractFrom(m, NoRule, prior);
            && r.1 == Frame(m.Data(), m.len) && r.0.len == 0 && |r.0.buf| == |m.buf|
            && forall i :: 0 <= i < |m.buf| ==> r.0.buf[i] == 0
  {
  }

  lemma OverrunOnText(m: Mem, rule: Rule)
    requires m.Ok() && Repeatable(rule) && RuleOk(rule) && 0 !in m.Data()
    ensures ExtractFrom(m, rule, 0).1 == Overrun ==> FrameOf(m.Data(), rule).None?
  {
    StrEndBehind(m.buf, m.len);
    match rule
    case HeadTail(head, tail) =>
      HeadTailInPrefix(m.buf, head, tail, m.len);
      HeadTailInPrefix(m.buf, head, tail, StrEnd(m.buf));
    case TailOnly(tail) =>
      FindInPrefix(m.buf, tail, 0, m.len);
      FindInPrefix(m.buf, tail, 0, StrEnd(m.buf));
    case _ =>
      TextNeedsOnlyTheGuard(m, rule);
      SearchIsPromisedIff(m, rule);
  }

  /** The family that dies: whenever a marked frame uses up the buffer, the next call overruns. */
  lemma EmptyResidueOverruns(m: Mem, rule: Rule, prior: int)
    requires m.Ok() && Repeatable(rule) && (rule.HeadTail? || rule.TailOnly?)
    requires RuleOk(rule) && ExtractFrom(m, rule, prior).1.Frame? && ExtractFrom(m, rule, prior).0.len == 0
    ensures ExtractFrom(ExtractFrom(m, rule, prior).0, rule, prior).1 == Overrun
  {
    var m' := ExtractFrom(m, rule, prior).0;
    assert m'.buf == m.buf;
  }

  /** So draining dies on every non-empty NUL-free buffer that its frames use up exactly. */
  lemma {:induction false} UsedUpOverruns(m: Mem, rule: Rule, prior: int)
    requires m.Ok() && Repeatable(rule) && (rule.HeadTail? || rule.TailOnly?)
    requires 0 !in m.Data() && m.len > 0
    requires Streaming(ByRule(rule)) && Drain(m.Data(), ByRule(rule)).1 == []
    ensures DrainMemory(m, rule, prior).overran
    decreases m.len
  {
    RepeatableOk(m, rule);
    CallOnText(m, rule, prior);
    FrameIsPiece(m, rule, prior);
    var m' := ExtractFrom(m, rule, prior).0;
    if m'.len == 0 {
      EmptyResidueOverruns(m, rule, prior);
    } else {
      UsedUpOverruns(m', rule, prior);
    }
  }

  /** Framed text appended to a fresh buffer: every frame comes back in order, then the code overruns. */
  lemma DeframingOnMemory(bodies: seq<seq<byte>>, head: seq<byte>, tail: seq<byte>, size: nat, prior: int)
    requires |head| + |tail| > 0 && bodies != []
    requires forall b :: b in bodies ==> Encodable(b, tail)
    requires |Encode(bodies, head, tail)| <= size && 0 !in Encode(bodies, head, tail)
    ensures var r := DrainMemory(AppendTo(Create(size), Encode(bodies, head, tail)), HeadTail(head, tail), prior);
            r.frames == Framed(bodies, head, tail) && r.mem.len == 0 && r.overran
  {
    var stream := Encode(bodies, head, tail);
    var m := AppendTo(Create(size), stream);
    AppendKeepsNewest(Create(size), stream);
    assert m.Data() == stream;
    DeframingUndoesFraming(bodies, head, tail);
    DrainMemoryIsDrain(m, HeadTail(head, tail), prior);
    UsedUpOverruns(m, HeadTail(head, tail), prior);
  }

  // ---------- feeding the real memory chunk by chunk ----------

  datatype Fed = Fed(frames: seq<seq<byte>>, mem: Mem, overran: bool, evicted: bool)

  ghost function FeedMemory(m: Mem, chunks: seq<seq<byte>>, rule: Rule, prior: int): (r: Fed)
    requires m.Ok() && Repeatable(rule)
    ensures r.mem.Ok()
    decreases |chunks|
  {
    if chunks == [] then Fed([], m, false, false)
    else
      var now := DrainMemory(AppendTo(m, chunks[0]), rule, prior);
      var evicts := m.len + |chunks[0]| > |m.buf|;
      if now.overran then Fed(now.frames, now.mem, true, evicts)
      else
        var later := FeedMemory(now.mem, chunks[1..], rule, prior);
        Fed(now.frames + later.frames, later.mem, later.overran, evicts || later.evicted)
  }

  /**
   What has to hold of the buffer and the chunks for the code to keep its promise: each chunk fits
   behind what is left of the earlier ones, and each time the drained block holds no further match.
   */
  ghost predicate Clean(held: seq<byte>, stale: seq<byte>, chunks: seq<seq<byte>>, rule: Rule)
    requires Streaming(ByRule(rule))
    decreases |chunks|
  {
    chunks != [] ==>
      && |chunks[0]| <= |stale|
      && var data := held + chunks[0];
         var residue := Drain(data, ByRule(rule)).1;
         var left := StaleAfter(data, stale[|chunks[0]|..], ByRule(rule));
         !Rematches(residue, left, rule) && Clean(residue, left, chunks[1..], rule)
  }

  lemma AppendLeaves(m: Mem, data: seq<byte>)
    requires m.Ok() && m.len + |data| <= |m.buf|
    ensures var t := AppendTo(m, data);
            t.Data() == m.Data() + data && t.buf[t.len..] == m.buf[m.len..][|data|..]
  {
  }

  /** What one chunk does when it fits. */
  lemma FeedOne(m: Mem, chunk: seq<byte>, rule: Rule, prior: int)
    requires m.Ok() && Repeatable(rule) && 0 !in m.Data() + chunk && m.len + |chunk| <= |m.buf|
    ensures Streaming(ByRule(rule))
    ensures var now := DrainMemory(AppendTo(m, chunk), rule, prior);
            var residue := Drain(m.Data() + chunk, ByRule(rule)).1;
            var left := StaleAfter(m.Data() + chunk, m.buf[m.len..][|chunk|..], ByRule(rule));
            && now.frames == Drain(m.Data() + chunk, ByRule(rule)).0
            && now.mem.Data() == residue && now.mem.buf[now.mem.len..] == left
            && 0 !in residue
            && (now.overran <==> Rematches(residue, left, rule))
            && (now.overran ==> rule.HeadTail? || rule.TailOnly?)
  {
    AppendLeaves(m, chunk);
    DrainMemoryIsDrain(AppendTo(m, chunk), rule, prior);
    ResidueNoNul(m.Data() + chunk, ByRule(rule));
  }

  /** Feeding stays free of evictions and overruns exactly on clean input; a length rule never overruns. */
  lemma {:induction false} CleanIff(m: Mem, chunks: seq<seq<byte>>, rule: Rule, prior: int)
    requires m.Ok() && Repeatable(rule) && 0 !in m.Data() + Flatten(chunks)
    ensures Streaming(ByRule(rule))
    ensures var r := FeedMemory(m, chunks, rule, prior);
            && (!r.overran && !r.evicted <==> Clean(m.Data(), m.buf[m.len..], chunks, rule))
            && (r.overran && !r.evicted ==> rule.HeadTail? || rule.TailOnly?)
    decreases |chunks|
  {
    RulesStream(rule);
    if chunks != [] && m.len + |chunks[0]| <= |m.buf| {
      FeedOne(m, chunks[0], rule, prior);
      var now := DrainMemory(AppendTo(m, chunks[0]), rule, prior);
      if !now.overran {
        CleanIff(now.mem, chunks[1..], rule, prior);
      }
    }
  }

  lemma {:induction false} FeedsAlike(m: Mem, chunks: seq<seq<byte>>, rule: Rule, prior: int)
    requires m.Ok() && Repeatable(rule) && 0 !in m.Data() + Flatten(chunks)
    requires Streaming(ByRule(rule)) && Clean(m.Data(), m.buf[m.len..], chunks, rule)
    ensures var r := FeedMemory(m, chunks, rule, prior);
            && !r.overran && !r.evicted
            && (r.frames, r.mem.Data()) == Feed(m.Data(), chunks, ByRule(rule))
    decreases |chunks|
  {
    if chunks != [] {
      FeedOne(m, chunks[0], rule, prior);
      FeedsAlike(DrainMemory(AppendTo(m, chunks[0]), rule, prior).mem, chunks[1..], rule, prior);
    }
  }

  /**
   Chunking independence of the code itself: on clean NUL-free input every split gives the frames and
   the residue of the unsplit stream.
   */
  lemma FeedMemoryIsDrain(m: Mem, chunks: seq<seq<byte>>, rule: Rule, prior: int)
    requires m.Ok() && Repeatable(rule) && 0 !in m.Data() + Flatten(chunks)
    requires Streaming(ByRule(rule)) && Clean(m.Data(), m.buf[m.len..], chunks, rule)
    requires FrameOf(m.Data(), rule).None?
    ensures var r := FeedMemory(m, chunks, rule, prior);
            && !r.overran && !r.evicted
            && (r.frames, r.mem.Data()) == Drain(m.Data() + Flatten(chunks), ByRule(rule))
  {
    FeedsAlike(m, chunks, rule, prior);
    ChunkingIndependence(m.Data(), chunks, ByRule(rule));
  }

  lemma {:induction false} ResidueNoNul(s: seq<byte>, next: Extractor)
    requires Streaming(next) && 0 !in s
    ensures 0 !in Drain(s, next).1
    decreases |s|
  {
    assert Extends(s, s);
    if next(s).Some? {
      ResidueNoNul(s[next(s).value.end..], next);
    }
  }
}

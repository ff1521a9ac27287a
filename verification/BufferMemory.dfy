/**
 What each OBuffer operation does to the whole memory block: the `len` buffered bytes and the stale
 bytes behind them, which strstr still sees. The class OBuffer is proved equal to these functions;
 the theorems about windows, frames and runs are proved here.
 */
module BufferMemory {
  import opened CStrings
  import opened Wrappers
  import opened FrameRules

  datatype Mem = Mem(buf: seq<byte>, len: int) {
    predicate Ok() { 0 <= len <= |buf| }

    /** The buffered bytes. */
    function Data(): seq<byte>
      requires Ok()
    {
      buf[..len]
    }

    /** The C string a search starts on: everything before the first NUL of the block. */
    function Text(): seq<byte> { buf[..StrEnd(buf)] }
  }

  function Splice(buf: seq<byte>, at: nat, src: seq<byte>): (r: seq<byte>)
    requires at + |src| <= |buf|
    ensures |r| == |buf|
  {
    buf[..at] + src + buf[at + |src|..]
  }

  function Zeros(n: nat): (r: seq<byte>)
    ensures |r| == n && forall i :: 0 <= i < n ==> r[i] == 0
  {
    seq(n, _ => 0)
  }

  function Create(bufferSize: int): (m: Mem)
    ensures m.Ok()
  {
    Mem(Zeros(if bufferSize < 0 then 1024 else bufferSize), 0)
  }

  /** Keep the bytes [from, len) and move them to the front; what they leave behind stays. */
  function DropFront(m: Mem, from: nat): (r: Mem)
    requires m.Ok() && from <= m.len
    ensures r.Ok() && |r.buf| == |m.buf| && r.Data() == m.Data()[from..]
  {
    var r := Mem(Splice(m.buf, 0, m.buf[from..m.len]), m.len - from);
    assert r.buf[..r.len] == m.buf[from..m.len];
    r
  }

  /** The header promises 1024 bytes for a size that is not positive; 0 is the one size for which the code differs. */
  lemma DefaultSizeIff(bufferSize: int)
    ensures |Create(bufferSize).buf| == (if bufferSize <= 0 then 1024 else bufferSize) <==> bufferSize != 0
    ensures |Create(0).buf| == 0
  {
  }

  function AppendTo(m: Mem, data: seq<byte>): (r: Mem)
    requires m.Ok()
    ensures r.Ok() && |r.buf| == |m.buf|
  {
    var size := |m.buf|;
    if |data| > size then
      Mem(Splice(m.buf, 0, data[|data| - size..]), size)
    else
      var remain := size - m.len;
      var room := if remain < |data| then DropFront(m, |data| - remain) else m;
      Mem(Splice(room.buf, room.len, data), room.len + |data|)
  }

  function RemoveFrom(m: Mem, n: nat): (r: Mem)
    requires m.Ok()
    ensures r.Ok() && |r.buf| == |m.buf|
  {
    if n > m.len then Mem(Splice(m.buf, 0, Zeros(m.len)), 0) else DropFront(m, n)
  }

  function Cleared(m: Mem): (r: Mem)
    ensures r.Ok() && |r.buf| == |m.buf|
  {
    Mem(Zeros(|m.buf|), 0)
  }

  /**
   The outcomes of bGetDataByRule. `Overrun` is a match that reaches past the buffered bytes: the code
   then makes the length negative and hands it to memcpy. `reported` is what the caller reads in
   out->len, which R_TAIL_ONLY leaves at its previous value.
   */
  datatype Extraction = NoFrame | Frame(bytes: seq<byte>, reported: int) | Overrun

  function ExtractFrom(m: Mem, rule: Rule, prior: int): (r: (Mem, Extraction))
    requires m.Ok() && RuleOk(rule)
    ensures r.0.Ok() && |r.0.buf| == |m.buf|
  {
    HandOut(m, Cut(m.Text(), m.Data(), rule), rule, prior)
  }

  function HandOut(m: Mem, found: Option<Span>, rule: Rule, prior: int): (r: (Mem, Extraction))
    requires m.Ok() && (found.Some? ==> found.value.start <= found.value.end)
    ensures r.0.Ok() && |r.0.buf| == |m.buf|
  {
    match found
    case None => (m, NoFrame)
    case Some(span) =>
      if rule.NoRule? then (Cleared(m), Frame(m.Data(), m.len))
      else if span.end > m.len then (m, Overrun)
      else
        var bytes := m.buf[span.start..span.end];
        (DropFront(m, span.end), Frame(bytes, if rule.TailOnly? then prior else |bytes|))
  }

  /** The caller reads the right length except, in general, from a tail rule. */
  lemma ReportedLengthIff(m: Mem, rule: Rule, prior: int)
    requires m.Ok() && RuleOk(rule) && ExtractFrom(m, rule, prior).1.Frame?
    ensures var frame := ExtractFrom(m, rule, prior).1;
            frame.reported == |frame.bytes| <==> !rule.TailOnly? || prior == |frame.bytes|
  {
  }

  // ---------- the window ----------

  function Last(s: seq<byte>, n: nat): (r: seq<byte>)
    ensures |r| == (if |s| <= n then |s| else n) && r == s[|s| - |r|..]
  {
    if |s| <= n then s else s[|s| - n..]
  }

  lemma SpliceAppends(m: Mem, data: seq<byte>)
    requires m.Ok() && m.len + |data| <= |m.buf|
    ensures Splice(m.buf, m.len, data)[..m.len + |data|] == m.Data() + data
  {
  }

  lemma LastOfShifted(s: seq<byte>, data: seq<byte>, n: nat)
    requires |data| <= n < |s| + |data|
    ensures Last(s + data, n) == s[|s| + |data| - n..] + data
  {
  }

  /** Appending keeps as much of the newest data as fits, in all three branches of bAppend. */
  lemma AppendKeepsNewest(m: Mem, data: seq<byte>)
    requires m.Ok()
    ensures AppendTo(m, data).Data() == Last(m.Data() + data, |m.buf|)
  {
    if |data| > |m.buf| {
      AppendReplaces(m, data);
    } else if |m.buf| - m.len < |data| {
      AppendShifts(m, data);
    } else {
      SpliceAppends(m, data);
    }
  }

  lemma AppendReplaces(m: Mem, data: seq<byte>)
    requires m.Ok() && |data| > |m.buf|
    ensures AppendTo(m, data).Data() == Last(m.Data() + data, |m.buf|)
  {
    LastOfLonger(m.Data(), data, |m.buf|);
    assert AppendTo(m, data).Data() == data[|data| - |m.buf|..];
  }

  lemma LastOfLonger(s: seq<byte>, data: seq<byte>, n: nat)
    requires n < |data|
    ensures Last(s + data, n) == data[|data| - n..]
  {
  }

  lemma AppendShifts(m: Mem, data: seq<byte>)
    requires m.Ok() && |m.buf| - m.len < |data| <= |m.buf|
    ensures AppendTo(m, data).Data() == Last(m.Data() + data, |m.buf|)
  {
    var room := DropFront(m, |data| - (|m.buf| - m.len));
    SpliceAppends(room, data);
    LastOfShifted(m.Data(), data, |m.buf|);
  }

  lemma AppendKeepsBehind(m: Mem, data: seq<byte>)
    requires m.Ok()
    ensures var t := AppendTo(m, data); forall i :: t.len <= i < |t.buf| ==> t.buf[i] == m.buf[i]
  {
  }

  lemma RemoveDropsOldest(m: Mem, n: nat)
    requires m.Ok()
    ensures RemoveFrom(m, n).Data() == if n > m.len then [] else m.Data()[n..]
  {
  }

  lemma RemoveBytes(m: Mem, n: nat)
    requires m.Ok()
    ensures var t := RemoveFrom(m, n);
            forall i :: 0 <= i < |t.buf| ==>
              t.buf[i] == if n > m.len then (if i < m.len then 0 else m.buf[i])
                          else if i < t.len then m.buf[i + n] else m.buf[i]
  {
  }

  // ---------- when the code's search is the promised one ----------

  /** The end of what a search has to recognise: the last marker of the piece. */
  function MarkEnd(span: Span, rule: Rule): nat {
    match rule
    case HeadTail(_, _) => span.end
    case TailOnly(_) => span.end
    case HeadLen(head, _) => span.start + |head|
    case _ => 0
  }

  /** No match in stale bytes behind the data, and no promised match hidden behind a NUL. */
  predicate SearchFits(m: Mem, rule: Rule)
    requires m.Ok()
  {
    && (var found := Cut(m.Text(), m.Data(), rule); found.Some? ==> MarkEnd(found.value, rule) <= m.len)
    && (var meant := FrameOf(m.Data(), rule); meant.Some? ==> MarkEnd(meant.value, rule) <= StrEnd(m.buf))
  }

  lemma FindInBoth(m: Mem, p: seq<byte>, from: nat)
    requires m.Ok()
    ensures match Find(m.Text(), p, from)
            case Some(i) => i + |p| <= m.len ==> Find(m.Data(), p, from) == Some(i)
            case None => true
    ensures match Find(m.Data(), p, from)
            case Some(i) => i + |p| <= StrEnd(m.buf) ==> Find(m.Text(), p, from) == Some(i)
            case None => true
  {
    FindInPrefix(m.buf, p, from, m.len);
    FindInPrefix(m.buf, p, from, StrEnd(m.buf));
  }

  /** Exactly when a call searches what the header says it searches: every memory, every rule. */
  lemma SearchIsPromisedIff(m: Mem, rule: Rule)
    requires m.Ok() && RuleOk(rule)
    ensures Cut(m.Text(), m.Data(), rule) == FrameOf(m.Data(), rule) <==> SearchFits(m, rule)
  {
    match rule
    case HeadTail(head, tail) => HeadTailPromisedIff(m, head, tail);
    case HeadLen(head, n) => HeadLenPromisedIff(m, head, n);
    case TailOnly(tail) => FindInBoth(m, tail, 0);
    case _ =>
  }

  lemma HeadLenPromisedIff(m: Mem, head: seq<byte>, n: nat)
    requires m.Ok()
    ensures Cut(m.Text(), m.Data(), HeadLen(head, n)) == FrameOf(m.Data(), HeadLen(head, n))
            <==> SearchFits(m, HeadLen(head, n))
  {
    FindInBoth(m, head, 0);
  }

  /** A prefix holds the first frame of the whole exactly if that frame ends inside the prefix. */
  lemma HeadTailInPrefix(s: seq<byte>, head: seq<byte>, tail: seq<byte>, n: nat)
    requires n <= |s|
    ensures HeadTailCut(s[..n], head, tail)
         == match HeadTailCut(s, head, tail)
            case Some(span) => if span.end <= n then Some(span) else None
            case None => None
  {
    FindInPrefix(s, head, 0, n);
    var h := Find(s, head, 0);
    if h.Some? {
      FindInPrefix(s, tail, h.value + |head|, n);
    }
  }

  lemma HeadTailPromisedIff(m: Mem, head: seq<byte>, tail: seq<byte>)
    requires m.Ok()
    ensures Cut(m.Text(), m.Data(), HeadTail(head, tail)) == FrameOf(m.Data(), HeadTail(head, tail))
            <==> SearchFits(m, HeadTail(head, tail))
  {
    HeadTailInPrefix(m.buf, head, tail, m.len);
    HeadTailInPrefix(m.buf, head, tail, StrEnd(m.buf));
  }

  /** Without NUL bytes in the data the only way to go wrong is a match that ends in stale bytes. */
  lemma TextNeedsOnlyTheGuard(m: Mem, rule: Rule)
    requires m.Ok() && 0 !in m.Data() && RuleOk(rule)
    ensures m.len <= StrEnd(m.buf)
    ensures rule.HeadTail? || rule.TailOnly? ==>
              (SearchFits(m, rule) <==> ExtractFrom(m, rule, 0).1 != Overrun)
    ensures rule.HeadLen? && |rule.head| <= rule.n ==> SearchFits(m, rule)
  {
    StrEndBehind(m.buf, m.len);
    MarkInside(m.Data(), rule);
  }

  lemma MarkInside(data: seq<byte>, rule: Rule)
    requires RuleOk(rule)
    ensures FrameOf(data, rule).Some? ==> MarkEnd(FrameOf(data, rule).value, rule) <= |data|
  {
  }

  /** Nothing but zeros behind the data: the state after creation and bClear. */
  predicate ZeroTail(m: Mem)
    requires m.Ok()
  {
    forall i :: m.len <= i < |m.buf| ==> m.buf[i] == 0
  }

  /** Appends, with or without eviction, and failed extractions keep the tail zero... */
  lemma ZeroTailKept(m: Mem, data: seq<byte>, rule: Rule, prior: int)
    requires m.Ok() && ZeroTail(m) && RuleOk(rule)
    ensures ZeroTail(AppendTo(m, data)) && ZeroTail(Cleared(m))
    ensures ExtractFrom(m, rule, prior).1 == NoFrame ==> ZeroTail(ExtractFrom(m, rule, prior).0)
  {
    assert ZeroTail(AppendTo(m, data));
  }

  /** ...so the first frame taken after a bClear is the promised one. */
  lemma ZeroTailSearchFits(m: Mem, rule: Rule)
    requires m.Ok() && ZeroTail(m) && 0 !in m.Data() && RuleOk(rule)
    ensures m.Text() == m.Data() && SearchFits(m, rule)
  {
    StrEndBehind(m.buf, m.len);
    if m.len < |m.buf| { StrEndBefore(m.buf, m.len); }
    SearchIsPromisedIff(m, rule);
  }
}

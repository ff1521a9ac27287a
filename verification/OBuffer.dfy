/** The OBuffer object: a fixed memory block, its length, and the in-place operations of OBuffer.c. */
module OBuffers {
  import opened CStrings
  import opened Wrappers
  import opened FrameRules
  import opened BufferMemory

  class OBuffer {
    const buf: array<byte>
    var len: int

    ghost predicate Valid()
      reads this
    {
      0 <= len <= buf.Length
    }

    ghost function View(): Mem
      reads this, buf
    {
      Mem(buf[..], len)
    }

    constructor (bufferSize: int)
      ensures Valid() && fresh(buf) && View() == Create(bufferSize)
      ensures buf.Length == (if bufferSize < 0 then 1024 else bufferSize) && len == 0
      ensures forall i :: 0 <= i < buf.Length ==> buf[i] == 0
    {
      var size := if bufferSize < 0 then 1024 else bufferSize;
      buf := new byte[size](_ => 0);
      len := 0;
      new;
      assert buf[..] == Zeros(size);
    }

    /** memcpy(buf + at, src, |src|). */
    method CopyIn(at: nat, src: seq<byte>)
      requires at + |src| <= buf.Length
      modifies buf
      ensures buf[..] == Splice(old(buf[..]), at, src)
    {
      for i := 0 to |src|
        invariant forall k :: 0 <= k < i ==> buf[at + k] == src[k]
        invariant forall k :: 0 <= k < buf.Length && !(at <= k < at + i) ==> buf[k] == old(buf[k])
      {
        buf[at + i] := src[i];
      }
    }

    /** memcpy(buf, buf + from, n): source and target overlap, and the copy runs forward. */
    method MoveDown(from: nat, n: nat)
      requires from + n <= buf.Length
      modifies buf
      ensures buf[..] == Splice(old(buf[..]), 0, old(buf[from..from + n]))
    {
      ghost var was := buf[..];
      for i := 0 to n
        invariant forall k :: 0 <= k < i ==> buf[k] == was[from + k]
        invariant forall k :: i <= k < buf.Length ==> buf[k] == was[k]
      {
        buf[i] := buf[from + i];
      }
      assert buf[..] == was[..0] + was[from..from + n] + was[n..];
    }

    /** Drop the n oldest bytes: the rest moves to the front of the block. */
    method Shift(n: nat)
      requires Valid() && n <= len
      modifies this, buf
      ensures Valid() && View() == DropFront(old(View()), n)
    {
      MoveDown(n, len - n);
      len := len - n;
    }

    /** Copy behind the buffered bytes, where there is room. */
    method Put(data: seq<byte>)
      requires Valid() && len + |data| <= buf.Length
      modifies this, buf
      ensures Valid() && View() == Mem(Splice(old(buf[..]), old(len), data), old(len) + |data|)
    {
      CopyIn(len, data);
      len := len + |data|;
    }

    method Append(data: seq<byte>)
      requires Valid()
      modifies this, buf
      ensures Valid() && View() == AppendTo(old(View()), data)
      ensures buf[..len] == Last(old(buf[..len]) + data, buf.Length)
      ensures forall i :: len <= i < buf.Length ==> buf[i] == old(buf[i])
    {
      AppendKeepsNewest(View(), data);
      AppendKeepsBehind(View(), data);
      Store(data);
    }

    /** The body of bAppend. */
    method Store(data: seq<byte>)
      requires Valid()
      modifies this, buf
      ensures Valid() && View() == AppendTo(old(View()), data)
    {
      if |data| > buf.Length {
        var wlen := buf.Length;
        CopyIn(0, data[|data| - wlen..]);
        len := wlen;
      } else {
        ghost var m := View();
        var remainLen := buf.Length - len;
        // the goto of the source: make room, then try again
        while remainLen < |data|
          invariant Valid() && remainLen == buf.Length - len
          invariant View() == m
                    || (remainLen == |data| && |data| + m.len > buf.Length
                        && View() == DropFront(m, |data| + m.len - buf.Length))
          decreases |data| - remainLen
        {
          var needSpace := |data| - remainLen;
          Shift(needSpace);
          remainLen := buf.Length - len;
        }
        Put(data);
      }
    }

    method Remove(n: nat)
      requires Valid()
      modifies this, buf
      ensures Valid() && View() == RemoveFrom(old(View()), n)
      ensures len == if n > old(len) then 0 else old(len) - n
      ensures forall i :: 0 <= i < buf.Length ==>
                buf[i] == if n > old(len) then (if i < old(len) then 0 else old(buf[i]))
                          else if i < len then old(buf[i + n]) else old(buf[i])
    {
      RemoveBytes(View(), n);
      if n > len {
        CopyIn(0, Zeros(len));
        len := 0;
      } else {
        Shift(n);
      }
    }

    method Clear()
      modifies this, buf
      ensures Valid() && View() == Cleared(old(View()))
      ensures len == 0 && forall i :: 0 <= i < buf.Length ==> buf[i] == 0
    {
      CopyIn(0, Zeros(buf.Length));
      assert buf[..] == Zeros(buf.Length);
      len := 0;
    }

    /** strlen(buf), stopping at the end of the block. */
    method StrLen() returns (z: nat)
      ensures z == StrEnd(buf[..])
    {
      z := 0;
      while z < buf.Length && buf[z] != 0
        invariant z <= buf.Length && 0 !in buf[..z]
      {
        z := z + 1;
      }
      StrEndBehind(buf[..], z);
      if z < buf.Length { StrEndBefore(buf[..], z); }
    }

    /** The inner comparison of strstr, in the first z bytes. */
    method MatchesAt(pat: seq<byte>, i: nat, z: nat) returns (b: bool)
      requires i + |pat| <= z <= buf.Length
      ensures b <==> OccursAt(buf[..z], pat, i)
    {
      for j := 0 to |pat|
        invariant forall k :: 0 <= k < j ==> buf[i + k] == pat[k]
      {
        if buf[i + j] != pat[j] {
          return false;
        }
      }
      b := true;
    }

    /** strstr(buf + from, pat): the haystack ends at the first NUL of the block. */
    method StrStr(from: nat, pat: seq<byte>) returns (r: Option<nat>)
      requires 0 !in pat
      ensures r == Find(View().Text(), pat, from)
    {
      var z := StrLen();
      var i := from;
      while i + |pat| <= z
        invariant from <= i && Find(buf[..z], pat, from) == Find(buf[..z], pat, i)
        decreases z - i
      {
        var hit := MatchesAt(pat, i, z);
        if hit {
          return Some(i);
        }
        i := i + 1;
      }
      r := None;
    }

    method SearchHeadTail(head: seq<byte>, tail: seq<byte>) returns (span: Option<Span>)
      requires 0 !in head && 0 !in tail
      ensures span == HeadTailCut(View().Text(), head, tail)
    {
      var h := StrStr(0, head);
      if h.None? {
        return None;
      }
      var t := StrStr(h.value + |head|, tail);
      span := if t.Some? then Some(Span(h.value, t.value + |tail|)) else None;
    }

    /** The rule-by-rule search of bGetDataByRule. */
    method Search(rule: Rule) returns (span: Option<Span>)
      requires Valid() && MarkersOk(rule)
      ensures span == Cut(View().Text(), View().Data(), rule)
    {
      match rule
      case NoRule =>
        span := Some(Span(0, len));
      case HeadTail(head, tail) =>
        span := SearchHeadTail(head, tail);
      case HeadLen(head, n) =>
        var h := StrStr(0, head);
        span := if h.Some? && len - h.value >= n then Some(Span(h.value, h.value + n)) else None;
      case LenOnly(n) =>
        span := if len >= n then Some(Span(0, n)) else None;
      case TailOnly(tail) =>
        var t := StrStr(0, tail);
        span := if t.Some? then Some(Span(0, t.value + |tail|)) else None;
      case Custom(matcher) =>
        span := matcher(buf[..len]);
    }

    /**
     bGetDataByRule. `Overrun` is returned where the code computes a negative length and passes it
     to memcpy; the source does not survive that call.
     */
    method GetDataByRule(rule: Rule, prior: int) returns (out: Extraction)
      requires Valid() && RuleOk(rule)
      modifies this, buf
      ensures Valid() && (View(), out) == ExtractFrom(old(View()), rule, prior)
    {
      var span := Search(rule);
      out := Deliver(span, rule, prior);
    }

    method Deliver(found: Option<Span>, rule: Rule, prior: int) returns (out: Extraction)
      requires Valid() && (found.Some? ==> found.value.start <= found.value.end)
      modifies this, buf
      ensures Valid() && (View(), out) == HandOut(old(View()), found, rule, prior)
    {
      if found.None? {
        return NoFrame;
      }
      if rule.NoRule? {
        out := Frame(buf[..len], len);
        Clear();
        return;
      }
      if found.value.end > len {
        return Overrun;
      }
      var bytes := Take(found.value);
      out := Frame(bytes, if rule.TailOnly? then prior else |bytes|);
    }

    /** Copy the frame out and move what follows it to the front. */
    method Take(span: Span) returns (bytes: seq<byte>)
      requires Valid() && span.start <= span.end <= len
      modifies this, buf
      ensures Valid() && bytes == old(buf[span.start..span.end]) && View() == DropFront(old(View()), span.end)
    {
      bytes := buf[span.start..span.end];
      Shift(span.end);
    }
  }
}

/**
 The matching rules of OBuffer. `Cut` is the search of bGetDataByRule with its haystack made explicit:
 the code hands strstr the buffer memory up to its first NUL, the header promises a search of the
 buffered data. Both are `Cut` on different texts.
 */
module FrameRules {
  import opened CStrings
  import opened Wrappers

  datatype Span = Span(start: nat, end: nat)

  datatype Rule =
    | NoRule
    | HeadTail(head: seq<byte>, tail: seq<byte>)
    | HeadLen(head: seq<byte>, n: nat)
    | LenOnly(n: nat)
    | TailOnly(tail: seq<byte>)
    | Custom(matcher: seq<byte> -> Option<Span>)

  /** The markers are C strings; strstr would look for the part of a marker before its first NUL. */
  predicate MarkersOk(rule: Rule) {
    match rule
    case HeadTail(head, tail) => 0 !in head && 0 !in tail
    case HeadLen(head, _) => 0 !in head
    case TailOnly(tail) => 0 !in tail
    case _ => true
  }

  /** What a caller owes: C strings as markers, and a user matcher that answers inside the data it was shown. */
  ghost predicate RuleOk(rule: Rule) {
    && MarkersOk(rule)
    && (rule.Custom? ==>
          forall d: seq<byte> :: rule.matcher(d).Some? ==>
            rule.matcher(d).value.start <= rule.matcher(d).value.end <= |d|)
  }

  /** The first head, then the first tail behind it; both markers belong to the frame. */
  function HeadTailCut(text: seq<byte>, head: seq<byte>, tail: seq<byte>): Option<Span> {
    match Find(text, head, 0)
    case None => None
    case Some(h) =>
      match Find(text, tail, h + |head|)
      case None => None
      case Some(t) => Some(Span(h, t + |tail|))
  }

  /** The piece a rule selects: strings are looked for in `text`, lengths are counted in `data`. */
  function Cut(text: seq<byte>, data: seq<byte>, rule: Rule): Option<Span> {
    match rule
    case NoRule => Some(Span(0, |data|))
    case HeadTail(head, tail) => HeadTailCut(text, head, tail)
    case HeadLen(head, n) =>
      (match Find(text, head, 0)
       case None => None
       case Some(h) => if |data| - h >= n then Some(Span(h, h + n)) else None)
    case LenOnly(n) => if |data| >= n then Some(Span(0, n)) else None
    case TailOnly(tail) =>
      (match Find(text, tail, 0)
       case None => None
       case Some(t) => Some(Span(0, t + |tail|)))
    case Custom(matcher) => matcher(data)
  }

  /** The promised extraction: both search and lengths see the buffered bytes only. */
  function FrameOf(data: seq<byte>, rule: Rule): Option<Span> {
    Cut(data, data, rule)
  }

  // ---------- the head/tail search is complete and minimal ----------

  /** Some head occurrence is followed by a tail that does not overlap it. */
  ghost predicate HasFrame(s: seq<byte>, head: seq<byte>, tail: seq<byte>) {
    exists h: nat, t: nat :: OccursAt(s, head, h) && OccursAt(s, tail, t) && h + |head| <= t
  }

  /** A piece of `s` that starts with a head and ends with a tail behind it. */
  predicate IsFrame(s: seq<byte>, span: Span, head: seq<byte>, tail: seq<byte>) {
    && span.start + |head| + |tail| <= span.end
    && OccursAt(s, head, span.start)
    && OccursAt(s, tail, span.end - |tail|)
  }

  /** Taking the first head loses nothing, and the frame is the least one: least head, then least tail. */
  lemma HeadTailComplete(s: seq<byte>, head: seq<byte>, tail: seq<byte>)
    ensures FrameOf(s, HeadTail(head, tail)).Some? <==> HasFrame(s, head, tail)
    ensures FrameOf(s, HeadTail(head, tail)).Some? ==>
              IsFrame(s, FrameOf(s, HeadTail(head, tail)).value, head, tail)
    ensures forall h: nat, t: nat ::
              OccursAt(s, head, h) && OccursAt(s, tail, t) && h + |head| <= t
              ==> FrameOf(s, HeadTail(head, tail)).Some?
                  && FrameOf(s, HeadTail(head, tail)).value.start <= h
                  && FrameOf(s, HeadTail(head, tail)).value.end <= t + |tail|
  {
    if FrameOf(s, HeadTail(head, tail)).Some? {
      var h := Find(s, head, 0).value;
      var t := Find(s, tail, h + |head|).value;
      assert OccursAt(s, head, h) && OccursAt(s, tail, t);
    }
    forall h: nat, t: nat | OccursAt(s, head, h) && OccursAt(s, tail, t) && h + |head| <= t
      ensures FrameOf(s, HeadTail(head, tail)).Some?
      ensures FrameOf(s, HeadTail(head, tail)).value.start <= h
      ensures FrameOf(s, HeadTail(head, tail)).value.end <= t + |tail|
    {
      FindLeast(s, head, 0, h);
      FindLeast(s, tail, Find(s, head, 0).value + |head|, t);
    }
  }

  // ---------- what the other rules select ----------

  /** The first place where p occurs. */
  ghost predicate FirstAt(s: seq<byte>, p: seq<byte>, i: nat) {
    OccursAt(s, p, i) && forall j: nat :: j < i ==> !OccursAt(s, p, j)
  }

  lemma FindIsFirst(s: seq<byte>, p: seq<byte>)
    ensures Find(s, p, 0).Some? <==> exists i: nat :: OccursAt(s, p, i)
    ensures forall i: nat :: FirstAt(s, p, i) <==> Find(s, p, 0) == Some(i)
  {
    forall i: nat | OccursAt(s, p, i) ensures Find(s, p, 0).Some? && Find(s, p, 0).value <= i {
      FindLeast(s, p, 0, i);
    }
  }

  /** The tail rule takes everything from the start of the data through the first tail. */
  lemma TailOnlyComplete(s: seq<byte>, tail: seq<byte>)
    ensures FrameOf(s, TailOnly(tail)).Some? <==> exists t: nat :: OccursAt(s, tail, t)
    ensures FrameOf(s, TailOnly(tail)).Some? ==>
              var span := FrameOf(s, TailOnly(tail)).value;
              && span.start == 0 && |tail| <= span.end && FirstAt(s, tail, span.end - |tail|)
              && s[span.start..span.end] + s[span.end..] == s
  {
    FindIsFirst(s, tail);
  }

  /** The head-and-length rule takes n bytes from the first head on, iff that many are there. */
  lemma HeadLenComplete(s: seq<byte>, head: seq<byte>, n: nat)
    ensures FrameOf(s, HeadLen(head, n)).Some? <==> exists h: nat :: FirstAt(s, head, h) && h + n <= |s|
    ensures FrameOf(s, HeadLen(head, n)).Some? ==>
              var span := FrameOf(s, HeadLen(head, n)).value;
              FirstAt(s, head, span.start) && span.end == span.start + n
  {
    FindIsFirst(s, head);
  }

  /** The length rule takes the first n bytes iff that many are there, no rule takes everything. */
  lemma LenOnlyComplete(s: seq<byte>, n: nat)
    ensures FrameOf(s, LenOnly(n)).Some? <==> |s| >= n
    ensures |s| >= n ==> FrameOf(s, LenOnly(n)).value == Span(0, n)
    ensures FrameOf(s, NoRule) == Some(Span(0, |s|))
  {
  }

  // ---------- extraction until failure, and independence from chunking ----------

  type Extractor = seq<byte> -> Option<Span>

  predicate Extends(d: seq<byte>, more: seq<byte>) {
    d <= more
  }

  /** Every frame takes at least one byte off the buffer, and more input leaves a found frame in place. */
  ghost predicate Streaming(next: Extractor) {
    forall d: seq<byte>, more: seq<byte> {:trigger Extends(d, more)} ::
      Extends(d, more) && next(d).Some? ==>
        && next(d).value.start <= next(d).value.end <= |d|
        && 0 < next(d).value.end
        && next(more) == next(d)
  }

  function ByRule(rule: Rule): Extractor {
    (d: seq<byte>) => FrameOf(d, rule)
  }

  /** Non-empty markers, positive lengths; a user matcher has to be streaming itself. */
  ghost predicate StreamRule(rule: Rule) {
    match rule
    case NoRule => false
    case HeadTail(head, tail) => |head| + |tail| > 0
    case HeadLen(_, n) => n > 0
    case LenOnly(n) => n > 0
    case TailOnly(tail) => |tail| > 0
    case Custom(m) => Streaming(m)
  }

  lemma HeadTailStable(s: seq<byte>, x: seq<byte>, head: seq<byte>, tail: seq<byte>)
    requires HeadTailCut(s, head, tail).Some?
    ensures HeadTailCut(s + x, head, tail) == HeadTailCut(s, head, tail)
  {
    FindStable(s, x, head, 0);
    FindStable(s, x, tail, Find(s, head, 0).value + |head|);
  }

  lemma FrameStable(s: seq<byte>, x: seq<byte>, rule: Rule)
    requires StreamRule(rule) && FrameOf(s, rule).Some?
    ensures FrameOf(s + x, rule) == FrameOf(s, rule)
  {
    match rule
    case HeadTail(head, tail) => HeadTailStable(s, x, head, tail);
    case HeadLen(head, n) => FindStable(s, x, head, 0);
    case TailOnly(tail) => FindStable(s, x, tail, 0);
    case LenOnly(n) =>
    case Custom(m) => assert Extends(s, s + x);
  }

  lemma RulesStream(rule: Rule)
    requires StreamRule(rule)
    ensures Streaming(ByRule(rule))
  {
    forall d: seq<byte>, more: seq<byte> | Extends(d, more) && ByRule(rule)(d).Some?
      ensures ByRule(rule)(more) == ByRule(rule)(d)
    {
      FrameStable(d, more[|d|..], rule);
      assert d + more[|d|..] == more;
    }
  }

  /** Extract until nothing matches: the frames, and what stays in the buffer. */
  ghost function Drain(s: seq<byte>, next: Extractor): (r: (seq<seq<byte>>, seq<byte>))
    requires Streaming(next)
    ensures next(r.1).None?
    decreases |s|
  {
    assert Extends(s, s);
    match next(s)
    case None => ([], s)
    case Some(span) =>
      var rest := Drain(s[span.end..], next);
      ([s[span.start..span.end]] + rest.0, rest.1)
  }

  /** Draining, then appending and draining again, is draining once with everything there. */
  lemma {:induction false} DrainMore(s: seq<byte>, x: seq<byte>, next: Extractor)
    requires Streaming(next)
    ensures Drain(s + x, next)
         == (Drain(s, next).0 + Drain(Drain(s, next).1 + x, next).0, Drain(Drain(s, next).1 + x, next).1)
    decreases |s|
  {
    if next(s).None? {
      assert [] + Drain(s + x, next).0 == Drain(s + x, next).0;
    } else {
      var span := next(s).value;
      assert Extends(s, s) && Extends(s, s + x);
      assert (s + x)[span.end..] == s[span.end..] + x;
      assert (s + x)[span.start..span.end] == s[span.start..span.end];
      DrainMore(s[span.end..], x, next);
      var rest := Drain(s[span.end..], next);
      var more := Drain(rest.1 + x, next);
      var frame := s[span.start..span.end];
      assert ([frame] + rest.0) + more.0 == [frame] + (rest.0 + more.0);
    }
  }

  function Flatten(chunks: seq<seq<byte>>): seq<byte> {
    if chunks == [] then [] else chunks[0] + Flatten(chunks[1..])
  }

  /** Append a chunk, extract until nothing matches, and so on. */
  ghost function Feed(held: seq<byte>, chunks: seq<seq<byte>>, next: Extractor): (r: (seq<seq<byte>>, seq<byte>))
    requires Streaming(next)
    decreases |chunks|
  {
    if chunks == [] then ([], held)
    else
      var now := Drain(held + chunks[0], next);
      var later := Feed(now.1, chunks[1..], next);
      (now.0 + later.0, later.1)
  }

  /** However the stream is split, the frames and the residue are those of the unsplit stream. */
  lemma {:induction false} ChunkingIndependence(held: seq<byte>, chunks: seq<seq<byte>>, next: Extractor)
    requires Streaming(next) && next(held).None?
    ensures Feed(held, chunks, next) == Drain(held + Flatten(chunks), next)
    decreases |chunks|
  {
    if chunks == [] {
      assert held + Flatten(chunks) == held;
    } else {
      var now := Drain(held + chunks[0], next);
      ChunkingIndependence(now.1, chunks[1..], next);
      assert held + Flatten(chunks) == (held + chunks[0]) + Flatten(chunks[1..]);
      DrainMore(held + chunks[0], Flatten(chunks[1..]), next);
    }
  }

  // ---------- deframing undoes framing ----------

  ghost predicate Encodable(body: seq<byte>, tail: seq<byte>) {
    Find(body + tail, tail, 0) == Some(|body|)
  }

  function Encode(bodies: seq<seq<byte>>, head: seq<byte>, tail: seq<byte>): seq<byte> {
    if bodies == [] then [] else head + ((bodies[0] + tail) + Encode(bodies[1..], head, tail))
  }

  function Framed(bodies: seq<seq<byte>>, head: seq<byte>, tail: seq<byte>): (frames: seq<seq<byte>>)
    ensures |frames| == |bodies|
    ensures forall i :: 0 <= i < |bodies| ==> frames[i] == head + (bodies[i] + tail)
  {
    if bodies == [] then [] else [head + (bodies[0] + tail)] + Framed(bodies[1..], head, tail)
  }

  /** A text with the head in front is cut behind its first tail. */
  lemma HeadFirst(s: seq<byte>, head: seq<byte>, tail: seq<byte>, t: nat)
    requires Find(s, head, 0) == Some(0) && Find(s, tail, |head|) == Some(t)
    ensures HeadTailCut(s, head, tail) == Some(Span(0, t + |tail|))
  {
  }

  lemma HeadAtFront(head: seq<byte>, v: seq<byte>)
    ensures Find(head + v, head, 0) == Some(0)
  {
  }

  lemma TailBehind(head: seq<byte>, v: seq<byte>, tail: seq<byte>)
    requires Find(v, tail, 0).Some?
    ensures Find(head + v, tail, |head|) == Some(|head| + Find(v, tail, 0).value)
  {
    FindAfter(head, v, tail, 0, |head|);
  }

  lemma FrontFrame(head: seq<byte>, v: seq<byte>, tail: seq<byte>, n: nat)
    requires Find(v, tail, 0) == Some(n)
    ensures HeadTailCut(head + v, head, tail) == Some(Span(0, |head| + n + |tail|))
  {
    HeadAtFront(head, v);
    TailBehind(head, v, tail);
    HeadFirst(head + v, head, tail, |head| + n);
  }

  /** An encoded frame is recognised as a whole, whatever follows it. */
  lemma FirstFrame(body: seq<byte>, rest: seq<byte>, head: seq<byte>, tail: seq<byte>)
    requires Encodable(body, tail)
    ensures HeadTailCut(head + ((body + tail) + rest), head, tail) == Some(Span(0, |head| + |body + tail|))
  {
    var v := (body + tail) + rest;
    FindStable(body + tail, rest, tail, 0);
    FrontFrame(head, v, tail, |body|);
  }

  /** Concatenated frames come back one by one, in order, and nothing is left. */
  lemma {:induction false} DeframingUndoesFraming(bodies: seq<seq<byte>>, head: seq<byte>, tail: seq<byte>)
    requires |head| + |tail| > 0
    requires forall b :: b in bodies ==> Encodable(b, tail)
    ensures Streaming(ByRule(HeadTail(head, tail)))
    ensures Drain(Encode(bodies, head, tail), ByRule(HeadTail(head, tail))) == (Framed(bodies, head, tail), [])
  {
    RulesStream(HeadTail(head, tail));
    if bodies == [] {
      assert ByRule(HeadTail(head, tail))([]).None?;
    } else {
      var frame := head + (bodies[0] + tail);
      var rest := Encode(bodies[1..], head, tail);
      FirstFrame(bodies[0], rest, head, tail);
      assert Encode(bodies, head, tail) == frame + rest;
      assert (frame + rest)[0..|frame|] == frame && (frame + rest)[|frame|..] == rest;
      DeframingUndoesFraming(bodies[1..], head, tail);
    }
  }
}

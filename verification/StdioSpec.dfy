/**
 What mstdio.c means without its buffer positions: a writer is a file, the bytes still pending, and
 the space the device has left; a reader is the bytes still to come.
 */
module StdioSpec {
  import opened CStrings

  const BUFFER_LEN := 4096
  const NEWLINE: byte := 10
  const MEOF := -1

  /** `return c` with a signed char: the byte 0xFF comes out as MEOF. */
  function SChar(b: byte): int { if b < 128 then b else b - 256 }

  function ToByte(c: int): byte { c % 256 }

  /** A byte read back is itself or the negative of its complement, and only 0xFF reads as MEOF. */
  lemma SCharValues(b: byte)
    ensures -128 <= SChar(b) < 128 && (b < 128 ==> SChar(b) == b) && (b >= 128 ==> SChar(b) == b - 256)
    ensures SChar(b) == -1 <==> b == 255
  {
  }

  // ---------- writing ----------

  datatype Writer = Writer(file: seq<byte>, pend: seq<byte>, space: nat) {
    predicate Ok() { |pend| <= BUFFER_LEN }
  }

  function Min(a: int, b: int): int { if a < b then a else b }

  /** write(fd, buffer, |pend|): the device takes what it has space for. */
  function Wrote(w: Writer): (n: nat)
    ensures n <= |w.pend| && n <= w.space
  {
    Min(|w.pend|, w.space)
  }

  /** mfflush looks at no return value: what was not written is dropped. */
  function Flush(w: Writer): (r: Writer)
    ensures r.Ok()
  {
    Writer(w.file + w.pend[..Wrote(w)], [], w.space - Wrote(w))
  }

  /** mfputc: a full buffer is written first; if that is cut short the buffer stays and 0 is returned. */
  function PutC(w: Writer, c: byte): (r: (Writer, int))
    requires w.Ok()
    ensures r.0.Ok()
  {
    if |w.pend| < BUFFER_LEN then (w.(pend := w.pend + [c]), 1)
    else if w.space < BUFFER_LEN then (Writer(w.file + w.pend[..w.space], w.pend, 0), 0)
    else (Writer(w.file + w.pend, [c], w.space - BUFFER_LEN), 1)
  }

  /** mfputc on a full buffer when write() takes only k bytes despite free space: the buffer stays, 0 is returned. */
  function CutShort(w: Writer, k: nat): (r: Writer)
    requires w.Ok() && k < |w.pend| == BUFFER_LEN && k <= w.space
    ensures r.Ok()
  {
    Writer(w.file + w.pend[..k], w.pend, w.space - k)
  }

  /** A device that is full is the case in which it takes what is left. */
  lemma FullDeviceCutsShort(w: Writer, c: byte)
    requires w.Ok() && |w.pend| == BUFFER_LEN > w.space
    ensures PutC(w, c) == (CutShort(w, w.space), 0)
  {
  }

  /** What was accepted reaches the file once iff nothing was taken: bytes that were taken are written again. */
  lemma CutShortRepeatsIff(w: Writer, k: nat)
    requires w.Ok() && k < |w.pend| == BUFFER_LEN && k + |w.pend| <= w.space
    ensures Flush(CutShort(w, k)).file == w.file + w.pend[..k] + w.pend
    ensures Flush(CutShort(w, k)).file == All(w) <==> k == 0
  {
    if k > 0 {
      assert |Flush(CutShort(w, k)).file| == |All(w)| + k;
    }
  }

  /** mfputs and mfwrite: every byte through mfputc, a flush after each newline, results ignored. */
  function PutLine(w: Writer, c: byte): (r: Writer)
    requires w.Ok()
    ensures r.Ok()
  {
    if c == NEWLINE then Flush(PutC(w, c).0) else PutC(w, c).0
  }

  function PutAll(w: Writer, s: seq<byte>): (r: Writer)
    requires w.Ok()
    ensures r.Ok()
  {
    if s == [] then w else PutLine(PutAll(w, s[..|s| - 1]), s[|s| - 1])
  }

  datatype WriteOp = Char(c: byte) | Bytes(s: seq<byte>) | FlushNow

  function Apply(w: Writer, op: WriteOp): (r: Writer)
    requires w.Ok()
    ensures r.Ok()
  {
    match op
    case Char(c) => PutC(w, c).0
    case Bytes(s) => PutAll(w, s)
    case FlushNow => Flush(w)
  }

  function ApplyAll(w: Writer, ops: seq<WriteOp>): (r: Writer)
    requires w.Ok()
    ensures r.Ok()
    decreases |ops|
  {
    if ops == [] then w else ApplyAll(Apply(w, ops[0]), ops[1..])
  }

  /** Everything the calls were asked to write. */
  function Payload(ops: seq<WriteOp>): seq<byte> {
    if ops == [] then []
    else (match ops[0] case Char(c) => [c] case Bytes(s) => s case FlushNow => []) + Payload(ops[1..])
  }

  /** All the bytes of the writer, in order. */
  function All(w: Writer): seq<byte> { w.file + w.pend }

  /** With space for everything pending and `more`, nothing is lost and nothing is written twice. */
  lemma PutCKeepsAll(w: Writer, c: byte)
    requires w.Ok() && |w.pend| + 1 <= w.space
    ensures All(PutC(w, c).0) == All(w) + [c] && PutC(w, c).1 == 1
    ensures PutC(w, c).0.space - |PutC(w, c).0.pend| == w.space - |w.pend| - 1
  {
  }

  /** What mfputc accepts is behind everything before it; what it refuses leaves the buffer alone. */
  lemma PutCAccepts(w: Writer, c: byte)
    requires w.Ok()
    ensures PutC(w, c).1 == if |w.pend| == BUFFER_LEN > w.space then 0 else 1
    ensures PutC(w, c).1 == 1 ==> All(PutC(w, c).0) == All(w) + [c]
    ensures PutC(w, c).1 == 0 ==>
              && PutC(w, c).0.pend == w.pend && PutC(w, c).0.space == 0
              && w.space < |w.pend| && PutC(w, c).0.file == w.file + w.pend[..w.space]
  {
  }

  lemma FlushKeepsAll(w: Writer)
    requires w.Ok() && |w.pend| <= w.space
    ensures All(Flush(w)) == All(w) == Flush(w).file
    ensures Flush(w).space == w.space - |w.pend|
  {
  }

  lemma {:induction false} PutAllKeepsAll(w: Writer, s: seq<byte>)
    requires w.Ok() && |w.pend| + |s| <= w.space
    ensures All(PutAll(w, s)) == All(w) + s
    ensures PutAll(w, s).space - |PutAll(w, s).pend| == w.space - |w.pend| - |s|
    decreases |s|
  {
    if s != [] {
      var front, c := s[..|s| - 1], s[|s| - 1];
      PutAllKeepsAll(w, front);
      PutCKeepsAll(PutAll(w, front), c);
      FlushKeepsAll(PutC(PutAll(w, front), c).0);
      assert front + [c] == s;
    } else {
      assert All(w) + s == All(w);
    }
  }

  lemma {:induction false} ApplyAllKeepsAll(w: Writer, ops: seq<WriteOp>)
    requires w.Ok() && |w.pend| + |Payload(ops)| <= w.space
    ensures All(ApplyAll(w, ops)) == All(w) + Payload(ops)
    ensures ApplyAll(w, ops).space - |ApplyAll(w, ops).pend| == w.space - |w.pend| - |Payload(ops)|
    decreases |ops|
  {
    if ops == [] {
      assert All(w) + Payload(ops) == All(w);
    } else {
      match ops[0] {
        case Char(c) => PutCKeepsAll(w, c);
        case Bytes(s) => PutAllKeepsAll(w, s);
        case FlushNow => FlushKeepsAll(w);
      }
      ApplyAllKeepsAll(Apply(w, ops[0]), ops[1..]);
    }
  }

  /** A device never takes more than its space. */
  lemma PutCBounded(w: Writer, c: byte)
    requires w.Ok()
    ensures |PutC(w, c).0.file| + PutC(w, c).0.space == |w.file| + w.space
  {
  }

  lemma {:induction false} PutAllBounded(w: Writer, s: seq<byte>)
    requires w.Ok()
    ensures |PutAll(w, s).file| + PutAll(w, s).space == |w.file| + w.space
    decreases |s|
  {
    if s != [] {
      PutAllBounded(w, s[..|s| - 1]);
      PutCBounded(PutAll(w, s[..|s| - 1]), s[|s| - 1]);
    }
  }

  lemma {:induction false} ApplyAllBounded(w: Writer, ops: seq<WriteOp>)
    requires w.Ok()
    ensures |ApplyAll(w, ops).file| + ApplyAll(w, ops).space == |w.file| + w.space
    decreases |ops|
  {
    if ops != [] {
      match ops[0] {
        case Char(c) => PutCBounded(w, c);
        case Bytes(s) => PutAllBounded(w, s);
        case FlushNow =>
      }
      ApplyAllBounded(Apply(w, ops[0]), ops[1..]);
    }
  }

  /** After mfclose the file holds exactly what was written iff the device had space for it. */
  lemma ClosedFileIff(file: seq<byte>, space: nat, ops: seq<WriteOp>)
    ensures Flush(ApplyAll(Writer(file, [], space), ops)).file == file + Payload(ops)
            <==> |Payload(ops)| <= space
  {
    var w := Writer(file, [], space);
    ApplyAllBounded(w, ops);
    if |Payload(ops)| <= space {
      ApplyAllKeepsAll(w, ops);
      FlushKeepsAll(ApplyAll(w, ops));
      assert All(w) == file;
    }
  }

  /** With enough space everything up to the call's last newline is in the file when the call returns. */
  lemma {:induction false} NewlineReachesFile(w: Writer, s: seq<byte>, k: nat)
    requires w.Ok() && |w.pend| + |s| <= w.space && k < |s| && s[k] == 10
    ensures All(w) + s[..k + 1] <= PutAll(w, s).file
    decreases |s|
  {
    var front, c := s[..|s| - 1], s[|s| - 1];
    PutAllKeepsAll(w, s);
    PutAllKeepsAll(w, front);
    PutCKeepsAll(PutAll(w, front), c);
    if k == |s| - 1 {
      FlushKeepsAll(PutC(PutAll(w, front), c).0);
      assert s[..k + 1] == s;
    } else {
      NewlineReachesFile(w, front, k);
      assert front[..k + 1] == s[..k + 1];
      FileGrows(PutAll(w, front), c);
    }
  }

  /** Without a newline nothing leaves the buffer before it is full. */
  lemma {:induction false} NoNewlineStays(w: Writer, s: seq<byte>)
    requires w.Ok() && 10 !in s && |w.pend| + |s| <= 4096
    ensures PutAll(w, s) == w.(pend := w.pend + s)
    decreases |s|
  {
    if s == [] {
      assert w.pend + s == w.pend;
    } else {
      var front, c := s[..|s| - 1], s[|s| - 1];
      NoNewlineStays(w, front);
      assert c in s;
      assert w.pend + s == (w.pend + front) + [c];
    }
  }

  lemma FileGrows(w: Writer, c: byte)
    requires w.Ok()
    ensures w.file <= PutLine(w, c).file
  {
  }

  // ---------- reading ----------

  /** What a loop over mfgetc gets from `rest`: at most n bytes, up to the first 0xFF or the end. */
  function Taken(rest: seq<byte>, n: nat): (t: seq<byte>)
    ensures t <= rest && |t| <= n
  {
    if n == 0 || rest == [] || rest[0] == 255 then [] else [rest[0]] + Taken(rest[1..], n - 1)
  }

  /** What is left afterwards: the 0xFF that ended the loop has been consumed too. */
  function RestAfter(rest: seq<byte>, n: nat): seq<byte> {
    var t := Taken(rest, n);
    if |t| < n && |t| < |rest| then rest[|t| + 1..] else rest[|t|..]
  }

  lemma {:induction false} TakenStops(rest: seq<byte>, n: nat)
    ensures var k := |Taken(rest, n)|;
            && (forall i :: 0 <= i < k ==> rest[i] != 255)
            && (k < n && k < |rest| ==> rest[k] == 255)
    decreases n
  {
    if n > 0 && rest != [] && rest[0] != 255 {
      TakenStops(rest[1..], n - 1);
      var k := |Taken(rest[1..], n - 1)|;
      forall i | 0 <= i < k + 1 ensures rest[i] != 255 {
        if i > 0 { assert rest[i] == rest[1..][i - 1]; }
      }
    }
  }

  /** A read stops after n bytes, at the end, or at a 0xFF, which it swallows. */
  lemma ReadSplits(rest: seq<byte>, n: nat)
    ensures var t := Taken(rest, n);
            && t <= rest && |t| <= n && 255 !in t
            && rest == t + (if |t| < n && |t| < |rest| then [255] else []) + RestAfter(rest, n)
  {
    var t := Taken(rest, n);
    TakenSays(rest, n);
    Rejoin(rest, t, if |t| < n && |t| < |rest| then [255] else [], RestAfter(rest, n));
  }

  lemma TakenSays(rest: seq<byte>, n: nat)
    ensures var t := Taken(rest, n);
            && t <= rest && |t| <= n && 255 !in t
            && (|t| < n && |t| < |rest| ==> rest[|t|] == 255)
  {
    TakenStops(rest, n);
  }

  lemma Rejoin(s: seq<byte>, t: seq<byte>, mid: seq<byte>, behind: seq<byte>)
    requires t <= s && |t| + |mid| <= |s| && s[|t|..|t| + |mid|] == mid && behind == s[|t| + |mid|..]
    ensures s == t + mid + behind
  {
  }

  lemma {:induction false} TakenIsAll(rest: seq<byte>, n: nat)
    requires |rest| <= n
    ensures Taken(rest, n) == rest <==> 255 !in rest
  {
    if rest != [] && rest[0] != 255 {
      TakenIsAll(rest[1..], n - 1);
      assert rest == [rest[0]] + rest[1..];
    }
  }

  lemma {:induction false} TakenMore(rest: seq<byte>, n: nat)
    ensures Taken(rest, n + 1)
         == if |Taken(rest, n)| == n && n < |rest| && rest[n] != 255 then Taken(rest, n) + [rest[n]] else Taken(rest, n)
    decreases n
  {
    if n > 0 && rest != [] && rest[0] != 255 {
      TakenMore(rest[1..], n - 1);
      var taken := Taken(rest[1..], n - 1);
      if |taken| == n - 1 && n < |rest| && rest[n] != 255 {
        assert rest[1..][n - 1] == rest[n];
        assert [rest[0]] + (taken + [rest[n]]) == ([rest[0]] + taken) + [rest[n]];
      }
    }
  }

  /**
   The round trip: any mix of writes, a close, and a reader loop until MEOF give back exactly what was
   written iff it contained no 0xFF and fitted on the device.
   */
  lemma RoundTripIff(space: nat, ops: seq<WriteOp>, n: nat)
    requires |Payload(ops)| <= space && |Payload(ops)| <= n
    ensures var file := Flush(ApplyAll(Writer([], [], space), ops)).file;
            Taken(file, n) == Payload(ops) <==> 255 !in Payload(ops)
  {
    ClosedFileIff([], space, ops);
    assert [] + Payload(ops) == Payload(ops);
    TakenIsAll(Payload(ops), n);
  }
}

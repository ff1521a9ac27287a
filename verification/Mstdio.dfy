/** The MFILE object of mstdio.c over a raw file. */
module Mstdio {
  import opened CStrings
  import opened StdioSpec

  /** A file behind a descriptor: reads from `pos`, writes at the end while the device has space. */
  class RawFile {
    var bytes: seq<byte>
    var pos: nat
    var space: nat

    constructor (bytes: seq<byte>, space: nat)
      ensures this.bytes == bytes && pos == 0 && this.space == space
    {
      this.bytes, this.pos, this.space := bytes, 0, space;
    }

    /** read(): any number of bytes up to the smaller of buffer and remainder; 0 only at the end. */
    method Read(buf: array<byte>) returns (n: nat)
      requires buf.Length > 0 && pos <= |bytes|
      modifies this`pos, buf
      ensures n <= buf.Length && pos == old(pos) + n <= |bytes|
      ensures n == 0 <==> old(pos) == |bytes|
      ensures buf[..n] == bytes[old(pos)..pos]
    {
      if pos == |bytes| {
        return 0;
      }
      n :| 1 <= n <= buf.Length && n <= |bytes| - pos;
      forall i | 0 <= i < n {
        buf[i] := bytes[pos + i];
      }
      pos := pos + n;
    }

    /** write(): as much as there is space for. */
    method Write(buf: array<byte>, len: nat) returns (n: int)
      requires len <= buf.Length
      modifies this`bytes, this`space
      ensures n == if len > 0 && old(space) == 0 then -1 else Min(len, old(space))
      ensures bytes == old(bytes) + buf[..Min(len, old(space))] && space == old(space) - Min(len, old(space))
    {
      var m := Min(len, space);
      bytes := bytes + buf[..m];
      n := if len > 0 && space == 0 then -1 else m;
      space := space - m;
    }
  }

  datatype Mode = READ | WRITE | APPEND

  class MFile {
    const file: RawFile
    const mode: Mode
    const buffer: array<byte>
    var nextc: int   // index into the buffer
    var left: int

    ghost predicate Valid()
      reads this, file, buffer
    {
      && buffer.Length == BUFFER_LEN && 0 <= left <= BUFFER_LEN
      && (if mode == READ then
            && 0 <= nextc && nextc + left <= BUFFER_LEN
            && left <= file.pos <= |file.bytes|
            && buffer[nextc..nextc + left] == file.bytes[file.pos - left..file.pos]
          else nextc == BUFFER_LEN - left)
    }

    /** A reader: the bytes still to come, whether buffered or not. */
    ghost function Rest(): seq<byte>
      reads this, file
      requires 0 <= left <= file.pos <= |file.bytes|
    {
      file.bytes[file.pos - left..]
    }

    /** A writer: the file, the filled part of the buffer, the space. */
    ghost function Out(): Writer
      reads this, file, buffer
      requires buffer.Length == BUFFER_LEN && 0 <= left <= BUFFER_LEN
    {
      Writer(file.bytes, buffer[..BUFFER_LEN - left], file.space)
    }

    /** mfdopen. */
    constructor (file: RawFile, mode: Mode)
      requires file.pos <= |file.bytes|
      ensures Valid() && this.file == file && this.mode == mode && fresh(buffer) && buffer.Length == 4096
      ensures mode == READ ==> Rest() == file.bytes[file.pos..]
      ensures mode != READ ==> Out() == Writer(file.bytes, [], file.space)
    {
      this.file := file;
      this.mode := mode;
      buffer := new byte[BUFFER_LEN](_ => 0);
      nextc := 0;
      left := if mode == READ then 0 else BUFFER_LEN;
    }

    method MfFlush()
      requires Valid()
      modifies this, file`bytes, file`space
      ensures Valid()
      ensures mode == READ ==> left == 0 && file.bytes == old(file.bytes) && file.space == old(file.space)
      ensures mode != READ ==> Out() == Flush(old(Out()))
      ensures mode != READ ==> left == BUFFER_LEN
      ensures mode != READ && old(BUFFER_LEN - left) <= old(file.space) ==> file.bytes == old(All(Out()))
    {
      if mode == READ {
        nextc := 0;
        left := 0;
      } else {
        var n := file.Write(buffer, BUFFER_LEN - left);
        nextc := 0;
        left := BUFFER_LEN;
      }
    }

    /** The empty buffer is filled with whatever one read delivers; `eof` when it delivers nothing. */
    method Refill() returns (eof: bool)
      requires Valid() && mode == READ && left == 0
      modifies this, file`pos, buffer
      ensures Valid() && Rest() == old(Rest()) && (eof <==> Rest() == []) && (!eof <==> left > 0)
    {
      var size := file.Read(buffer);
      if size == 0 {
        return true;
      }
      nextc := 0;
      left := size;
      assert buffer[0..left] == file.bytes[file.pos - left..file.pos];
      eof := false;
    }

    method MfGetC() returns (c: int)
      requires Valid() && mode == READ
      modifies this, file`pos, buffer
      ensures Valid()
      ensures old(Rest()) == [] ==> c == -1 && Rest() == []
      ensures old(Rest()) != [] ==> c == SChar(old(Rest())[0]) && Rest() == old(Rest())[1..]
      ensures old(Rest()) != [] ==>
                var b: int := old(Rest())[0]; c == if b < 128 then b else b - 256
    {
      if left == 0 {
        var eof := Refill();
        if eof {
          return MEOF;
        }
      }
      c := TakeChar();
    }

    method TakeChar() returns (c: int)
      requires Valid() && mode == READ && left > 0
      modifies this
      ensures Valid() && old(Rest()) != []
      ensures c == SChar(old(Rest())[0]) && Rest() == old(Rest())[1..]
    {
      ghost var window := buffer[nextc..nextc + left];
      c := SChar(buffer[nextc]);
      assert buffer[nextc] == window[0];
      nextc := nextc + 1;
      left := left - 1;
      assert buffer[nextc..nextc + left] == window[1..];
    }

    method MfPutC(character: int) returns (r: int)
      requires Valid() && mode != READ
      modifies this, file`bytes, file`space, buffer
      ensures Valid() && (Out(), r) == PutC(old(Out()), ToByte(character))
      ensures r == if old(left) == 0 && old(file.space) < BUFFER_LEN then 0 else 1
      ensures r == 1 ==> All(Out()) == old(All(Out())) + [ToByte(character)]
      ensures r == 0 ==> Out().pend == old(Out().pend)
      ensures r == 0 ==> file.bytes == old(file.bytes + Out().pend[..file.space]) && file.space == 0
    {
      PutCAccepts(Out(), ToByte(character));
      if left == 0 {
        ghost var k := Min(BUFFER_LEN, file.space);
        assert buffer[..BUFFER_LEN][..k] == buffer[..k];
        var n := file.Write(buffer, BUFFER_LEN);
        if n != BUFFER_LEN {
          return 0;
        }
        nextc := 0;
        left := BUFFER_LEN;
      }
      ghost var pend := Out().pend;
      buffer[nextc] := ToByte(character);
      nextc := nextc + 1;
      left := left - 1;
      assert buffer[..BUFFER_LEN - left] == pend + [ToByte(character)];
      assert old(left) == 0 ==> old(Out().pend) == old(buffer[..BUFFER_LEN]) && |old(Out().pend)| == BUFFER_LEN;
      assert Out().file == PutC(old(Out()), ToByte(character)).0.file;
      assert Out().pend == PutC(old(Out()), ToByte(character)).0.pend;
      r := 1;
    }

    /** mfputs: the bytes of the C string at `buff`. */
    method MfPuts(buff: seq<byte>) returns (r: int)
      requires Valid() && mode != READ && 0 in buff
      modifies this, file`bytes, file`space, buffer
      ensures Valid() && r == 1 && Out() == PutAll(old(Out()), buff[..StrEnd(buff)])
    {
      var i := 0;
      var z := StrEnd(buff);
      EndsInside(buff);
      while buff[i] != 0
        invariant Valid() && 0 <= i <= z < |buff| && Out() == PutAll(old(Out()), buff[..i])
        decreases z - i
      {
        PutLineByte(buff[i]);
        assert buff[..i + 1][..i] == buff[..i];
        i := i + 1;
      }
      NulEnds(buff, i);
      r := 1;
    }

    /** The loop body of mfputs and mfwrite. */
    method PutLineByte(b: byte)
      requires Valid() && mode != READ
      modifies this, file`bytes, file`space, buffer
      ensures Valid() && Out() == PutLine(old(Out()), b)
    {
      var r := MfPutC(b);
      if b == NEWLINE {
        MfFlush();
      }
    }

    /** mfwrite: counter items of size bytes; always returns counter. */
    method MfWrite(buff: seq<byte>, size: nat, counter: nat) returns (r: nat)
      requires Valid() && mode != READ && |buff| == size * counter
      modifies this, file`bytes, file`space, buffer
      ensures Valid() && r == counter && Out() == PutAll(old(Out()), buff)
    {
      var ptr := 0;
      TimesIs(counter, size);
      for i := 0 to counter
        invariant Valid() && ptr == Times(i, size) && ptr <= |buff| && Out() == PutAll(old(Out()), buff[..ptr])
      {
        ghost var from := ptr;
        ItemFits(size, i, counter);
        for j := 0 to size
          invariant Valid() && ptr == from + j && Out() == PutAll(old(Out()), buff[..ptr])
        {
          PutLineByte(buff[ptr]);
          assert buff[..ptr + 1][..ptr] == buff[..ptr];
          ptr := ptr + 1;
        }
      }
      assert buff[..|buff|] == buff;
      r := counter;
    }

    /** The loop body of mfgets and mfread: one more byte of at most n, or the end of the loop. */
    method Fetch(got: seq<byte>, ghost rest: seq<byte>, ghost n: nat) returns (ok: bool, more: seq<byte>)
      requires Valid() && mode == READ && |got| < n && got == Taken(rest, |got|) && Rest() == rest[|got|..]
      modifies this, file`pos, buffer
      ensures Valid()
      ensures ok ==> |more| == |got| + 1 && more == Taken(rest, |more|) && Rest() == rest[|more|..]
      ensures !ok ==> more == Taken(rest, n) && |more| < n && Rest() == RestAfter(rest, n)
    {
      if |got| < |rest| {
        ByteBack(rest[|got|]);
        SCharValues(rest[|got|]);
      }
      var c := MfGetC();
      ok := c != MEOF;
      if ok {
        more := got + [ToByte(c)];
        Went(rest, got, more);
      } else {
        more := got;
        Stopped(rest, got, n);
      }
    }

    /** mfgets: exactly `size` bytes or failure; neither newline nor terminator plays a part. */
    method MfGets(size: nat) returns (ok: bool, got: seq<byte>)
      requires Valid() && mode == READ
      modifies this, file`pos, buffer
      ensures Valid() && got == Taken(old(Rest()), size) && Rest() == RestAfter(old(Rest()), size)
      ensures ok <==> |got| == size
      ensures got <= old(Rest()) && 255 !in got
      ensures !ok ==> |got| == |old(Rest())| || old(Rest())[|got|] == 255
    {
      TakenSays(Rest(), size);
      got := [];
      ok := true;
      ghost var rest := Rest();
      for i := 0 to size
        invariant Valid() && |got| == i && got == Taken(rest, i) && Rest() == rest[i..]
      {
        ok, got := Fetch(got, rest, size);
        if !ok {
          return;
        }
      }
    }

    /** mfread: the same over size * counter bytes, but the result is `counter` whatever arrived. */
    method MfRead(size: nat, counter: nat) returns (r: nat, got: seq<byte>)
      requires Valid() && mode == READ
      modifies this, file`pos, buffer
      ensures Valid() && r == counter
      ensures got == Taken(old(Rest()), size * counter) && Rest() == RestAfter(old(Rest()), size * counter)
      ensures got <= old(Rest()) && 255 !in got
      ensures |got| < size * counter ==> |got| == |old(Rest())| || old(Rest())[|got|] == 255
    {
      TakenSays(Rest(), size * counter);
      got := ReadItems(size, counter);
      r := counter;
    }

    method ReadItems(size: nat, counter: nat) returns (got: seq<byte>)
      requires Valid() && mode == READ
      modifies this, file`pos, buffer
      ensures Valid()
      ensures got == Taken(old(Rest()), size * counter) && Rest() == RestAfter(old(Rest()), size * counter)
    {
      got := [];
      ghost var rest := Rest();
      ghost var n := Times(counter, size);
      TimesIs(counter, size);
      for i := 0 to counter
        invariant Valid() && |got| == Times(i, size) && got == Taken(rest, |got|) && Rest() == rest[|got|..]
      {
        ItemFits(size, i, counter);
        var ok;
        ok, got := ReadItem(size, got, rest, n);
        if !ok {
          return;
        }
      }
    }

    /** The inner loop of mfread: one item of `size` bytes. */
    method ReadItem(size: nat, before: seq<byte>, ghost rest: seq<byte>, ghost n: nat)
      returns (ok: bool, got: seq<byte>)
      requires Valid() && mode == READ && |before| + size <= n
      requires before == Taken(rest, |before|) && Rest() == rest[|before|..]
      modifies this, file`pos, buffer
      ensures Valid()
      ensures ok ==> |got| == |before| + size && got == Taken(rest, |got|) && Rest() == rest[|got|..]
      ensures !ok ==> got == Taken(rest, n) && Rest() == RestAfter(rest, n)
    {
      got := before;
      ok := true;
      for j := 0 to size
        invariant Valid() && |got| == |before| + j && got == Taken(rest, |got|) && Rest() == rest[|got|..]
      {
        ok, got := Fetch(got, rest, n);
        if !ok {
          return;
        }
      }
    }

    /** mfclose: what is pending goes to the file. */
    method MfClose()
      requires Valid()
      modifies this, file`bytes, file`space
      ensures mode != READ ==> file.bytes == Flush(old(Out())).file
      ensures mode != READ && old(BUFFER_LEN - left) <= old(file.space) ==> file.bytes == old(All(Out()))
    {
      MfFlush();
    }
  }

  lemma EndsInside(buff: seq<byte>)
    requires 0 in buff
    ensures StrEnd(buff) < |buff|
  {
    var i :| 0 <= i < |buff| && buff[i] == 0;
    StrEndBefore(buff, i);
  }

  lemma NulEnds(buff: seq<byte>, i: nat)
    requires i <= StrEnd(buff) < |buff| && buff[i] == 0
    ensures i == StrEnd(buff)
  {
    StrEndBefore(buff, i);
  }

  /** i items of `size` bytes. */
  function Times(i: nat, size: nat): nat {
    if i == 0 then 0 else Times(i - 1, size) + size
  }

  lemma {:induction false} TimesIs(i: nat, size: nat)
    ensures Times(i, size) == size * i
  {
    if i > 0 { TimesIs(i - 1, size); }
  }

  lemma {:induction false} ItemFits(size: nat, i: nat, counter: nat)
    requires i < counter
    ensures Times(i, size) + size == Times(i + 1, size) <= Times(counter, size)
    decreases counter
  {
    if i + 1 < counter { ItemFits(size, i, counter - 1); }
  }

  /** Once a loop has stopped early it has stopped for every longer request. */
  lemma {:induction false} TakenKeeps(rest: seq<byte>, m: nat, n: nat)
    requires m <= n
    ensures |Taken(rest, m)| < m ==> Taken(rest, n) == Taken(rest, m)
    decreases m
  {
    if m > 0 && rest != [] && rest[0] != 255 {
      TakenKeeps(rest[1..], m - 1, n - 1);
    }
  }

  /** The next byte of a loop over mfgetc, or its end. */
  lemma OneMore(rest: seq<byte>, k: nat, n: nat)
    requires k < n && |Taken(rest, k)| == k
    ensures k <= |rest|
    ensures k < |rest| && rest[k] != 255 ==> Taken(rest, k + 1) == Taken(rest, k) + [rest[k]]
    ensures k == |rest| || rest[k] == 255 ==>
              Taken(rest, n) == Taken(rest, k) && RestAfter(rest, n) == if k < |rest| then rest[k + 1..] else []
  {
    TakenMore(rest, k);
    TakenKeeps(rest, k + 1, n);
  }

  lemma Went(rest: seq<byte>, got: seq<byte>, more: seq<byte>)
    requires got == Taken(rest, |got|) && |got| < |rest| && rest[|got|] != 255 && more == got + [rest[|got|]]
    ensures more == Taken(rest, |more|)
  {
    TakenNext(rest, |got|, |more|);
  }

  lemma TakenNext(rest: seq<byte>, k: nat, next: nat)
    requires next == k + 1 && |Taken(rest, k)| == k < |rest| && rest[k] != 255
    ensures Taken(rest, next) == Taken(rest, k) + [rest[k]]
  {
    TakenMore(rest, k);
  }

  lemma Stopped(rest: seq<byte>, got: seq<byte>, n: nat)
    requires |got| < n && got == Taken(rest, |got|) && (|got| == |rest| || rest[|got|] == 255)
    ensures got == Taken(rest, n) && RestAfter(rest, n) == if |got| < |rest| then rest[|got| + 1..] else []
  {
    OneMore(rest, |got|, n);
  }

  /** The copy program: mfgetc until MEOF, each byte to mfputc, then both files closed. */
  method Copy(src: MFile, dst: MFile)
    requires src.Valid() && dst.Valid() && Apart(src, dst)
    modifies src, src.file, src.buffer, dst, dst.file, dst.buffer
    ensures old(|dst.Out().pend| + |src.Rest()|) <= old(dst.file.space) ==>
              dst.file.bytes == old(All(dst.Out())) + Taken(old(src.Rest()), |old(src.Rest())|)
  {
    ghost var rest := src.Rest();
    ghost var out := dst.Out();
    var got := CopyLoop(src, dst);
    src.MfClose();
    dst.MfClose();
    CopyIsAll(out, got);
  }

  /** Two streams that share nothing. */
  ghost predicate Apart(src: MFile, dst: MFile) {
    && src.mode == READ && dst.mode != READ
    && src != dst && src.file != dst.file && src.buffer != dst.buffer
  }

  /** In the copy loop: `got` has gone to dst, and c is the byte behind it or MEOF. */
  ghost predicate Copying(src: MFile, dst: MFile, rest: seq<byte>, out: Writer, got: seq<byte>, c: int)
    reads src, src.file, src.buffer, dst, dst.file, dst.buffer
    requires out.Ok()
  {
    && src.Valid() && dst.Valid() && Apart(src, dst)
    && got == Taken(rest, |got|) && dst.Out() == ApplyAll(out, Chars(got))
    && (c == MEOF ==> got == Taken(rest, |rest|))
    && (c != MEOF ==>
          && |got| < |rest| && c == SChar(rest[|got|]) && src.Rest() == rest[|got| + 1..]
          && Taken(rest, |got| + 1) == got + [rest[|got|]])
  }

  method CopyLoop(src: MFile, dst: MFile) returns (ghost got: seq<byte>)
    requires src.Valid() && dst.Valid() && Apart(src, dst)
    modifies src, src.file`pos, src.buffer, dst, dst.file`bytes, dst.file`space, dst.buffer
    ensures src.Valid() && dst.Valid() && got == Taken(old(src.Rest()), |old(src.Rest())|)
    ensures dst.Out() == ApplyAll(old(dst.Out()), Chars(got))
  {
    ghost var rest := src.Rest();
    ghost var out := dst.Out();
    got := [];
    var c := NextChar(src, got, rest);
    while c != MEOF
      invariant Copying(src, dst, rest, out, got, c)
      decreases |rest| - |got|
    {
      got, c := CopyByte(src, dst, rest, out, got, c);
    }
  }

  method CopyByte(src: MFile, dst: MFile, ghost rest: seq<byte>, ghost out: Writer, ghost before: seq<byte>, c: int)
    returns (ghost got: seq<byte>, d: int)
    requires out.Ok() && Copying(src, dst, rest, out, before, c) && c != MEOF
    modifies src, src.file`pos, src.buffer, dst, dst.file`bytes, dst.file`space, dst.buffer
    ensures Copying(src, dst, rest, out, got, d) && |got| == |before| + 1 <= |rest|
  {
    ghost var was := dst.Out();
    got := before + [rest[|before|]];
    ByteBack(rest[|before|]);
    PutBeside(src, dst, c);
    CharsNext(out, before, rest[|before|], got, was, dst.Out());
    d := NextBeside(src, dst, got, rest);
  }

  /** A byte survives the way through mfgetc and mfputc. */
  lemma ByteBack(b: byte)
    ensures ToByte(SChar(b)) == b
  {
  }

  method PutBeside(src: MFile, dst: MFile, c: int)
    requires src.Valid() && dst.Valid() && Apart(src, dst)
    modifies dst, dst.file`bytes, dst.file`space, dst.buffer
    ensures src.Valid() && src.Rest() == old(src.Rest())
    ensures dst.Valid() && dst.Out() == PutC(old(dst.Out()), ToByte(c)).0
  {
    var r := dst.MfPutC(c);
  }

  method NextBeside(src: MFile, dst: MFile, ghost got: seq<byte>, ghost rest: seq<byte>) returns (c: int)
    requires src.Valid() && dst.Valid() && Apart(src, dst)
    requires got == Taken(rest, |got|) && src.Rest() == rest[|got|..]
    modifies src, src.file`pos, src.buffer
    ensures src.Valid() && dst.Valid() && dst.Out() == old(dst.Out())
    ensures c == MEOF ==> got == Taken(rest, |rest|)
    ensures c != MEOF ==> |got| < |rest| && c == SChar(rest[|got|]) && src.Rest() == rest[|got| + 1..]
    ensures c != MEOF ==> Taken(rest, |got| + 1) == got + [rest[|got|]]
  {
    c := NextChar(src, got, rest);
  }

  method NextChar(src: MFile, ghost got: seq<byte>, ghost rest: seq<byte>) returns (c: int)
    requires src.Valid() && src.mode == READ && got == Taken(rest, |got|) && src.Rest() == rest[|got|..]
    modifies src, src.file`pos, src.buffer
    ensures src.Valid()
    ensures c == MEOF ==> got == Taken(rest, |rest|)
    ensures c != MEOF ==> |got| < |rest| && c == SChar(rest[|got|]) && src.Rest() == rest[|got| + 1..]
    ensures c != MEOF ==> Taken(rest, |got| + 1) == got + [rest[|got|]]
  {
    OneMore(rest, |got|, |rest| + 1);
    TakenWhole(rest);
    c := src.MfGetC();
  }

  function Chars(s: seq<byte>): seq<WriteOp> {
    seq(|s|, i requires 0 <= i < |s| => Char(s[i]))
  }

  lemma {:induction false} ApplyLast(w: Writer, ops: seq<WriteOp>, op: WriteOp)
    requires w.Ok()
    ensures ApplyAll(w, ops + [op]) == Apply(ApplyAll(w, ops), op)
    decreases |ops|
  {
    if ops != [] {
      assert (ops + [op])[1..] == ops[1..] + [op];
      ApplyLast(Apply(w, ops[0]), ops[1..], op);
    }
  }

  lemma CharsNext(w: Writer, s: seq<byte>, b: byte, s': seq<byte>, now: Writer, next: Writer)
    requires w.Ok() && now == ApplyAll(w, Chars(s)) && next == PutC(now, b).0 && s' == s + [b]
    ensures next == ApplyAll(w, Chars(s'))
  {
    CharsMore(w, s, b);
  }

  lemma CharsMore(w: Writer, s: seq<byte>, b: byte)
    requires w.Ok()
    ensures ApplyAll(w, Chars(s + [b])) == PutC(ApplyAll(w, Chars(s)), b).0
  {
    assert Chars(s + [b]) == Chars(s) + [Char(b)];
    ApplyLast(w, Chars(s), Char(b));
  }

  lemma {:induction false} CharsPayload(s: seq<byte>)
    ensures Payload(Chars(s)) == s
  {
    if s != [] {
      CharsPayload(s[1..]);
      assert Chars(s)[1..] == Chars(s[1..]);
    }
  }

  lemma {:induction false} TakenWhole(rest: seq<byte>)
    ensures Taken(rest, |rest| + 1) == Taken(rest, |rest|)
  {
    TakenMore(rest, |rest|);
  }

  lemma CopyIsAll(w: Writer, s: seq<byte>)
    requires w.Ok()
    ensures |w.pend| + |s| <= w.space ==> Flush(ApplyAll(w, Chars(s))).file == All(w) + s
  {
    CharsPayload(s);
    if |w.pend| + |s| <= w.space {
      ApplyAllKeepsAll(w, Chars(s));
      FlushKeepsAll(ApplyAll(w, Chars(s)));
    }
  }
}

/** do_searchword of the dictionary server: a linear scan of dict.txt that gives up early. */
module Dictionary {
  import opened CStrings
  import opened Wrappers

  const SPACE: byte := 32
  const NEWLINE: byte := 10
  const ROW := 511   // fgets(row_data, 512, fp)
  const REPLY := 256 // msg->data

  // ---------- rows ----------

  /** How much one fgets takes: through the newline, at most `limit` bytes, at most what there is. */
  function RowLength(rest: seq<byte>, limit: nat): (n: nat)
    ensures n <= |rest| && n <= limit
    ensures rest != [] && limit > 0 ==> n > 0
  {
    if rest == [] || limit == 0 then 0
    else if rest[0] == NEWLINE then 1
    else 1 + RowLength(rest[1..], limit - 1)
  }

  function Rows(rest: seq<byte>, limit: nat): seq<seq<byte>>
    requires limit > 0
  {
    if rest == [] then []
    else
      var n := RowLength(rest, limit);
      [rest[..n]] + Rows(rest[n..], limit)
  }

  /** The lines of the file, of whatever length. */
  function Lines(rest: seq<byte>): seq<seq<byte>> {
    if rest == [] then []
    else
      var n := RowLength(rest, |rest|);
      [rest[..n]] + Lines(rest[n..])
  }

  lemma {:induction false} LimitCuts(rest: seq<byte>, limit: nat)
    ensures RowLength(rest, limit) == if RowLength(rest, |rest|) <= limit then RowLength(rest, |rest|) else limit
    decreases |rest|
  {
    if rest != [] && limit > 0 && rest[0] != NEWLINE {
      LimitCuts(rest[1..], limit - 1);
    }
  }

  /** A row ends with its newline, at the limit, or with the file, and holds no newline before its end. */
  lemma {:induction false} RowEnds(rest: seq<byte>, limit: nat)
    ensures var n := RowLength(rest, limit);
            && 10 !in rest[..if n == 0 then 0 else n - 1]
            && (n == limit || n == |rest| || (n > 0 && rest[n - 1] == 10))
    decreases |rest|
  {
    if rest != [] && limit > 0 && rest[0] != NEWLINE {
      RowEnds(rest[1..], limit - 1);
      var n := RowLength(rest[1..], limit - 1);
      forall i | 0 <= i < n ensures rest[i] != NEWLINE {
        if i > 0 { assert rest[i] == rest[1..][..n - 1][i - 1]; }
      }
    }
  }

  function Concat(rows: seq<seq<byte>>): seq<byte> {
    if rows == [] then [] else rows[0] + Concat(rows[1..])
  }

  /** Lines put together again are the file. */
  lemma {:induction false} LinesAreFile(rest: seq<byte>)
    ensures Concat(Lines(rest)) == rest
    decreases |rest|
  {
    if rest != [] {
      var n := RowLength(rest, |rest|);
      LinesAreFile(rest[n..]);
      assert Lines(rest)[1..] == Lines(rest[n..]);
      assert rest[..n] + rest[n..] == rest;
    }
  }

  /** The scan sees whole lines iff no line is longer than the row buffer takes. */
  lemma {:induction false} RowsAreLinesIff(rest: seq<byte>, limit: nat)
    requires limit > 0
    ensures Rows(rest, limit) == Lines(rest) <==> forall i :: 0 <= i < |Lines(rest)| ==> |Lines(rest)[i]| <= limit
    decreases |rest|
  {
    if rest != [] {
      var n := RowLength(rest, |rest|);
      LimitCuts(rest, limit);
      RowsAreLinesIff(rest[n..], limit);
      var later := Lines(rest[n..]);
      assert Lines(rest)[0] == rest[..n] && Lines(rest)[1..] == later;
      assert forall i :: 0 <= i < |later| ==> Lines(rest)[i + 1] == later[i];
      if n > limit {
        assert Rows(rest, limit)[0] == rest[..limit];
      } else {
        assert Rows(rest, limit) == [rest[..n]] + Rows(rest[n..], limit);
        assert Rows(rest, limit)[1..] == Rows(rest[n..], limit);
      }
    }
  }

  // ---------- what the scan answers ----------

  /** `Overflow`: strcpy writes the definition and its NUL past the end of the reply. */
  datatype Answer = NoFile | NotFound | Found(definition: seq<byte>) | Overflow

  /** Behind the word: skip spaces, take the string that follows, newline included. */
  function SkipSpaces(s: seq<byte>): seq<byte> {
    if s != [] && s[0] == SPACE then SkipSpaces(s[1..]) else s
  }

  function Definition(row: seq<byte>, n: nat): seq<byte>
    requires n <= |row|
  {
    var p := SkipSpaces(row[n..]);
    p[..StrEnd(p)]
  }

  /** The definition is what stands behind the spaces, up to a NUL. */
  lemma {:induction false} SpacesSkipped(s: seq<byte>, n: nat)
    requires n <= |s| && (forall k :: 0 <= k < n ==> s[k] == SPACE) && (n < |s| ==> s[n] != SPACE)
    ensures SkipSpaces(s) == s[n..]
    decreases n
  {
    if n > 0 { SpacesSkipped(s[1..], n - 1); }
  }

  /** A row made of a word, at least one space and a text is about the word and defines it by the text. */
  lemma EntryRoundTrip(word: seq<byte>, spaces: seq<byte>, text: seq<byte>)
    requires spaces != [] && (forall k :: 0 <= k < |spaces| ==> spaces[k] == SPACE)
    requires 0 !in text && (text != [] ==> text[0] != SPACE)
    ensures var row := word + (spaces + text); IsEntry(row, word) && Definition(row, |word|) == text
  {
    var row := word + (spaces + text);
    assert row[|word|..] == spaces + text;
    SpacesSkipped(spaces + text, |spaces|);
    assert (spaces + text)[|spaces|..] == text;
    assert text[..|text|] == text;
    StrEndBehind(text, |text|);
  }

  predicate Begins(row: seq<byte>, word: seq<byte>) { word <= row }

  /** The row is about this word: a space follows it. */
  predicate IsEntry(row: seq<byte>, word: seq<byte>) {
    word <= row && |word| < |row| && row[|word|] == SPACE
  }

  /** The scan of the code: the first row that begins with the word decides. */
  function Scan(rows: seq<seq<byte>>, word: seq<byte>): Answer {
    if rows == [] then NotFound
    else if !Begins(rows[0], word) then Scan(rows[1..], word)
    else if IsEntry(rows[0], word) then Found(Definition(rows[0], |word|))
    else NotFound
  }

  /** A full lookup: the first row that is about the word. */
  function FullLookup(rows: seq<seq<byte>>, word: seq<byte>): (a: Answer)
    ensures a.NotFound? || a.Found?
  {
    if rows == [] then NotFound
    else if IsEntry(rows[0], word) then Found(Definition(rows[0], |word|))
    else FullLookup(rows[1..], word)
  }

  /** A full lookup answers with the definition of the first row about the word, if there is one. */
  lemma {:induction false} LookupIsFirst(rows: seq<seq<byte>>, word: seq<byte>, j: nat)
    requires j < |rows| && IsEntry(rows[j], word) && forall k :: 0 <= k < j ==> !IsEntry(rows[k], word)
    ensures FullLookup(rows, word) == Found(Definition(rows[j], |word|))
    decreases j
  {
    if j > 0 { LookupIsFirst(rows[1..], word, j - 1); }
  }

  /** Row i only begins with the word, no row up to it is about the word, and the later row j is. */
  ghost predicate Shadows(rows: seq<seq<byte>>, word: seq<byte>, i: int, j: int) {
    && 0 <= i < j < |rows| && IsEntry(rows[j], word) && Begins(rows[i], word)
    && forall k :: 0 <= k <= i ==> !IsEntry(rows[k], word)
  }

  ghost predicate Shadowed(rows: seq<seq<byte>>, word: seq<byte>) {
    exists i, j :: Shadows(rows, word, i, j)
  }

  lemma {:induction false} FoundIff(rows: seq<seq<byte>>, word: seq<byte>)
    ensures FullLookup(rows, word).Found? <==> exists j :: 0 <= j < |rows| && IsEntry(rows[j], word)
  {
    if rows != [] {
      FoundIff(rows[1..], word);
      if exists j :: 0 <= j < |rows[1..]| && IsEntry(rows[1..][j], word) {
        var j :| 0 <= j < |rows[1..]| && IsEntry(rows[1..][j], word);
        assert IsEntry(rows[j + 1], word);
      }
      if j :| 0 <= j < |rows| && IsEntry(rows[j], word) && j > 0 {
        assert rows[1..][j - 1] == rows[j];
      }
    }
  }

  lemma ShadowedTail(rows: seq<seq<byte>>, word: seq<byte>)
    requires rows != [] && !IsEntry(rows[0], word) && !Begins(rows[0], word)
    ensures Shadowed(rows, word) <==> Shadowed(rows[1..], word)
  {
    var tail := rows[1..];
    if Shadowed(rows, word) {
      var i, j :| Shadows(rows, word, i, j);
      assert forall k :: 0 <= k <= i - 1 ==> tail[k] == rows[k + 1];
      assert Shadows(tail, word, i - 1, j - 1);
    }
    if Shadowed(tail, word) {
      var i, j :| Shadows(tail, word, i, j);
      assert forall k :: 0 < k <= i + 1 ==> rows[k] == tail[k - 1];
      assert Shadows(rows, word, i + 1, j + 1);
    }
  }

  /** Giving up early is right exactly when the word is not shadowed: every file, every word. */
  lemma {:induction false} EarlyExitIff(rows: seq<seq<byte>>, word: seq<byte>)
    ensures Scan(rows, word) == FullLookup(rows, word) <==> !Shadowed(rows, word)
  {
    if rows == [] {
    } else if IsEntry(rows[0], word) {
      assert Scan(rows, word) == FullLookup(rows, word);
    } else if !Begins(rows[0], word) {
      EarlyExitIff(rows[1..], word);
      ShadowedTail(rows, word);
    } else {
      FoundIff(rows, word);
      if exists j :: 0 <= j < |rows| && IsEntry(rows[j], word) {
        var j :| 0 <= j < |rows| && IsEntry(rows[j], word);
        assert Shadows(rows, word, 0, j);
      }
    }
  }

  // ---------- sorted dictionaries ----------

  /** Byte order, a proper prefix first. */
  predicate LexLe(a: seq<byte>, b: seq<byte>) {
    if a == [] then true
    else if b == [] then false
    else a[0] < b[0] || (a[0] == b[0] && LexLe(a[1..], b[1..]))
  }

  /** key, space, anything: the key's bytes are above the space. */
  ghost predicate EntryRow(row: seq<byte>) {
    exists n: nat :: n < |row| && row[n] == SPACE && forall k :: 0 <= k < n ==> row[k] > SPACE
  }

  /** The key of a row: everything before its first byte that is not above the space. */
  function Key(row: seq<byte>): seq<byte> {
    if row == [] || row[0] <= SPACE then [] else [row[0]] + Key(row[1..])
  }

  /** On entry rows and words without control bytes, being about the word is having it as the key. */
  lemma {:induction false} EntryIsKey(row: seq<byte>, word: seq<byte>)
    requires EntryRow(row) && forall k :: 0 <= k < |word| ==> word[k] > SPACE
    ensures IsEntry(row, word) <==> Key(row) == word
    decreases |word|
  {
    var m: nat :| m < |row| && row[m] == SPACE && forall k :: 0 <= k < m ==> row[k] > SPACE;
    if word != [] && row[0] == word[0] {
      var r, w := row[1..], word[1..];
      assert r[m - 1] == SPACE;
      EntryIsKey(r, w);
      assert word == [word[0]] + w && (w <= r <==> word <= row);
    }
  }

  ghost predicate Sorted(rows: seq<seq<byte>>) {
    forall i, j :: 0 <= i < j < |rows| ==> LexLe(rows[i], rows[j])
  }

  lemma {:induction false} LexAtDifference(a: seq<byte>, b: seq<byte>, n: nat)
    requires n < |a| && n < |b| && a[..n] == b[..n] && a[n] > b[n]
    ensures !LexLe(a, b)
    decreases n
  {
    if n > 0 {
      assert a[0] == a[..n][0] == b[..n][0] == b[0];
      assert a[1..][..n - 1] == a[..n][1..] == b[..n][1..] == b[1..][..n - 1];
      LexAtDifference(a[1..], b[1..], n - 1);
    }
  }

  /** A longer key continues with a byte above the space. */
  lemma NextIsAbove(row: seq<byte>, word: seq<byte>)
    requires EntryRow(row) && Begins(row, word) && !IsEntry(row, word)
    requires forall k :: 0 <= k < |word| ==> word[k] > SPACE
    ensures |word| < |row| && row[|word|] > SPACE
  {
    var m: nat :| m < |row| && row[m] == SPACE && forall k :: 0 <= k < m ==> row[k] > SPACE;
  }

  /** On a byte-sorted file of entries no word is shadowed, so the early exit answers like the full lookup. */
  lemma SortedIsSound(rows: seq<seq<byte>>, word: seq<byte>)
    requires Sorted(rows) && forall i :: 0 <= i < |rows| ==> EntryRow(rows[i])
    requires forall k :: 0 <= k < |word| ==> word[k] > SPACE
    ensures Scan(rows, word) == FullLookup(rows, word)
  {
    if Shadowed(rows, word) {
      var i, j :| Shadows(rows, word, i, j);
      NextIsAbove(rows[i], word);
      assert rows[i][..|word|] == word == rows[j][..|word|];
      LexAtDifference(rows[i], rows[j], |word|);
    }
    EarlyExitIff(rows, word);
  }

  /** A word a client can ask for. */
  predicate IsWord(word: seq<byte>) {
    word != [] && forall k :: 0 <= k < |word| ==> word[k] > SPACE
  }

  /** No key stands behind a longer key that begins with it, unless it stands there or before as well. */
  ghost predicate PrefixFirst(rows: seq<seq<byte>>) {
    forall i, j :: 0 <= i < j < |rows| && Key(rows[j]) != [] && Key(rows[j]) < Key(rows[i]) ==>
      exists k :: 0 <= k <= i && Key(rows[k]) == Key(rows[j])
  }

  ghost predicate SoundForAllWords(rows: seq<seq<byte>>) {
    forall word :: IsWord(word) ==> Scan(rows, word) == FullLookup(rows, word)
  }

  lemma {:induction false} KeyIsWord(row: seq<byte>)
    ensures Key(row) <= row && forall k :: 0 <= k < |Key(row)| ==> Key(row)[k] > SPACE
    ensures |Key(row)| < |row| ==> row[|Key(row)|] <= SPACE
  {
    if row != [] && row[0] > SPACE { KeyIsWord(row[1..]); }
  }

  /** A row that begins with a word and is not about it has a longer key. */
  lemma {:induction false} BeginsIsLongerKey(row: seq<byte>, word: seq<byte>)
    requires EntryRow(row) && forall k :: 0 <= k < |word| ==> word[k] > SPACE
    ensures Begins(row, word) && !IsEntry(row, word) <==> word < Key(row)
    decreases |word|
  {
    var m: nat :| m < |row| && row[m] == SPACE && forall k :: 0 <= k < m ==> row[k] > SPACE;
    if word == [] {
      assert Key(row) != [] <==> m > 0;
    } else if row[0] == word[0] {
      var r, w := row[1..], word[1..];
      assert r[m - 1] == SPACE;
      BeginsIsLongerKey(r, w);
      assert word == [word[0]] + w && (w <= r <==> word <= row);
      assert (w < Key(r)) <==> (word < Key(row));
    }
  }

  lemma ShadowIsPrefix(rows: seq<seq<byte>>, word: seq<byte>, i: int, j: int)
    requires forall n :: 0 <= n < |rows| ==> EntryRow(rows[n])
    requires IsWord(word) && 0 <= i < j < |rows|
    ensures Shadows(rows, word, i, j)
            <==> Key(rows[j]) == word && word < Key(rows[i]) && forall k :: 0 <= k <= i ==> Key(rows[k]) != word
  {
    forall n | 0 <= n < |rows| ensures IsEntry(rows[n], word) <==> Key(rows[n]) == word {
      EntryIsKey(rows[n], word);
    }
    BeginsIsLongerKey(rows[i], word);
  }

  /** On entry rows giving up early is right for every word exactly when no key hides behind a longer one. */
  lemma SoundIffPrefixFirst(rows: seq<seq<byte>>)
    requires forall n :: 0 <= n < |rows| ==> EntryRow(rows[n])
    ensures SoundForAllWords(rows) <==> PrefixFirst(rows)
  {
    if PrefixFirst(rows) {
      forall word | IsWord(word) ensures Scan(rows, word) == FullLookup(rows, word) {
        EarlyExitIff(rows, word);
        if Shadowed(rows, word) {
          var i, j :| Shadows(rows, word, i, j);
          ShadowIsPrefix(rows, word, i, j);
          assert false;
        }
      }
    } else {
      var i, j :| 0 <= i < j < |rows| && Key(rows[j]) != [] && Key(rows[j]) < Key(rows[i])
                  && forall k :: 0 <= k <= i ==> Key(rows[k]) != Key(rows[j]);
      KeyIsWord(rows[j]);
      ShadowIsPrefix(rows, Key(rows[j]), i, j);
      EarlyExitIff(rows, Key(rows[j]));
      assert IsWord(Key(rows[j]));
    }
  }

  /** "abc x" before "ab y": the word "ab" is there and is not found. */
  lemma UnsortedExample()
    ensures var rows := [[97, 98, 99, 32, 120, 10], [97, 98, 32, 121, 10]];
            Scan(rows, [97, 98]) == NotFound && FullLookup(rows, [97, 98]) == Found([121, 10])
  {
    var rows: seq<seq<byte>> := [[97, 98, 99, 32, 120, 10], [97, 98, 32, 121, 10]];
    var row: seq<byte> := rows[1];
    assert rows[1..][0] == row && row[2..] == [32, 121, 10];
    assert SkipSpaces(row[2..]) == [121, 10] by {
      assert row[2..][1..] == [121, 10];
    }
    var p: seq<byte> := [121, 10];
    assert p[1..] == [10] && p[1..][1..] == [];
    assert StrEnd(p) == 2;
    assert p[..2] == p;
  }

  // ---------- the loop ----------

  /** strncmp(row, word, |word|) == 0. */
  method SamePrefix(row: seq<byte>, word: seq<byte>) returns (b: bool)
    ensures b <==> Begins(row, word)
  {
    for i := 0 to |word|
      invariant i <= |row| && forall k :: 0 <= k < i ==> row[k] == word[k]
    {
      if i >= |row| || row[i] != word[i] {
        return false;
      }
    }
    b := true;
  }

  /** What arrives in the reply. */
  function Delivered(a: Answer): Answer {
    if a.Found? && |a.definition| >= REPLY then Overflow else a
  }

  /** No line is cut by the row buffer: fgets takes 511 bytes of a line, newline included. */
  ghost predicate LinesFit(file: seq<byte>) {
    forall i :: 0 <= i < |Lines(file)| ==> |Lines(file)[i]| <= 511
  }

  lemma WholeLinesIff(file: seq<byte>)
    ensures Rows(file, ROW) == Lines(file) <==> LinesFit(file)
  {
    RowsAreLinesIff(file, ROW);
  }

  /**
   The file as a dictionary: when no line is cut, the client gets the entry of the word, or learns that
   there is none, iff no line hides it and the definition fits the reply.
   */
  lemma AnswerIsEntryIff(file: seq<byte>, word: seq<byte>)
    requires LinesFit(file)
    ensures Delivered(Scan(Rows(file, ROW), word)) == FullLookup(Lines(file), word)
            <==> !Shadowed(Lines(file), word) && !Delivered(Scan(Rows(file, ROW), word)).Overflow?
  {
    RowsAreLinesIff(file, ROW);
    EarlyExitIff(Lines(file), word);
  }

  /** On a file of entries in which no key hides behind a longer one, every word gets its entry, space permitting. */
  lemma SoundFileAnswers(file: seq<byte>, word: seq<byte>)
    requires LinesFit(file) && IsWord(word) && PrefixFirst(Lines(file))
    requires forall n :: 0 <= n < |Lines(file)| ==> EntryRow(Lines(file)[n])
    ensures Delivered(Scan(Rows(file, ROW), word)) == Delivered(FullLookup(Lines(file), word))
  {
    RowsAreLinesIff(file, ROW);
    SoundIffPrefixFirst(Lines(file));
  }

  /** The answer the client gets; NoFile, NotFound and Found are the return values -1, 0 and 1. */
  method DoSearchWord(file: Option<seq<byte>>, word: seq<byte>) returns (answer: Answer)
    ensures file.None? ==> answer == NoFile
    ensures file.Some? ==>
              var found := Scan(Rows(file.value, ROW), word);
              && (answer == Overflow <==> found == Overflow || (found.Found? && |found.definition| >= 256))
              && (answer != Overflow ==> answer == found)
    ensures file.Some? ==> answer == Delivered(Scan(Rows(file.value, ROW), word))
    ensures file.Some? && LinesFit(file.value) && !Shadowed(Lines(file.value), word) && answer != Overflow ==>
              answer == FullLookup(Lines(file.value), word)
  {
    if file.None? {
      return NoFile;
    }
    var found := ScanFile(file.value, word);
    if LinesFit(file.value) {
      AnswerIsEntryIff(file.value, word);
    }
    answer := if found.Found? && |found.definition| >= REPLY then Overflow else found;
  }

  /** The loop over the rows. */
  method ScanFile(file: seq<byte>, word: seq<byte>) returns (answer: Answer)
    ensures answer == Scan(Rows(file, ROW), word)
  {
    var rest := file;
    while rest != []
      invariant Scan(Rows(rest, ROW), word) == Scan(Rows(file, ROW), word)
      decreases |rest|
    {
      var n := RowLength(rest, ROW);
      var row := rest[..n];
      assert Rows(rest, ROW) == [row] + Rows(rest[n..], ROW);
      var same := SamePrefix(row, word);
      if same {
        if |word| == |row| || row[|word|] != SPACE {
          return NotFound;
        }
        var p := |word|;
        while p < |row| && row[p] == SPACE
          invariant |word| <= p <= |row| && SkipSpaces(row[p..]) == SkipSpaces(row[|word|..])
          decreases |row| - p
        {
          assert row[p..][1..] == row[p + 1..];
          p := p + 1;
        }
        var text := row[p..];
        return Found(text[..StrEnd(text)]);
      }
      rest := rest[n..];
    }
    answer := NotFound;
  }
}

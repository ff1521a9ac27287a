/** Lists of entries with a key, searched front to back, as OMainLoop keeps them; and the map they stand for. */
module KeyedLists {
  import opened OLists

  datatype Entry<D> = Entry(key: int, data: D)

  /** The first position with this key, or |s|. */
  function At<D>(s: seq<Entry<D>>, key: int): (i: nat)
    ensures i <= |s| && (i < |s| ==> s[i].key == key)
  {
    if s == [] || s[0].key == key then 0 else 1 + At(s[1..], key)
  }

  lemma {:induction false} AtIs<D>(s: seq<Entry<D>>, key: int, i: nat)
    requires i <= |s| && (i < |s| ==> s[i].key == key)
    requires forall k :: 0 <= k < i ==> s[k].key != key
    ensures At(s, key) == i
  {
    if i > 0 {
      AtIs(s[1..], key, i - 1);
    }
  }

  lemma {:induction false} AtFirst<D>(s: seq<Entry<D>>, key: int, k: nat)
    requires k < |s| && s[k].key == key
    ensures At(s, key) <= k
  {
    if s[0].key != key {
      AtFirst(s[1..], key, k - 1);
    }
  }

  /** Replace in place, or append. */
  function With<D>(s: seq<Entry<D>>, e: Entry<D>): seq<Entry<D>> {
    var i := At(s, e.key);
    if i < |s| then s[i := e] else s + [e]
  }

  function Without<D>(s: seq<Entry<D>>, key: int): seq<Entry<D>> {
    var i := At(s, key);
    if i < |s| then RemoveAt(s, i) else s
  }

  ghost predicate UniqueKeys<D>(s: seq<Entry<D>>) {
    forall i, j :: 0 <= i < j < |s| ==> s[i].key != s[j].key
  }

  function ToMap<D>(s: seq<Entry<D>>): map<int, D> {
    if s == [] then map[] else ToMap(s[1..])[s[0].key := s[0].data]
  }

  lemma {:induction false} Lookup<D>(s: seq<Entry<D>>, key: int)
    ensures key in ToMap(s) <==> At(s, key) < |s|
    ensures key in ToMap(s) ==> ToMap(s)[key] == s[At(s, key)].data
  {
    if s != [] { Lookup(s[1..], key); }
  }

  lemma {:induction false} WithIsUpdate<D>(s: seq<Entry<D>>, e: Entry<D>)
    ensures ToMap(With(s, e)) == ToMap(s)[e.key := e.data]
  {
    if s != [] {
      if s[0].key == e.key {
        assert With(s, e) == [e] + s[1..];
      } else {
        WithIsUpdate(s[1..], e);
        assert With(s, e) == [s[0]] + With(s[1..], e);
      }
    }
  }

  lemma ToMapCons<D>(e: Entry<D>, s: seq<Entry<D>>)
    ensures ToMap([e] + s) == ToMap(s)[e.key := e.data]
  {
    assert ([e] + s)[1..] == s;
  }

  lemma {:induction false} WithoutIsRemoval<D>(s: seq<Entry<D>>, key: int)
    requires UniqueKeys(s)
    ensures ToMap(Without(s, key)) == ToMap(s) - {key}
  {
    if s == [] {
    } else if s[0].key == key {
      RemoveFirst(s, key);
    } else {
      WithoutIsRemoval(s[1..], key);
      WithoutBehindFirst(s, key);
      ToMapCons(s[0], Without(s[1..], key));
    }
  }

  lemma RemovalWhenUnique<D>(s: seq<Entry<D>>, key: int)
    ensures UniqueKeys(s) ==> ToMap(Without(s, key)) == ToMap(s) - {key}
  {
    if UniqueKeys(s) { WithoutIsRemoval(s, key); }
  }

  lemma RemoveFirst<D>(s: seq<Entry<D>>, key: int)
    requires UniqueKeys(s) && s != [] && s[0].key == key
    ensures ToMap(Without(s, key)) == ToMap(s) - {key}
  {
    assert Without(s, key) == s[1..];
    Lookup(s[1..], key);
    assert At(s[1..], key) == |s[1..]|;
  }

  lemma WithoutBehindFirst<D>(s: seq<Entry<D>>, key: int)
    requires s != [] && s[0].key != key
    ensures Without(s, key) == [s[0]] + Without(s[1..], key)
  {
  }

  /** Replacing keeps every position; appending happens only for a new key. */
  lemma WithPositions<D>(s: seq<Entry<D>>, e: Entry<D>)
    requires UniqueKeys(s)
    ensures forall k :: 0 <= k < |s| ==> With(s, e)[k] == if s[k].key == e.key then e else s[k]
    ensures |With(s, e)| == if e.key in ToMap(s) then |s| else |s| + 1
    ensures UniqueKeys(With(s, e))
  {
    Lookup(s, e.key);
    forall k | 0 <= k < |s| && s[k].key == e.key ensures At(s, e.key) == k {
      AtFirst(s, e.key, k);
    }
  }

  lemma WithoutKeepsUnique<D>(s: seq<Entry<D>>, key: int)
    requires UniqueKeys(s)
    ensures UniqueKeys(Without(s, key))
  {
  }
}

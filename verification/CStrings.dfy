/** Bytes, C strings in memory, and first-occurrence search (the contract of `strstr`). */
module CStrings {
  import opened Wrappers

  type byte = x: int | 0 <= x < 256

  /** The index of the first NUL of `mem`, or |mem| when the memory holds none. */
  function StrEnd(mem: seq<byte>): (z: nat)
    ensures z <= |mem| && 0 !in mem[..z]
    ensures z < |mem| ==> mem[z] == 0
  {
    if mem == [] || mem[0] == 0 then 0
    else
      var z := 1 + StrEnd(mem[1..]);
      assert mem[..z] == [mem[0]] + mem[1..][..z - 1];
      z
  }

  lemma StrEndBefore(mem: seq<byte>, n: nat)
    requires n < |mem| && mem[n] == 0
    ensures StrEnd(mem) <= n
  {
  }

  predicate OccursAt(s: seq<byte>, p: seq<byte>, i: nat) {
    i + |p| <= |s| && forall k :: 0 <= k < |p| ==> s[i + k] == p[k]
  }

  lemma OccursIsSlice(s: seq<byte>, p: seq<byte>, i: nat)
    ensures OccursAt(s, p, i) <==> i + |p| <= |s| && s[i..i + |p|] == p
  {
  }

  /** The least position at or after `from` where `p` occurs in `s`. */
  function Find(s: seq<byte>, p: seq<byte>, from: nat): (r: Option<nat>)
    ensures r.Some? ==> from <= r.value && OccursAt(s, p, r.value)
    decreases |s| - from
  {
    if from + |p| > |s| then None
    else if OccursAt(s, p, from) then Some(from)
    else Find(s, p, from + 1)
  }

  /** Find misses nothing: there is no occurrence before the one it returns, and none at all if it fails. */
  lemma {:induction false} FindLeast(s: seq<byte>, p: seq<byte>, from: nat, j: nat)
    requires from <= j && OccursAt(s, p, j)
    ensures Find(s, p, from).Some? && Find(s, p, from).value <= j
    decreases j - from
  {
    if !OccursAt(s, p, from) {
      FindLeast(s, p, from + 1, j);
    }
  }

  lemma StrEndBehind(mem: seq<byte>, n: nat)
    requires n <= |mem| && 0 !in mem[..n]
    ensures n <= StrEnd(mem)
  {
  }

  /** Searching a prefix finds exactly those first occurrences of the whole that end inside the prefix. */
  lemma {:induction false} FindInPrefix(s: seq<byte>, p: seq<byte>, from: nat, n: nat)
    requires n <= |s|
    ensures Find(s[..n], p, from)
         == match Find(s, p, from)
            case Some(i) => if i + |p| <= n then Some(i) else None
            case None => None
    decreases |s| - from
  {
    if from + |p| <= n {
      if !OccursAt(s, p, from) {
        FindInPrefix(s, p, from + 1, n);
      }
    }
  }

  /** Appending data never moves a first occurrence that is already there. */
  lemma FindStable(s: seq<byte>, x: seq<byte>, p: seq<byte>, from: nat)
    requires Find(s, p, from).Some?
    ensures Find(s + x, p, from) == Find(s, p, from)
  {
    assert (s + x)[..|s|] == s;
    FindInPrefix(s + x, p, from, |s|);
  }

  /** Dropping a prefix shifts the positions of occurrences. */
  lemma OccursAfter(u: seq<byte>, v: seq<byte>, p: seq<byte>, i: nat)
    ensures OccursAt(u + v, p, |u| + i) <==> OccursAt(v, p, i)
  {
  }

  /** Behind a prefix `u` the search of `u + v` is the search of `v`, shifted. */
  lemma {:induction false} FindAfter(u: seq<byte>, v: seq<byte>, p: seq<byte>, k: nat, from: nat)
    requires from == |u| + k
    ensures Find(u + v, p, from)
         == match Find(v, p, k) case Some(i) => Some(|u| + i) case None => None
    decreases |v| - k
  {
    OccursAfter(u, v, p, k);
    if k + |p| <= |v| && !OccursAt(v, p, k) {
      FindAfter(u, v, p, k + 1, from + 1);
    }
  }
}

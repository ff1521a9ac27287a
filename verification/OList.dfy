/**
 The doubly linked list of OList.c. The ghost `spine` is the sequence of nodes from head to tail;
 every operation is proved to rewire the pointers so that they mirror an operation on that sequence.
 An iterator is a node; it is a live iterator of the list exactly while the node is in the spine.
 */
module OLists {
  import opened Wrappers

  class Node<T> {
    var prev: Node?<T>
    var next: Node?<T>
    var value: T

    constructor (value: T)
      ensures this.value == value && prev == null && next == null
    {
      this.value := value;
      prev, next := null, null;
    }
  }

  ghost predicate Distinct<A>(s: seq<A>) {
    forall i, j :: 0 <= i < j < |s| ==> s[i] != s[j]
  }

  function RemoveAt<A>(s: seq<A>, i: nat): (r: seq<A>)
    requires i < |s|
    ensures |r| == |s| - 1
    ensures forall k :: 0 <= k < |r| ==> r[k] == s[if k < i then k else k + 1]
  {
    s[..i] + s[i + 1..]
  }

  function InsertAt<A>(s: seq<A>, i: nat, x: A): (r: seq<A>)
    requires i <= |s|
    ensures |r| == |s| + 1
    ensures forall k :: 0 <= k < |r| ==> r[k] == if k < i then s[k] else if k == i then x else s[k - 1]
  {
    s[..i] + [x] + s[i..]
  }

  /** The links and values of `was` with `node` written in at i are those of the sequence with it inserted. */
  lemma NextInserted<T>(was: seq<Node<T>>, now: seq<Node<T>>, i: nat, node: Node<T>)
    requires 0 < i < |was| && now == InsertAt(was, i, node) && node.next == was[i]
    requires forall k {:trigger was[k].next} :: 0 <= k < |was| ==>
               was[k].next == if k == i - 1 then node else if k + 1 < |was| then was[k + 1] else null
    ensures forall k {:trigger now[k].next} :: 0 <= k < |now| ==>
              now[k].next == if k + 1 < |now| then now[k + 1] else null
  {
    forall k | 0 <= k < |now| ensures now[k].next == if k + 1 < |now| then now[k + 1] else null {
      if k < i {
        assert now[k].next == was[k].next && now[k + 1] == if k + 1 == i then node else was[k + 1];
      } else if k > i {
        assert now[k].next == was[k - 1].next;
      }
    }
  }

  lemma PrevInserted<T>(was: seq<Node<T>>, now: seq<Node<T>>, i: nat, node: Node<T>)
    requires 0 < i < |was| && now == InsertAt(was, i, node) && node.prev == was[i - 1]
    requires forall k {:trigger was[k].prev} :: 0 <= k < |was| ==>
               was[k].prev == if k == i then node else if k > 0 then was[k - 1] else null
    ensures forall k {:trigger now[k].prev} :: 0 <= k < |now| ==>
              now[k].prev == if k > 0 then now[k - 1] else null
  {
    forall k | 0 <= k < |now| ensures now[k].prev == if k > 0 then now[k - 1] else null {
      if k < i {
        assert now[k].prev == was[k].prev;
      } else if k > i {
        assert now[k].prev == was[k - 1].prev && now[k - 1] == if k - 1 == i then node else was[k - 2];
      }
    }
  }

  lemma ValuesInserted<T>(was: seq<Node<T>>, values: seq<T>, i: nat, node: Node<T>)
    requires i <= |was| == |values|
    requires forall k {:trigger was[k].value} :: 0 <= k < |was| ==> was[k].value == values[k]
    ensures var now, all := InsertAt(was, i, node), InsertAt(values, i, node.value);
            forall k {:trigger now[k].value} :: 0 <= k < |now| ==> now[k].value == all[k]
  {
  }

  lemma DistinctInserted<A>(s: seq<A>, i: nat, x: A)
    requires i <= |s| && Distinct(s) && x !in s
    ensures Distinct(InsertAt(s, i, x))
  {
  }

  /** Negative indices run no step of the walk, so they mean the first node. */
  function Clamp(i: int): nat { if i < 0 then 0 else i }

  class OList<T> {
    var head: Node?<T>
    var tail: Node?<T>
    var num: int
    ghost var spine: seq<Node<T>>
    /** The list as the plain sequence it stands for: the values along the spine. */
    ghost var contents: seq<T>
    ghost var Repr: set<object>

    ghost predicate Valid()
      reads this, Repr
      ensures Valid() ==> this in Repr
    {
      && this in Repr
      && (forall i :: 0 <= i < |spine| ==> spine[i] in Repr)
      && num == |spine| == |contents|
      && (forall i {:trigger spine[i].value} :: 0 <= i < |spine| ==> spine[i].value == contents[i])
      && Distinct(spine)
      && (spine == [] ==> head == null && tail == null)
      && (spine != [] ==> head == spine[0] && tail == spine[|spine| - 1])
      && (forall i {:trigger spine[i].next} :: 0 <= i < |spine| ==>
            spine[i].next == if i + 1 < |spine| then spine[i + 1] else null)
      && (forall i {:trigger spine[i].prev} :: 0 <= i < |spine| ==>
            spine[i].prev == if i > 0 then spine[i - 1] else null)
    }

    ghost function IndexOf(p: Node<T>): (i: nat)
      reads this
      requires p in spine
      ensures i < |spine| && spine[i] == p
    {
      var i :| 0 <= i < |spine| && spine[i] == p;
      i
    }

    /** Every iterator of the former spine is still one, except `gone`. */
    ghost predicate StillLive(was: seq<Node<T>>, gone: Node?<T>)
      reads this
    {
      forall n :: n in was && n != gone ==> n in spine
    }

    /** next: the node behind pos, null behind the last one and for foreign nodes. */
    ghost function Succ(pos: Node?<T>): Node?<T>
      reads this
    {
      if pos != null && pos in spine && IndexOf(pos) + 1 < |spine| then spine[IndexOf(pos) + 1] else null
    }

    /** prev: the node before pos; before the end iterator comes the last node. */
    ghost function Pred(pos: Node?<T>): Node?<T>
      reads this
    {
      if pos == null then (if spine == [] then null else spine[|spine| - 1])
      else if pos in spine && IndexOf(pos) > 0 then spine[IndexOf(pos) - 1]
      else null
    }

    lemma IndexIs(i: nat)
      requires Distinct(spine) && i < |spine|
      ensures IndexOf(spine[i]) == i
    {
    }

    /** Forward and back returns to every member, the last one included; back and forward to all but the first. */
    lemma StepsCancel(p: Node<T>)
      requires Valid() && p in spine
      ensures Pred(Succ(p)) == p
      ensures IndexOf(p) > 0 ==> Succ(Pred(p)) == p
    {
      var i := IndexOf(p);
      if i + 1 < |spine| { IndexIs(i + 1); }
      if i > 0 { IndexIs(i - 1); }
    }

    constructor ()
      ensures Valid() && spine == [] && contents == [] && fresh(Repr)
    {
      head, tail, num := null, null, 0;
      spine, contents := [], [];
      Repr := {this};
    }

    /** The walk every iterator operation begins with; i == num means pos is not in the list. */
    method Locate(pos: Node?<T>) returns (i: int, temp: Node?<T>)
      requires Valid()
      ensures 0 <= i <= num
      ensures i == num <==> pos !in spine
      ensures i < num ==> temp == pos == spine[i]
    {
      i, temp := 0, head;
      while i < num
        invariant 0 <= i <= num
        invariant temp == if i < num then spine[i] else null
        invariant pos !in spine[..i]
      {
        if temp == pos {
          return;
        }
        assert spine[..i + 1] == spine[..i] + [spine[i]];
        i, temp := i + 1, temp.next;
      }
      assert spine[..num] == spine;
    }

    method Walk(i: int) returns (temp: Node?<T>)
      requires Valid() && (i < num || (i < 0 && num == 0))
      ensures temp == if num == 0 then null else spine[Clamp(i)]
    {
      temp := head;
      var cnt := 0;
      while cnt < i
        invariant 0 <= cnt <= Clamp(i)
        invariant temp == if num == 0 then null else spine[cnt]
      {
        cnt, temp := cnt + 1, temp.next;
      }
    }

    method Append(member: T) returns (node: Node<T>)
      requires Valid()
      modifies Repr
      ensures Valid() && fresh(node) && Repr == old(Repr) + {node}
      ensures spine == old(spine) + [node] && contents == old(contents) + [member]
    {
      node := new Node(member);
      if head == null && tail == null && num == 0 {
        head := node;
        tail := node;
      } else {
        node.prev := tail;
        tail.next := node;
        tail := node;
      }
      num := num + 1;
      spine, contents := spine + [node], contents + [member];
      Repr := Repr + {node};
    }

    method Insert(before: Node?<T>, member: T) returns (node: Node?<T>)
      requires Valid()
      modifies Repr
      ensures Valid() && fresh(Repr - old(Repr))
      ensures before == null ==>
                node != null && fresh(node) && spine == old(spine) + [node] && contents == old(contents) + [member]
      ensures before != null && before !in old(spine) ==>
                node == null && spine == old(spine) && contents == old(contents)
      ensures before != null && before in old(spine) ==>
                && node != null && fresh(node)
                && spine == InsertAt(old(spine), old(IndexOf(before)), node)
                && contents == InsertAt(old(contents), old(IndexOf(before)), member)
                && node.next == before && node.prev == old(before.prev)
      ensures StillLive(old(spine), null)
      ensures forall n :: n in old(spine) ==> n.value == old(n.value)
    {
      if before == null {
        node := Append(member);
        return;
      }
      var i, temp := Locate(before);
      if i == num {
        return null;
      }
      node := InsertBefore(i, temp, member);
    }

    method InsertBefore(ghost i: int, temp: Node<T>, member: T) returns (node: Node<T>)
      requires Valid() && 0 <= i < |spine| && spine[i] == temp
      modifies Repr
      ensures Valid() && fresh(node) && spine == InsertAt(old(spine), i, node) && Repr == old(Repr) + {node}
      ensures contents == InsertAt(old(contents), i, member)
      ensures node.next == temp && node.prev == old(temp.prev)
      ensures forall n :: n in old(spine) ==> n.value == old(n.value)
    {
      node := new Node(member);
      if temp == head {
        LinkFirst(temp, node);
      } else {
        LinkMiddle(i, temp, node);
      }
    }

    /** The head branch of insert. */
    method LinkFirst(temp: Node<T>, node: Node<T>)
      requires Valid() && spine != [] && temp == spine[0]
      requires node !in Repr && node.prev == null && node.next == null
      modifies Repr, node
      ensures contents == InsertAt(old(contents), 0, node.value)
      ensures Valid() && spine == InsertAt(old(spine), 0, node) && Repr == old(Repr) + {node}
      ensures node.next == temp && node.prev == old(temp.prev)
      ensures node.value == old(node.value)
      ensures forall n :: n in old(spine) ==> n.value == old(n.value)
    {
      temp.prev := node;
      node.next := temp;
      head := node;
      num := num + 1;
      spine, contents := InsertAt(spine, 0, node), InsertAt(contents, 0, node.value);
      Repr := Repr + {node};
    }

    /** The other branch of insert: temp has a predecessor. */
    method LinkMiddle(ghost i: int, temp: Node<T>, node: Node<T>)
      requires Valid() && 0 < i < |spine| && temp == spine[i]
      requires node !in Repr && node.prev == null && node.next == null
      modifies Repr, node
      ensures contents == InsertAt(old(contents), i, node.value)
      ensures Valid() && spine == InsertAt(old(spine), i, node) && Repr == old(Repr) + {node}
      ensures node.next == temp && node.prev == old(temp.prev)
      ensures node.value == old(node.value)
      ensures forall n :: n in old(spine) ==> n.value == old(n.value)
    {
      ghost var was := spine;
      temp.prev.next := node;
      node.prev := temp.prev;
      node.next := temp;
      temp.prev := node;
      num := num + 1;
      NextInserted(was, InsertAt(was, i, node), i, node);
      PrevInserted(was, InsertAt(was, i, node), i, node);
      ValuesInserted(was, contents, i, node);
      DistinctInserted(was, i, node);
      spine, contents := InsertAt(spine, i, node), InsertAt(contents, i, node.value);
      Repr := Repr + {node};
    }

    method Update(pos: Node?<T>, member: T) returns (r: Node?<T>)
      requires Valid()
      modifies Repr
      ensures Valid() && spine == old(spine) && Repr == old(Repr)
      ensures pos !in spine ==> r == null && contents == old(contents)
      ensures pos in spine ==> r == pos && contents == old(contents)[IndexOf(pos) := member]
    {
      var i, temp := Locate(pos);
      if i == num {
        return null;
      }
      temp.value := member;
      contents := contents[i := member];
      r := pos;
    }

    method Size() returns (n: int)
      requires Valid()
      ensures n == |spine|
    {
      n := num;
    }

    /** The header allows [0, size); a larger index gives None, a negative one the first element. */
    method At(i: int) returns (r: Option<T>)
      requires Valid() && (i < 0 ==> num > 0)
      ensures r == if i < |spine| then Some(contents[Clamp(i)]) else None
    {
      if i + 1 > num {
        return None;
      }
      var temp := Walk(i);
      r := Some(temp.value);
    }

    method Value(pos: Node?<T>) returns (r: Option<T>)
      requires Valid()
      ensures r == if pos != null && pos in spine then Some(pos.value) else None
    {
      var i, temp := Locate(pos);
      r := if i == num then None else Some(temp.value);
    }

    method IterAt(i: int) returns (r: Node?<T>)
      requires Valid()
      ensures r == if Clamp(i) < |spine| then spine[Clamp(i)] else null
    {
      if i + 1 > num {
        return null;
      }
      r := Walk(i);
    }

    method Begin() returns (r: Node?<T>)
      requires Valid()
      ensures r == if spine == [] then null else spine[0]
    {
      r := head;
    }

    method End() returns (r: Node?<T>)
      requires Valid()
      ensures r == null
    {
      if tail != null {
        r := tail.next;
      } else {
        r := null;
      }
    }

    method Next(pos: Node?<T>) returns (r: Node?<T>)
      requires Valid()
      ensures r == Succ(pos)
    {
      if pos == null {
        return null;
      }
      var i, temp := Locate(pos);
      if i == num {
        return null;
      }
      r := temp.next;
    }

    method Prev(pos: Node?<T>) returns (r: Node?<T>)
      requires Valid()
      ensures r == Pred(pos)
    {
      if pos == null {
        return tail;
      }
      var i, temp := Locate(pos);
      if i == num {
        return null;
      }
      r := temp.prev;
    }

    method Erase(pos: Node?<T>)
      requires Valid()
      modifies Repr
      ensures Valid() && Repr == old(Repr)
      ensures pos !in old(spine) ==> spine == old(spine) && contents == old(contents)
      ensures pos != null && pos in old(spine) ==>
                && spine == RemoveAt(old(spine), old(IndexOf(pos)))
                && contents == RemoveAt(old(contents), old(IndexOf(pos)))
      ensures pos !in spine && StillLive(old(spine), pos)
      ensures forall n :: n in old(spine) ==> n.value == old(n.value)
    {
      if pos == null {
        return;
      }
      var i, temp := Locate(pos);
      if i == num {
        return;
      }
      Unlink(i, temp);
    }

    /** The rewiring half of erase. */
    method Unlink(ghost i: int, temp: Node<T>)
      requires Valid() && 0 <= i < |spine| && spine[i] == temp
      modifies Repr
      ensures Valid() && Repr == old(Repr) && spine == RemoveAt(old(spine), i) && contents == RemoveAt(old(contents), i)
      ensures temp.next == null && temp.prev == null
      ensures forall n :: n in old(spine) ==> n.value == old(n.value)
    {
      if temp == head {
        UnlinkHead(temp);
      } else if temp == tail {
        UnlinkTail(temp);
      } else {
        UnlinkMiddle(i, temp);
      }
      Discard(temp);
    }

    /** The end of erase: cut the node off, and reset the ends when nothing is left. */
    method Discard(temp: Node<T>)
      requires this in Repr && temp in Repr && temp !in spine && num == |spine|
      requires if spine == [] then contents == [] else Valid()
      modifies Repr
      ensures Valid() && Repr == old(Repr) && spine == old(spine) && contents == old(contents)
      ensures temp.next == null && temp.prev == null
      ensures forall n :: n in spine || n == temp ==> n.value == old(n.value)
    {
      temp.next := null;
      temp.prev := null;
      if num == 0 {
        head := null;
        tail := null;
      }
    }

    /** Erasing the last remaining node leaves `tail` behind; the caller resets it. */
    method UnlinkHead(temp: Node<T>)
      requires Valid() && spine != [] && spine[0] == temp
      modifies Repr
      ensures spine == RemoveAt(old(spine), 0) && contents == RemoveAt(old(contents), 0)
      ensures num == |spine| && Repr == old(Repr)
      ensures spine != [] ==> Valid()
      ensures forall n :: n in old(spine) ==> n.value == old(n.value)
    {
      if temp.next != null { temp.next.prev := null; }
      head := temp.next;
      num := num - 1;
      spine, contents := RemoveAt(spine, 0), RemoveAt(contents, 0);
    }

    method UnlinkTail(temp: Node<T>)
      requires Valid() && |spine| > 1 && spine[|spine| - 1] == temp
      modifies Repr
      ensures contents == RemoveAt(old(contents), |old(contents)| - 1)
      ensures Valid() && Repr == old(Repr) && spine == RemoveAt(old(spine), |old(spine)| - 1)
      ensures forall n :: n in old(spine) ==> n.value == old(n.value)
    {
      if temp.prev != null { temp.prev.next := null; }
      tail := temp.prev;
      num := num - 1;
      spine, contents := RemoveAt(spine, |spine| - 1), RemoveAt(contents, |spine| - 1);
    }

    method UnlinkMiddle(ghost i: int, temp: Node<T>)
      requires Valid() && 0 < i < |spine| - 1 && spine[i] == temp
      modifies Repr
      ensures contents == RemoveAt(old(contents), i)
      ensures Valid() && Repr == old(Repr) && spine == RemoveAt(old(spine), i)
      ensures forall n :: n in old(spine) ==> n.value == old(n.value)
    {
      temp.prev.next := temp.next;
      temp.next.prev := temp.prev;
      num := num - 1;
      spine, contents := RemoveAt(spine, i), RemoveAt(contents, i);
    }

    method EraseAt(i: int)
      requires Valid()
      modifies Repr
      ensures Valid() && Repr == old(Repr)
      ensures Clamp(i) >= |old(spine)| ==> spine == old(spine) && contents == old(contents)
      ensures Clamp(i) < |old(spine)| ==>
                && spine == RemoveAt(old(spine), Clamp(i))
                && contents == RemoveAt(old(contents), Clamp(i))
    {
      if i + 1 > num {
        return;
      }
      var temp := Walk(i);
      Erase(temp);
    }

    method Clear()
      requires Valid()
      modifies Repr
      ensures Valid() && spine == [] && contents == [] && Repr == old(Repr)
      ensures forall n :: n in old(spine) ==> n.next == null && n.prev == null
    {
      ghost var k := 0;
      while head != null && num != 0
        invariant 0 <= k <= |spine| && spine == old(spine) && Repr == old(Repr) && num == |spine| - k
        invariant head == if k < |spine| then spine[k] else null
        invariant forall i {:trigger spine[i].next} :: k <= i < |spine| ==>
                    spine[i].next == if i + 1 < |spine| then spine[i + 1] else null
        invariant forall i :: 0 <= i < k ==> spine[i].next == null && spine[i].prev == null
        decreases |spine| - k
      {
        var node := head;
        head := head.next;
        num := num - 1;
        node.next := null;
        node.prev := null;
        k := k + 1;
      }
      tail := null;
      spine, contents := [], [];
    }

    /** The begin/next/end loop of the callers: it visits every element once, in order. */
    method Collect() returns (visited: seq<T>)
      requires Valid()
      ensures visited == contents
    {
      visited := [];
      var iter := Begin();
      var end := End();
      ghost var k := 0;
      while iter != end
        invariant 0 <= k <= |spine| && iter == if k < |spine| then spine[k] else null
        invariant visited == contents[..k]
        decreases |spine| - k
      {
        var v := Value(iter);
        visited := visited + [v.value];
        iter := Next(iter);
        k := k + 1;
      }
    }
  }
}

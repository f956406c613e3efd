/** The linked FIFO queue of main.cpp on the heap: value-bearing nodes
    between a head and a tail sentinel, `next` pointers rewired in place and a
    `marked` flag set on the node a pop unlinks.

    The per-node locks and the atomic flag only matter when threads interleave;
    in this single-threaded model locking is a no-op, and the lock-then-validate
    check of push and pop is an assertion proved to hold on the first pass. */
module ConcurrentQueue {
  import opened QueueModel

  /** A cell of the list (CNode). */
  class Node<T> {
    var value: T
    var next: Node?<T>
    var marked: bool

    constructor (x: T)
      ensures value == x && next == null && !marked
    {
      value := x;
      next := null;
      marked := false;
    }
  }

  class Queue<T(==)> {
    const head: Node<T>
    const tail: Node<T>
    /** The value both sentinels were built with (`T()` in the source). */
    ghost const dflt: T
    /** The value-bearing nodes, from the head's successor to the tail's predecessor. */
    ghost var nodes: seq<Node<T>>
    /** The values of `nodes`, front first. */
    ghost var contents: seq<T>
    ghost var Repr: set<object>

    /** The node that follows `nodes[i]` in the chain. */
    ghost function After(i: int): Node<T>
      reads this
      requires 0 <= i < |nodes|
    {
      if i + 1 < |nodes| then nodes[i + 1] else tail
    }

    /** The chain is head -> nodes[0] -> ... -> nodes[|nodes| - 1] -> tail, with
        no node repeated, the tail's `next` null, no linked node marked, both
        sentinels holding the default value, and `contents` the values of `nodes`. */
    ghost predicate Valid()
      reads this, Repr
    {
      this in Repr && head in Repr && tail in Repr && head != tail &&
      head.next == (if nodes == [] then tail else nodes[0]) &&
      tail.next == null &&
      !head.marked && !tail.marked &&
      head.value == dflt && tail.value == dflt &&
      |contents| == |nodes| &&
      (forall i :: 0 <= i < |nodes| ==>
        nodes[i] in Repr && nodes[i] != head && nodes[i] != tail &&
        nodes[i].next == After(i) && !nodes[i].marked && contents[i] == nodes[i].value) &&
      (forall i, j :: 0 <= i < j < |nodes| ==> nodes[i] != nodes[j])
    }

    /** An empty queue: two fresh sentinels holding `dflt`, head linked to tail. */
    constructor (dflt: T)
      ensures Valid() && fresh(Repr)
      ensures this.dflt == dflt && contents == [] && nodes == []
      ensures head.next == tail && tail.next == null
      ensures !head.marked && !tail.marked
      ensures head.value == dflt && tail.value == dflt
    {
      this.dflt := dflt;
      head := new Node(dflt);
      tail := new Node(dflt);
      nodes := [];
      contents := [];
      new;
      head.next := tail;
      Repr := {this, head, tail};
    }

    /** Walks from the head to the tail and returns the last two nodes seen:
        the tail and its predecessor (the head itself when the queue is empty).
        Reads the list only. */
    method Search() returns (pred: Node<T>, succ: Node<T>)
      requires Valid()
      ensures succ == tail && pred.next == succ
      ensures pred == if nodes == [] then head else nodes[|nodes| - 1]
    {
      pred := head;
      succ := head.next;
      if succ.next != null {
        ghost var k := 0;
        while succ != tail
          invariant Valid()
          invariant 0 <= k <= |nodes|
          invariant pred == if k == 0 then head else nodes[k - 1]
          invariant succ == if k < |nodes| then nodes[k] else tail
          decreases |nodes| - k
        {
          pred := succ;
          succ := pred.next;
          k := k + 1;
        }
      } else {
        assert nodes == [];
      }
    }

    /** Appends `x` in a fresh node spliced in just before the tail; always
        reports success. */
    method Push(x: T) returns (res: bool)
      requires Valid()
      modifies Repr
      ensures Valid() && fresh(Repr - old(Repr))
      ensures res
      ensures contents == old(contents) + [x]
      ensures |nodes| == |old(nodes)| + 1 && nodes[..|old(nodes)|] == old(nodes)
      ensures fresh(nodes[|old(nodes)|])
      ensures nodes[|old(nodes)|].value == x && !nodes[|old(nodes)|].marked
      ensures nodes[|old(nodes)|].next == tail
    {
      var pred, succ := Search();
      // pred and succ are locked here; the validation below is the one a
      // concurrent run may fail and retry, and sequentially it always holds.
      assert !pred.marked && !succ.marked && pred.next == succ;
      var n := new Node(x);
      n.next := succ;
      pred.next := n;
      res := true;
      nodes := nodes + [n];
      contents := contents + [x];
      Repr := Repr + {n};
      forall i | 0 <= i < |nodes|
        ensures nodes[i] in Repr && nodes[i] != head && nodes[i] != tail
        ensures nodes[i].next == After(i) && !nodes[i].marked && contents[i] == nodes[i].value
      {
        if i < |old(nodes)| {
          assert nodes[i] == old(nodes)[i] && contents[i] == old(contents)[i];
          if i + 1 < |old(nodes)| {
            assert nodes[i] != pred && old(nodes)[i].next == old(After(i));
          }
        }
      }
      assert forall i, j :: 0 <= i < j < |nodes| ==> nodes[i] != nodes[j];
    }

    /** Pop as written: the head's successor is unlinked and marked unless its
        value equals the tail's value, and its value is returned either way. */
    method Pop() returns (v: T)
      requires Valid()
      modifies Repr
      ensures Valid() && Repr <= old(Repr)
      ensures var s := PopByValue(old(contents), dflt);
        v == s.value && contents == s.rest &&
        (s.removed ==>
          nodes == old(nodes)[1..] && old(nodes)[0].marked &&
          head.next == old(nodes[0].next) && Repr == old(Repr) - {old(nodes)[0]}) &&
        (!s.removed ==> nodes == old(nodes) && Repr == old(Repr) && unchanged(Repr))
    {
      var pred := head;
      var succ := head.next;
      // pred and succ are locked here; the validation always holds sequentially.
      assert !pred.marked && !succ.marked && pred.next == succ;
      if succ.value == tail.value {
        // reported as empty: nothing is unlinked
      } else {
        assert succ == nodes[0];
        ghost var rest := nodes[1..];
        assert succ.next == if rest == [] then tail else rest[0];
        succ.marked := true;
        pred.next := succ.next;
        nodes := nodes[1..];
        contents := contents[1..];
        Repr := Repr - {succ};
      }
      v := succ.value;
    }

    /** Pop as intended: the head's successor is unlinked and marked unless it
        is the tail sentinel itself; `found` says which. */
    method PopIdentity() returns (v: T, found: bool)
      requires Valid()
      modifies Repr
      ensures Valid() && Repr <= old(Repr)
      ensures var s := PopByIdentity(old(contents), dflt);
        v == s.value && found == s.removed && contents == s.rest &&
        (found ==>
          nodes == old(nodes)[1..] && old(nodes)[0].marked &&
          head.next == old(nodes[0].next) && Repr == old(Repr) - {old(nodes)[0]}) &&
        (!found ==> nodes == old(nodes) && Repr == old(Repr) && unchanged(Repr))
    {
      var pred := head;
      var succ := head.next;
      assert !pred.marked && !succ.marked && pred.next == succ;
      if succ == tail {
        found := false;
      } else {
        assert succ == nodes[0];
        ghost var rest := nodes[1..];
        assert succ.next == if rest == [] then tail else rest[0];
        succ.marked := true;
        pred.next := succ.next;
        found := true;
        nodes := nodes[1..];
        contents := contents[1..];
        Repr := Repr - {succ};
      }
      v := succ.value;
    }

    /** One thread issuing `ops` in order, with the pop as written; the
        contents and returned values follow RunByValue. */
    method Drive(ops: seq<Op<T>>) returns (outs: seq<T>)
      requires Valid()
      modifies Repr
      ensures Valid() && fresh(Repr - old(Repr))
      ensures RunByValue(old(contents), ops, dflt) == Trace(contents, outs)
    {
      outs := [];
      var i := 0;
      while i < |ops|
        invariant 0 <= i <= |ops|
        invariant Valid() && fresh(Repr - old(Repr))
        invariant RunByValue(old(contents), ops, dflt) ==
          var t := RunByValue(contents, ops[i..], dflt); Trace(t.final, outs + t.outs)
      {
        assert ops[i..][1..] == ops[i + 1..];
        match ops[i] {
          case Push(x) =>
            var ok := Push(x);
          case Pop =>
            var v := Pop();
            outs := outs + [v];
        }
        i := i + 1;
      }
    }
  }

  /** Pushing three values different from the default and popping four times
      returns them in order, then the default value for the empty queue. */
  method PopsInPushOrder<T(==)>(dflt: T, a: T, b: T, c: T) returns (x: T, y: T, z: T, w: T)
    requires a != dflt && b != dflt && c != dflt
    ensures x == a && y == b && z == c && w == dflt
  {
    var q := new Queue(dflt);
    var ok := q.Push(a);
    ok := q.Push(b);
    ok := q.Push(c);
    x := q.Pop();
    y := q.Pop();
    z := q.Pop();
    w := q.Pop();
  }

  /** With the pop as written, a pushed default value blocks the queue: both
      pops hand back the default value, `a` is never returned and both values
      stay queued. */
  method DefaultBlocksQueue<T(==)>(dflt: T, a: T) returns (x: T, y: T)
    ensures x == dflt && y == dflt
  {
    var q := new Queue(dflt);
    var ok := q.Push(dflt);
    ok := q.Push(a);
    x := q.Pop();
    y := q.Pop();
    assert q.contents == [dflt, a];
  }

  /** With the pop as intended, the same run returns the default value and
      then `a`, both as found, and a third pop reports the queue empty. */
  method DefaultPassesByIdentity<T(==)>(dflt: T, a: T) returns (x: T, y: T, found: bool)
    ensures x == dflt && y == a && !found
  {
    var q := new Queue(dflt);
    var ok := q.Push(dflt);
    ok := q.Push(a);
    var f1, f2, z;
    x, f1 := q.PopIdentity();
    y, f2 := q.PopIdentity();
    assert f1 && f2;
    z, found := q.PopIdentity();
  }
}

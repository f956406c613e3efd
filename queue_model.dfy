/** Sequence-level meaning of the linked FIFO queue: what one pop does to the
    queue's contents, and what a whole run of pushes and pops returns.

    The queue keeps two sentinel nodes that hold the default value `d` of the
    element type. The pop in main.cpp decides "empty" by comparing the front
    node's value with the tail sentinel's value (PopByValue); the evidently
    intended test compares the front node with the tail node itself
    (PopByIdentity). Both are modelled, and the lemmas below say exactly where
    they differ. */
module QueueModel {

  /** One call a client makes on the queue. */
  datatype Op<T> = Push(x: T) | Pop

  /** Outcome of one pop: the contents left behind, the value handed back, and
      whether a node was unlinked (the source's local `res`). */
  datatype Step<T> = Step(rest: seq<T>, value: T, removed: bool)

  /** What a pop identified by node identity hands back: the value and whether
      a node was found. */
  datatype Reply<T> = Reply(value: T, found: bool)

  /** The contents left by a run and the sequence of replies its pops gave. */
  datatype Trace<T, R> = Trace(final: seq<T>, outs: seq<R>)

  /** Pop as written: the successor of the head (the tail sentinel when the
      queue is empty) is the front; it is unlinked only when its value differs
      from the sentinel's value, and its value is returned either way. */
  function PopByValue<T(==)>(q: seq<T>, d: T): Step<T>
  {
    var front := if q == [] then d else q[0];
    if front == d then Step(q, front, false) else Step(q[1..], front, true)
  }

  /** Pop as intended: the front node is unlinked exactly when it is not the
      tail sentinel. */
  function PopByIdentity<T>(q: seq<T>, d: T): Step<T>
  {
    if q == [] then Step(q, d, false) else Step(q[1..], q[0], true)
  }

  /** The two pops agree exactly when the queue is empty or its front value is
      not the default value. */
  lemma PopAgreement<T>(q: seq<T>, d: T)
    ensures PopByValue(q, d) == PopByIdentity(q, d) <==> (q == [] || q[0] != d)
  {
  }

  /** The values a run pushes, in the order it pushes them. */
  function Pushed<T>(ops: seq<Op<T>>): seq<T>
  {
    if ops == [] then []
    else (if ops[0].Push? then [ops[0].x] else []) + Pushed(ops[1..])
  }

  /** The values among `outs` that are not the default value, in order. */
  function Delivered<T(==)>(outs: seq<T>, d: T): seq<T>
  {
    if outs == [] then []
    else (if outs[0] != d then [outs[0]] else []) + Delivered(outs[1..], d)
  }

  /** The values of the replies that found a node, in order. */
  function Found<T>(rs: seq<Reply<T>>): seq<T>
  {
    if rs == [] then []
    else (if rs[0].found then [rs[0].value] else []) + Found(rs[1..])
  }

  /** The values of all replies, found or not. */
  function Values<T>(rs: seq<Reply<T>>): (vs: seq<T>)
    ensures |vs| == |rs|
  {
    if rs == [] then [] else [rs[0].value] + Values(rs[1..])
  }

  /** A sequential run of `ops` on a queue holding `q`, with the pop as written. */
  function RunByValue<T(==)>(q: seq<T>, ops: seq<Op<T>>, d: T): Trace<T, T>
    decreases ops
  {
    if ops == [] then Trace(q, [])
    else match ops[0]
      case Push(x) => RunByValue(q + [x], ops[1..], d)
      case Pop =>
        var s := PopByValue(q, d);
        var t := RunByValue(s.rest, ops[1..], d);
        Trace(t.final, [s.value] + t.outs)
  }

  /** A sequential run of `ops` on a queue holding `q`, with the pop as intended. */
  function RunByIdentity<T>(q: seq<T>, ops: seq<Op<T>>, d: T): Trace<T, Reply<T>>
    decreases ops
  {
    if ops == [] then Trace(q, [])
    else match ops[0]
      case Push(x) => RunByIdentity(q + [x], ops[1..], d)
      case Pop =>
        var s := PopByIdentity(q, d);
        var t := RunByIdentity(s.rest, ops[1..], d);
        Trace(t.final, [Reply(s.value, s.removed)] + t.outs)
  }

  /** Concatenation regrouped around a leading element. */
  lemma Regroup<T>(a: T, s: seq<T>, p: seq<T>)
    ensures [a] + s + p == [a] + (s + p)
  {
  }

  /** Pushing `x` and then running `rest` queues what `q + [x]` followed by
      the pushes of `rest` queues. */
  lemma PushedAfterPush<T>(q: seq<T>, x: T, ops: seq<Op<T>>)
    requires ops != [] && ops[0] == Push(x)
    ensures q + Pushed(ops) == q + [x] + Pushed(ops[1..])
  {
  }

  /** FIFO for the pop as written, provided no value equal to the default is
      ever in the queue: every value that went in either came out, in the order
      it went in, or is still queued behind those that came out. A pop that
      finds the queue empty hands back the default value, which `Delivered`
      skips. */
  lemma {:induction false} FifoByValue<T>(q: seq<T>, ops: seq<Op<T>>, d: T)
    requires d !in q && d !in Pushed(ops)
    ensures var t := RunByValue(q, ops, d);
      q + Pushed(ops) == Delivered(t.outs, d) + t.final
    decreases ops
  {
    if ops != [] {
      var rest := ops[1..];
      match ops[0]
      case Push(x) =>
        PushedAfterPush(q, x, ops);
        FifoByValue(q + [x], rest, d);
      case Pop =>
        assert Pushed(ops) == Pushed(rest);
        if q == [] {
          FifoByValue(q, rest, d);
        } else {
          var t := RunByValue(q[1..], rest, d);
          assert RunByValue(q, ops, d) == Trace(t.final, [q[0]] + t.outs);
          FifoByValue(q[1..], rest, d);
          assert ([q[0]] + t.outs)[1..] == t.outs;
          calc {
            q + Pushed(ops);
            == { assert q == [q[0]] + q[1..]; }
            [q[0]] + q[1..] + Pushed(rest);
            == { Regroup(q[0], q[1..], Pushed(rest)); }
            [q[0]] + (Delivered(t.outs, d) + t.final);
            == { Regroup(q[0], Delivered(t.outs, d), t.final); }
            Delivered([q[0]] + t.outs, d) + t.final;
          }
        }
    }
  }

  /** FIFO for the pop as intended, with no restriction on the values: the
      found replies give back exactly the values pushed, in order, up to what
      is still queued. */
  lemma {:induction false} FifoByIdentity<T>(q: seq<T>, ops: seq<Op<T>>, d: T)
    ensures var t := RunByIdentity(q, ops, d);
      q + Pushed(ops) == Found(t.outs) + t.final
    decreases ops
  {
    if ops != [] {
      var rest := ops[1..];
      match ops[0]
      case Push(x) =>
        PushedAfterPush(q, x, ops);
        FifoByIdentity(q + [x], rest, d);
      case Pop =>
        assert Pushed(ops) == Pushed(rest);
        if q == [] {
          FifoByIdentity(q, rest, d);
        } else {
          var t := RunByIdentity(q[1..], rest, d);
          assert RunByIdentity(q, ops, d) == Trace(t.final, [Reply(q[0], true)] + t.outs);
          FifoByIdentity(q[1..], rest, d);
          assert ([Reply(q[0], true)] + t.outs)[1..] == t.outs;
          calc {
            q + Pushed(ops);
            == { assert q == [q[0]] + q[1..]; }
            [q[0]] + q[1..] + Pushed(rest);
            == { Regroup(q[0], q[1..], Pushed(rest)); }
            [q[0]] + (Found(t.outs) + t.final);
            == { Regroup(q[0], Found(t.outs), t.final); }
            Found([Reply(q[0], true)] + t.outs) + t.final;
          }
        }
    }
  }

  /** The quirk of the value comparison: once the front value equals the
      default value, no pop ever unlinks anything again. Every later pop hands
      back the default value and every pushed value stays queued. */
  lemma {:induction false} StuckOnDefault<T>(q: seq<T>, ops: seq<Op<T>>, d: T)
    requires q != [] && q[0] == d
    ensures var t := RunByValue(q, ops, d);
      t.final == q + Pushed(ops) && forall i :: 0 <= i < |t.outs| ==> t.outs[i] == d
    decreases ops
  {
    if ops != [] {
      var rest := ops[1..];
      match ops[0]
      case Push(x) =>
        PushedAfterPush(q, x, ops);
        StuckOnDefault(q + [x], rest, d);
      case Pop =>
        assert Pushed(ops) == Pushed(rest);
        StuckOnDefault(q, rest, d);
    }
  }

  /** While no value equal to the default is ever queued, the pop as written
      behaves exactly like the pop as intended: same contents afterwards, same
      values handed back. */
  lemma {:induction false} ValueMatchesIdentity<T>(q: seq<T>, ops: seq<Op<T>>, d: T)
    requires d !in q && d !in Pushed(ops)
    ensures RunByValue(q, ops, d).final == RunByIdentity(q, ops, d).final
    ensures RunByValue(q, ops, d).outs == Values(RunByIdentity(q, ops, d).outs)
    decreases ops
  {
    if ops != [] {
      var rest := ops[1..];
      match ops[0]
      case Push(x) =>
        assert Pushed(ops) == [x] + Pushed(rest);
        ValueMatchesIdentity(q + [x], rest, d);
      case Pop =>
        assert Pushed(ops) == Pushed(rest);
        var s := PopByIdentity(q, d);
        assert PopByValue(q, d) == s;
        assert d !in s.rest;
        ValueMatchesIdentity(s.rest, rest, d);
        var t := RunByIdentity(s.rest, rest, d);
        assert Values([Reply(s.value, s.removed)] + t.outs) == [s.value] + Values(t.outs);
    }
  }
}

/**
 * Whole-run properties of the ring buffer: what a sequence of producer and
 * consumer calls, serialised in any order, returns.
 */
module RingTrace {
  import opened Ring

  /** One call on the buffer: a push of a value, or a pop. */
  datatype Op = PushOp(v: i32) | PopOp

  /**
   * What one call does: the new state, the boolean it returned, and the
   * value it moved into the buffer (a successful push) or out of it (a
   * successful pop), if any.
   */
  datatype Step<S> = Step(state: S, ok: bool, pushed: seq<i32>, popped: seq<i32>)

  /**
   * Make one call. A pop is made with the caller's value preset to 0, as
   * `bench`'s consumer does (src/main.rs:100).
   */
  function Apply(q: RingState, op: Op): (s: Step<RingState>)
    requires q.Valid()
    ensures s.state.Valid() && s.state.Capacity() == q.Capacity()
    ensures s.ok <==> (s.pushed != [] || s.popped != [])
  {
    match op
    case PushOp(v) =>
      PushCorrect(q, v);
      var p := Push(q, v);
      Step(p.state, p.ok, if p.ok then [v] else [], [])
    case PopOp =>
      PopCorrect(q, 0);
      var p := Pop(q, 0);
      Step(p.state, p.ok, [], if p.ok then [p.val] else [])
  }

  /**
   * One call keeps first-in first-out order: the queue before the call,
   * followed by the value pushed, equals the value popped, followed by the
   * queue after the call.
   */
  lemma ApplyIsFifo(q: RingState, op: Op)
    requires q.Valid()
    ensures var s := Apply(q, op);
      q.Contents() + s.pushed == s.popped + s.state.Contents() &&
      |s.pushed| + |s.popped| <= 1
  {
    match op
    case PushOp(v) =>
      PushCorrect(q, v);
    case PopOp =>
      PopCorrect(q, 0);
      var p := Pop(q, 0);
      if p.ok {
        assert q.Contents() == [p.val] + p.state.Contents();
      }
  }

  /**
   * What a run leaves behind: the final state, the boolean each call
   * returned, the values of the successful pushes and the values of the
   * successful pops, each in call order.
   */
  datatype Trace<S> = Trace(state: S, results: seq<bool>, pushed: seq<i32>, popped: seq<i32>)

  /** Make the calls of `ops` in order. */
  function Run(q: RingState, ops: seq<Op>): (t: Trace<RingState>)
    requires q.Valid()
    ensures t.state.Valid() && t.state.Capacity() == q.Capacity()
    ensures |t.results| == |ops|
    decreases |ops|
  {
    if ops == [] then
      Trace(q, [], [], [])
    else
      var s := Apply(q, ops[0]);
      var t := Run(s.state, ops[1..]);
      Trace(t.state, [s.ok] + t.results, s.pushed + t.pushed, s.popped + t.popped)
  }

  /** Chains two queue equations `a + b == c + d` and `d + e == f + g`. */
  lemma Splice(a: seq<i32>, b: seq<i32>, c: seq<i32>, d: seq<i32>, e: seq<i32>, f: seq<i32>, g: seq<i32>)
    requires a + b == c + d && d + e == f + g
    ensures a + (b + e) == (c + f) + g
  {
    calc {
      a + (b + e);
      (a + b) + e;
      (c + d) + e;
      c + (d + e);
      c + (f + g);
      (c + f) + g;
    }
  }

  /**
   * FIFO: whatever was queued at the start, followed by everything pushed,
   * equals everything popped, followed by what is queued at the end.
   */
  lemma {:induction false} RunIsFifo(q: RingState, ops: seq<Op>)
    requires q.Valid()
    ensures q.Contents() + Run(q, ops).pushed == Run(q, ops).popped + Run(q, ops).state.Contents()
    decreases |ops|
  {
    if ops != [] {
      var s := Apply(q, ops[0]);
      var t := Run(s.state, ops[1..]);
      ApplyIsFifo(q, ops[0]);
      RunIsFifo(s.state, ops[1..]);
      Splice(q.Contents(), s.pushed, s.popped, s.state.Contents(), t.pushed, t.popped, t.state.Contents());
    }
  }

  /**
   * From a freshly constructed buffer, the successful pops return a prefix
   * of the successfully pushed values, in push order, and what was pushed
   * but not popped is still queued, never more than capacity - 1 values.
   */
  lemma FreshRunIsFifo(capacity: nat, ops: seq<Op>)
    requires capacity >= 1
    ensures var t := Run(New(capacity), ops);
      |t.popped| <= |t.pushed| &&
      t.popped == t.pushed[..|t.popped|] &&
      t.state.Contents() == t.pushed[|t.popped|..] &&
      |t.pushed| - |t.popped| <= capacity - 1
  {
    var t := Run(New(capacity), ops);
    RunIsFifo(New(capacity), ops);
    assert t.pushed == t.popped + t.state.Contents();
  }

  /**
   * Reference behaviour of one call: a first-in first-out queue that holds
   * at most `limit` values, where a push onto a full queue and a pop from an
   * empty one fail and change nothing.
   */
  function QueueApply(contents: seq<i32>, limit: nat, op: Op): Step<seq<i32>>
  {
    match op
    case PushOp(v) =>
      if |contents| < limit then Step(contents + [v], true, [v], [])
      else Step(contents, false, [], [])
    case PopOp =>
      if contents != [] then Step(contents[1..], true, [], [contents[0]])
      else Step(contents, false, [], [])
  }

  /** Make the calls of `ops` in order on the reference queue. */
  function QueueRun(contents: seq<i32>, limit: nat, ops: seq<Op>): Trace<seq<i32>>
    decreases |ops|
  {
    if ops == [] then
      Trace(contents, [], [], [])
    else
      var s := QueueApply(contents, limit, ops[0]);
      var t := QueueRun(s.state, limit, ops[1..]);
      Trace(t.state, [s.ok] + t.results, s.pushed + t.pushed, s.popped + t.popped)
  }

  /**
   * The ring buffer behaves as a bounded FIFO queue of capacity - 1 values:
   * every call returns what the reference queue returns, the same values go
   * in and come out, and the same values are left queued.
   */
  lemma {:induction false} RunRefinesQueue(q: RingState, ops: seq<Op>)
    requires q.Valid()
    ensures var t, u := Run(q, ops), QueueRun(q.Contents(), q.Capacity() - 1, ops);
      t.results == u.results && t.pushed == u.pushed && t.popped == u.popped &&
      t.state.Contents() == u.state
    decreases |ops|
  {
    if ops != [] {
      var s := Apply(q, ops[0]);
      RunRefinesQueue(s.state, ops[1..]);
      match ops[0]
      case PushOp(v) =>
        PushCorrect(q, v);
      case PopOp =>
        PopCorrect(q, 0);
    }
  }

  /**
   * Once drained, wherever its cursors have wrapped to, the buffer answers
   * every sequence of calls exactly as a freshly constructed one does.
   */
  lemma DrainedBehavesAsNew(q: RingState, ops: seq<Op>)
    requires q.Valid() && q.Contents() == []
    ensures Run(q, ops).results == Run(New(q.Capacity()), ops).results
    ensures Run(q, ops).popped == Run(New(q.Capacity()), ops).popped
  {
    RunRefinesQueue(q, ops);
    RunRefinesQueue(New(q.Capacity()), ops);
  }

  /** A run of pushes of the given values, with no pop in between. */
  function Pushes(vs: seq<i32>): seq<Op>
  {
    seq(|vs|, i requires 0 <= i < |vs| => PushOp(vs[i]))
  }

  /**
   * Without pops, the reference queue accepts a push exactly while fewer
   * than `limit` values are queued.
   */
  lemma {:induction false} QueuePushesFill(contents: seq<i32>, limit: nat, vs: seq<i32>)
    ensures var t := QueueRun(contents, limit, Pushes(vs));
      |t.results| == |vs| &&
      forall i :: 0 <= i < |vs| ==> t.results[i] == (|contents| + i < limit)
    decreases |vs|
  {
    if vs != [] {
      var ops := Pushes(vs);
      assert ops[1..] == Pushes(vs[1..]);
      var next := if |contents| < limit then contents + [vs[0]] else contents;
      QueuePushesFill(next, limit, vs[1..]);
      var t := QueueRun(contents, limit, ops);
      var t1 := QueueRun(next, limit, ops[1..]);
      assert t.results == [|contents| < limit] + t1.results;
      forall i | 1 <= i < |vs|
        ensures t.results[i] == (|contents| + i < limit)
      {
        assert t.results[i] == t1.results[i - 1];
      }
    }
  }

  /**
   * Capacity bound: without pops, a push succeeds exactly while fewer than
   * capacity - 1 values are queued, so from k queued values the first
   * capacity - 1 - k pushes succeed and every later one fails.
   */
  lemma PushesFillToCapacity(q: RingState, vs: seq<i32>)
    requires q.Valid()
    ensures var t := Run(q, Pushes(vs));
      forall i :: 0 <= i < |vs| ==> t.results[i] == (|q.Contents()| + i < q.Capacity() - 1)
  {
    RunRefinesQueue(q, Pushes(vs));
    QueuePushesFill(q.Contents(), q.Capacity() - 1, vs);
  }

  /** The call sequence of the capacity-4 scenario below. */
  function ScenarioOps(): seq<Op>
  {
    [PushOp(1), PushOp(2), PushOp(3), PushOp(4), PopOp, PushOp(4), PopOp, PopOp, PopOp, PopOp]
  }

  /** The reference queue of three values on the capacity-4 call sequence. */
  lemma ScenarioOnQueue()
    ensures QueueRun([], 3, ScenarioOps()).results == [true, true, true, false, true, true, true, true, true, false]
    ensures QueueRun([], 3, ScenarioOps()).popped == [1, 2, 3, 4]
  {
    assert [] + [1 as i32] == [1];
    assert [1 as i32] + [2] == [1, 2];
    assert [1 as i32, 2] + [3] == [1, 2, 3];
    assert [1 as i32, 2, 3][1..] == [2, 3];
    assert [2 as i32, 3] + [4] == [2, 3, 4];
    assert [2 as i32, 3, 4][1..] == [3, 4];
    assert [3 as i32, 4][1..] == [4];
    assert [4 as i32][1..] == [];
  }

  /**
   * With capacity 4, from a fresh or drained buffer: pushes of 1, 2, 3
   * succeed and a push of 4 fails; a pop returns 1, after which the push of 4
   * succeeds; pops then return 2, 3 and 4, and one more pop fails.
   */
  lemma CapacityFourScenario(q: RingState)
    requires q.Valid() && q.Capacity() == 4 && q.Contents() == []
    ensures Run(q, ScenarioOps()).results == [true, true, true, false, true, true, true, true, true, false]
    ensures Run(q, ScenarioOps()).popped == [1, 2, 3, 4]
  {
    ScenarioOnQueue();
    RunRefinesQueue(q, ScenarioOps());
  }
}

/**
 * Value-level specification of the bounded single-producer/single-consumer
 * ring buffer: the cursor arithmetic, the window of unread slots, and the
 * push and pop steps as functions on a snapshot of the buffer's fields.
 */
module Ring {

  /** The element type of the buffer: a signed 32-bit integer. */
  newtype i32 = x: int | -0x8000_0000 <= x < 0x8000_0000

  /**
   * The cursor increment of push and pop: add one and wrap to 0 exactly when
   * the result reaches the length of the storage.
   */
  function Next(i: nat, n: nat): (j: nat)
    requires i < n
    ensures j < n
  {
    if i + 1 == n then 0 else i + 1
  }

  /** The cursor increment is addition modulo the storage length: no drift. */
  lemma NextIsModular(i: nat, n: nat)
    requires i < n
    ensures Next(i, n) == (i + 1) % n
  {
  }

  /** Index of the slot k steps after slot r on a circle of n slots. */
  function Slot(r: nat, k: nat, n: nat): (j: nat)
    requires r < n && k < n
    ensures j < n
  {
    if r + k < n then r + k else r + k - n
  }

  /**
   * Number of forward steps from cursor a to cursor b on a circle of n slots.
   * Read to write, it is the number of queued values.
   */
  function Dist(a: nat, b: nat, n: nat): (d: nat)
    requires a < n && b < n
    ensures d < n
    ensures d == 0 <==> a == b
    ensures Slot(a, d, n) == b
  {
    if a <= b then b - a else n - a + b
  }

  /** The distance is the difference of the cursors modulo the storage length. */
  lemma DistIsModular(a: nat, b: nat, n: nat)
    requires a < n && b < n
    ensures Dist(a, b, n) == (b - a + n) % n
  {
  }

  /** Cursor b lies on the forward path from a to c (both ends included). */
  ghost predicate Between(a: nat, b: nat, c: nat, n: nat)
    requires a < n && b < n && c < n
  {
    Dist(a, b, n) + Dist(b, c, n) == Dist(a, c, n)
  }

  /**
   * The values stored in the slots from r (included) up to w (excluded),
   * walking forward and wrapping at the end of the storage.
   */
  function Window(data: seq<i32>, r: nat, w: nat): (s: seq<i32>)
    requires r < |data| && w < |data|
    ensures |s| == Dist(r, w, |data|)
  {
    if r <= w then data[r..w] else data[r..] + data[..w]
  }

  /** The k-th oldest unread value sits k slots after the read cursor. */
  lemma WindowAt(data: seq<i32>, r: nat, w: nat, k: nat)
    requires r < |data| && w < |data| && k < Dist(r, w, |data|)
    ensures Window(data, r, w)[k] == data[Slot(r, k, |data|)]
  {
  }

  /**
   * A snapshot of the fields of the buffer: the storage, the two cursors,
   * and each side's private copy of the other side's cursor.
   */
  datatype RingState = RingState(
    data: seq<i32>,
    read: nat,
    readCached: nat,
    write: nat,
    writeCached: nat)
  {
    /** Storage is non-empty and every cursor indexes a slot. */
    ghost predicate Wf() {
      0 < |data| && read < |data| && readCached < |data| && write < |data| && writeCached < |data|
    }

    /**
     * The reachable states: the producer's cached read cursor is at or behind
     * the real read cursor on the way to the write cursor, and the consumer's
     * cached write cursor is at or behind the real write cursor on the way
     * from the read cursor.
     */
    ghost predicate Valid() {
      Wf() &&
      Between(readCached, read, write, |data|) &&
      Between(read, writeCached, write, |data|)
    }

    function Capacity(): nat { |data| }

    /** The queued values, oldest first. */
    function Contents(): seq<i32>
      requires Wf()
    {
      Window(data, read, write)
    }
  }

  datatype PushResult = PushResult(state: RingState, ok: bool)
  datatype PopResult = PopResult(state: RingState, ok: bool, val: i32)

  /** Construction: zeroed storage, all four cursors at 0. */
  function New(capacity: nat): (q: RingState)
    requires capacity >= 1
    ensures q.Valid() && q.Capacity() == capacity && q.Contents() == []
    ensures forall i :: 0 <= i < capacity ==> q.data[i] == 0
  {
    RingState(seq(capacity, _ => 0), 0, 0, 0, 0)
  }

  /**
   * One producer call: compute the next write cursor; if it meets the cached
   * read cursor, refresh the cache from the real read cursor, and give up if
   * it still meets it; otherwise store the value and publish the cursor.
   */
  function Push(q: RingState, v: i32): (r: PushResult)
    requires q.Wf()
    ensures r.state.Wf() && r.state.Capacity() == q.Capacity()
    ensures r.state.read == q.read && r.state.writeCached == q.writeCached
    ensures r.state.readCached == q.readCached || r.state.readCached == q.read
    ensures !r.ok ==> r.state.data == q.data && r.state.write == q.write
  {
    var next := Next(q.write, |q.data|);
    var cached := if next == q.readCached then q.read else q.readCached;
    if next == cached then
      PushResult(q.(readCached := cached), false)
    else
      PushResult(q.(data := q.data[q.write := v], readCached := cached, write := next), true)
  }

  /**
   * One consumer call: if the read cursor meets the cached write cursor,
   * refresh the cache from the real write cursor, and give up (leaving the
   * caller's value `prior` as it was) if it still meets it; otherwise hand
   * out the slot at the read cursor and publish the advanced cursor.
   */
  function Pop(q: RingState, prior: i32): (r: PopResult)
    requires q.Wf()
    ensures r.state.Wf()
    ensures r.state.data == q.data && r.state.write == q.write && r.state.readCached == q.readCached
    ensures r.state.writeCached == q.writeCached || r.state.writeCached == q.write
    ensures !r.ok ==> r.val == prior && r.state.read == q.read
  {
    var cached := if q.read == q.writeCached then q.write else q.writeCached;
    if q.read == cached then
      PopResult(q.(writeCached := cached), false, prior)
    else
      PopResult(q.(read := Next(q.read, |q.data|), writeCached := cached), true, q.data[q.read])
  }

  /** The buffer is full exactly when advancing the write cursor would meet the read cursor. */
  lemma FullIff(r: nat, w: nat, n: nat)
    requires r < n && w < n
    ensures Next(w, n) == r <==> Dist(r, w, n) == n - 1
  {
  }

  /**
   * A push that passes its check against a stale cached read cursor never
   * lands on an unread slot: the real buffer is not full.
   */
  lemma ProducerCacheSafe(q: RingState)
    requires q.Valid()
    requires Next(q.write, |q.data|) != q.readCached
    ensures Next(q.write, |q.data|) != q.read
    ensures |q.Contents()| < q.Capacity() - 1
  {
    var n := |q.data|;
    FullIff(q.read, q.write, n);
  }

  /**
   * A pop that passes its check against a stale cached write cursor never
   * hands out an unwritten slot: the real buffer is not empty, and the slot
   * at the read cursor holds the oldest queued value.
   */
  lemma ConsumerCacheSafe(q: RingState)
    requires q.Valid()
    requires q.read != q.writeCached
    ensures q.read != q.write
    ensures q.Contents() != [] && q.Contents()[0] == q.data[q.read]
  {
    var n := |q.data|;
    assert Dist(q.read, q.writeCached, n) > 0;
    WindowAt(q.data, q.read, q.write, 0);
  }

  /** Writing at the write cursor and advancing it appends to the window. */
  lemma WindowPush(data: seq<i32>, r: nat, w: nat, v: i32)
    requires r < |data| && w < |data|
    requires Next(w, |data|) != r
    ensures Window(data[w := v], r, Next(w, |data|)) == Window(data, r, w) + [v]
  {
    var n := |data|;
    var d := data[w := v];
    if r <= w {
      if w + 1 == n {
        assert Window(d, r, 0) == d[r..] + d[..0];
        assert d[r..] == data[r..w] + [v];
      } else {
        assert d[r..w + 1] == data[r..w] + [v];
      }
    } else {
      assert d[r..] == data[r..];
      assert d[..w + 1] == data[..w] + [v];
    }
  }

  /** Advancing the read cursor drops the oldest value of the window. */
  lemma WindowPop(data: seq<i32>, r: nat, w: nat)
    requires r < |data| && w < |data| && r != w
    ensures Window(data, r, w) == [data[r]] + Window(data, Next(r, |data|), w)
  {
    var n := |data|;
    if r < w {
      assert data[r..w] == [data[r]] + data[r + 1..w];
    } else if r + 1 == n {
      assert data[r..] == [data[r]];
    } else {
      assert data[r..] == [data[r]] + data[r + 1..];
    }
  }

  /**
   * Push succeeds exactly when fewer than capacity - 1 values are queued.
   * On success the value is stored at the old write cursor, the write cursor
   * advances and the value joins the back of the queue; on failure nothing
   * changes, since in a full buffer the cached read cursor already equals
   * the real one. The read cursor and the consumer's cache never change, and
   * the state stays valid.
   */
  lemma PushCorrect(q: RingState, v: i32)
    requires q.Valid()
    ensures var p := Push(q, v);
      p.state.Valid() &&
      p.state.Capacity() == q.Capacity() &&
      p.state.read == q.read && p.state.writeCached == q.writeCached &&
      (p.ok <==> |q.Contents()| < q.Capacity() - 1) &&
      (p.ok ==> p.state.data == q.data[q.write := v] &&
                p.state.write == Next(q.write, q.Capacity()) &&
                p.state.Contents() == q.Contents() + [v]) &&
      (!p.ok ==> p.state == q)
  {
    var n := |q.data|;
    var next := Next(q.write, n);
    FullIff(q.read, q.write, n);
    if next != q.readCached {
      ProducerCacheSafe(q);
    }
    if next != q.read {
      WindowPush(q.data, q.read, q.write, v);
    }
  }

  /**
   * Pop succeeds exactly when the queue is non-empty. On success it hands out
   * the oldest value and removes it from the queue; on failure it hands back
   * the caller's value and nothing changes, since in an empty buffer the
   * cached write cursor already equals the real one. The storage, the write
   * cursor and the producer's cache never change, and the state stays valid.
   */
  lemma PopCorrect(q: RingState, prior: i32)
    requires q.Valid()
    ensures var p := Pop(q, prior);
      p.state.Valid() &&
      p.state.data == q.data && p.state.write == q.write && p.state.readCached == q.readCached &&
      (p.ok <==> q.Contents() != []) &&
      (p.ok ==> p.state.read == Next(q.read, q.Capacity()) &&
                p.val == q.Contents()[0] &&
                p.state.Contents() == q.Contents()[1..]) &&
      (!p.ok ==> p.state == q && p.val == prior)
  {
    var n := |q.data|;
    if q.read != q.writeCached {
      ConsumerCacheSafe(q);
    }
    if q.read != q.write {
      WindowPop(q.data, q.read, q.write);
    }
  }

  /** With a single slot the buffer is at once full and empty: every call fails. */
  lemma CapacityOneRejectsAll(q: RingState, v: i32, prior: i32)
    requires q.Valid() && q.Capacity() == 1
    ensures !Push(q, v).ok && !Pop(q, prior).ok
  {
    PushCorrect(q, v);
    PopCorrect(q, prior);
  }
}

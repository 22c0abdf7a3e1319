/**
 * The ring buffer as an object: fixed storage and four cursors updated in
 * place by `Push` (the producer side) and `Pop` (the consumer side). Each
 * method is proved against the step functions of module Ring, and against
 * the queue of values it holds.
 */
module Queue {
  import opened Ring

  class RingBuffer {
    const data: array<i32>
    var readIdx: nat
    var readIdxCached: nat
    var writeIdx: nat
    var writeIdxCached: nat

    /** The values pushed and not yet popped, oldest first. */
    ghost var contents: seq<i32>

    /** The current fields, as a value of the specification. */
    ghost function State(): RingState
      reads this, data
    {
      RingState(data[..], readIdx, readIdxCached, writeIdx, writeIdxCached)
    }

    ghost predicate Valid()
      reads this, data
    {
      State().Valid() && contents == State().Contents()
    }

    /** Allocates `capacity` zeroed slots with every cursor at 0: an empty queue. */
    constructor (capacity: nat)
      requires capacity >= 1
      ensures Valid() && fresh(data)
      ensures State() == New(capacity)
      ensures data.Length == capacity && contents == []
    {
      data := new i32[capacity](_ => 0);
      readIdx := 0;
      readIdxCached := 0;
      writeIdx := 0;
      writeIdxCached := 0;
      contents := [];
    }

    /**
     * Producer side. Fails, changing nothing, when capacity - 1 values are
     * queued; otherwise stores `val` at the write
     * cursor, advances the write cursor and queues `val` at the back.
     */
    method Push(val: i32) returns (ok: bool)
      requires Valid()
      modifies data, `readIdxCached, `writeIdx, `contents
      ensures Valid()
      ensures PushResult(State(), ok) == Ring.Push(old(State()), val)
      ensures ok <==> |old(contents)| < data.Length - 1
      ensures contents == if ok then old(contents) + [val] else old(contents)
      ensures !ok ==> State() == old(State())
    {
      ghost var s := State();
      PushCorrect(s, val);
      var writeIdx0 := writeIdx;
      var nextWriteIdx := writeIdx0 + 1;
      if nextWriteIdx == data.Length {
        nextWriteIdx := 0;
      }
      if nextWriteIdx == readIdxCached {
        readIdxCached := readIdx;
        if nextWriteIdx == readIdxCached {
          return false;
        }
      }
      data[writeIdx0] := val;
      writeIdx := nextWriteIdx;
      contents := contents + [val];
      ok := true;
    }

    /**
     * Consumer side. Fails, handing back `prior` and changing nothing, when
     * the queue is empty; otherwise hands out the
     * oldest value and advances the read cursor. The storage is never written.
     */
    method Pop(prior: i32) returns (ok: bool, val: i32)
      requires Valid()
      modifies `readIdx, `writeIdxCached, `contents
      ensures Valid()
      ensures PopResult(State(), ok, val) == Ring.Pop(old(State()), prior)
      ensures ok <==> old(contents) != []
      ensures ok ==> val == old(contents)[0] && contents == old(contents)[1..]
      ensures !ok ==> val == prior && State() == old(State()) && contents == old(contents)
    {
      ghost var s := State();
      PopCorrect(s, prior);
      var readIdx0 := readIdx;
      if readIdx0 == writeIdxCached {
        writeIdxCached := writeIdx;
        if readIdx0 == writeIdxCached {
          return false, prior;
        }
      }
      val := data[readIdx0];
      var nextReadIdx := readIdx0 + 1;
      if nextReadIdx == data.Length {
        nextReadIdx := 0;
      }
      readIdx := nextReadIdx;
      contents := contents[1..];
      ok := true;
    }
  }
}

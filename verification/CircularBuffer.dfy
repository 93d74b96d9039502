// The growable ring every queue of the simulator is built on
// (src/utils/circular_buffer.cpp). The bytes of an element are a value of type T.
module CircularBuffers {
  import opened Wrappers

  const DEFAULT_BUFFER_SIZE := 8

  // Position `i` of an endless tape, folded back into a ring of `size` slots.
  function Wrap(i: nat, size: nat): nat
    requires i < 2 * size
  {
    if i < size then i else i - size
  }

  // The size of a ring behind an insertion: one without bound doubles when it is full.
  function SizeFor(maxBufferSize: nat, bufferSize: nat, occupation: nat): nat {
    if maxBufferSize == 0 && occupation == bufferSize then 2 * bufferSize else bufferSize
  }

  class CircularBuffer<T(0)> {
    var buffer: array<T>
    var occupation: nat
    const maxBufferSize: nat  // zero when the ring may grow
    var bufferSize: nat
    var startOfBuffer: nat
    var endOfBuffer: nat
    ghost var Contents: seq<T>  // the queued elements, oldest first
    ghost var Repr: set<object>

    ghost predicate Valid()
      reads this, Repr
      ensures Valid() ==> this in Repr
    {
      && this in Repr && buffer in Repr
      && buffer.Length == bufferSize
      && 0 < bufferSize
      && occupation <= bufferSize
      && startOfBuffer < bufferSize
      && endOfBuffer < bufferSize
      && endOfBuffer == Wrap(startOfBuffer + occupation, bufferSize)
      && (maxBufferSize != 0 ==> bufferSize == maxBufferSize)
      && |Contents| == occupation
      && (forall k :: 0 <= k < occupation ==> Contents[k] == buffer[Wrap(startOfBuffer + k, bufferSize)])
    }

    constructor Allocate(bufferSize: nat)
      ensures Valid() && fresh(Repr)
      ensures Contents == [] && maxBufferSize == bufferSize
      ensures this.bufferSize == if bufferSize == 0 then DEFAULT_BUFFER_SIZE else bufferSize
    {
      var size := if bufferSize == 0 then DEFAULT_BUFFER_SIZE else bufferSize;
      this.maxBufferSize := bufferSize;
      this.bufferSize := size;
      buffer := new T[size];
      occupation, startOfBuffer, endOfBuffer := 0, 0, 0;
      Contents := [];
      Repr := {this, buffer};
    }

    predicate IsFull()
      reads this
    {
      occupation == bufferSize
    }

    predicate IsEmpty()
      reads this
    {
      occupation == 0
    }

    // Doubles a full ring: the run from the start to the end of the memory goes
    // first, the part that had wrapped follows it.
    method Grow()
      requires Valid() && IsFull() && maxBufferSize == 0
      modifies this
      ensures Valid() && Repr == {this, buffer} && fresh(buffer) && !IsFull()
      ensures Contents == old(Contents) && bufferSize == 2 * old(bufferSize)
    {
      var newBuffer := new T[bufferSize * 2];
      if startOfBuffer != 0 {
        var offset := bufferSize - startOfBuffer;
        forall i | 0 <= i < offset {
          newBuffer[i] := buffer[startOfBuffer + i];
        }
        forall i | 0 <= i < bufferSize - offset {
          newBuffer[offset + i] := buffer[i];
        }
        startOfBuffer := 0;
        endOfBuffer := bufferSize;
      } else {
        forall i | 0 <= i < bufferSize {
          newBuffer[i] := buffer[i];
        }
        endOfBuffer := bufferSize;
      }
      bufferSize := bufferSize * 2;
      buffer := newBuffer;
      Repr := {this, buffer};
    }

    // Writes behind the newest element.
    method Store(element: T)
      requires Valid() && !IsFull()
      modifies this, buffer
      ensures Valid() && Repr == old(Repr) && bufferSize == old(bufferSize)
      ensures Contents == old(Contents) + [element]
    {
      buffer[endOfBuffer] := element;
      Contents := Contents + [element];
      occupation := occupation + 1;
      endOfBuffer := endOfBuffer + 1;
      if endOfBuffer == bufferSize {
        endOfBuffer := 0;
      }
    }

    // Rejects exactly when a bounded ring is full; an unbounded one grows instead.
    method Enqueue(element: T) returns (failed: bool)
      requires Valid()
      modifies Repr
      ensures Valid() && fresh(Repr - old(Repr))
      ensures failed <==> maxBufferSize != 0 && |old(Contents)| == maxBufferSize
      ensures Contents == if failed then old(Contents) else old(Contents) + [element]
      ensures bufferSize == SizeFor(maxBufferSize, old(bufferSize), |old(Contents)|)
    {
      if IsFull() {
        if maxBufferSize != 0 {
          return true;
        }
        Grow();
      }
      Store(element);
      failed := false;
    }

    method Dequeue() returns (element: Option<T>)
      requires Valid()
      modifies Repr
      ensures Valid() && Repr == old(Repr)
      ensures element == if old(Contents) == [] then None else Some(old(Contents)[0])
      ensures Contents == if old(Contents) == [] then [] else old(Contents)[1..]
      ensures bufferSize == old(bufferSize)
    {
      if IsEmpty() {
        return None;
      }
      element := Some(buffer[startOfBuffer]);
      Contents := Contents[1..];
      occupation := occupation - 1;
      startOfBuffer := startOfBuffer + 1;
      if startOfBuffer == bufferSize {
        startOfBuffer := 0;
      }
    }

    method Flush()
      requires Valid()
      modifies Repr
      ensures Valid() && Repr == old(Repr) && bufferSize == old(bufferSize)
      ensures Contents == []
    {
      Contents := [];
      occupation := 0;
      startOfBuffer := endOfBuffer;
    }
  }
}

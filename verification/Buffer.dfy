/** The byte buffer that compressors, file processors and sockets hand around. */
module Buffers {
  import opened Words

  class Buffer {
    var data: seq<Byte>
    var capacity: nat
    var actualSize: nat

    predicate Valid()
      reads this
    {
      |data| == capacity && actualSize <= capacity
    }

    /** The bytes in use. */
    function Contents(): (s: seq<Byte>)
      requires Valid()
      reads this
      ensures |s| == actualSize
    {
      data[..actualSize]
    }

    constructor (capacity: nat)
      ensures Valid() && this.capacity == capacity && Contents() == []
    {
      this.data := Zeros(capacity);
      this.capacity := capacity;
      this.actualSize := 0;
    }

    /** Copies bytes to the front; refused, with nothing changed, when they do not fit. */
    method SetData(bytes: seq<Byte>) returns (ok: bool)
      requires Valid()
      modifies this
      ensures Valid() && capacity == old(capacity)
      ensures ok == (|bytes| <= capacity)
      ensures Contents() == if ok then bytes else old(Contents())
    {
      if |bytes| > capacity {
        return false;
      }
      data := bytes + data[|bytes|..];
      ok := SetSize(|bytes|);
    }

    method SetSize(size: nat) returns (ok: bool)
      requires Valid()
      modifies `actualSize
      ensures Valid()
      ensures ok == (size <= capacity)
      ensures actualSize == if ok then size else old(actualSize)
    {
      if size > capacity {
        return false;
      }
      actualSize := size;
      return true;
    }

    /** A new capacity; nothing happens when it would cut off bytes in use. */
    method Resize(newCapacity: nat)
      requires Valid()
      modifies this
      ensures Valid() && Contents() == old(Contents())
      ensures capacity == if newCapacity < old(actualSize) then old(capacity) else newCapacity
    {
      if newCapacity < actualSize {
        return;
      }
      data := if newCapacity <= |data| then data[..newCapacity] else data + Zeros(newCapacity - |data|);
      capacity := newCapacity;
    }

    method Swap(other: Buffer)
      requires Valid() && other.Valid()
      modifies this, other
      ensures Valid() && other.Valid()
      ensures data == old(other.data) && capacity == old(other.capacity) && actualSize == old(other.actualSize)
      ensures other.data == old(data) && other.capacity == old(capacity) && other.actualSize == old(actualSize)
    {
      data, other.data := other.data, data;
      capacity, other.capacity := other.capacity, capacity;
      actualSize, other.actualSize := other.actualSize, actualSize;
    }
  }
}

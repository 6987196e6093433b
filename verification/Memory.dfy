/**
 * RawMemory: the owner of one block of raw slots. It allocates and frees the
 * block, hands out slot addresses and exchanges blocks; it never constructs or
 * destroys an element itself.
 */
module Memory {
  import opened Slots
  import opened Lifetime

  class RawMemory<T> {
    /** The block, or null when the capacity is zero (Allocate(0) allocates nothing). */
    var buffer: array?<Slot<T>>
    var capacity: nat

    ghost predicate Valid()
      reads this
    {
      && (buffer == null <==> capacity == 0)
      && (buffer != null ==> buffer.Length == capacity)
    }

    /** The heap object this memory owns, if any. */
    ghost function Block(): set<object>
      reads this
    {
      if buffer == null then {} else {buffer}
    }

    /** The slot states of the block, in address order. */
    ghost function Slots(): (s: seq<Slot<T>>)
      reads this, buffer
      requires Valid()
      ensures |s| == capacity
    {
      View(buffer)
    }

    /** Raw memory for `n` slots, none of them constructed; no block at all for zero. */
    static method Allocate(n: nat) returns (buf: array?<Slot<T>>)
      ensures buf == null <==> n == 0
      ensures buf != null ==> fresh(buf) && buf.Length == n
      ensures buf != null ==> forall i :: 0 <= i < n ==> buf[i] == Uninit
    {
      if n != 0 {
        buf := new Slot<T>[n](_ => Uninit);
      } else {
        buf := null;
      }
    }

    /** RawMemory() = default: owns nothing. */
    constructor ()
      ensures Valid() && buffer == null && capacity == 0
    {
      buffer := null;
      capacity := 0;
    }

    /** RawMemory(capacity): a fresh block of raw slots. */
    constructor WithCapacity(n: nat)
      ensures Valid() && capacity == n && fresh(Block())
      ensures Slots() == seq(n, _ => Uninit)
    {
      var block := Allocate(n);
      buffer := block;
      capacity := n;
    }

    /** The move constructor: starts empty and swaps with `input`, which is
      * left owning nothing. */
    constructor FromMoved(input: RawMemory<T>)
      modifies input
      ensures buffer == old(input.buffer) && capacity == old(input.capacity)
      ensures input.buffer == null && input.capacity == 0
    {
      buffer := input.buffer;
      capacity := input.capacity;
      new;
      input.buffer := null;
      input.capacity := 0;
    }

    /** The move assignment: a swap with `input` unless it is this object, so
      * `input` receives the block this object held before. */
    method MoveAssign(input: RawMemory<T>)
      modifies this, input
      ensures input != this ==> buffer == old(input.buffer) && capacity == old(input.capacity)
      ensures input != this ==> input.buffer == old(buffer) && input.capacity == old(capacity)
      ensures input == this ==> buffer == old(buffer) && capacity == old(capacity)
    {
      if input != this {
        buffer, input.buffer := input.buffer, buffer;
        capacity, input.capacity := input.capacity, capacity;
      }
    }

    /** Exchanges the blocks and capacities of two raw memories; no slot is touched. */
    method Swap(other: RawMemory<T>)
      modifies this, other
      ensures buffer == old(other.buffer) && capacity == old(other.capacity)
      ensures other.buffer == old(buffer) && other.capacity == old(capacity)
    {
      buffer, other.buffer := other.buffer, buffer;
      capacity, other.capacity := other.capacity, capacity;
    }

    /** operator[]: the slot at `index`, which must lie inside the block. */
    function At(index: nat): (slot: Slot<T>)
      reads this, buffer
      requires Valid() && index < capacity
      ensures slot == Slots()[index]
    {
      buffer[index]
    }
  }
}

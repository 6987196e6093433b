/**
 * Vector: a growable contiguous array over one RawMemory block. Slots
 * [0, size) hold the elements, in order; slots [size, capacity) are raw.
 * Every mutator keeps that invariant (Valid) and states its effect on the
 * element sequence (Elements) and on the capacity.
 *
 * Element construction and destruction go through the Lifetime routines, whose
 * preconditions forbid constructing over an object, destroying a raw slot and
 * reading a slot that holds no live value; every method below verifies against
 * them.
 *
 * A reallocating operation follows the order vector.h uses so that a
 * failure part-way leaves the old block intact: allocate the new block,
 * construct the new element there, relocate the old elements (CopyMove), and
 * only then destroy the old elements and swap the blocks.
 */
module Vectors {
  import opened Slots
  import opened Memory
  import opened Lifetime
  import opened Growth
  import opened InPlace

  class Vector<T> {
    var data: RawMemory<T>
    var capacity: nat
    var size: nat

    /** The answer of `is_nothrow_move_constructible_v<T> ||
      * !is_copy_constructible_v<T>` for the element type: whether CopyMove
      * relocates by move construction (true) or by copy construction (false).
      * It is a property of T, so every Vector<T> has the same answer: the
      * operations that exchange blocks between two vectors require that. */
    const relocateByMove: bool

    /** The elements, in order. */
    ghost var Elements: seq<T>
    /** The objects this vector owns: itself, its RawMemory and the block. */
    ghost var Repr: set<object>

    ghost predicate Valid()
      reads this, Repr
      ensures Valid() ==> this in Repr
    {
      && this in Repr && data in Repr
      && Repr == {this, data} + data.Block()
      && data.Valid()
      && capacity == data.capacity
      && size == |Elements|
      && Layout(data.Slots(), Elements)
    }

    /** Vector() = default: no elements and no block. */
    constructor (relocateByMove: bool)
      ensures Valid() && fresh(Repr)
      ensures Elements == [] && capacity == 0
      ensures this.relocateByMove == relocateByMove
    {
      data := new RawMemory();
      capacity := 0;
      size := 0;
      this.relocateByMove := relocateByMove;
      Elements := [];
      new;
      Repr := {this, data};
    }

    /** Vector(size): `n` value-initialised elements (each `init`, the value
      * `T()` produces) in a block of exactly `n` slots. */
    constructor Sized(n: nat, init: T, relocateByMove: bool)
      ensures Valid() && fresh(Repr)
      ensures Elements == seq(n, _ => init) && capacity == n
      ensures this.relocateByMove == relocateByMove
    {
      var block := new RawMemory.WithCapacity(n);
      UninitializedValueConstructN(block.buffer, 0, n, init);
      data := block;
      capacity := n;
      size := n;
      this.relocateByMove := relocateByMove;
      Elements := seq(n, _ => init);
      new;
      Repr := {this, data} + data.Block();
    }

    /** The copy constructor: the other vector's elements, copied into a fresh
      * block of exactly their number of slots; `other` is only read. */
    constructor Copy(other: Vector<T>)
      requires other.Valid()
      ensures Valid() && fresh(Repr)
      ensures Elements == other.Elements && capacity == other.size
      ensures relocateByMove == other.relocateByMove
    {
      var block := new RawMemory.WithCapacity(other.size);
      UninitializedCopyN(other.data.buffer, 0, other.size, block.buffer, 0);
      data := block;
      capacity := other.size;
      size := other.size;
      relocateByMove := other.relocateByMove;
      Elements := other.Elements;
      new;
      Repr := {this, data} + data.Block();
    }

    /** The move constructor: takes over `input`'s block, size and capacity;
      * `input` is left empty, with no block. */
    constructor Moved(input: Vector<T>)
      requires input.Valid()
      modifies input, input.data
      ensures Valid() && input.Valid()
      ensures Elements == old(input.Elements) && capacity == old(input.capacity)
      ensures data.buffer == old(input.data.buffer)
      ensures input.Elements == [] && input.capacity == 0
      ensures relocateByMove == input.relocateByMove
      ensures input.data == old(input.data) && fresh(data) && Repr !! input.Repr
    {
      var block := new RawMemory();
      block.MoveAssign(input.data);
      data := block;
      capacity := input.capacity;
      size := input.size;
      relocateByMove := input.relocateByMove;
      Elements := input.Elements;
      new;
      input.size := 0;
      input.capacity := 0;
      input.Elements := [];
      input.Repr := {input, input.data};
      Repr := {this, data} + data.Block();
    }

    /** The copy assignment. When this vector's capacity is below the other's
      * (vector.h compares capacities, which is only more cautious than
      * comparing with the other's size), a copy is built and swapped in.
      * Otherwise the common prefix is copy-assigned in place, then the surplus
      * is destroyed or the missing tail copy-constructed into the raw slots.
      *
      * vector.h copy-constructs that tail from this vector's own slots
      * (advanced-vector/vector.h:129), which are raw; InPlace.CopyTailAsWrittenReadsRaw
      * states that. The model copies it from `other`, as the rest of the
      * operation intends. */
    method CopyAssign(other: Vector<T>)
      requires Valid() && other.Valid()
      requires other == this || Repr !! other.Repr
      requires relocateByMove == other.relocateByMove
      modifies Repr
      ensures Valid() && fresh(Repr - old(Repr)) && data == old(data)
      ensures Elements == old(other.Elements)
      ensures other.Valid() && other.Elements == old(other.Elements)
      ensures capacity == if other != this && old(capacity) < old(other.capacity) then old(other.size) else old(capacity)
      ensures other == this || old(other.capacity) <= old(capacity) ==> data.buffer == old(data.buffer)
      ensures other != this && old(capacity) < old(other.capacity) ==>
        forall k :: 0 <= k < Len(old(data.buffer)) ==> old(data.buffer)[k] == Uninit
    {
      if other != this {
        if capacity < other.capacity {
          var copy := new Vector.Copy(other);
          Swap(copy);
          // the temporary's destructor destroys the old elements
          copy.Dispose();
        } else {
          AssignInPlace(other);
        }
      }
    }

    /** The in-place branch of the copy assignment (advanced-vector/vector.h:119-131),
      * taken when this block has room for the other vector's elements. */
    method AssignInPlace(other: Vector<T>)
      requires Valid() && other.Valid() && Repr !! other.Repr && other.size <= capacity
      modifies this, data.buffer
      ensures Valid() && Repr == old(Repr) && data == old(data) && data.buffer == old(data.buffer)
      ensures capacity == old(capacity)
      ensures Elements == other.Elements
    {
      AssignSlots(other.data.buffer, other.size, other.Elements, data.buffer, size, Elements);
      size := other.size;
      Elements := other.Elements;
    }

    /** Lines 119-130 on the blocks: `dst` holding the m elements `xs` ends up
      * holding the n elements `ys` of `src`. The common prefix is
      * copy-assigned, then the surplus destroyed or the missing tail
      * copy-constructed from `src`. */
    method AssignSlots(src: array?<Slot<T>>, n: nat, ghost ys: seq<T>, dst: array?<Slot<T>>, m: nat, ghost xs: seq<T>)
      requires Layout(View(src), ys) && n == |ys| && Layout(View(dst), xs) && m == |xs|
      requires n <= Len(dst) && (src != dst || src == null)
      modifies dst
      ensures Layout(View(dst), ys)
    {
      var i := if n < m then n else m;
      CopyAssignN(src, dst, i);
      if m > n {
        DestroyN(dst, i, m - i);
      } else {
        assert Layout(View(dst), ys[..i]);
        CopyTailFromOther(View(dst), View(src), ys, i);
        UninitializedCopyN(src, i, n - i, dst, i);
      }
    }

    /** The move assignment, as intended: this vector's elements are destroyed,
      * it takes over `input`'s block, size and capacity, and `input` is left
      * empty with no block (its old block, now all raw, is released).
      *
      * The C++ code (advanced-vector/vector.h:152-157) destroys nothing and hands
      * this vector's old block, elements still live, to `input` while setting
      * input's capacity to 0; MoveAssignAsWritten models that. */
    method MoveAssign(input: Vector<T>)
      requires Valid() && input.Valid()
      requires input == this || Repr !! input.Repr
      requires relocateByMove == input.relocateByMove
      modifies Repr, input.Repr
      ensures Valid() && input.Valid()
      ensures data == old(data) && input.data == old(input.data)
      ensures input != this ==> Repr !! input.Repr
      ensures input != this ==> Elements == old(input.Elements) && capacity == old(input.capacity)
      ensures input != this ==> data.buffer == old(input.data.buffer)
      ensures input != this ==> input.Elements == [] && input.capacity == 0
      ensures input != this ==> forall k :: 0 <= k < Len(old(data.buffer)) ==> old(data.buffer)[k] == Uninit
      ensures input == this ==> Elements == old(Elements) && capacity == old(capacity) && data.buffer == old(data.buffer)
    {
      if input != this {
        Dispose();
        TakeOver(input);
      }
    }

    /** The body of the corrected move assignment once this vector's elements
      * are destroyed: it takes over `input`'s block, size and capacity, and
      * `input`'s RawMemory, now holding this vector's raw block, hands it to a
      * temporary that releases it. */
    method TakeOver(input: Vector<T>)
      requires Valid() && input.Valid() && Repr !! input.Repr && Elements == []
      modifies this, data, input, input.data
      ensures Valid() && input.Valid()
      ensures Elements == old(input.Elements) && capacity == old(input.capacity)
      ensures data == old(data) && data.buffer == old(input.data.buffer)
      ensures input.data == old(input.data) && Repr !! input.Repr
      ensures input.Elements == [] && input.capacity == 0
    {
      ghost var theirs := View(input.data.buffer);
      data.MoveAssign(input.data);
      var released := new RawMemory.FromMoved(input.data);
      assert View(data.buffer) == theirs && input.data.buffer == null;
      capacity, size, Elements := input.capacity, input.size, input.Elements;
      input.size, input.capacity, input.Elements := 0, 0, [];
      Repr := {this, data} + data.Block();
      input.Repr := {input, input.data};
    }

    /** The move assignment exactly as vector.h writes it: this vector takes
      * over `input`'s block, but its own old block, with its elements still
      * live, goes to `input`, whose capacity is then set to 0 although its
      * RawMemory holds that block. `input` is left inconsistent whenever this
      * vector had a block, and the old elements are never destroyed. */
    method MoveAssignAsWritten(input: Vector<T>)
      requires Valid() && input.Valid()
      requires input == this || Repr !! input.Repr
      requires relocateByMove == input.relocateByMove
      modifies this, data, input, input.data
      ensures Valid()
      ensures input != this ==> Elements == old(input.Elements) && capacity == old(input.capacity)
      ensures input != this ==> input.size == 0 && input.capacity == 0
      ensures input != this ==> input.data.buffer == old(data.buffer) && input.data.capacity == old(capacity)
      ensures input != this ==> forall k :: 0 <= k < old(size) ==> input.data.buffer[k] == Live(old(Elements)[k])
      ensures input != this && old(capacity) > 0 ==> !input.Valid()
    {
      if input != this {
        ghost var mine, theirs := View(data.buffer), View(input.data.buffer);
        data.MoveAssign(input.data);
        assert View(data.buffer) == theirs && View(input.data.buffer) == mine;
        capacity, size, Elements := input.capacity, input.size, input.Elements;
        input.size, input.capacity, input.Elements := 0, 0, [];
        Repr := {this, data} + data.Block();
        input.Repr := {input, input.data} + input.data.Block();
      }
    }

    /** The destructor: destroys every element, after which the whole block is
      * raw and can be released. The model leaves the vector valid and empty
      * rather than gone, so the corrected move assignment can reuse it. */
    method Dispose()
      requires Valid()
      modifies this, data.buffer
      ensures Valid() && Repr == old(Repr) && data == old(data) && data.buffer == old(data.buffer)
      ensures capacity == old(capacity) && Elements == []
      ensures forall k :: 0 <= k < Len(data.buffer) ==> data.buffer[k] == Uninit
    {
      DestroyN(data.buffer, 0, size);
      size := 0;
      Elements := [];
    }

    /** Emplace(pos, value): inserts `value` so that it ends up at index `pos`
      * and returns `pos`. At the end it is EmplaceBack. With room to spare the
      * elements from `pos` on are shifted up in place; otherwise a block of
      * twice the capacity (one from empty) receives the new element at `pos`
      * first, then the elements before and after it around the gap. */
    method Emplace(pos: nat, value: T) returns (index: nat)
      requires Valid() && pos <= size
      modifies Repr
      ensures Valid() && fresh(Repr - old(Repr)) && data == old(data)
      ensures Elements == Inserted(old(Elements), pos, value) && index == pos
      ensures capacity == CapacityAfterAppend(old(size), old(capacity))
      ensures old(size) < old(capacity) ==> data.buffer == old(data.buffer)
    {
      if pos == size {
        index := EmplaceBack(value);
        return;
      }
      if size + 1 > capacity {
        EmplaceGrowing(pos, value);
      } else {
        EmplaceShifting(pos, value);
      }
      index := pos;
    }

    /** The reallocating branch of Emplace (advanced-vector/vector.h:194-205):
      * the new element is constructed at `pos` in a block of twice the
      * capacity, then the elements before and after it are relocated around it. */
    method EmplaceGrowing(pos: nat, value: T)
      requires Valid() && pos < size == capacity
      modifies Repr
      ensures Valid() && fresh(Repr - old(Repr)) && data == old(data)
      ensures Elements == Inserted(old(Elements), pos, value)
      ensures capacity == Grown(old(capacity))
    {
      var newCapacity := Grown(capacity);
      var newData := new RawMemory.WithCapacity(newCapacity);
      FillAround(data.buffer, size, Elements, pos, value, newData.buffer);
      AdoptBlock(newData, size + 1, Inserted(Elements, pos, value));
    }

    /** Lines 197-199: the new element goes to slot `pos` of the fresh block
      * `dst`, the elements before it to the slots below and the rest to the
      * slots above; each old slot is left constructed (moved-from or still
      * live), ready for destroy_n. */
    method FillAround(src: array?<Slot<T>>, n: nat, ghost xs: seq<T>, pos: nat, value: T, dst: array<Slot<T>>)
      requires Layout(View(src), xs) && n == |xs| && pos <= n < dst.Length && src != dst
      requires forall k :: 0 <= k < dst.Length ==> dst[k] == Uninit
      modifies src, dst
      ensures Layout(dst[..], Inserted(xs, pos, value))
      ensures forall k :: 0 <= k < |xs| ==> Constructed(src[k])
    {
      ghost var s0 := View(src);
      ConstructAt(dst, pos, value);
      CopyMove(src, 0, pos, dst, 0);
      ghost var d1 := dst[..];
      assert forall k :: pos <= k < n ==> src[k] == s0[k];
      CopyMove(src, pos, n - pos, dst, pos + 1);
      ghost var ys := Inserted(xs, pos, value);
      InsertedAt(xs, pos, value);
      forall k | 0 <= k < dst.Length
        ensures dst[k] == if k < |ys| then Live(ys[k]) else Uninit
      {
        if k <= pos {
          assert dst[k] == d1[k];
        }
      }
    }

    /** The in-capacity branch of Emplace (advanced-vector/vector.h:208-212),
      * with the indices the branch intends: the new last slot is
      * move-constructed from slot size - 1, where vector.h reads slot size,
      * which is raw (InPlace.Line208ReadsRawSlot); move_backward starts at
      * `pos`, where vector.h starts at pos - 1 (InPlace.Line209StartsBeforeBlock,
      * InPlace.Line209EmptiesPredecessor). */
    method EmplaceShifting(pos: nat, value: T)
      requires Valid() && pos < size < capacity
      modifies this, data.buffer
      ensures Valid() && Repr == old(Repr) && data == old(data) && data.buffer == old(data.buffer)
      ensures capacity == old(capacity)
      ensures Elements == Inserted(old(Elements), pos, value)
    {
      var buf := data.buffer;
      ghost var before := buf[..];
      MoveConstructAt(buf, size - 1, size);
      ShiftRight(buf, pos, size - 1);
      DestroyAt(buf, pos);
      ConstructAt(buf, pos, value);
      assert EmplaceWithinCapacity(before, size, pos, value, size - 1, pos) == Some(buf[..]);
      EmplaceWithinCapacityInserts(before, Elements, pos, value);
      size := size + 1;
      Elements := Inserted(Elements, pos, value);
    }

    /** Erase(pos): removes the element at `pos` by moving the later ones one
      * place down and destroying the vacated last slot; never reallocates. */
    method Erase(pos: nat) returns (index: nat)
      requires Valid() && pos < size
      modifies Repr
      ensures Valid() && Repr == old(Repr)
      ensures data.buffer == old(data.buffer) && capacity == old(capacity)
      ensures Elements == Erased(old(Elements), pos) && index == pos
    {
      var buf := data.buffer;
      ghost var xs := Elements;
      ShiftLeft(buf, pos + 1, size);
      DestroyAt(buf, size - 1);
      ErasedAt(xs, pos);
      assert Layout(buf[..], Erased(xs, pos));
      size := size - 1;
      Elements := Erased(Elements, pos);
      index := pos;
    }

    /** Insert(pos, value), for a const reference or an rvalue: Emplace. */
    method Insert(pos: nat, value: T) returns (index: nat)
      requires Valid() && pos <= size
      modifies Repr
      ensures Valid() && fresh(Repr - old(Repr)) && data == old(data)
      ensures Elements == Inserted(old(Elements), pos, value) && index == pos
      ensures capacity == CapacityAfterAppend(old(size), old(capacity))
      ensures old(size) < old(capacity) ==> data.buffer == old(data.buffer)
    {
      index := Emplace(pos, value);
    }

    /** operator[]: the element at `index`. */
    function At(index: nat): (v: T)
      reads this, Repr
      requires Valid() && index < size
      ensures v == Elements[index]
    {
      data.At(index).value
    }

    /** Exchanges blocks, sizes and capacities with `input`; no slot of either
      * block is touched. */
    method Swap(input: Vector<T>)
      requires Valid() && input.Valid()
      requires input == this || Repr !! input.Repr
      requires relocateByMove == input.relocateByMove
      modifies this, data, input, input.data
      ensures Valid() && input.Valid()
      ensures Elements == old(input.Elements) && input.Elements == old(Elements)
      ensures capacity == old(input.capacity) && input.capacity == old(capacity)
      ensures data == old(data) && input.data == old(input.data)
      ensures data.buffer == old(input.data.buffer) && input.data.buffer == old(data.buffer)
    {
      ghost var mine, theirs := View(data.buffer), View(input.data.buffer);
      data.Swap(input.data);
      assert View(data.buffer) == theirs && View(input.data.buffer) == mine;
      capacity, input.capacity := input.capacity, capacity;
      size, input.size := input.size, size;
      Elements, input.Elements := input.Elements, Elements;
      Repr := {this, data} + data.Block();
      input.Repr := {input, input.data} + input.data.Block();
    }

    /** Reserve(n): nothing when `n` does not exceed the capacity; otherwise
      * the elements are relocated into a fresh block of exactly `n` slots. */
    method Reserve(newCapacity: nat)
      requires Valid()
      modifies Repr
      ensures Valid() && fresh(Repr - old(Repr)) && data == old(data)
      ensures Elements == old(Elements)
      ensures capacity == if newCapacity <= old(capacity) then old(capacity) else newCapacity
      ensures newCapacity <= old(capacity) ==> data.buffer == old(data.buffer)
    {
      if newCapacity <= capacity {
        return;
      }
      var newData := new RawMemory.WithCapacity(newCapacity);
      CopyMove(data.buffer, 0, size, newData.buffer, 0);
      assert Layout(newData.Slots(), Elements);
      AdoptBlock(newData, size, Elements);
    }

    /** Resize(n): shrinking destroys the elements from `n` on; growing reserves
      * `n` slots and value-initialises the new elements (each `init`). */
    method Resize(newSize: nat, init: T)
      requires Valid()
      modifies Repr
      ensures Valid() && fresh(Repr - old(Repr)) && data == old(data)
      ensures Elements == if newSize <= old(size) then old(Elements)[..newSize]
                          else old(Elements) + seq(newSize - old(size), _ => init)
      ensures capacity == if newSize <= old(capacity) then old(capacity) else newSize
      ensures newSize <= old(capacity) ==> data.buffer == old(data.buffer)
    {
      if newSize == size {
        return;
      }
      if newSize < size {
        Shrink(newSize);
      } else {
        Reserve(newSize);
        var buf := data.buffer;
        ghost var ys := Elements + seq(newSize - size, _ => init);
        UninitializedValueConstructN(buf, size, newSize - size, init);
        assert Layout(View(buf), ys);
        Elements := ys;
        size := newSize;
      }
    }

    /** The shrinking branch of Resize (lines 268-271): the elements from
      * `newSize` on are destroyed one by one, in place. */
    method Shrink(newSize: nat)
      requires Valid() && newSize < size
      modifies this, data.buffer
      ensures Valid() && Repr == old(Repr) && data == old(data) && data.buffer == old(data.buffer)
      ensures capacity == old(capacity) && Elements == old(Elements)[..newSize]
    {
      var buf := data.buffer;
      ghost var xs := Elements;
      var i := newSize;
      while i < size
        invariant newSize <= i <= size
        invariant forall k :: 0 <= k < Len(buf) ==>
          buf[k] == if newSize <= k < i then Uninit else old(buf[k])
        modifies buf
      {
        DestroyAt(buf, i);
        i := i + 1;
      }
      assert Layout(View(buf), xs[..newSize]);
      size := newSize;
      Elements := xs[..newSize];
    }

    /** PushBack(value), for a const reference or an rvalue: EmplaceBack. */
    method PushBack(value: T)
      requires Valid()
      modifies Repr
      ensures Valid() && fresh(Repr - old(Repr)) && data == old(data)
      ensures Elements == old(Elements) + [value]
      ensures capacity == CapacityAfterAppend(old(size), old(capacity))
      ensures old(size) < old(capacity) ==> data.buffer == old(data.buffer)
    {
      var index := EmplaceBack(value);
    }

    /** PopBack(): destroys the last element; never reallocates. */
    method PopBack()
      requires Valid() && size > 0
      modifies Repr
      ensures Valid() && Repr == old(Repr)
      ensures data.buffer == old(data.buffer) && capacity == old(capacity)
      ensures Elements == old(Elements)[..old(size) - 1]
    {
      DestroyAt(data.buffer, size - 1);
      size := size - 1;
      Elements := Elements[..size];
    }

    /** EmplaceBack(value): appends `value` and returns its index. With room to
      * spare it is constructed in place; otherwise it is constructed in a new
      * block of twice the size (one from empty) before the old elements are
      * relocated next to it. */
    method EmplaceBack(value: T) returns (index: nat)
      requires Valid()
      modifies Repr
      ensures Valid() && fresh(Repr - old(Repr)) && data == old(data)
      ensures Elements == old(Elements) + [value] && index == old(size)
      ensures capacity == CapacityAfterAppend(old(size), old(capacity))
      ensures old(size) < old(capacity) ==> data.buffer == old(data.buffer)
    {
      index := size;
      if size == capacity {
        var newCapacity := Grown(size);
        var newData := new RawMemory.WithCapacity(newCapacity);
        FillBelow(data.buffer, size, Elements, value, newData.buffer);
        AdoptBlock(newData, size + 1, Elements + [value]);
      } else {
        ConstructAt(data.buffer, size, value);
        size := size + 1;
        Elements := Elements + [value];
      }
    }

    /** Lines 319-321: the new element goes to slot `n` of the fresh block
      * `dst` and the `n` old elements to the slots below it; each old slot is
      * left constructed (moved-from or still live), ready for destroy_n. */
    method FillBelow(src: array?<Slot<T>>, n: nat, ghost xs: seq<T>, value: T, dst: array<Slot<T>>)
      requires Layout(View(src), xs) && n == |xs| < dst.Length && src != dst
      requires forall k :: 0 <= k < dst.Length ==> dst[k] == Uninit
      modifies src, dst
      ensures Layout(dst[..], xs + [value])
      ensures forall k :: 0 <= k < |xs| ==> Constructed(src[k])
    {
      ConstructAt(dst, n, value);
      ghost var d0 := dst[..];
      CopyMove(src, 0, n, dst, 0);
      forall k | 0 <= k < dst.Length
        ensures dst[k] == if k < n + 1 then Live((xs + [value])[k]) else Uninit
      {
        if k >= n {
          assert dst[k] == d0[k];
        }
      }
    }

    /** The end of every reallocation (lines 201-203, 260-262, 322-324): the
      * old elements, live or moved-from, are destroyed and the new block,
      * already holding `ys`, is swapped in; `newData` is left with the old,
      * now raw, block to release. */
    method AdoptBlock(newData: RawMemory<T>, newSize: nat, ghost ys: seq<T>)
      requires this in Repr && data in Repr && Repr == {this, data} + data.Block()
      requires data.Valid() && capacity == data.capacity && size <= capacity
      requires forall k :: 0 <= k < size ==> Constructed(data.buffer[k])
      requires newData.Valid() && newData !in Repr && newData.buffer !in Repr
      requires Layout(newData.Slots(), ys) && newSize == |ys|
      modifies this, data, newData, data.buffer
      ensures Valid() && data == old(data) && Elements == ys
      ensures capacity == old(newData.capacity) && data.buffer == old(newData.buffer)
    {
      ghost var incoming := View(newData.buffer);
      DestroyN(data.buffer, 0, size);
      assert View(newData.buffer) == incoming;
      data.Swap(newData);
      capacity := data.capacity;
      size := newSize;
      Elements := ys;
      Repr := {this, data} + data.Block();
    }

    /** CopyMove: relocates `n` live elements from `src` into raw slots of
      * another block `dst`, by move construction when `relocateByMove` holds
      * (the sources are left moved-from) and by copy construction otherwise
      * (the source block is left exactly as it was, so the old elements
      * survive until the caller destroys them). */
    method CopyMove(src: array?<Slot<T>>, from: nat, n: nat, dst: array?<Slot<T>>, to: nat)
      requires from + n <= Len(src) && to + n <= Len(dst)
      requires n == 0 || src != dst
      requires forall k :: from <= k < from + n ==> src[k].Live?
      requires forall k :: to <= k < to + n ==> dst[k] == Uninit
      modifies src, dst
      ensures forall k :: 0 <= k < Len(dst) ==>
        dst[k] == if to <= k < to + n then old(src[k - to + from]) else old(dst[k])
      ensures forall k :: 0 <= k < Len(src) ==>
        src[k] == if relocateByMove && from <= k < from + n then MovedFrom else old(src[k])
    {
      if relocateByMove {
        UninitializedMoveN(src, from, n, dst, to);
      } else {
        UninitializedCopyN(src, from, n, dst, to);
      }
    }
  }

  /** Pushing the values `xs` one by one into an empty vector leaves them in
    * order, with the capacity the growth rule gives for |xs| appends: by
    * Growth.GrowthLaw the least power of two that holds them. */
  method PushAll<T>(xs: seq<T>, relocateByMove: bool) returns (v: Vector<T>)
    ensures v.Valid() && fresh(v.Repr)
    ensures v.Elements == xs && v.capacity == CapacityAfterAppends(|xs|)
  {
    v := new Vector(relocateByMove);
    var i := 0;
    while i < |xs|
      invariant i <= |xs|
      invariant v.Valid() && fresh(v.Repr)
      invariant v.Elements == xs[..i] && v.capacity == CapacityAfterAppends(i)
    {
      v.PushBack(xs[i]);
      assert xs[..i + 1] == xs[..i] + [xs[i]];
      i := i + 1;
    }
    assert xs[..i] == xs;
  }

  /** Pushing 1, 2 and 3 into an empty vector (capacity 4 afterwards),
    * inserting 99 at index 1, erasing index 0 and popping the back leaves the
    * elements 99, 2 in a block of four slots. */
  method AppendInsertEraseScenario() returns (elements: seq<int>, capacity: nat)
    ensures elements == [99, 2] && capacity == 4
  {
    var v := PushAll([1, 2, 3], true);
    assert CapacityAfterAppends(3) == 4;
    var at := v.Insert(1, 99);
    assert v.Elements == [1, 99, 2, 3] && at == 1;
    at := v.Erase(0);
    assert v.Elements == [99, 2, 3];
    v.PopBack();
    assert v.Elements == [99, 2];
    elements := [v.At(0), v.At(1)];
    capacity := v.capacity;
  }
}

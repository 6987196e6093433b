# advanced-vector in Dafny

A model of `advanced-vector/vector.h`, a growable array built from two class templates.

- `RawMemory<T>` owns one block of uninitialised memory. It allocates the block (no block at all for zero slots), hands out slot addresses inside the block, and exchanges blocks on swap, on move construction and on move assignment.
- `Vector<T>` keeps `size` constructed elements at the front of a `RawMemory` of `capacity` slots. Its elements are created and destroyed with placement `new`, explicit destructor calls and the `<memory>`/`<algorithm>` routines.
  - Appending to a full vector reallocates to twice the size, or to one slot from empty.
  - Relocation copies or moves the elements (`CopyMove`), depending on the element type.

The model works at the level of slots. A block is an `array?<Slot<T>>`. Each slot is one of:

- `Uninit`: raw memory;
- `Live(v)`: a constructed object holding `v`;
- `MovedFrom`: an object whose value was moved out but whose destructor has still to run.

Every lifetime routine requires what C++ demands of its range. That means raw slots where it constructs, objects where it destroys, and live values where it reads. A method that verifies therefore never constructs over an object, destroys a slot twice or reads raw memory. The vector's invariant `Vector.Valid` says two things:

- the block holds exactly the ghost sequence `Elements` (slots `[0, size)` are live, the rest raw);
- `capacity` and the block agree.

Every operation states its effect on `Elements`, on `capacity` and on which block is in use.

Modules:

- `Slots`: the slot states, the layout invariant and the pure slot steps, each `None` on undefined behaviour.
- `Lifetime`: the imperative placement-new, destroy and `std::` routines on blocks, proved against those steps.
- `Memory`: `RawMemory`.
- `Growth`: the growth rule and what it implies over many appends.
- `InPlace`: the two in-block rewrites (inside `Emplace` and the copy assignment), stated both as written and as intended.
- `Vectors`: `Vector`.

## Model

| member | source | states |
|---|---|---|
| Memory.RawMemory.constructor | advanced-vector/vector.h:12 | a default raw memory owns no block and has capacity 0 |
| Memory.RawMemory.FromMoved | advanced-vector/vector.h:16-21 | the new raw memory takes over the input's block and capacity; the input is left with no block and capacity 0 |
| Memory.RawMemory.MoveAssign | advanced-vector/vector.h:22-28 | move assignment swaps blocks and capacities with the input, so the input receives this object's former block; self-assignment changes nothing |
| Memory.RawMemory.WithCapacity | advanced-vector/vector.h:30-33 | a raw memory of capacity n owns a fresh block of n raw slots, or no block when n is 0 |
| Memory.RawMemory.At | advanced-vector/vector.h:53-56 | operator[] is defined only for index < capacity and yields that slot of the block |
| Memory.RawMemory.Swap | advanced-vector/vector.h:58-61 | the two raw memories exchange blocks and capacities; no slot changes |
| Memory.RawMemory.Allocate | advanced-vector/vector.h:77-79 | allocating zero slots gives null; otherwise a fresh block of exactly n raw slots |
| Lifetime.ConstructAt | advanced-vector/vector.h:211 | placement new needs a raw slot in the block and leaves it live with the value |
| Lifetime.DestroyAt | advanced-vector/vector.h:210 | an explicit destructor call needs a constructed slot and leaves it raw |
| Lifetime.MoveConstructAt | advanced-vector/vector.h:208 | move construction needs a live source and a raw target; the value moves and the source is left moved-from |
| Lifetime.MoveAssignAt | advanced-vector/vector.h:219 | move assignment needs a live source and a constructed target; the value moves and the source is left moved-from |
| Lifetime.CopyAssignAt | advanced-vector/vector.h:122 | copy assignment onto a constructed slot replaces its value by the live source's; nothing else changes |
| Lifetime.CopyAssignN | advanced-vector/vector.h:120-123 | the element-wise copy assignment over the first n slots of two blocks gives each of them the source value and changes no other slot |
| Lifetime.ShiftRight | advanced-vector/vector.h:209 | `std::move_backward` of [first, last) one place up moves every value up and leaves slot `first` moved-from, exactly as the step function MoveBackward says |
| Lifetime.ShiftLeft | advanced-vector/vector.h:219 | `std::move` of [first, last) one place down moves every value down and leaves slot last - 1 moved-from |
| Lifetime.DestroyN | advanced-vector/vector.h:163 | `std::destroy_n` leaves exactly the n slots raw and every other slot unchanged |
| Lifetime.UninitializedValueConstructN | advanced-vector/vector.h:99 | `std::uninitialized_value_construct_n` makes exactly the n raw slots live with the value-initialised value |
| Lifetime.UninitializedMoveN | advanced-vector/vector.h:340 | `std::uninitialized_move_n` puts the n values in order into the raw target slots and leaves the sources moved-from |
| Lifetime.UninitializedCopyN | advanced-vector/vector.h:343 | `std::uninitialized_copy_n` puts the n values in order into the raw target slots and leaves the source block unchanged |
| Slots.MoveBackward | advanced-vector/vector.h:209 | move_backward is defined exactly when the range lies in the block, its values are live and the slot above it is constructed; it shifts the values one up and leaves the first slot moved-from |
| Slots.EraseUndoesInsert | advanced-vector/vector.h:217-223 | erasing at the index where a value was inserted gives back the original elements |
| Growth.Grown | advanced-vector/vector.h:195 | the reallocation capacity is 1 from empty and otherwise double, and always exceeds the old size |
| Growth.CapacityAfterAppend | advanced-vector/vector.h:280-286 | one append never shrinks the capacity, changes it only when the vector is full, and always leaves room for the new element |
| Growth.CapacityAfterAppends | advanced-vector/vector.h:318-324 | after n appends from empty the capacity holds all n elements and, for n >= 1, is below 2n |
| Growth.GrowthLaw | advanced-vector/vector.h:316-327 | after n >= 1 appends from empty the capacity is 2^(r-1) for r reallocations, holds all n elements, and is below 2n |
| Growth.CapacityIsLeastPowerOfTwo | advanced-vector/vector.h:319-324 | after n >= 1 appends from empty the capacity is no larger than any power of two that holds n elements |
| InPlace.EmplaceWithinCapacity | advanced-vector/vector.h:208-211 | the in-capacity branch of Emplace, with the move source and the move_backward start as parameters: whenever its four steps are defined, the block keeps its length, the value is live at pos and the slot past the old last element holds an object |
| InPlace.EmplaceWithinCapacityInserts | advanced-vector/vector.h:207-212 | with source slot size - 1 and move_backward from pos, the in-capacity branch is defined on every vector with a free slot, and leaves the block holding the elements with the value inserted at pos |
| InPlace.Line208ReadsRawSlot | advanced-vector/vector.h:208 | with the move source written as slot size, the branch reads a raw slot on every vector |
| InPlace.Line209StartsBeforeBlock | advanced-vector/vector.h:209 | with move_backward from pos - 1, inserting at the front addresses a slot before the block |
| InPlace.Line209EmptiesPredecessor | advanced-vector/vector.h:209 | with move_backward from pos - 1 and pos > 0, the element before the insertion point ends up moved-from, so the block does not hold the inserted sequence |
| InPlace.InsertIntoThreeOfFour | advanced-vector/vector.h:207-212 | inserting 99 at index 1 of [1, 2, 3] in four slots reads raw memory as written, and gives [1, 99, 2, 3] as intended |
| InPlace.CopyTailAsWrittenReadsRaw | advanced-vector/vector.h:129 | copying the missing tail from this vector's own slots reads raw slots whenever the other vector is longer |
| InPlace.CopyTailFromOther | advanced-vector/vector.h:125-131 | copying the missing tail from the other vector's block is defined and leaves this block holding exactly the other vector's elements |
| Vectors.Vector.constructor | advanced-vector/vector.h:93 | a default vector is valid, empty, and has capacity 0 |
| Vectors.Vector.Sized | advanced-vector/vector.h:94-100 | Vector(n) holds n value-initialised elements in exactly n slots |
| Vectors.Vector.Copy | advanced-vector/vector.h:101-109 | the copy holds the other vector's elements in a fresh block of exactly their number of slots |
| Vectors.Vector.Moved | advanced-vector/vector.h:137-147 | the new vector takes over the input's block, elements and capacity in a fresh RawMemory of its own; the input keeps its RawMemory and is left valid, empty, with capacity 0 and disjoint from the new vector |
| Vectors.Vector.CopyAssign | advanced-vector/vector.h:111-135 | after copy assignment this vector holds the other's elements and the other is unchanged; capacity becomes the other's size when a copy-and-swap was needed, and otherwise capacity and block are kept; on copy-and-swap the temporary's destructor leaves every slot of the old block raw |
| Vectors.Vector.AssignInPlace | advanced-vector/vector.h:118-132 | the in-place branch keeps the block and capacity and leaves it holding exactly the other vector's elements |
| Vectors.Vector.AssignSlots | advanced-vector/vector.h:119-130 | on the blocks: a block holding this vector's elements, with room for the other's, ends up holding exactly the other vector's elements |
| Vectors.Vector.MoveAssign | advanced-vector/vector.h:149-160 | move assignment, corrected: this vector takes over the input's block, elements and capacity; its old elements are destroyed; the input is left valid and empty; both keep their RawMemory and stay disjoint; self-assignment changes nothing |
| Vectors.Vector.TakeOver | advanced-vector/vector.h:152-157 | once this vector is empty, it takes over the input's block, elements and capacity, and the input is left valid and empty with no block; both keep their RawMemory and stay disjoint |
| Vectors.Vector.MoveAssignAsWritten | advanced-vector/vector.h:149-160 | move assignment as written: the input receives this vector's old block with the old elements still live, and its capacity is set to 0, so it is invalid whenever this vector had a block |
| Vectors.Vector.Dispose | advanced-vector/vector.h:162-164 | the destructor destroys every element, leaving every slot of the block raw and the capacity unchanged |
| Vectors.Vector.Emplace | advanced-vector/vector.h:189-216 | the value is inserted at pos and pos is returned; capacity follows the growth rule; no reallocation while there is room |
| Vectors.Vector.EmplaceGrowing | advanced-vector/vector.h:194-206 | the reallocating branch yields the inserted sequence in a block of twice the capacity |
| Vectors.Vector.FillAround | advanced-vector/vector.h:196-199 | the new block holds the elements before pos, the value, then the rest, and every old slot is still constructed for destroy_n |
| Vectors.Vector.AdoptBlock | advanced-vector/vector.h:322-324 | the end of every reallocation: the old objects are destroyed and the new block, already holding the new elements, becomes the vector's, which is valid again with the new capacity |
| Vectors.Vector.EmplaceShifting | advanced-vector/vector.h:207-215 | the in-capacity branch, with the intended indices, yields the inserted sequence in the same block |
| Vectors.Vector.Erase | advanced-vector/vector.h:217-223 | the element at pos is removed and pos is returned; block and capacity are kept |
| Vectors.Vector.Insert | advanced-vector/vector.h:224-229 | Insert is Emplace: the value ends up at pos; capacity follows the growth rule, and the block is kept when there was room |
| Vectors.Vector.At | advanced-vector/vector.h:239-246 | operator[] needs index < size and yields that element |
| Vectors.Vector.Swap | advanced-vector/vector.h:248-252 | the two vectors exchange blocks, elements and capacities |
| Vectors.Vector.Reserve | advanced-vector/vector.h:253-263 | the elements are kept; capacity becomes n when n exceeds it, and otherwise nothing changes |
| Vectors.Vector.Resize | advanced-vector/vector.h:265-278 | shrinking keeps the first n elements in the same block; growing appends value-initialised elements and reserves exactly n slots if needed |
| Vectors.Vector.Shrink | advanced-vector/vector.h:267-272 | destroying the elements from n on keeps the first n elements in the same block and capacity |
| Vectors.Vector.PushBack | advanced-vector/vector.h:279-310 | the value is appended; capacity follows the growth rule, and the block is kept when there was room |
| Vectors.Vector.PopBack | advanced-vector/vector.h:311-314 | on a non-empty vector the last element is removed; block and capacity are kept |
| Vectors.Vector.EmplaceBack | advanced-vector/vector.h:316-334 | the value is appended and its index returned; capacity follows the growth rule; the block is kept while there is room |
| Vectors.Vector.FillBelow | advanced-vector/vector.h:319-321 | the new block holds the old elements followed by the value, and every old slot is still constructed for destroy_n |
| Vectors.Vector.CopyMove | advanced-vector/vector.h:338-345 | relocation puts the n values in order into the raw target slots; moving leaves the sources moved-from, copying leaves them unchanged |
| Vectors.PushAll | advanced-vector/vector.h:279-294 | pushing a sequence into an empty vector yields that sequence, with the capacity the growth rule gives for that many appends |
| Vectors.AppendInsertEraseScenario | advanced-vector/vector.h:224-229 | pushing 1, 2, 3, inserting 99 at index 1, erasing index 0 and popping leaves [99, 2] in four slots |

## Left out

- Releasing memory is not modelled: `operator new`/`operator delete`, `Deallocate` and the `RawMemory` destructor. Blocks are garbage-collected arrays, and the `n * sizeof(T)` byte count is not modelled.
- Pointer arithmetic (`operator+`, `GetAddress`, iterators, `begin`/`end`) becomes slot indices. The `offset <= capacity` assertion of `operator+` is the range precondition of every `Lifetime` routine.
- The const overloads of `operator[]` and `operator+` are not modelled separately; they forward to the non-const ones. The getters `Size`, `Capacity` and `RawMemory::Capacity` are the fields themselves.
- The deleted copy operations of `RawMemory` declare nothing to model.
- Exceptions thrown by a constructor or copy of `T` are not modelled, nor is the strong guarantee that the order of each reallocation gives. Every step is assumed to succeed.
- `size_t` is unbounded: the overflow of `size_ * 2` and of the byte count is not modelled.
- The type traits consulted by `CopyMove` are the constant `relocateByMove` of each vector. Since the traits belong to the element type, the operations that exchange blocks between two vectors (`Swap`, `CopyAssign`, `MoveAssign`) require both vectors to have the same value.
- Value-initialisation `T()` is an `init` parameter.
- Variadic construction arguments and the lvalue/rvalue overloads of `PushBack` and `Insert` become one constructed `value`. The model does not distinguish copying the argument from moving it.
- Emplacing an argument that refers to an element of the same vector (aliasing through the arguments) is not modelled.
- The copy constructor's `this != &other` test and the move constructor's `this != &input` test are always true in a constructor and are not modelled.
- Vectors.Vector.CopyAssign: the comparison `capacity_ < other.capacity_` at advanced-vector/vector.h:114 is kept as written. It takes the copy-and-swap path in some cases where comparing with `other.size_` would copy in place, so the capacity after assignment follows that comparison.
- Vectors.Vector.Dispose: the destructor ends the object's lifetime; the model instead leaves the vector valid and empty (size 0) with its block all raw, and does not model releasing that block.
- Vectors.Vector.Emplace: requires `pos <= size`, the iterator range the C++ code assumes and does not check.

## Findings

| source | as written | input that shows it | evidently intended | confidence | as-written member | corrected member |
|---|---|---|---|---|---|---|
| advanced-vector/vector.h:208 | the new last element is move-constructed from `data_[size_]`, one past the last element | any in-capacity Emplace not at the end, e.g. 99 at index 1 of [1, 2, 3] with capacity 4: slot 3 is raw | move-construct from `data_[size_ - 1]` | high, not executed | InPlace.Line208ReadsRawSlot | InPlace.EmplaceWithinCapacityInserts, Vectors.Vector.EmplaceShifting |
| advanced-vector/vector.h:209 | `std::move_backward` starts at `data_ + pos_n - 1` | with line 208 corrected, Emplace at index 0 of [1, 2, 3] with capacity 4 addresses a slot before the block, and at index 1 it leaves element 0 moved-from | start at `data_ + pos_n` | high, not executed | InPlace.Line209StartsBeforeBlock, InPlace.Line209EmptiesPredecessor | InPlace.EmplaceWithinCapacityInserts, Vectors.Vector.EmplaceShifting |
| advanced-vector/vector.h:129 | the missing tail is copied from `data_ + i`, this vector's own raw slots | assigning [1, 2] (capacity 2) to an empty vector of capacity 4: slots 0 and 1 are raw | copy from `other.data_ + i` | high, not executed | InPlace.CopyTailAsWrittenReadsRaw | InPlace.CopyTailFromOther, Vectors.Vector.AssignSlots |
| advanced-vector/vector.h:152-157 | move assignment swaps blocks and never destroys this vector's elements; it then sets the input's capacity to 0 although the input now holds the old block | moving [5] into a vector holding [1] with capacity 1: the input keeps a live 1 in a block of one slot but has capacity 0 | destroy this vector's elements and leave the input with no block | high, not executed | Vectors.Vector.MoveAssignAsWritten | Vectors.Vector.MoveAssign, Vectors.Vector.TakeOver |

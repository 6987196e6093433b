/**
 * The state of a block of element-sized slots, and the effect of the lifetime
 * operations the vector performs on one block: placement construction,
 * destruction, move construction, move assignment, std::move_backward and
 * std::uninitialized_copy_n.
 *
 * Every step returns None exactly when the C++ code would have undefined
 * behaviour: an address outside the block, an object constructed over a live
 * one, a raw slot destroyed or read as an object.
 */
module Slots {

  /** One slot of raw memory: never constructed (or destroyed), holding a live
    * value, or holding an object whose value has been moved out. A moved-from
    * object still has to be destroyed, but its value may not be read. */
  datatype Slot<T> = Uninit | Live(value: T) | MovedFrom

  datatype Option<T> = None | Some(value: T)

  /** The slot holds an object whose destructor has still to run. */
  predicate Constructed<T>(s: Slot<T>)
  {
    !s.Uninit?
  }

  /** The block `s` holds exactly the elements `xs`: slots [0, |xs|) are live
    * with them in order and every later slot is raw. */
  ghost predicate Layout<T>(s: seq<Slot<T>>, xs: seq<T>)
  {
    && |xs| <= |s|
    && (forall i :: 0 <= i < |xs| ==> s[i] == Live(xs[i]))
    && (forall i :: |xs| <= i < |s| ==> s[i] == Uninit)
  }

  /** The element sequence after inserting `v` so that it ends up at index `i`. */
  function Inserted<T>(xs: seq<T>, i: nat, v: T): seq<T>
    requires i <= |xs|
  {
    xs[..i] + [v] + xs[i..]
  }

  /** The element sequence after removing the element at index `i`. */
  function Erased<T>(xs: seq<T>, i: nat): seq<T>
    requires i < |xs|
  {
    xs[..i] + xs[i + 1..]
  }

  /** Inserting puts `v` at index `i`, keeps the prefix and shifts the rest
    * one place up; erasing closes the gap again. */
  lemma InsertedAt<T>(xs: seq<T>, i: nat, v: T)
    requires i <= |xs|
    ensures |Inserted(xs, i, v)| == |xs| + 1
    ensures forall k :: 0 <= k < |xs| + 1 ==>
      Inserted(xs, i, v)[k] == if k < i then xs[k] else if k == i then v else xs[k - 1]
  {
  }

  lemma ErasedAt<T>(xs: seq<T>, i: nat)
    requires i < |xs|
    ensures |Erased(xs, i)| == |xs| - 1
    ensures forall k :: 0 <= k < |xs| - 1 ==> Erased(xs, i)[k] == if k < i then xs[k] else xs[k + 1]
  {
  }

  lemma {:induction false} EraseUndoesInsert<T>(xs: seq<T>, i: nat, v: T)
    requires i <= |xs|
    ensures Erased(Inserted(xs, i, v), i) == xs
  {
    InsertedAt(xs, i, v);
    ErasedAt(Inserted(xs, i, v), i);
  }

  /** Placement new of `v` into slot `i`. */
  ghost function Construct<T>(s: seq<Slot<T>>, i: int, v: T): Option<seq<Slot<T>>>
  {
    if 0 <= i < |s| && s[i].Uninit? then Some(s[i := Live(v)]) else None
  }

  /** The destructor call `(data + i)->~T()`. */
  ghost function Destroy<T>(s: seq<Slot<T>>, i: int): Option<seq<Slot<T>>>
  {
    if 0 <= i < |s| && Constructed(s[i]) then Some(s[i := Uninit]) else None
  }

  /** `new (data + to) T(std::move(data[from]))`. */
  ghost function MoveConstruct<T>(s: seq<Slot<T>>, from: int, to: int): Option<seq<Slot<T>>>
  {
    if 0 <= from < |s| && 0 <= to < |s| && s[from].Live? && s[to].Uninit?
    then Some(s[to := s[from]][from := MovedFrom])
    else None
  }

  /** `data[to] = std::move(data[from])`. */
  ghost function MoveAssign<T>(s: seq<Slot<T>>, from: int, to: int): Option<seq<Slot<T>>>
  {
    if 0 <= from < |s| && 0 <= to < |s| && from != to && s[from].Live? && Constructed(s[to])
    then Some(s[to := s[from]][from := MovedFrom])
    else None
  }

  /** `std::move_backward(data + first, data + last, data + last + 1)`: move
    * the slots [first, last) one place up, starting from the back. A `first`
    * below zero is an address before the block. */
  ghost function MoveBackward<T>(s: seq<Slot<T>>, first: int, last: int): (r: Option<seq<Slot<T>>>)
    decreases last - first
    ensures r.Some? <==>
      (first < last ==>
        && 0 <= first && last < |s| && Constructed(s[last])
        && forall k :: first <= k < last ==> s[k].Live?)
    ensures r.Some? && last <= first ==> r.value == s
    ensures r.Some? && first < last ==>
      && |r.value| == |s|
      && r.value[first] == MovedFrom
      && (forall k :: first < k <= last ==> r.value[k] == s[k - 1])
      && (forall k :: 0 <= k < |s| && !(first <= k <= last) ==> r.value[k] == s[k])
  {
    if last <= first then Some(s)
    else
      match MoveAssign(s, last - 1, last)
      case None => None
      case Some(s1) =>
        assert forall k :: 0 <= k < |s| && k != last - 1 && k != last ==> s1[k] == s[k];
        MoveBackward(s1, first, last - 1)
  }

  /** `std::uninitialized_copy_n(src + from, n, dst + to)`: the new state of the
    * destination block; the source block is only read. */
  ghost function CopyN<T>(src: seq<Slot<T>>, from: int, n: nat, dst: seq<Slot<T>>, to: int): Option<seq<Slot<T>>>
  {
    if && 0 <= from && from + n <= |src| && 0 <= to && to + n <= |dst|
       && (forall k :: from <= k < from + n ==> src[k].Live?)
       && (forall k :: to <= k < to + n ==> dst[k].Uninit?)
    then Some(seq(|dst|, k requires 0 <= k < |dst| => if to <= k < to + n then src[k - to + from] else dst[k]))
    else None
  }
}

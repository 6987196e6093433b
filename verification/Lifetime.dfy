/**
 * Object lifetime on raw blocks: placement new, explicit destructor calls and
 * the <memory>/<algorithm> routines the vector runs over its blocks. Each
 * routine requires what the C++ routine demands of its ranges (raw slots where
 * it constructs, objects where it destroys, live values where it reads), so a
 * caller that verifies never destroys a slot twice or reads a raw one.
 *
 * A block is an `array?`: a null block has no slots, and every range over it
 * is empty, as a null pointer with a count of zero is in C++.
 */
module Lifetime {
  import opened Slots

  /** The number of slots of a block. */
  function Len<T>(a: array?<Slot<T>>): nat
  {
    if a == null then 0 else a.Length
  }

  /** The slot states of a block. */
  ghost function View<T>(a: array?<Slot<T>>): (s: seq<Slot<T>>)
    reads a
    ensures |s| == Len(a)
  {
    if a == null then [] else a[..]
  }

  /** `new (a + i) T(v)`. */
  method ConstructAt<T>(a: array<Slot<T>>, i: nat, v: T)
    requires i < a.Length && a[i] == Uninit
    modifies a
    ensures Construct(old(a[..]), i, v) == Some(a[..])
  {
    a[i] := Live(v);
  }

  /** `(a + i)->~T()`. */
  method DestroyAt<T>(a: array<Slot<T>>, i: nat)
    requires i < a.Length && Constructed(a[i])
    modifies a
    ensures Destroy(old(a[..]), i) == Some(a[..])
  {
    a[i] := Uninit;
  }

  /** `new (a + to) T(std::move(a[from]))`. */
  method MoveConstructAt<T>(a: array<Slot<T>>, from: nat, to: nat)
    requires from < a.Length && to < a.Length
    requires a[from].Live? && a[to] == Uninit
    modifies a
    ensures MoveConstruct(old(a[..]), from, to) == Some(a[..])
  {
    a[to] := a[from];
    a[from] := MovedFrom;
  }

  /** `a[to] = std::move(a[from])`. */
  method MoveAssignAt<T>(a: array<Slot<T>>, from: nat, to: nat)
    requires from < a.Length && to < a.Length && from != to
    requires a[from].Live? && Constructed(a[to])
    modifies a
    ensures MoveAssign(old(a[..]), from, to) == Some(a[..])
  {
    a[to] := a[from];
    a[from] := MovedFrom;
  }

  /** `dst[i] = src[j]`: copy assignment onto an existing object. */
  method CopyAssignAt<T>(dst: array<Slot<T>>, i: nat, src: array<Slot<T>>, j: nat)
    requires i < dst.Length && j < src.Length
    requires src[j].Live? && Constructed(dst[i])
    modifies dst
    ensures dst[..] == old(dst[..])[i := old(src[j])]
  {
    dst[i] := src[j];
  }

  /** The element-wise copy assignment `dst[i] = src[i]` for i in [0, n) of
    * two different blocks. */
  method CopyAssignN<T>(src: array?<Slot<T>>, dst: array?<Slot<T>>, n: nat)
    requires n <= Len(src) && n <= Len(dst) && (n == 0 || src != dst)
    requires forall k :: 0 <= k < n ==> src[k].Live? && Constructed(dst[k])
    modifies dst
    ensures forall k :: 0 <= k < Len(dst) ==> dst[k] == if k < n then old(src[k]) else old(dst[k])
  {
    var i := 0;
    while i < n
      invariant i <= n
      invariant forall k :: 0 <= k < Len(dst) ==> dst[k] == if k < i then old(src[k]) else old(dst[k])
    {
      CopyAssignAt(dst, i, src, i);
      i := i + 1;
    }
  }

  /** `std::move_backward(a + first, a + last, a + last + 1)`. */
  method ShiftRight<T>(a: array<Slot<T>>, first: nat, last: nat)
    requires first <= last < a.Length
    requires first < last ==> Constructed(a[last])
    requires forall k :: first <= k < last ==> a[k].Live?
    modifies a
    ensures MoveBackward(old(a[..]), first, last) == Some(a[..])
  {
    var i := last;
    while i > first
      invariant first <= i <= last
      invariant MoveBackward(a[..], first, i) == MoveBackward(old(a[..]), first, last)
      invariant MoveBackward(a[..], first, i).Some?
    {
      MoveAssignAt(a, i - 1, i);
      i := i - 1;
    }
  }

  /** `std::move(a + first, a + last, a + first - 1)`: the slots [first, last)
    * are moved one place down, front first; the last of them is left moved-from. */
  method ShiftLeft<T>(a: array<Slot<T>>, first: nat, last: nat)
    requires 1 <= first <= last <= a.Length
    requires first < last ==> Constructed(a[first - 1])
    requires forall k :: first <= k < last ==> a[k].Live?
    modifies a
    ensures forall k :: 0 <= k < a.Length ==>
      a[k] == if first - 1 <= k < last - 1 then old(a[k + 1])
              else if k == last - 1 && first < last then MovedFrom
              else old(a[k])
  {
    var i := first;
    while i < last
      invariant first <= i <= last
      invariant forall k :: 0 <= k < a.Length ==>
        a[k] == if first - 1 <= k < i - 1 then old(a[k + 1])
                else if k == i - 1 && first < i then MovedFrom
                else old(a[k])
    {
      MoveAssignAt(a, i, i - 1);
      i := i + 1;
    }
  }

  /** `std::destroy_n(a + from, n)`. */
  method DestroyN<T>(a: array?<Slot<T>>, from: nat, n: nat)
    requires from + n <= Len(a)
    requires forall k :: from <= k < from + n ==> Constructed(a[k])
    modifies a
    ensures forall k :: 0 <= k < Len(a) ==> a[k] == if from <= k < from + n then Uninit else old(a[k])
  {
    var i := 0;
    while i < n
      invariant i <= n
      invariant forall k :: 0 <= k < Len(a) ==> a[k] == if from <= k < from + i then Uninit else old(a[k])
    {
      DestroyAt(a, from + i);
      i := i + 1;
    }
  }

  /** `std::uninitialized_value_construct_n(a + from, n)`, where `init` is the
    * value `T()` produces. */
  method UninitializedValueConstructN<T>(a: array?<Slot<T>>, from: nat, n: nat, init: T)
    requires from + n <= Len(a)
    requires forall k :: from <= k < from + n ==> a[k] == Uninit
    modifies a
    ensures forall k :: 0 <= k < Len(a) ==> a[k] == if from <= k < from + n then Live(init) else old(a[k])
  {
    var i := 0;
    while i < n
      invariant i <= n
      invariant forall k :: 0 <= k < Len(a) ==> a[k] == if from <= k < from + i then Live(init) else old(a[k])
    {
      ConstructAt(a, from + i, init);
      i := i + 1;
    }
  }

  /** `std::uninitialized_move_n(src + from, n, dst + to)` between two blocks:
    * the values arrive in order and the sources are left moved-from. */
  method UninitializedMoveN<T>(src: array?<Slot<T>>, from: nat, n: nat, dst: array?<Slot<T>>, to: nat)
    requires from + n <= Len(src) && to + n <= Len(dst)
    requires n == 0 || src != dst
    requires forall k :: from <= k < from + n ==> src[k].Live?
    requires forall k :: to <= k < to + n ==> dst[k] == Uninit
    modifies src, dst
    ensures forall k :: 0 <= k < Len(dst) ==> dst[k] == if to <= k < to + n then old(src[k - to + from]) else old(dst[k])
    ensures forall k :: 0 <= k < Len(src) ==> src[k] == if from <= k < from + n then MovedFrom else old(src[k])
  {
    var i := 0;
    while i < n
      invariant i <= n
      invariant forall k :: 0 <= k < Len(dst) ==> dst[k] == if to <= k < to + i then old(src[k - to + from]) else old(dst[k])
      invariant forall k :: 0 <= k < Len(src) ==> src[k] == if from <= k < from + i then MovedFrom else old(src[k])
    {
      dst[to + i] := src[from + i];
      src[from + i] := MovedFrom;
      i := i + 1;
    }
  }

  /** `std::uninitialized_copy_n(src + from, n, dst + to)` between two blocks:
    * the source block is left as it was. */
  method UninitializedCopyN<T>(src: array?<Slot<T>>, from: nat, n: nat, dst: array?<Slot<T>>, to: nat)
    requires from + n <= Len(src) && to + n <= Len(dst)
    requires n == 0 || src != dst
    requires forall k :: from <= k < from + n ==> src[k].Live?
    requires forall k :: to <= k < to + n ==> dst[k] == Uninit
    modifies dst
    ensures CopyN(old(View(src)), from, n, old(View(dst)), to) == Some(View(dst))
    ensures forall k :: 0 <= k < Len(dst) ==> dst[k] == if to <= k < to + n then old(src[k - to + from]) else old(dst[k])
    ensures forall k :: 0 <= k < Len(src) ==> src[k] == old(src[k])
  {
    var i := 0;
    while i < n
      invariant i <= n
      invariant View(src) == old(View(src))
      invariant forall k :: 0 <= k < Len(dst) ==> dst[k] == if to <= k < to + i then src[k - to + from] else old(dst[k])
    {
      dst[to + i] := src[from + i];
      i := i + 1;
    }
    assert View(dst) == CopyN(old(View(src)), from, n, old(View(dst)), to).value;
  }
}

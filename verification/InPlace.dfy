/**
 * The two places where the vector rewrites its own block element by element
 * without reallocating, as slot-level steps: the in-capacity branch of
 * Emplace (advanced-vector/vector.h:208-211) and the tail of copy assignment
 * (advanced-vector/vector.h:129). Both are stated once with the indices the
 * code writes and once with the indices the surrounding code intends; the
 * Vector class runs the intended ones.
 */
module InPlace {
  import opened Slots

  /** The in-capacity branch of Emplace on the block `s` of a vector of `size`
    * elements, inserting `v` at `pos`:
    *   line 208  move-construct the new last slot from slot `endSource`;
    *   line 209  move_backward the slots [shiftFirst, size - 1) one place up;
    *   line 210  destroy slot `pos`;
    *   line 211  construct `v` in slot `pos`.
    * vector.h passes endSource = size and shiftFirst = pos - 1; the intended
    * values are size - 1 and pos. Whenever the four steps are defined, the
    * block keeps its length, `v` is live at `pos` and the slot past the old
    * last element now holds an object. */
  ghost function EmplaceWithinCapacity<T>(s: seq<Slot<T>>, size: nat, pos: nat, v: T, endSource: int, shiftFirst: int)
    : (r: Option<seq<Slot<T>>>)
    ensures r.Some? ==> pos < |s| && |r.value| == |s| && r.value[pos] == Live(v)
    ensures r.Some? ==> size < |s| && Constructed(r.value[size])
  {
    match MoveConstruct(s, endSource, size)
    case None => None
    case Some(s1) =>
      match MoveBackward(s1, shiftFirst, size - 1)
      case None => None
      case Some(s2) =>
        match Destroy(s2, pos)
        case None => None
        case Some(s3) => Construct(s3, pos, v)
  }

  /** With the intended indices the branch is defined on every vector that has
    * a free slot and leaves the block holding the elements with `v` inserted
    * at `pos`. */
  lemma EmplaceWithinCapacityInserts<T>(s: seq<Slot<T>>, xs: seq<T>, pos: nat, v: T)
    requires Layout(s, xs) && |xs| < |s| && pos < |xs|
    ensures EmplaceWithinCapacity(s, |xs|, pos, v, |xs| - 1, pos).Some?
    ensures Layout(EmplaceWithinCapacity(s, |xs|, pos, v, |xs| - 1, pos).value, Inserted(xs, pos, v))
  {
    var n := |xs|;
    var s1 := MoveConstruct(s, n - 1, n).value;
    assert s1[n - 1] == MovedFrom;
    var s2 := MoveBackward(s1, pos, n - 1).value;
    assert s2[pos] == MovedFrom;
    var s3 := Destroy(s2, pos).value;
    var r := Construct(s3, pos, v).value;
    InsertedAt(xs, pos, v);
    forall k | 0 <= k < |s| ensures r[k] == if k <= n then Live(Inserted(xs, pos, v)[k]) else Uninit {
      if k < pos {
        assert r[k] == s2[k] == s1[k] == s[k];
      } else if pos < k < n {
        assert r[k] == s2[k] == s1[k - 1] == s[k - 1];
      } else if k > n {
        assert r[k] == s2[k] == s1[k] == s[k];
      }
    }
  }

  /** Line 208 as written move-constructs from slot `size`, which is raw in
    * every vector: whatever line 209 does, the branch reads raw memory as an
    * element. */
  lemma Line208ReadsRawSlot<T>(s: seq<Slot<T>>, xs: seq<T>, pos: nat, v: T, shiftFirst: int)
    requires Layout(s, xs) && |xs| < |s| && pos < |xs|
    ensures EmplaceWithinCapacity(s, |xs|, pos, v, |xs|, shiftFirst) == None
  {
    assert s[|xs|] == Uninit;
  }

  /** Line 209 as written, even with line 208 corrected: inserting at the front
    * hands move_backward an address one slot before the block. */
  lemma Line209StartsBeforeBlock<T>(s: seq<Slot<T>>, xs: seq<T>, v: T)
    requires Layout(s, xs) && 0 < |xs| < |s|
    ensures EmplaceWithinCapacity(s, |xs|, 0, v, |xs| - 1, -1) == None
  {
    var s1 := MoveConstruct(s, |xs| - 1, |xs|).value;
    assert MoveBackward(s1, -1, |xs| - 1).None?;
  }

  /** Line 209 as written, even with line 208 corrected: inserting anywhere
    * else moves the element just before the insertion point out of its slot,
    * so the vector ends up holding a moved-from object where that element was. */
  lemma Line209EmptiesPredecessor<T>(s: seq<Slot<T>>, xs: seq<T>, pos: nat, v: T)
    requires Layout(s, xs) && |xs| < |s| && 0 < pos < |xs|
    ensures EmplaceWithinCapacity(s, |xs|, pos, v, |xs| - 1, pos - 1).Some?
    ensures EmplaceWithinCapacity(s, |xs|, pos, v, |xs| - 1, pos - 1).value[pos - 1] == MovedFrom
    ensures !Layout(EmplaceWithinCapacity(s, |xs|, pos, v, |xs| - 1, pos - 1).value, Inserted(xs, pos, v))
  {
    var n := |xs|;
    var s1 := MoveConstruct(s, n - 1, n).value;
    assert s1[n - 1] == MovedFrom;
    var s2 := MoveBackward(s1, pos - 1, n - 1).value;
    assert s2[pos] == s1[pos - 1];
    var r := EmplaceWithinCapacity(s, n, pos, v, n - 1, pos - 1).value;
    assert r[pos - 1] == s2[pos - 1] == MovedFrom;
  }

  /** The example of inserting 99 at index 1 of [1, 2, 3] with capacity 4: the
    * code as written reads the raw fourth slot, the intended branch yields [1, 99, 2, 3]. */
  lemma InsertIntoThreeOfFour()
    ensures EmplaceWithinCapacity([Live(1), Live(2), Live(3), Uninit], 3, 1, 99, 3, 0) == None
    ensures EmplaceWithinCapacity([Live(1), Live(2), Live(3), Uninit], 3, 1, 99, 2, 1)
         == Some([Live(1), Live(99), Live(2), Live(3)])
  {
    var s := [Live(1), Live(2), Live(3), Uninit];
    var s1 := MoveConstruct(s, 2, 3).value;
    assert s1 == [Live(1), Live(2), MovedFrom, Live(3)];
    var s2 := MoveBackward(s1, 1, 2).value;
    assert s2 == [Live(1), MovedFrom, Live(2), Live(3)];
    var s3 := Destroy(s2, 1).value;
    assert s3 == [Live(1), Uninit, Live(2), Live(3)];
    assert Construct(s3, 1, 99).value == [Live(1), Live(99), Live(2), Live(3)];
  }

  /** Line 129 as written copies the missing tail [|xs|, |ys|) from this
    * vector's own block, whose slots from |xs| on are raw. */
  lemma CopyTailAsWrittenReadsRaw<T>(own: seq<Slot<T>>, xs: seq<T>, ys: seq<T>)
    requires Layout(own, xs) && |xs| < |ys| <= |own|
    ensures CopyN(own, |xs|, |ys| - |xs|, own, |xs|) == None
  {
    assert !own[|xs|].Live?;
  }

  /** Copying the tail from the other vector's block instead completes the
    * assignment: the block then holds exactly the other vector's elements. */
  lemma CopyTailFromOther<T>(own: seq<Slot<T>>, other: seq<Slot<T>>, ys: seq<T>, i: nat)
    requires Layout(other, ys) && i <= |ys| <= |own| && Layout(own, ys[..i])
    ensures CopyN(other, i, |ys| - i, own, i).Some?
    ensures Layout(CopyN(other, i, |ys| - i, own, i).value, ys)
  {
  }
}

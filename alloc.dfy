/** The `Allocator` contract and its provided methods. The heap is a map from
    block ids to the blocks that are *currently allocated*; each block keeps
    the alignment it was allocated with, the size of the layout most recently
    used for it, and its bytes (as many as the allocator actually handed out).
    `allocate` and `deallocate` are the implementor's: `allocate` is given the
    underlying allocator's answer as a parameter, `deallocate` retires the
    block. `allocate_zeroed`, `grow`, `grow_zeroed` and `shrink` are the
    default bodies, built from those two and a byte copy. */
module Alloc {
  import opened Common

  newtype byte = x: int | 0 <= x < 256

  datatype Layout = Layout(size: nat, align: nat)

  datatype Block = Block(align: nat, minSize: nat, bytes: seq<byte>)

  /** `Ok` carries the block's id and its actual size. */
  datatype AllocResult = Ok(id: nat, len: nat) | Err

  /** What the underlying allocator does with one request: refuse it, or hand
      out a block with these initial bytes (at least the requested size). */
  datatype Grant = Refuse | Granted(bytes: seq<byte>)

  /** The block `id` after its first `count` bytes were replaced by `prefix`. */
  function WithPrefix(b: Block, prefix: seq<byte>): (r: Block)
    requires |prefix| <= |b.bytes|
    ensures r.align == b.align && r.minSize == b.minSize && |r.bytes| == |b.bytes|
    ensures r.bytes[..|prefix|] == prefix && r.bytes[|prefix|..] == b.bytes[|prefix|..]
  {
    b.(bytes := prefix + b.bytes[|prefix|..])
  }

  class Allocator {
    var blocks: map<nat, Block>
    var nextId: nat

    /** Ids are handed out once: every live id lies below `nextId`. */
    ghost predicate Valid()
      reads this
    {
      forall id :: id in blocks ==> id < nextId
    }

    /** *Currently allocated*: returned by `allocate`, `grow` or `shrink` and
        not since retired by `deallocate` or a successful `grow`/`shrink`. */
    predicate CurrentlyAllocated(id: nat)
      reads this
    {
      id in blocks
    }

    /** A layout *fits* a block: same alignment, and a size between the one
        most recently requested for it and the one actually handed out. */
    predicate Fits(id: nat, layout: Layout)
      reads this
      requires CurrentlyAllocated(id)
    {
      blocks[id].align == layout.align && blocks[id].minSize <= layout.size <= |blocks[id].bytes|
    }

    constructor ()
      ensures Valid() && blocks == map[]
    {
      blocks, nextId := map[], 0;
    }

    /** `allocate`: refusal changes nothing; a grant becomes a new block. */
    method Allocate(layout: Layout, answer: Grant) returns (r: AllocResult)
      requires Valid()
      requires answer.Granted? ==> |answer.bytes| >= layout.size
      modifies this
      ensures Valid()
      ensures answer.Refuse? ==> r == Err && blocks == old(blocks)
      ensures answer.Granted? ==> r == Ok(old(nextId), |answer.bytes|) && r.id !in old(blocks)
      ensures answer.Granted? ==> blocks == old(blocks)[r.id := Block(layout.align, layout.size, answer.bytes)]
    {
      if answer.Refuse? {
        return Err;
      }
      var id := nextId;
      nextId := nextId + 1;
      blocks := blocks[id := Block(layout.align, layout.size, answer.bytes)];
      r := Ok(id, |answer.bytes|);
    }

    /** `deallocate`: the block, allocated and fitted by `layout`, is retired. */
    method Deallocate(id: nat, layout: Layout)
      requires Valid() && CurrentlyAllocated(id) && Fits(id, layout)
      modifies this
      ensures Valid() && blocks == old(blocks) - {id}
    {
      blocks := blocks - {id};
    }

    /** `ptr.write_bytes(value, count)` on a live block. */
    method WriteBytes(id: nat, value: byte, count: nat)
      requires Valid() && CurrentlyAllocated(id) && count <= |blocks[id].bytes|
      modifies this
      ensures Valid() && blocks == old(blocks)[id := WithPrefix(old(blocks[id]), Repeat(value, count))]
    {
      ghost var b0 := blocks[id];
      var i := 0;
      while i < count
        invariant i <= count && (forall k :: k in blocks ==> k < nextId)
        invariant blocks == old(blocks)[id := WithPrefix(b0, Repeat(value, i))]
      {
        var b := blocks[id];
        assert b.bytes[i := value] == Repeat(value, i + 1) + b0.bytes[i + 1..];
        blocks := blocks[id := b.(bytes := b.bytes[i := value])];
        i := i + 1;
      }
    }

    /** `ptr::copy_nonoverlapping` of the first `count` bytes of one live
        block into another. */
    method CopyBytes(src: nat, dst: nat, count: nat)
      requires Valid() && CurrentlyAllocated(src) && CurrentlyAllocated(dst) && src != dst
      requires count <= |blocks[src].bytes| && count <= |blocks[dst].bytes|
      modifies this
      ensures Valid() && blocks == old(blocks)[dst := WithPrefix(old(blocks[dst]), old(blocks[src].bytes[..count]))]
    {
      blocks := blocks[dst := WithPrefix(blocks[dst], blocks[src].bytes[..count])];
    }

    /** `allocate_zeroed`: `allocate`, then zero every byte of the block;
        a failure is passed on and nothing is written. */
    method AllocateZeroed(layout: Layout, answer: Grant) returns (r: AllocResult)
      requires Valid()
      requires answer.Granted? ==> |answer.bytes| >= layout.size
      modifies this
      ensures Valid()
      ensures answer.Refuse? ==> r == Err && blocks == old(blocks)
      ensures answer.Granted? ==> r == Ok(old(nextId), |answer.bytes|) && r.id !in old(blocks)
      ensures answer.Granted? ==>
        blocks == old(blocks)[r.id := Block(layout.align, layout.size, Repeat(0, |answer.bytes|))]
    {
      r := Allocate(layout, answer);
      if r.Err? {
        return;
      }
      WriteBytes(r.id, 0, r.len);
      assert Repeat(0, r.len) + answer.bytes[r.len..] == Repeat(0, r.len);
    }

    /** `grow`: allocate the new block, copy the old layout's bytes, retire
        the old block. If the allocation fails, the old block stays allocated
        with its contents. */
    method Grow(id: nat, oldLayout: Layout, newLayout: Layout, answer: Grant) returns (r: AllocResult)
      requires Valid() && CurrentlyAllocated(id) && Fits(id, oldLayout)
      requires newLayout.size >= oldLayout.size
      requires answer.Granted? ==> |answer.bytes| >= newLayout.size
      modifies this
      ensures Valid()
      ensures answer.Refuse? ==> r == Err && blocks == old(blocks)
      ensures answer.Granted? ==> r.Ok? && r.id !in old(blocks) && r.len == |answer.bytes|
      ensures answer.Granted? ==> blocks == (old(blocks) - {id})[r.id :=
        WithPrefix(Block(newLayout.align, newLayout.size, answer.bytes), old(blocks[id].bytes[..oldLayout.size]))]
    {
      r := Allocate(newLayout, answer);
      if r.Err? {
        return;
      }
      CopyBytes(id, r.id, oldLayout.size);
      Deallocate(id, oldLayout);
    }

    /** `grow_zeroed`: like `grow` over a zeroed allocation, so the old
        layout's bytes are kept and every byte after them is zero. */
    method GrowZeroed(id: nat, oldLayout: Layout, newLayout: Layout, answer: Grant) returns (r: AllocResult)
      requires Valid() && CurrentlyAllocated(id) && Fits(id, oldLayout)
      requires newLayout.size >= oldLayout.size
      requires answer.Granted? ==> |answer.bytes| >= newLayout.size
      modifies this
      ensures Valid()
      ensures answer.Refuse? ==> r == Err && blocks == old(blocks)
      ensures answer.Granted? ==> r.Ok? && r.id !in old(blocks) && r.len == |answer.bytes|
      ensures answer.Granted? ==> blocks == (old(blocks) - {id})[r.id :=
        Block(newLayout.align, newLayout.size,
              old(blocks[id].bytes[..oldLayout.size]) + Repeat(0, |answer.bytes| - oldLayout.size))]
    {
      r := AllocateZeroed(newLayout, answer);
      if r.Err? {
        return;
      }
      CopyBytes(id, r.id, oldLayout.size);
      assert WithPrefix(Block(newLayout.align, newLayout.size, Repeat(0, |answer.bytes|)), old(blocks[id].bytes[..oldLayout.size])).bytes
          == old(blocks[id].bytes[..oldLayout.size]) + Repeat(0, |answer.bytes| - oldLayout.size);
      Deallocate(id, oldLayout);
    }

    /** `shrink`: allocate the new block, copy the new layout's bytes, retire
        the old block. If the allocation fails, the old block stays allocated
        with its contents. */
    method Shrink(id: nat, oldLayout: Layout, newLayout: Layout, answer: Grant) returns (r: AllocResult)
      requires Valid() && CurrentlyAllocated(id) && Fits(id, oldLayout)
      requires newLayout.size <= oldLayout.size
      requires answer.Granted? ==> |answer.bytes| >= newLayout.size
      modifies this
      ensures Valid()
      ensures answer.Refuse? ==> r == Err && blocks == old(blocks)
      ensures answer.Granted? ==> r.Ok? && r.id !in old(blocks) && r.len == |answer.bytes|
      ensures answer.Granted? ==> blocks == (old(blocks) - {id})[r.id :=
        WithPrefix(Block(newLayout.align, newLayout.size, answer.bytes), old(blocks[id].bytes[..newLayout.size]))]
    {
      r := Allocate(newLayout, answer);
      if r.Err? {
        return;
      }
      CopyBytes(id, r.id, newLayout.size);
      Deallocate(id, oldLayout);
    }
  }

  /** The `&A` implementation: every method forwards to the referenced
      allocator, so it has that allocator's effect on that allocator's heap. */
  class AllocatorRef {
    const target: Allocator

    constructor (a: Allocator)
      ensures target == a
    {
      target := a;
    }

    method Allocate(layout: Layout, answer: Grant) returns (r: AllocResult)
      requires target.Valid()
      requires answer.Granted? ==> |answer.bytes| >= layout.size
      modifies target
      ensures target.Valid()
      ensures answer.Refuse? ==> r == Err && target.blocks == old(target.blocks)
      ensures answer.Granted? ==> r == Ok(old(target.nextId), |answer.bytes|) && r.id !in old(target.blocks)
      ensures answer.Granted? ==> target.blocks == old(target.blocks)[r.id := Block(layout.align, layout.size, answer.bytes)]
    {
      r := target.Allocate(layout, answer);
    }

    method AllocateZeroed(layout: Layout, answer: Grant) returns (r: AllocResult)
      requires target.Valid()
      requires answer.Granted? ==> |answer.bytes| >= layout.size
      modifies target
      ensures target.Valid()
      ensures answer.Refuse? ==> r == Err && target.blocks == old(target.blocks)
      ensures answer.Granted? ==> r == Ok(old(target.nextId), |answer.bytes|) && r.id !in old(target.blocks)
      ensures answer.Granted? ==>
        target.blocks == old(target.blocks)[r.id := Block(layout.align, layout.size, Repeat(0, |answer.bytes|))]
    {
      r := target.AllocateZeroed(layout, answer);
    }

    method Deallocate(id: nat, layout: Layout)
      requires target.Valid() && target.CurrentlyAllocated(id) && target.Fits(id, layout)
      modifies target
      ensures target.Valid() && target.blocks == old(target.blocks) - {id}
    {
      target.Deallocate(id, layout);
    }

    method Grow(id: nat, oldLayout: Layout, newLayout: Layout, answer: Grant) returns (r: AllocResult)
      requires target.Valid() && target.CurrentlyAllocated(id) && target.Fits(id, oldLayout)
      requires newLayout.size >= oldLayout.size
      requires answer.Granted? ==> |answer.bytes| >= newLayout.size
      modifies target
      ensures target.Valid()
      ensures answer.Refuse? ==> r == Err && target.blocks == old(target.blocks)
      ensures answer.Granted? ==> r.Ok? && r.id !in old(target.blocks) && r.len == |answer.bytes|
      ensures answer.Granted? ==> target.blocks == (old(target.blocks) - {id})[r.id :=
        WithPrefix(Block(newLayout.align, newLayout.size, answer.bytes), old(target.blocks[id].bytes[..oldLayout.size]))]
    {
      r := target.Grow(id, oldLayout, newLayout, answer);
    }

    method GrowZeroed(id: nat, oldLayout: Layout, newLayout: Layout, answer: Grant) returns (r: AllocResult)
      requires target.Valid() && target.CurrentlyAllocated(id) && target.Fits(id, oldLayout)
      requires newLayout.size >= oldLayout.size
      requires answer.Granted? ==> |answer.bytes| >= newLayout.size
      modifies target
      ensures target.Valid()
      ensures answer.Refuse? ==> r == Err && target.blocks == old(target.blocks)
      ensures answer.Granted? ==> r.Ok? && r.id !in old(target.blocks) && r.len == |answer.bytes|
      ensures answer.Granted? ==> target.blocks == (old(target.blocks) - {id})[r.id :=
        Block(newLayout.align, newLayout.size,
              old(target.blocks[id].bytes[..oldLayout.size]) + Repeat(0, |answer.bytes| - oldLayout.size))]
    {
      r := target.GrowZeroed(id, oldLayout, newLayout, answer);
    }

    method Shrink(id: nat, oldLayout: Layout, newLayout: Layout, answer: Grant) returns (r: AllocResult)
      requires target.Valid() && target.CurrentlyAllocated(id) && target.Fits(id, oldLayout)
      requires newLayout.size <= oldLayout.size
      requires answer.Granted? ==> |answer.bytes| >= newLayout.size
      modifies target
      ensures target.Valid()
      ensures answer.Refuse? ==> r == Err && target.blocks == old(target.blocks)
      ensures answer.Granted? ==> r.Ok? && r.id !in old(target.blocks) && r.len == |answer.bytes|
      ensures answer.Granted? ==> target.blocks == (old(target.blocks) - {id})[r.id :=
        WithPrefix(Block(newLayout.align, newLayout.size, answer.bytes), old(target.blocks[id].bytes[..newLayout.size]))]
    {
      r := target.Shrink(id, oldLayout, newLayout, answer);
    }
  }
}

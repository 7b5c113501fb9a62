/** The C heap as far as ownership goes: which blocks are allocated right now. */
module Memory {
  /** `uint8_t`. */
  type byte = x: int | 0 <= x < 0x100

  /** The state of `malloc` and `free`. A block may be freed only while it is live, so a
      method that verifies never frees a block twice and never frees a foreign pointer; and since
      nothing is known about a block once it is freed, its result cannot depend on one. */
  class Heap {
    ghost var live: set<object>

    constructor ()
      ensures live == {}
    {
      live := {};
    }

    /** `malloc(n)`: the contents of the new block are arbitrary. */
    method MallocBytes(n: nat) returns (block: array<byte>)
      modifies this
      ensures fresh(block) && block.Length == n
      ensures live == old(live) + {block}
    {
      block := new byte[n];
      live := live + {block};
    }

    /** `free(block)`. What the block held is lost with it. */
    method Free(block: object)
      requires block in live
      modifies this, block
      ensures live == old(live) - {block}
    {
      live := live - {block};
    }
  }

  /** `memcpy(destination + at, source, |source|)`. */
  method MemCpy<T>(destination: array<T>, at: nat, source: seq<T>)
    requires at + |source| <= destination.Length
    modifies destination
    ensures destination[..] == old(destination[..at]) + source + old(destination[at + |source|..])
  {
    for i := 0 to |source|
      invariant destination[..] == old(destination[..at]) + source[..i] + old(destination[at + i..])
    {
      destination[at + i] := source[i];
    }
    assert source[..|source|] == source;
  }
}

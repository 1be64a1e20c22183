/** A block of memory of fixed size that is written from front to back. */
module OutBuffers {
  import opened Bytes

  class OutBuffer {
    const block: array<Byte>
    var used: nat

    ghost predicate Valid() reads this { used <= block.Length }

    ghost function Written(): seq<Byte> reads this, block requires Valid() { block[..used] }

    /** How many more bytes fit. */
    ghost function Room(): nat reads this requires Valid() { block.Length - used }

    constructor (capacity: nat)
      ensures Valid() && fresh(block) && block.Length == capacity && Written() == []
    {
      block := new Byte[capacity](i => 0);
      used := 0;
    }

    method Put(b: Byte)
      requires Valid() && Room() > 0
      modifies this`used, block
      ensures Valid() && Written() == old(Written()) + [b]
    {
      block[used] := b;
      used := used + 1;
    }

    method PutAll(s: seq<Byte>)
      requires Valid() && |s| <= Room()
      modifies this`used, block
      ensures Valid() && Written() == old(Written()) + s
    {
      for i := 0 to |s|
        invariant used == old(used) && block[..used + i] == old(Written()) + s[..i]
      {
        block[used + i] := s[i];
      }
      used := used + |s|;
    }

    /** End the text with a NUL that is not part of it. */
    method Terminate()
      requires Valid() && Room() > 0
      modifies block
      ensures block[..used] == old(block[..used]) && block[used] == 0
    {
      block[used] := 0;
    }
  }
}

/** The byte buffer of a connection (src/protocol/buffer.h): bytes with a read cursor. */
module Buffers {
  import opened Common

  class Buffer {
    var storage: seq<char>
    var readPos: nat

    ghost predicate Valid()
      reads this
    {
      readPos <= |storage|
    }

    /** The bytes from the cursor on; everything else about the buffer is invisible. */
    function Readable(): seq<char>
      requires Valid()
      reads this
    {
      storage[readPos..]
    }

    constructor ()
      ensures Valid() && Readable() == []
    {
      storage, readPos := [], 0;
    }

    method Append(data: seq<char>)
      requires Valid()
      modifies this
      ensures Valid() && Readable() == old(Readable()) + data
    {
      storage := storage + data;
    }

    /** Moves the cursor; reclaims the storage once everything has been read.  Consuming more
        than is readable throws and changes nothing. */
    method Consume(len: nat) returns (r: Outcome<()>)
      requires Valid()
      modifies this
      ensures Valid()
      ensures r.Returned? <==> len <= |old(Readable())|
      ensures Readable() == if len <= |old(Readable())| then old(Readable())[len..] else old(Readable())
    {
      if len > |Readable()| {
        return Thrown("Buffer consume beyond readable data");
      }
      readPos := readPos + len;
      if readPos == |storage| {
        storage := [];
        readPos := 0;
      }
      return Returned(());
    }

    method Clear()
      modifies this
      ensures Valid() && Readable() == []
    {
      storage := [];
      readPos := 0;
    }
  }
}

/** A file image: its bytes and the position the next read or write starts at. */
module RldImage {
  import opened Bytes

  class Image {
    var data: seq<byte>
    var pos: nat

    ghost predicate Valid()
      reads this
    {
      pos <= |data|
    }

    /** What has been passed over, and what is still ahead. */
    ghost function Before(): seq<byte>
      reads this
      requires Valid()
    {
      data[..pos]
    }

    ghost function Ahead(): seq<byte>
      reads this
      requires Valid()
    {
      data[pos..]
    }

    constructor (contents: seq<byte>)
      ensures Valid() && Ahead() == contents && Before() == []
    {
      data, pos := contents, 0;
    }

    method Seek(offset: nat)
      requires Valid() && offset <= |data|
      modifies this
      ensures Valid() && data == old(data) && pos == offset
    {
      pos := offset;
    }

    /** Writes over what is ahead, and past the end when that is shorter. */
    method Write(bytes: array<byte>, size: nat)
      requires Valid() && size <= bytes.Length
      modifies this
      ensures Valid()
      ensures Before() == old(Before()) + bytes[..size]
      ensures Ahead() == if size <= |old(Ahead())| then old(Ahead())[size..] else []
    {
      var tail := if pos + size <= |data| then data[pos + size..] else [];
      data := data[..pos] + bytes[..size] + tail;
      pos := pos + size;
    }

    /** Reads as much as is ahead, up to `size`, and leaves the rest of the buffer alone. */
    method Read(into: array<byte>, at: nat, size: nat) returns (got: nat)
      requires Valid() && at <= into.Length
      requires at + size <= into.Length || at + |Ahead()| <= into.Length
      modifies this, into
      ensures Valid() && data == old(data)
      ensures got == if size <= |old(Ahead())| then size else |old(Ahead())|
      ensures Ahead() == old(Ahead())[got..]
      ensures into[..] == old(into[..at]) + old(Ahead())[..got] + old(into[at + got..])
    {
      got := if pos + size <= |data| then size else |data| - pos;
      forall i | 0 <= i < got {
        into[at + i] := data[pos + i];
      }
      pos := pos + got;
    }
  }
}

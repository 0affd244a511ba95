/**
 * Open files as byte sequences. A readable file is its bytes and the offset
 * of the next read; a writable file is the bytes written so far. Opening,
 * closing and the error paths of `read`/`write` are not part of this model.
 */
module Files {
  import opened Common

  /** A file opened for reading: fixed contents and a read offset. */
  class InputFile {
    const data: Bytes
    var offset: nat

    ghost predicate Valid()
      reads this
    {
      offset <= |data|
    }

    /** The bytes not yet read. */
    function Remaining(): (r: Bytes)
      reads this
      requires Valid()
      ensures |r| == |data| - offset
    {
      data[offset..]
    }

    constructor Open(contents: Bytes)
      ensures Valid() && data == contents && offset == 0
    {
      data := contents;
      offset := 0;
    }

    /**
     * `recoverable_read` on a regular file: `n` bytes, or all that remain
     * when fewer are left. An empty result means end of file.
     */
    method Read(n: nat) returns (got: Bytes)
      requires Valid()
      modifies this
      ensures Valid()
      ensures |got| == Min(n, |old(Remaining())|)
      ensures got == old(Remaining())[..|got|]
      ensures Remaining() == old(Remaining())[|got|..]
    {
      var k := Min(n, |data| - offset);
      got := data[offset..offset + k];
      offset := offset + k;
    }
  }

  /** A file opened for writing: everything written to it, in order. */
  class OutputFile {
    var data: Bytes

    constructor Create()
      ensures data == []
    {
      data := [];
    }

    /** `recoverable_write` of all of `b`. */
    method Write(b: Bytes)
      modifies this
      ensures data == old(data) + b
    {
      data := data + b;
    }
  }
}

// Byte sources that may return short reads, and append-only byte sinks.
module Streams {
  import opened Base

  /** How many bytes one read hands over: at least one unless the buffer is empty or the input is at its end. */
  function ReadSize(wanted: nat, available: nat, limit: nat): (n: nat)
    ensures n <= wanted && n <= available
    ensures n == 0 <==> wanted == 0 || available == 0
  {
    if wanted == 0 || available == 0 then 0
    else Min(Min(wanted, available), if limit == 0 then 1 else limit)
  }

  class ByteReader {
    const data: Bytes
    /** The most the i-th call to Read returns: an arbitrary schedule of short reads. */
    const limit: nat -> nat
    var position: nat
    var calls: nat

    constructor (data: Bytes, limit: nat -> nat)
      ensures Valid() && Remaining() == data && this.data == data && this.limit == limit && calls == 0
    {
      this.data, this.limit, position, calls := data, limit, 0, 0;
    }

    ghost predicate Valid()
      reads this
    {
      position <= |data|
    }

    ghost function Remaining(): Bytes
      reads this
      requires Valid()
    {
      data[position..]
    }

    method Read(wanted: nat) returns (got: Bytes)
      requires Valid()
      modifies this
      ensures Valid() && calls == old(calls) + 1
      ensures |got| == ReadSize(wanted, |old(Remaining())|, limit(old(calls)))
      ensures got == old(Remaining())[..|got|] && Remaining() == old(Remaining())[|got|..]
      ensures got + Remaining() == old(Remaining())
    {
      var n := ReadSize(wanted, |data| - position, limit(calls));
      got := data[position..position + n];
      position, calls := position + n, calls + 1;
    }

    /** Repeats short reads until the buffer is full; `filled` stops growing only at the end of input. */
    method Fill(wanted: nat) returns (got: Bytes)
      requires Valid()
      modifies this
      ensures Valid()
      ensures |got| == Min(wanted, |old(Remaining())|)
      ensures got == old(Remaining())[..|got|] && Remaining() == old(Remaining())[|got|..]
    {
      got := [];
      while |got| < wanted
        invariant Valid() && |got| <= wanted
        invariant got + Remaining() == old(Remaining())
        decreases wanted - |got|
      {
        ghost var rest := Remaining();
        var piece := Read(wanted - |got|);
        if |piece| == 0 {
          return;
        }
        assert (got + piece) + Remaining() == got + rest;
        got := got + piece;
      }
    }

    method ReadExact(wanted: nat) returns (got: Result<Bytes>)
      requires Valid()
      modifies this
      ensures Valid()
      ensures |old(Remaining())| < wanted ==> got == Failure(Io)
      ensures |old(Remaining())| >= wanted ==>
        got == Success(old(Remaining())[..wanted]) && Remaining() == old(Remaining())[wanted..]
    {
      var filled := Fill(wanted);
      got := if |filled| == wanted then Success(filled) else Failure(Io);
    }
  }

  class ByteWriter {
    var written: Bytes

    constructor ()
      ensures written == []
    {
      written := [];
    }

    method WriteAll(bytes: Bytes)
      modifies this
      ensures written == old(written) + bytes
    {
      written := written + bytes;
    }
  }
}

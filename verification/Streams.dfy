/** A byte stream that ends, read by io.ReadFull and io.CopyN. */
module Streams {
  import opened Bytes

  /** A full read: the bytes asked for; or nothing was left; or too little was. */
  datatype Full = Got(bytes: Bytes) | AtEof | CutShort

  function FullOf(b: Bytes, n: nat): Full {
    if |b| >= n then Got(b[..n]) else if b == [] then AtEof else CutShort
  }

  /** A failed read has used up what was there. */
  function AfterFull(b: Bytes, n: nat): Bytes {
    if |b| >= n then b[n..] else []
  }

  class Reader {
    var rest: Bytes

    constructor (rest: Bytes)
      ensures this.rest == rest
    {
      this.rest := rest;
    }

    method ReadFull(n: nat) returns (r: Full)
      modifies this
      ensures r == FullOf(old(rest), n) && rest == AfterFull(old(rest), n)
    {
      r := FullOf(rest, n);
      rest := AfterFull(rest, n);
    }

    /** Reads into an array from index `at` on. */
    method ReadFullInto(data: array<Byte>, at: nat, n: nat) returns (r: Full)
      requires at + n <= data.Length
      modifies this, data
      ensures r == FullOf(old(rest), n) && rest == AfterFull(old(rest), n)
      ensures data[..at] == old(data[..at])
      ensures r.Got? ==> data[at..at + n] == r.bytes
    {
      r := FullOf(rest, n);
      if r.Got? {
        var bytes := r.bytes;
        forall i | 0 <= i < n {
          data[at + i] := bytes[i];
        }
      }
      rest := AfterFull(rest, n);
    }
  }
}

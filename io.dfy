/** An `io.Writer` for WriteTo to write to, which records every call. */
module Io {
  import opened Go

  /** One call of Write: the buffer it was given and what it reported. */
  datatype WriteCall = WriteCall(p: seq<byte>, n: Int, err: Option<Error>)

  /** A writer that accepts up to `room` more bytes and then reports a short
      write, or that fails every write with `fault` once that is set. */
  class Writer {
    var log: seq<WriteCall>     // every call of Write so far, in order
    var sent: seq<byte>         // the bytes accepted so far
    var room: Int               // how many more bytes will be accepted
    var fault: Option<Error>    // the failure every write reports, if any

    ghost predicate Valid()
      reads this
    {
      0 <= room
    }

    constructor (room: Int, fault: Option<Error>)
      requires 0 <= room
      ensures Valid()
      ensures this.room == room && this.fault == fault
      ensures log == [] && sent == []
    {
      this.room := room;
      this.fault := fault;
      log := [];
      sent := [];
    }

    /** What a Write of `p` reports in the current state: the io.Writer
        contract, `0 <= n <= len(p)` and an error whenever `n < len(p)`. */
    function Reply(p: seq<byte>): (r: (Int, Option<Error>))
      reads this
      requires Valid()
      ensures 0 <= r.0 as int <= |p|
      ensures r.0 as int < |p| ==> r.1.Some?
      ensures fault.None? && |p| <= room as int ==> r == (|p| as Int, None)
    {
      if fault.Some? then (0, fault)
      else if |p| <= room as int then (|p| as Int, None)
      else (room, Some(ShortWrite))
    }

    /** The state change of one Write of `p` that reported `n` and `err`. */
    twostate predicate Wrote(new p: seq<byte>, n: Int, new err: Option<Error>)
      reads this
    {
      && 0 <= n as int <= |p|
      && log == old(log) + [WriteCall(p, n, err)]
      && sent == old(sent) + p[..n]
      && room as int == old(room) as int - n as int
      && fault == old(fault)
    }

    method Write(p: seq<byte>) returns (n: Int, err: Option<Error>)
      requires Valid()
      modifies this
      ensures Valid()
      ensures (n, err) == old(Reply(p))
      ensures Wrote(p, n, err)
    {
      n, err := Reply(p).0, Reply(p).1;
      sent := sent + p[..n];
      room := room - n;
      log := log + [WriteCall(p, n, err)];
    }
  }
}

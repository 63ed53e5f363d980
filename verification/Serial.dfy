/** What a read on the serial port can bring, in place of the device file. */
module Serial {
  import opened Bytes

  /** One wait for input: a byte, nothing this round, a link error, or the end of the time allowed. */
  datatype Event = Byte(b: byte) | Nothing | Fault | Deadline

  predicate Stops(e: Event) { e.Fault? || e.Deadline? }

  /** The bytes that arrive before the wait is over. */
  function Stream(ev: seq<Event>): seq<byte> {
    if ev == [] || Stops(ev[0]) then []
    else if ev[0].Byte? then [ev[0].b] + Stream(ev[1..])
    else Stream(ev[1..])
  }

  /** What is left after n of those bytes. */
  function Rest(ev: seq<Event>, n: nat): seq<Event>
    decreases ev
  {
    if n == 0 || ev == [] || Stops(ev[0]) then ev
    else Rest(ev[1..], if ev[0].Byte? then n - 1 else n)
  }

  /** What is left once the wait is over. */
  function Stopped(ev: seq<Event>): seq<Event> {
    if ev == [] then []
    else if Stops(ev[0]) then ev[1..]
    else Stopped(ev[1..])
  }

  /** Empty reads change nothing; an error or the deadline ends the wait. */
  lemma {:induction false} StreamReads(a: seq<Event>, e: Event, b: seq<Event>)
    ensures e.Nothing? ==> Stream(a + [e] + b) == Stream(a + b)
    ensures e.Fault? || e.Deadline? ==> Stream(a + [e] + b) == Stream(a)
    ensures e.Byte? && (forall i | 0 <= i < |a| :: a[i].Byte? || a[i].Nothing?) ==>
              Stream(a + [e] + b) == Stream(a) + [e.b] + Stream(b)
    decreases a
  {
    if a == [] {
      assert [] + [e] + b == [e] + b && [] + b == b && ([e] + b)[1..] == b;
    } else {
      assert (a + [e] + b)[1..] == a[1..] + [e] + b && (a + b)[1..] == a[1..] + b;
      StreamReads(a[1..], e, b);
    }
  }

  /** What is left after n bytes brings the other bytes, and is the end of the events there were. */
  lemma {:induction false} RestBringsTheOthers(ev: seq<Event>, n: nat)
    requires n <= |Stream(ev)|
    ensures Stream(Rest(ev, n)) == Stream(ev)[n..]
    ensures |Rest(ev, n)| <= |ev| && ev[|ev| - |Rest(ev, n)|..] == Rest(ev, n)
    decreases ev
  {
    if n > 0 {
      RestBringsTheOthers(ev[1..], if ev[0].Byte? then n - 1 else n);
    }
  }

  class SerialPort {
    var isOpen: bool
    var incoming: seq<Event>
    var sent: seq<seq<byte>>

    constructor (incoming: seq<Event>)
      ensures isOpen && this.incoming == incoming && sent == []
    {
      isOpen, this.incoming, sent := true, incoming, [];
    }

    /** read_raw of one byte, with the time left as the timeout. */
    method ReadByte() returns (e: Event)
      modifies this`incoming
      ensures old(incoming) == [] ==> e == Deadline && incoming == []
      ensures old(incoming) != [] ==> e == old(incoming)[0] && incoming == old(incoming)[1..]
    {
      if incoming == [] {
        e := Deadline;
      } else {
        e, incoming := incoming[0], incoming[1..];
      }
    }

    /** close and open, which may fail. */
    method Reopen(opens: bool)
      modifies this`isOpen
      ensures isOpen == opens
    {
      isOpen := opens;
    }

    /** write_raw: how many bytes were written, or -1. */
    method WriteRaw(frame: seq<byte>) returns (n: int)
      modifies this`sent
      ensures -1 <= n <= |frame| && (!isOpen ==> n == -1)
      ensures sent == if n < 0 then old(sent) else old(sent) + [frame[..n]]
    {
      n := -1;
      if isOpen { n :| -1 <= n <= |frame|; }
      if n >= 0 { sent := sent + [frame[..n]]; }
    }

    method Write(frame: seq<byte>)
      modifies this`sent
      ensures sent == old(sent) + [frame]
    {
      sent := sent + [frame];
    }
  }
}

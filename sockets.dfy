/** A connected stream socket seen from one end. The peer is modelled by the
    segments it has sent and that are not yet read, after which it closes;
    what this end sends is recorded in order. */
module Sockets {
  import opened Bytes

  /** Data waiting on a stream socket arrives in segments that are never
      empty: a read that returns no bytes means the peer has closed. */
  predicate Segments(pending: seq<seq<byte>>)
  {
    forall i | 0 <= i < |pending| :: |pending[i]| > 0
  }

  function Min(a: nat, b: nat): nat
  {
    if a <= b then a else b
  }

  datatype Received = Received(data: seq<byte>, rest: seq<seq<byte>>)

  /** One `recv(bufsize)`: at most `bufsize` bytes of the first pending
      segment; what does not fit stays pending for the next read. Once the
      peer has closed and everything is read, every read returns no bytes and
      changes nothing. */
  function RecvFrom(pending: seq<seq<byte>>, bufsize: nat): (r: Received)
    requires Segments(pending)
    ensures Segments(r.rest)
    ensures r.data + Flatten(r.rest) == Flatten(pending)
    ensures |r.data| <= bufsize
    ensures r.data == [] <==> pending == [] || bufsize == 0
    ensures pending != [] ==> |r.data| == Min(bufsize, |pending[0]|)
    ensures pending == [] ==> r.rest == []
  {
    if pending == [] || bufsize == 0 then Received([], pending)
    else if |pending[0]| <= bufsize then Received(pending[0], pending[1..])
    else
      var s := pending[0];
      FlattenCons(s[bufsize..], pending[1..]);
      assert s[..bufsize] + s[bufsize..] == s;
      Received(s[..bufsize], [s[bufsize..]] + pending[1..])
  }

  /** Nothing pending is exactly the end of the stream. */
  lemma {:induction false} FlattenEmpty(pending: seq<seq<byte>>)
    requires Segments(pending)
    ensures Flatten(pending) == [] <==> pending == []
  {
    if pending != [] {
      assert |Flatten(pending)| >= |pending[0]| > 0;
    }
  }

  class Socket {
    /** Segments the peer has sent that this end has not read yet. */
    var inbound: seq<seq<byte>>
    /** Every byte this end has sent, in order. */
    var outbound: seq<byte>
    var closed: bool

    ghost predicate Valid()
      reads this
    {
      Segments(inbound)
    }

    /** A freshly connected or accepted socket whose peer will send
        `incoming` and then close. */
    constructor (incoming: seq<seq<byte>>)
      requires Segments(incoming)
      ensures Valid()
      ensures inbound == incoming && outbound == [] && !closed
    {
      inbound := incoming;
      outbound := [];
      closed := false;
    }

    /** `recv(bufsize)`. */
    method Recv(bufsize: nat) returns (data: seq<byte>)
      requires Valid() && !closed
      modifies this
      ensures Valid() && !closed && outbound == old(outbound)
      ensures RecvFrom(old(inbound), bufsize) == Received(data, inbound)
    {
      var r := RecvFrom(inbound, bufsize);
      data := r.data;
      inbound := r.rest;
    }

    /** `sendall(data)`: every byte is sent, in order. */
    method SendAll(data: seq<byte>)
      requires !closed
      modifies this
      ensures !closed && inbound == old(inbound)
      ensures outbound == old(outbound) + data
    {
      outbound := outbound + data;
    }

    /** `close()`; closing twice is harmless, as in Python. */
    method Close()
      modifies this
      ensures closed
      ensures inbound == old(inbound) && outbound == old(outbound)
    {
      closed := true;
    }
  }
}

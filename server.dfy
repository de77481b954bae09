/** The detection server of tcp_module.py: it accepts one connection at a
    time, reads a length header with one `recv`, accumulates the request body,
    runs the detector on the loaded array and sends the saved result back
    with no header, closing the connection in a `finally` clause. */
module Server {
  import opened Bytes
  import opened Wrappers
  import opened Header
  import opened Sockets
  import opened Arrays

  /** The largest read of the body loop. */
  const CHUNK_SIZE: nat := 4096

  /** The thresholds the server passes to the detector. */
  const CONFIDENCE_THRESHOLD: real := 0.3
  const OVERLAP_THRESHOLD: real := 0.4

  // ---------------------------------------------------------------------------
  // The body loop
  // ---------------------------------------------------------------------------

  /** How the body loop ends: with the buffer and what is still pending, or
      spinning for ever once the peer has closed before the declared length
      arrived (every later `recv` returns no bytes and the buffer stays as
      it is). */
  datatype BodyRead =
    | Complete(body: seq<byte>, rest: seq<seq<byte>>)
    | Spinning(partial: seq<byte>)

  /** The body loop run from buffer `acc`: while fewer than `msgLen` bytes are
      held, read up to CHUNK_SIZE bytes and append them whole. */
  function ReadBody(pending: seq<seq<byte>>, msgLen: int, acc: seq<byte>): (r: BodyRead)
    requires Segments(pending)
    ensures r.Spinning? <==> |acc| + |Flatten(pending)| < msgLen
    ensures r.Spinning? ==> r.partial == acc + Flatten(pending)
    ensures r.Complete? ==> Segments(r.rest)
    ensures r.Complete? ==> |r.body| >= msgLen
    ensures r.Complete? ==> acc <= r.body && r.body + Flatten(r.rest) == acc + Flatten(pending)
    ensures r.Complete? && |acc| >= msgLen ==> r.body == acc && r.rest == pending
    ensures r.Complete? && |acc| < msgLen ==> |r.body| < msgLen + CHUNK_SIZE
    decreases |Flatten(pending)|
  {
    if |acc| >= msgLen then Complete(acc, pending)
    else
      var chunk := RecvFrom(pending, CHUNK_SIZE);
      if chunk.data == [] then
        FlattenEmpty(pending);
        Spinning(acc)
      else
        var next := acc + chunk.data;
        assert next + Flatten(chunk.rest) == acc + Flatten(pending);
        var r := ReadBody(chunk.rest, msgLen, next);
        assert r.Complete? ==> acc <= next <= r.body;
        r
  }

  /** The body as the server holds it: at least `msgLen` bytes, the start of
      the stream in order, and less than one chunk beyond `msgLen`; nothing
      at all when `msgLen` is zero or negative. */
  lemma BodyBounds(pending: seq<seq<byte>>, msgLen: int)
    requires Segments(pending)
    ensures var r := ReadBody(pending, msgLen, []);
            r.Complete? ==> r.body <= Flatten(pending) && |r.body| >= msgLen
    ensures var r := ReadBody(pending, msgLen, []);
            r.Complete? && msgLen > 0 ==> |r.body| < msgLen + CHUNK_SIZE
    ensures msgLen <= 0 ==> ReadBody(pending, msgLen, []) == Complete([], pending)
  {
    var r := ReadBody(pending, msgLen, []);
    if r.Complete? {
      assert r.body + Flatten(r.rest) == Flatten(pending);
    }
  }

  /** tcp_module.py's body loop on `conn`. Where the Python loop would spin
      for ever, this returns with `spinning` set. */
  method ReceiveBody(conn: Socket, msgLen: int) returns (full: seq<byte>, spinning: bool)
    requires conn.Valid() && !conn.closed
    modifies conn
    ensures conn.Valid() && !conn.closed && conn.outbound == old(conn.outbound)
    ensures ReadBody(old(conn.inbound), msgLen, []) ==
              if spinning then Spinning(full) else Complete(full, conn.inbound)
    ensures spinning ==> conn.inbound == []
  {
    full := [];
    spinning := false;
    while |full| < msgLen
      invariant conn.Valid() && !conn.closed && conn.outbound == old(conn.outbound)
      invariant ReadBody(conn.inbound, msgLen, full) == ReadBody(old(conn.inbound), msgLen, [])
      decreases |Flatten(conn.inbound)|
    {
      var data := conn.Recv(CHUNK_SIZE);
      if data == [] {
        // The peer has closed: every later recv returns no bytes too, so
        // the Python loop never exits.
        spinning := true;
        return;
      }
      full := full + data;
    }
  }

  // ---------------------------------------------------------------------------
  // One connection
  // ---------------------------------------------------------------------------

  /** Why handling a connection raised. */
  datatype Failure =
    | MalformedHeader    // int() of the header text raised
    | UnloadableRequest  // np.load of the body raised
    | DetectorRaised     // detect(...) itself raised
    | NoDetections       // detect(...) returned nothing to index with [0]
    | UnsizedDetection   // len() of a 0-d first detection array raised

  datatype Outcome =
    | Served(response: seq<byte>)
    | Failed(failure: Failure)
    | Stuck               // the body loop never exits

  datatype Handled = Handled(outcome: Outcome, rest: seq<seq<byte>>)

  /** What handling one accepted connection does with what the client sent,
      and what of it stays unread. */
  function Handle(pending: seq<seq<byte>>, codec: ArrayCodec, detect: Detector): (h: Handled)
    requires Segments(pending)
    ensures Segments(h.rest)
  {
    var header := RecvFrom(pending, HEADER_SIZE);
    match DecodeHeader(header.data)
    case None => Handled(Failed(MalformedHeader), header.rest)
    case Some(msgLen) =>
      match ReadBody(header.rest, msgLen, [])
      case Spinning(_) => Handled(Stuck, [])
      case Complete(body, rest) =>
        match codec.load(body)
        case None => Handled(Failed(UnloadableRequest), rest)
        case Some(image) =>
          match detect(image, CONFIDENCE_THRESHOLD, OVERLAP_THRESHOLD)
          case None => Handled(Failed(DetectorRaised), rest)
          case Some(detections) =>
            if |detections| == 0 then Handled(Failed(NoDetections), rest)
            else if detections[0].shape == [] then Handled(Failed(UnsizedDetection), rest)
            else Handled(Served(codec.save(detections[0])), rest)
  }

  /** The length is taken from one read of at most HEADER_SIZE bytes: a
      header that does not parse fails the connection with nothing read
      beyond that read, and a header that parses is the only one used. */
  lemma HeaderFromOneRead(pending: seq<seq<byte>>, codec: ArrayCodec, detect: Detector)
    requires Segments(pending)
    ensures var header := RecvFrom(pending, HEADER_SIZE);
            |header.data| <= HEADER_SIZE &&
            (Handle(pending, codec, detect).outcome == Failed(MalformedHeader) <==> DecodeHeader(header.data) == None) &&
            (DecodeHeader(header.data) == None ==> Handle(pending, codec, detect).rest == header.rest)
  {
  }

  /** A served response is the saved first detection array and nothing else:
      no length header goes before it; that array has at least one
      dimension, since `len()` of it did not raise. */
  lemma ResponseIsFirstDetection(pending: seq<seq<byte>>, codec: ArrayCodec, detect: Detector)
    requires Segments(pending)
    ensures var header := RecvFrom(pending, HEADER_SIZE);
            var msgLen := DecodeHeader(header.data);
            Handle(pending, codec, detect).outcome.Served? ==>
              msgLen.Some? &&
              var body := ReadBody(header.rest, msgLen.value, []);
              body.Complete? && codec.load(body.body).Some? &&
              var detections := detect(codec.load(body.body).value, CONFIDENCE_THRESHOLD, OVERLAP_THRESHOLD);
              detections.Some? && |detections.value| > 0 && detections.value[0].shape != [] &&
              Handle(pending, codec, detect).outcome.response == codec.save(detections.value[0])
  {
  }

  /** The `try`/`finally` around one accepted connection: the connection is
      closed on every path that leaves the handler, whether it served the
      request or raised; only a body loop that never exits leaves it open. */
  method HandleConnection(conn: Socket, codec: ArrayCodec, detect: Detector) returns (outcome: Outcome)
    requires conn.Valid() && !conn.closed
    modifies conn
    ensures conn.Valid()
    ensures Handle(old(conn.inbound), codec, detect) == Handled(outcome, conn.inbound)
    ensures conn.closed <==> !outcome.Stuck?
    ensures conn.outbound == old(conn.outbound) + (if outcome.Served? then outcome.response else [])
  {
    var header := conn.Recv(HEADER_SIZE);
    var msgLen := DecodeHeader(header);
    if msgLen.None? {
      outcome := Failed(MalformedHeader);
    } else {
      var body, spinning := ReceiveBody(conn, msgLen.value);
      if spinning {
        // The finally clause is never reached.
        return Stuck;
      }
      var image := codec.load(body);
      if image.None? {
        outcome := Failed(UnloadableRequest);
      } else {
        var detections := detect(image.value, CONFIDENCE_THRESHOLD, OVERLAP_THRESHOLD);
        if detections.None? {
          outcome := Failed(DetectorRaised);
        } else if |detections.value| == 0 {
          outcome := Failed(NoDetections);
        } else if detections.value[0].shape == [] {
          // print(len(bboxes)) raises on a 0-d array.
          outcome := Failed(UnsizedDetection);
        } else {
          var response := codec.save(detections.value[0]);
          conn.SendAll(response);
          outcome := Served(response);
        }
      }
    }
    conn.Close();
  }

  // ---------------------------------------------------------------------------
  // The accept loop
  // ---------------------------------------------------------------------------

  /** The listening socket: bound to ('localhost', 6000) with SO_REUSEADDR
      and a backlog of 1. The clients that will connect are given by what
      each of them sends, in the order in which they are accepted. */
  class Listener {
    const host: string
    const port: nat
    const backlog: nat
    var queue: seq<seq<seq<byte>>>
    var open: bool

    ghost predicate Valid()
      reads this
    {
      forall i | 0 <= i < |queue| :: Segments(queue[i])
    }

    constructor (clients: seq<seq<seq<byte>>>)
      requires forall i | 0 <= i < |clients| :: Segments(clients[i])
      ensures Valid()
      ensures host == "localhost" && port == 6000 && backlog == 1
      ensures queue == clients && open
    {
      host, port, backlog := "localhost", 6000, 1;
      queue := clients;
      open := true;
    }

    /** `accept()`: a new connection to the next client. */
    method Accept() returns (conn: Socket)
      requires Valid() && open && queue != []
      modifies this
      ensures Valid() && open && queue == old(queue)[1..]
      ensures fresh(conn) && conn.Valid()
      ensures conn.inbound == old(queue)[0] && conn.outbound == [] && !conn.closed
    {
      conn := new Socket(queue[0]);
      queue := queue[1..];
    }

    method Close()
      modifies this
      ensures !open && queue == old(queue)
    {
      open := false;
    }
  }

  /** The server's `while True` loop: accept a connection, handle it, repeat.
      It stops at the first connection that fails or gets stuck: an
      exception escapes the inner `try`, which has no `except`, ends the loop,
      and the outer `finally` closes the listening socket. When no client is
      left it would wait in `accept` for ever; the model returns there. */
  method Serve(listener: Listener, codec: ArrayCodec, detect: Detector) returns (log: seq<Outcome>)
    requires listener.Valid() && listener.open
    modifies listener
    ensures listener.Valid()
    ensures |log| <= |old(listener.queue)|
    ensures forall i | 0 <= i < |log| :: log[i] == Handle(old(listener.queue)[i], codec, detect).outcome
    ensures forall i | 0 <= i < |log| - 1 :: log[i].Served?
    ensures |log| < |old(listener.queue)| ==> |log| > 0 && !log[|log| - 1].Served?
    ensures listener.queue == old(listener.queue)[|log|..]
    ensures listener.open <==> (log == [] || !log[|log| - 1].Failed?)
  {
    ghost var clients := listener.queue;
    log := [];
    while listener.queue != []
      invariant listener.Valid() && listener.open
      invariant |log| <= |clients| && listener.queue == clients[|log|..]
      invariant forall k | 0 <= k < |log| :: log[k] == Handle(clients[k], codec, detect).outcome
      invariant forall k | 0 <= k < |log| :: log[k].Served?
      decreases |listener.queue|
    {
      var conn := listener.Accept();
      assert conn.inbound == clients[|log|];
      var outcome := HandleConnection(conn, codec, detect);
      assert outcome == Handle(clients[|log|], codec, detect).outcome;
      assert listener.queue == clients[|log| + 1..];
      log := log + [outcome];
      if !outcome.Served? {
        if outcome.Failed? {
          listener.Close();
        }
        return;
      }
    }
  }
}

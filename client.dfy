/** The client side of start.py, `send_image_to_server`: it saves the image
    with numpy, sends a length header and the saved bytes, reads the reply
    until the server closes the connection, and loads the detections from
    it. */
module Client {
  import opened Bytes
  import opened Wrappers
  import opened Header
  import opened Sockets
  import opened Arrays

  /** The largest read of the response loop. */
  const CHUNK_SIZE: nat := 4096

  /** What the client writes for a saved array: the header for the exact
      byte count of the payload, then the payload. Below 10^10 bytes the
      header takes exactly the HEADER_SIZE bytes the server reads. */
  function Frame(payload: seq<byte>): (f: seq<byte>)
    ensures |payload| < Pow10(HEADER_SIZE) ==>
              |f| == HEADER_SIZE + |payload| &&
              f[..HEADER_SIZE] == EncodeHeader(|payload|) && f[HEADER_SIZE..] == payload
  {
    EncodeHeader(|payload|) + payload
  }

  /** The client's ways to fail after the connection is closed. */
  datatype ClientError =
    | EmptyResponse       // the assertion on the response size fails
    | UnloadableResponse  // np.load of the response raises

  /** What `send_image_to_server` returns for the bytes it received. */
  function DecodeResponse(response: seq<byte>, codec: ArrayCodec): (r: Result<NdArray, ClientError>)
    ensures r == Err(EmptyResponse) <==> |response| == 0
    ensures r == Err(UnloadableResponse) <==> |response| > 0 && codec.load(response).None?
    ensures r.Ok? <==> |response| > 0 && codec.load(response).Some?
    ensures r.Ok? ==> codec.load(response) == Some(r.value)
  {
    if |response| == 0 then Err(EmptyResponse)
    else match codec.load(response)
      case None => Err(UnloadableResponse)
      case Some(detections) => Ok(detections)
  }

  /** The reads the response loop makes on a stream: `recv(CHUNK_SIZE)`
      repeated up to, and not including, the first read that returns no
      bytes. They are non-empty, at most CHUNK_SIZE bytes each, and together
      they are the whole stream in order. */
  function ResponseChunks(pending: seq<seq<byte>>): (chunks: seq<seq<byte>>)
    requires Segments(pending)
    ensures Flatten(chunks) == Flatten(pending)
    ensures forall i | 0 <= i < |chunks| :: 0 < |chunks[i]| <= CHUNK_SIZE
    decreases |Flatten(pending)|
  {
    var r := RecvFrom(pending, CHUNK_SIZE);
    if r.data == [] then
      FlattenEmpty(pending);
      []
    else
      var rest := ResponseChunks(r.rest);
      FlattenCons(r.data, rest);
      [r.data] + rest
  }

  /** One read of the response loop, against the reads `ResponseChunks`
      lists: an empty read is the end of the list and of the stream;
      otherwise the chunk read heads the list and the stream gets shorter. */
  lemma ChunkRead(before: seq<seq<byte>>, data: seq<byte>, after: seq<seq<byte>>)
    requires Segments(before) && RecvFrom(before, CHUNK_SIZE) == Received(data, after)
    ensures Segments(after)
    ensures data == [] ==> ResponseChunks(before) == [] && after == []
    ensures data != [] ==> ResponseChunks(before) == [data] + ResponseChunks(after)
    ensures data != [] ==> |Flatten(after)| < |Flatten(before)|
  {
    var r := RecvFrom(before, CHUNK_SIZE);
    if data == [] {
      assert ResponseChunks(before) == [];
    } else {
      assert ResponseChunks(before) == [r.data] + ResponseChunks(r.rest);
      assert |data| + |Flatten(after)| == |Flatten(before)|;
    }
  }

  /** start.py's response loop: read chunks of at most CHUNK_SIZE bytes and
      append them until the first empty read, which is the server closing.
      The chunks are exactly the reads before the empty one, in order, and
      the result is their concatenation: everything the server sent. */
  method ReceiveUntilClosed(sock: Socket) returns (full: seq<byte>, ghost chunks: seq<seq<byte>>)
    requires sock.Valid() && !sock.closed
    modifies sock
    ensures sock.Valid() && !sock.closed && sock.outbound == old(sock.outbound)
    ensures chunks == ResponseChunks(old(sock.inbound)) && full == Flatten(chunks)
    ensures full == Flatten(old(sock.inbound)) && sock.inbound == []
  {
    full := [];
    chunks := [];
    while true
      invariant sock.Valid() && !sock.closed && sock.outbound == old(sock.outbound)
      invariant full == Flatten(chunks)
      invariant chunks + ResponseChunks(sock.inbound) == ResponseChunks(old(sock.inbound))
      decreases |Flatten(sock.inbound)|
    {
      ghost var before := sock.inbound;
      var data := sock.Recv(CHUNK_SIZE);
      ChunkRead(before, data, sock.inbound);
      if data == [] {
        assert chunks + [] == chunks;
        break;
      }
      FlattenAppend(chunks, data);
      AppendAssoc(chunks, [data], ResponseChunks(sock.inbound));
      full := full + data;
      chunks := chunks + [data];
    }
  }

  /** `send_image_to_server(img)` on a connected socket. The socket is closed
      on the way out of the `try`, before the response is checked; an empty
      response fails the assertion before anything is loaded. */
  method SendImageToServer(sock: Socket, img: NdArray, codec: ArrayCodec) returns (r: Result<NdArray, ClientError>)
    requires sock.Valid() && !sock.closed
    modifies sock
    ensures sock.closed && sock.inbound == []
    ensures sock.outbound == old(sock.outbound) + Frame(codec.save(img))
    ensures r == DecodeResponse(Flatten(old(sock.inbound)), codec)
  {
    var message := codec.save(img);
    var header := EncodeHeader(|message|);
    sock.SendAll(header);
    sock.SendAll(message);
    AppendAssoc(old(sock.outbound), header, message);
    var response;
    ghost var chunks;
    response, chunks := ReceiveUntilClosed(sock);
    sock.Close();
    if |response| == 0 {
      r := Err(EmptyResponse);
    } else {
      var detections := codec.load(response);
      if detections.None? {
        r := Err(UnloadableResponse);
      } else {
        r := Ok(detections.value);
      }
    }
  }
}

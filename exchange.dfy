/** One request and its reply, client and server together: what the server
    makes of the bytes start.py writes, however TCP splits them into reads,
    and what the client then makes of the reply. */
module Exchange {
  import opened Bytes
  import opened Wrappers
  import opened Header
  import opened Sockets
  import opened Arrays
  import Server
  import Client

  /** When the first read on the server holds the whole header, the server
      reads back the length the client sent and ends its body loop holding
      exactly the payload, with nothing left over, however the rest of the
      stream is split. */
  lemma RequestDelivered(payload: seq<byte>, segments: seq<seq<byte>>)
    requires Segments(segments) && Flatten(segments) == Client.Frame(payload)
    requires |segments| > 0 && |segments[0]| >= HEADER_SIZE
    requires |payload| < Pow10(HEADER_SIZE)
    ensures var header := RecvFrom(segments, HEADER_SIZE);
            header.data == EncodeHeader(|payload|) &&
            DecodeHeader(header.data) == Some(|payload|) &&
            Server.ReadBody(header.rest, |payload|, []) == Server.Complete(payload, [])
  {
    var header := RecvFrom(segments, HEADER_SIZE);
    var frame := Client.Frame(payload);
    assert segments[0] <= frame;
    assert header.data == segments[0][..HEADER_SIZE] == frame[..HEADER_SIZE];
    HeaderRoundTrip(|payload|);
    assert frame[..HEADER_SIZE] + frame[HEADER_SIZE..] == frame;
    assert Flatten(header.rest) == payload;
    var r := Server.ReadBody(header.rest, |payload|, []);
    assert [] + payload == payload;
    assert r.body + Flatten(r.rest) == payload;
    assert r.body == payload;
    FlattenEmpty(r.rest);
  }

  /** For a request built from an image, the server loads the image back,
      runs the detector on it with thresholds 0.3 and 0.4, and answers with
      the saved first detection array. The connection fails instead if the
      detector raises, returns nothing to index, or returns a 0-d first
      array whose `len()` raises. Either way the whole request has been
      read. */
  lemma ServerAnswersRequest(img: NdArray, codec: ArrayCodec, detect: Detector, segments: seq<seq<byte>>)
    requires Faithful(codec)
    requires Segments(segments) && Flatten(segments) == Client.Frame(codec.save(img))
    requires |segments| > 0 && |segments[0]| >= HEADER_SIZE
    requires |codec.save(img)| < Pow10(HEADER_SIZE)
    ensures var detections := detect(img, Server.CONFIDENCE_THRESHOLD, Server.OVERLAP_THRESHOLD);
            Server.Handle(segments, codec, detect) ==
              if detections.None? then Server.Handled(Server.Failed(Server.DetectorRaised), [])
              else if |detections.value| == 0 then Server.Handled(Server.Failed(Server.NoDetections), [])
              else if detections.value[0].shape == [] then Server.Handled(Server.Failed(Server.UnsizedDetection), [])
              else Server.Handled(Server.Served(codec.save(detections.value[0])), [])
  {
    RequestDelivered(codec.save(img), segments);
    assert codec.load(codec.save(img)) == Some(img);
  }

  /** The full round trip: when the detector finds an array of at least one
      dimension for the image, the server serves it and the client, reading the server's unframed
      reply until the close, returns that array. */
  lemma DetectionsReachClient(img: NdArray, codec: ArrayCodec, detect: Detector, segments: seq<seq<byte>>)
    requires Faithful(codec)
    requires Segments(segments) && Flatten(segments) == Client.Frame(codec.save(img))
    requires |segments| > 0 && |segments[0]| >= HEADER_SIZE
    requires |codec.save(img)| < Pow10(HEADER_SIZE)
    requires var detections := detect(img, Server.CONFIDENCE_THRESHOLD, Server.OVERLAP_THRESHOLD);
             detections.Some? && |detections.value| > 0 && detections.value[0].shape != []
    ensures var outcome := Server.Handle(segments, codec, detect).outcome;
            outcome.Served? &&
            Client.DecodeResponse(outcome.response, codec) ==
              Ok(detect(img, Server.CONFIDENCE_THRESHOLD, Server.OVERLAP_THRESHOLD).value[0])
  {
    ServerAnswersRequest(img, codec, detect, segments);
    var d := detect(img, Server.CONFIDENCE_THRESHOLD, Server.OVERLAP_THRESHOLD).value[0];
    assert |codec.save(d)| > 0 && codec.load(codec.save(d)) == Some(d);
  }

  /** The frame of a payload of one to nine bytes, split after the
      length digit. */
  lemma SplitFrame(payload: seq<byte>)
    requires 0 < |payload| < 10
    ensures var digit: byte := ZERO + |payload|;
            Flatten([[digit], Spaces(9) + payload]) == Client.Frame(payload)
  {
    var n := |payload|;
    var digit: byte := ZERO + n;
    var body := Spaces(9) + payload;
    var segments: seq<seq<byte>> := [[digit], body];
    assert Digits(n) == [digit];
    assert EncodeHeader(n) == [digit] + Spaces(9);
    assert Flatten(segments) == [digit] + body by {
      assert segments[1..] == [body];
      assert segments[1..][1..] == [];
      assert Flatten([body]) == body + [];
    }
    assert Client.Frame(payload) == [digit] + body;
  }

  /** A body that arrives as one segment of at least `msgLen` bytes and at
      most one chunk is read whole by one pass of the body loop. */
  lemma BodyInOneSegment(body: seq<byte>, msgLen: nat)
    requires 0 < msgLen <= |body| <= Server.CHUNK_SIZE
    ensures Server.ReadBody([body], msgLen, []) == Server.Complete(body, [])
  {
    assert RecvFrom([body], Server.CHUNK_SIZE) == Received(body, []);
    assert [] + body == body;
  }

  /** A header read that holds a single digit decodes to that digit. */
  lemma DigitDecodes(n: nat)
    requires n < 10
    ensures DecodeHeader([ZERO + n]) == Some(n)
  {
    var digit: byte := ZERO + n;
    assert Spaces(0) + [digit] + Spaces(0) == [digit];
    DecodeSurrounded(0, [digit], 0);
    assert DigitsValue([digit]) == n by {
      assert [digit][..0] == [];
    }
  }

  /** The header is taken from one read, which may be short. Here the client
      frames a payload of one to nine bytes, so the header is one digit and
      nine spaces; TCP delivers the digit alone as the first segment and
      then the padding with the payload as the second. The server still
      decodes the right length, but its body is the padding followed by the
      payload, not the payload. */
  lemma ShortHeaderReadMisframes(payload: seq<byte>, segments: seq<seq<byte>>)
    requires 0 < |payload| < 10
    requires segments == [[ZERO + |payload|], Spaces(9) + payload]
    ensures Segments(segments) && Flatten(segments) == Client.Frame(payload)
    ensures var header := RecvFrom(segments, HEADER_SIZE);
            DecodeHeader(header.data) == Some(|payload|) &&
            Server.ReadBody(header.rest, |payload|, []) == Server.Complete(Spaces(9) + payload, [])
    ensures Spaces(9) + payload != payload
  {
    var n := |payload|;
    var digit: byte := ZERO + n;
    var body := Spaces(9) + payload;
    SplitFrame(payload);
    assert RecvFrom(segments, HEADER_SIZE) == Received([digit], [body]);
    DigitDecodes(n);
    BodyInOneSegment(body, n);
  }

  /** A client that sends four header bytes, "12" and two spaces, and closes:
      the server decodes 12, finds the stream ended, and its body loop spins
      for ever, so the connection is never closed. */
  lemma TruncatedHeaderSpins(codec: ArrayCodec, detect: Detector)
    ensures Server.Handle([[49, 50, 32, 32]], codec, detect) == Server.Handled(Server.Stuck, [])
  {
    var header: seq<byte> := [49, 50, 32, 32];
    assert header == Spaces(0) + [49, 50] + Spaces(2);
    DecodeSurrounded(0, [49, 50], 2);
    assert DigitsValue([49, 50]) == 12 by {
      assert [49, 50][..1] == [49];
    }
  }
}

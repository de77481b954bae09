# Length-prefixed array exchange

This project models the framing protocol between `send_image_to_server` in
start.py and the detection server in tcp_module.py, and proves properties
of it.

The client works as follows:

- It saves a numpy array into a buffer.
- It sends a 10-byte header, `f"{msg_len:<10}"`: the decimal byte count of
  the buffer, left-justified and padded with spaces.
- It sends the saved bytes.
- It reads the reply with `recv(4096)` until the first empty read, and then
  closes the socket.
- It asserts that the reply is not empty and loads an array from it.

The server accepts one connection at a time and handles it as follows:

- It takes the length from a single `recv(10)` parsed by `int()`.
- It appends `recv(4096)` chunks to a buffer until the buffer holds at least
  that many bytes.
- It loads the array and calls `detect(img, 0.3, 0.4)[0]`; printing
  `len()` of that result raises when it is a 0-d array.
- It sends the saved result with no header.
- It closes the connection in a `finally` clause.

The model has these modules:

- `Bytes` and `Wrappers` hold the byte type, the concatenation of a list of
  chunks, and `Option`/`Result`.
- `Header` holds the header encoder (`str(n)` padded to `HEADER_SIZE`) and
  the decoder. The decoder follows Python's `int()` on ASCII text:
  - surrounding whitespace is stripped (tab, line feed, vertical tab, form
    feed, carriage return and space; not the separators 0x1c to 0x1f);
  - an optional sign is allowed;
  - digits may be separated by single underscores.
- `Sockets` models a connected stream socket as a class.
  - The peer is the list of non-empty segments it sends before it closes.
  - `recv(n)` returns at most `n` bytes of the first pending segment.
  - A read that returns nothing means the peer has closed.
  - What this end sends is recorded in order.
- `Arrays` holds the numpy array value. It also holds the `np.save`/`np.load`
  pair and the detector, which the model takes as parameters and does not
  look inside.
- `Server` models tcp_module.py:
  - the body loop, as a specification function `ReadBody` and an imperative
    `ReceiveBody` proved against it;
  - the handling of one connection, as the function `Handle` and the method
    `HandleConnection`;
  - the listening socket and the accept loop `Serve`.
- `Client` models `send_image_to_server`: the frame it writes, the response
  loop, and the checks on the response.
- `Exchange` puts both ends together. It covers a whole request and reply.
  It also shows what happens when the header arrives split or truncated.

Five behaviours of the code shape the protocol, and the model keeps them:

- **A failed connection ends the server.**
  - The per-connection `try` has a `finally` but no `except`. So a malformed
    header, an unloadable body, a detector that raises, an empty detector
    result or a 0-d first detection closes the connection, and then the
    exception ends the accept loop.
  - The outer `finally` then closes the listening socket.
  - The server does not go on to the next client. `Server.Serve` states this.
- **A truncated stream is not detected.**
  - The server's body loop does not notice a peer that closes early. Once
    the stream has ended, every `recv` returns no bytes and the loop spins
    for ever, with the connection still open.
  - The model returns `Stuck` there instead of looping.
  - `Exchange.TruncatedHeaderSpins` shows a client that sends four header
    bytes and closes. The server decodes 12, then spins.
- **Long lengths overflow the header field.**
  - The encoder never truncates and never fails. A length of 10^10 or more
    gives a header longer than 10 bytes.
  - The server then reads only its first ten digits
    (`Header.LongLengthMisread`).
- **Signed headers are accepted.** The decoder takes `+5`, `-5` and `1_0`,
  because `int()` does.
- **The reply has no length header.** The client takes the end of the reply
  to be the server closing the connection.

## Model

| member | source | states |
|---|---|---|
| Header.Digits | start.py:27 | `str(n)`: at least one byte, all decimal digits, with a leading zero only for 0. |
| Header.EncodeHeader | start.py:26-27 | The header is the decimal digits of the length, followed by spaces. Its length is exactly max(10, number of digits). It is exactly 10 bytes if and only if the length is below 10^10, and it never truncates the digits. |
| Header.DigitsCount | start.py:27 | The decimal text of n fits in k characters exactly when n < 10^k. This is why every length below 10^10 fits the field. |
| Header.DigitsRoundTrip | start.py:27 | Reading back the decimal digits of n gives n. |
| Header.DigitsValueBound | tcp_module.py:34 | k digits denote a number below 10^k. |
| Header.LeadingSpacesSpec | tcp_module.py:34 | The whitespace `int()` strips at the front is whitespace, and all of it up to the first other byte. |
| Header.TrailingSpacesSpec | tcp_module.py:34 | The whitespace stripped at the end is whitespace, and all of it after the last other byte. |
| Header.StripPadded | tcp_module.py:34 | Stripping removes exactly the spaces around a run that starts and ends with non-whitespace. |
| Header.LiteralAlphabet | tcp_module.py:34 | A literal `int()` accepts, without its sign, holds only digits and underscores. |
| Header.DigitsAreLiteral | tcp_module.py:34 | A non-empty run of digits is an accepted literal, and these are its digits. |
| Header.DecodeHeader | tcp_module.py:34 | `int()` of the header text. A value is returned only for a non-empty text once whitespace is stripped, and a negative value only when that text starts with `-`. HeaderRoundTrip, DecodeSurrounded and DecodeHeaderAccepts state what it accepts and returns. |
| Header.DecodeSurrounded | tcp_module.py:34 | Digits with any number of spaces before and after them decode to the number the digits denote. |
| Header.HeaderRoundTrip | start.py:27 | Decoding the header as tcp_module.py:34 does returns the encoded length, for every length. |
| Header.HeaderPrefixRoundTrip | tcp_module.py:32-34 | For a length below 10^10, the first 10 bytes of header plus payload are the header alone. They decode to the length. |
| Header.LongLengthMisread | tcp_module.py:32-34 | For a length of 10^10 or more, the first 10 bytes decode to a number that is non-negative and smaller than the length. |
| Header.DecodeHeaderAccepts | tcp_module.py:34 | An accepted header holds at least one digit. Every byte of it is a digit, whitespace, an underscore or a sign. |
| Header.SeparatorNotStripped | tcp_module.py:34 | A header of one of the separators 0x1c to 0x1f followed by a digit is rejected: `int()` does not strip those bytes. |
| Header.BlankHeaderRejected | tcp_module.py:34 | An empty or all-whitespace header is rejected. |
| Bytes.FlattenAppend | tcp_module.py:43 | Appending a chunk to the list of chunks read appends its bytes to their concatenation. |
| Sockets.RecvFrom | tcp_module.py:42 | One `recv(bufsize)` returns at most bufsize bytes, namely `min(bufsize, first segment)`. The bytes returned followed by what stays pending are the whole stream. The read returns nothing exactly when the stream has ended or bufsize is 0. |
| Sockets.FlattenEmpty | tcp_module.py:42 | Nothing is left to read exactly when no segment is pending. |
| Sockets.Socket.Recv | start.py:38 | A read on the socket consumes what `RecvFrom` returns and changes nothing else. |
| Sockets.Socket.SendAll | tcp_module.py:62 | `sendall` appends every byte, in order, to what was sent. |
| Sockets.Socket.Close | tcp_module.py:68 | `close` marks the socket closed and changes nothing else. |
| Server.ReadBody | tcp_module.py:39-43 | The body loop from buffer `acc` works as follows. It spins if and only if the whole stream is shorter than the declared length. Otherwise it ends with at least msgLen bytes. The buffer starts with `acc` and is followed in order by what stays pending. The buffer is below msgLen + 4096 bytes when the loop had to read. It is `acc` unchanged, with nothing read, when the loop did not have to read. |
| Server.BodyBounds | tcp_module.py:39-43 | Starting from an empty buffer, the body is a prefix of the stream of at least msgLen bytes. It is below msgLen + 4096 bytes when msgLen > 0. It is empty, with nothing read, when msgLen <= 0. |
| Server.ReceiveBody | tcp_module.py:39-43 | The imperative loop returns the body `ReadBody` specifies and leaves the rest pending. It reports spinning exactly where the Python loop never exits. |
| Server.Handle | tcp_module.py:32-62 | One connection's outcome: served, failed or stuck. It fails on a bad header, an unloadable body, a detector that raises, an empty detector result, or a 0-d first detection whose `len()` raises at tcp_module.py:54. It also gives what stays unread, which remains a valid stream. |
| Server.HeaderFromOneRead | tcp_module.py:32-34 | The length comes from one read of at most 10 bytes. The connection fails on a malformed header if and only if that read does not parse. In that case nothing beyond that read is consumed. |
| Server.ResponseIsFirstDetection | tcp_module.py:50-62 | A served response is exactly the saved element [0] of `detect(load(body), 0.3, 0.4)`, with no header. The detector did not raise, and that element has at least one dimension. |
| Server.HandleConnection | tcp_module.py:29-68 | Handling follows `Handle`. The connection is closed on every path except the stuck body loop. Only a served response is sent. |
| Server.Listener.constructor | tcp_module.py:18-22 | The listener is bound to ('localhost', 6000) with a backlog of 1. |
| Server.Listener.Accept | tcp_module.py:27 | Accept returns a fresh connection to the next client and removes that client from the queue. |
| Server.Listener.Close | tcp_module.py:70-72 | The listening socket is closed. |
| Server.Serve | tcp_module.py:24-72 | The log holds the outcome of each accepted client, in order. Every entry but the last was served. The loop stops at the first failure or stuck connection. The listener is closed if and only if the loop ended by an exception. |
| Client.Frame | start.py:26-32 | The bytes written are the header for the exact payload length, then the whole payload. Below 10^10 bytes, the header takes exactly the first 10 bytes. |
| Client.DecodeResponse | start.py:49-52 | The empty-response error occurs if and only if the response is empty. The load error occurs if and only if a non-empty response does not load. Otherwise the result is the loaded array. |
| Client.ResponseChunks | start.py:37-42 | The reads `recv(4096)` makes up to the first empty one are each non-empty and at most 4096 bytes, and together they are the whole stream in order. |
| Client.ReceiveUntilClosed | start.py:36-43 | The chunks the loop appends are exactly the reads `ResponseChunks` lists, and the response is their concatenation: everything the server sent up to its close. |
| Client.SendImageToServer | start.py:20-52 | The socket ends closed. The bytes sent are the frame of the saved image. The result is the decoded response. |
| Exchange.RequestDelivered | tcp_module.py:32-43 | When the first read holds the whole header, the server decodes the exact payload length. Its body is exactly the payload, however the rest is split. |
| Exchange.ServerAnswersRequest | tcp_module.py:51-62 | When `np.load` inverts `np.save`, the first read holds the whole header and the saved image is below 10^10 bytes, the server reads the whole request and serves the saved first detection. It fails if the detector raises, finds nothing, or returns a 0-d first array. |
| Exchange.DetectionsReachClient | start.py:36-52 | When `np.load` inverts `np.save`, the first read holds the whole header, the saved image is below 10^10 bytes and the first detection has at least one dimension, the client gets back exactly that array. |
| Exchange.ShortHeaderReadMisframes | tcp_module.py:32 | Take a payload of 1 to 9 bytes whose header arrives split after its digit. The server decodes the right length, but its body is the padding followed by the payload. |
| Exchange.TruncatedHeaderSpins | tcp_module.py:40-43 | A client that sends "12  " and closes leaves the server stuck in the body loop, with the connection open. |

## Left out

- `np.save`/`np.load` (tcp_module.py:51, 60; start.py:24, 51) are a pair of functions given as a parameter; the numpy file format and pickling are not modelled. `save` never fails: an `np.save` that raises is not modelled. `load` returns None where numpy raises, without saying which error.
- `detect` (tcp_module.py:14, 52) is a function parameter that returns None where it raises. B1_detect is not part of this model.
- Socket creation, `SO_REUSEADDR`, `bind`, `listen` and `connect` are left out: they are plumbing. The listener's address is recorded but not used.
- `print` calls are left out; only the exception `len()` raises at tcp_module.py:54 on a 0-d array is modelled.
- The `with` statements' second close of an already-closed socket is left out.
- The socket errors `recv`, `sendall` and `connect` can raise are left out. A peer that stays connected but sends nothing is treated like a peer that has closed; the Python `recv` would block.
- Server.Serve: returns when no client is left to accept, where Python blocks in `accept` for ever. It also returns at a stuck connection, where Python would spin.
- Header.DecodeHeader: rejects every byte from 0x80 up. Python first decodes the header as UTF-8 and then also accepts non-ASCII Unicode digits and whitespace, such as U+00A0.
- `main` and `display_images` in start.py (camera capture and OpenCV display) are left out, and so are the deepstream and RabbitMQ scripts. They are not part of the framing protocol.

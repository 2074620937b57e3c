# A verified model of a small Redis-like server

This project models the core of a Python Redis-like server with master–replica
replication, and proves properties of that model. The core has two parts.

- **The RESP2 codec** (`encode_resp` and `decode_resp` in `src/utils/utils.py`).
  A value is a `str` (simple string `+`; the `-` error prefix also decodes to one),
  `bytes` (bulk string `$`), `int` (`:`), `None` (`$-1`) or a `list` (array `*`,
  length-prefixed and recursive). `decode_resp` returns the value together with the
  bytes left over, which is what lets several frames share one buffer. A buffer that
  starts with `REDIS` (the replication snapshot) decodes to the `IGNORE` marker with
  no remainder.
- **The command engine** in `handle_client` (`src/client_handler.py`). It takes one
  received buffer, frames it into commands, and runs each command against the
  server's `CACHE`, `TTL` and `SLAVES` (the `RedisServer` fields, `src/server.py`).
  It answers PING, ECHO, SET [PX], GET with lazy expiry, DEL, EXISTS, INFO, REPLCONF,
  PSYNC, SHUTDOWN and the `unknown` verb. On a master, SET is also propagated to
  every replica.

## Layout

- `builtins.dfy` (`Builtins`): the Python built-ins the code relies on, stated on
  byte strings:
  - `bytes.find` (`Find`);
  - slicing, with negative bounds and clamping (`Slice`, `Tail`);
  - `str(int)` (`Decimal`) and `int(bytes)` (`ParseInt`, which is None where Python
    raises ValueError);
  - `str.lower` and `bytes.count`.
- `resp.dfy` (`Resp`): the codec.
  - `Encode` and `Decode` are the specification.
  - `DecodeResp`, `DecodeArrayLoop` and `ReadElements` are the decoder as the source
    runs it, with its element loop, proved equal to `Decode`.
- `engine.dfy` (`Engine`): the state of one server (`Store`) and one command
  (`Step`). `Step` returns the new state, the outcome and the propagation messages.
  - An outcome is a reply, no reply (the `continue` branches), or `Closed`.
  - `Closed` means an exception ended `handle_client`, which then closes the
    connection.
- `connection.dfy` (`Connection`): everything above the single command.
  - Framing a buffer (`FramesAsWritten` as written, `Frames` as intended). The
    connection-level functions take the framing as a parameter (`Framing`). The
    class follows the source and uses `FramesAsWritten`.
  - Turning a decoded value into a list of strings (`AsCommand`).
  - The loop over the commands of one buffer (`Run`, `Receive`) and the read loop
    over successive buffers (`Session`).
- `server.dfy` (`Server`): the class `RedisServer`. Its fields are updated in place
  by `Dispatch` and the per-verb methods, and by `HandleBuffer` and `Serve`. Each
  method is proved to produce exactly the state and output that the functions of
  `Engine` and `Connection` specify.

Byte strings are sequences of `char`, so wire text such as `"+OK\r\n"` reads as it
does in the source. The clock is an integer number of milliseconds passed in by the
caller. The outgoing replica connections are returned as a list of
`Send(host, port, payload)` messages.

Four behaviours of the code are worth noting:

- The `fullresync` verb has no `continue` after its branch, so it sends the initial
  `$-1\r\n` reply; it is not silently skipped.
- SET without PX leaves an existing expiry of the key in place.
- A replica whose announced port is not a number makes `int()` raise in the middle
  of propagation. That closes the client's connection: the value stays stored,
  earlier replicas have been sent the command, and no `+OK` is written.
  A replica that is down or refuses the connection makes `create_connection` or
  `sendall` raise in the same way, and the entry is never removed from SLAVES, so
  every later SET on that master ends the same way. The model does not capture this
  (see `Engine.Propagate` under "## Left out").
- Propagated commands are encoded as arrays of simple strings (`+SET`), because the
  arguments were already converted to `str` at `src/client_handler.py:35-37`.

## Model

| member | source | states |
|---|---|---|
| Builtins.Find | src/utils/utils.py:29 | the result is -1 exactly when no CRLF occurs; otherwise it is an index holding CRLF with no CRLF before it |
| Builtins.FindAt | src/utils/utils.py:29 | a CRLF at k with none before it is what `find` returns |
| Builtins.Slice | src/utils/utils.py:30 | `s[i:j]` with in-range bounds is the sub-sequence from i to j; it is never longer than s |
| Builtins.Tail | src/utils/utils.py:30 | `s[i:]` with an in-range bound drops i bytes; it is strictly shorter for a positive i on a non-empty s |
| Builtins.TailIsSuffix | src/utils/utils.py:30 | `s[i:]` is always a suffix of s, for any i, negative ones included |
| Builtins.ParseInt | src/utils/utils.py:38 | `int` succeeds only on text that starts with a sign or a digit; a negative result has a leading `-`; a run of digits reads as its decimal value |
| Builtins.ParseIntForms | src/utils/utils.py:38 | `int` succeeds exactly on a non-empty run of digits, or a `-` or `+` followed by a non-empty run of digits; after `-` the value is the digits' value negated, after `+` the digits' value |
| Builtins.Decimal | src/utils/utils.py:9-14 | `str(i)` is non-empty, made of `-` and digits only, starts with `-` exactly when i is negative, and is all digits exactly when i is not |
| Builtins.DigitsNoLeadingZero | src/utils/utils.py:9-14 | the digits of a positive integer do not start with `0` |
| Builtins.DecimalCanonical | src/utils/utils.py:9-14 | `str(i)` is `0` for zero and otherwise has no zero right after the optional `-`, so the lengths and integers the encoder prints have no padded spelling |
| Builtins.ParseDecimal | src/utils/utils.py:38 | `int` reads back exactly the integer that `str` printed, negative ones included |
| Builtins.Count | src/client_handler.py:22 | `count` is at most the length, and is 0 exactly when the byte does not occur |
| Builtins.CountConcat | src/client_handler.py:22 | `count` of a concatenation is the sum of the counts |
| Builtins.Lower | src/client_handler.py:40 | lower-casing keeps the length, maps each upper-case ASCII letter to the letter 32 codes above it, leaves no upper-case ASCII letter, and leaves every other byte as it was |
| Resp.Encode | src/utils/utils.py:3-18 | every encoding is non-empty and starts with the tag the decoder dispatches on: `+` for a str, `:` for an int, `$` for bytes and None, `*` for a list (its inverse is `Resp.RoundTrip`) |
| Resp.EncodeAll | src/utils/utils.py:13 | the join of n encodings is at least n bytes long |
| Resp.DecodeText | src/utils/utils.py:28-34 | the `+` and `-` branches always give a str and a remainder strictly shorter than the input |
| Resp.DecodeInteger | src/utils/utils.py:36-38 | the `:` branch gives an int and a strictly shorter remainder; it fails exactly when `int` raises on the bytes between the tag and the first CRLF |
| Resp.DecodeBulk | src/utils/utils.py:40-47 | the `$` branch gives bytes or None with a remainder; it fails exactly when `int` raises on the length header |
| Resp.DecodeArray | src/utils/utils.py:49-57 | the `*` branch gives a list, and its remainder is no longer than the input |
| Resp.Decode | src/utils/utils.py:20-63 | a successful decode never returns a remainder longer than its input |
| Resp.DecodeElements | src/utils/utils.py:52-57 | a successful `*n` loop yields exactly n elements (none for a negative n), and its remainder is no longer than its input |
| Resp.DecodeResp | src/utils/utils.py:20-63 | the decoder, with its array loop, returns exactly `Decode(data)` for every buffer |
| Resp.DecodeArrayLoop | src/utils/utils.py:49-57 | the array branch returns exactly the array `Decode` specifies, or fails where it does |
| Resp.ReadElements | src/utils/utils.py:52-56 | the loop that appends elements and rebinds `rest` computes exactly `DecodeElements` |
| Resp.RoundTrip | src/utils/utils.py:3-57 | for every value whose strings hold no CRLF, decoding its encoding followed by any bytes gives back the value and exactly those bytes |
| Resp.RoundTripAll | src/utils/utils.py:49-57 | the concatenated encodings of n values decode, as n array elements, to those values with the bytes after them as remainder |
| Resp.RoundTripText | src/utils/utils.py:28-34 | `+t\r\n` and `-t\r\n` both decode to the CRLF-free text t |
| Resp.RoundTripBulk | src/utils/utils.py:40-47 | any byte string, CRLFs and the empty string included, survives encoding and decoding |
| Resp.RoundTripInt | src/utils/utils.py:36-38 | any integer, negative ones included, survives encoding and decoding |
| Resp.RoundTripNull | src/utils/utils.py:43-44 | None survives encoding and decoding |
| Resp.DecodeEncode | src/utils/utils.py:20-57 | a lone encoding decodes to its value with an empty remainder |
| Resp.DecodeEmpty | src/utils/utils.py:23-24 | the empty buffer decodes to None and consumes nothing |
| Resp.NullDecodes | src/utils/utils.py:15-16 | None is encoded as exactly `$-1\r\n`, which decodes back to None |
| Resp.EmptyBulkDecodes | src/utils/utils.py:8-9 | the empty byte string is encoded as exactly `$0\r\n\r\n`, which decodes back to it |
| Resp.NullIsNotEmptyBulk | src/utils/utils.py:40-47 | `$-1\r\n` is None while `$0\r\n\r\n` is the empty byte string |
| Resp.BulkLengthPrefix | src/utils/utils.py:8-9 | a byte string is framed as `$`, then its length in decimal (as `int` reads it back), then CRLF, the payload and CRLF |
| Resp.ArrayLayout | src/utils/utils.py:12-14 | a list is framed as `*`, then its element count in decimal, then CRLF and the element encodings in order |
| Resp.EncodeAllAppend | src/utils/utils.py:13 | the join keeps order: encoding a concatenation concatenates the encodings |
| Resp.LeadingByte | src/utils/utils.py:59-63 | after the five known prefixes, a `REDIS` buffer gives the IGNORE marker with no remainder, and any other byte fails |
| Resp.TextWithCrlfIsCut | src/utils/utils.py:28-30 | a `str` holding CRLF does not survive: the decoder stops at the first CRLF |
| Resp.DecodeKeepsSuffix | src/utils/utils.py:20-63 | the remainder of every successful decode is a suffix of the input |
| Resp.ArrayKeepsSuffix | src/utils/utils.py:49-57 | the remainder after an array is a suffix of the input |
| Resp.ElementsKeepSuffix | src/utils/utils.py:54-56 | each turn of the element loop leaves a suffix of what it started from |
| Engine.Initial | src/server.py:18-27 | a new server has an empty cache, no expiries, no replicas, the fixed replication id, offset 0, and is running |
| Engine.Step | src/client_handler.py:39-130 | every command keeps each key in TTL present in CACHE; none changes the role, the replication id or the offset; only a master sends to replicas |
| Engine.Propagate | src/client_handler.py:60-65 | one message per replica in SLAVES order, each carrying the same payload to that replica's host and parsed port; it completes exactly when every port parses |
| Engine.PropagateStops | src/client_handler.py:60-65 | when the loop raises, the messages sent are exactly those to the replicas before the first port that `int()` rejects |
| Engine.Acknowledge | src/client_handler.py:58-65 | answering SET leaves the state alone, and only a master sends to replicas |
| Engine.Set | src/client_handler.py:48-65 | SET keeps every TTL key in CACHE, leaves role, id and offset alone, and only a master sends |
| Engine.Del | src/client_handler.py:66-79 | DEL only removes entries, never changes a stored value, keeps TTL keys in CACHE, sends nothing, and afterwards the key is absent |
| Engine.Get | src/client_handler.py:80-87 | GET only removes entries, never changes a stored value, sends nothing, and on a store whose TTL keys are all in CACHE it always replies |
| Engine.Exists | src/client_handler.py:115-118 | EXISTS changes nothing, sends nothing, and replies whenever it has a key |
| Engine.Replconf | src/client_handler.py:91-103 | REPLCONF changes only SLAVES, by appending at most one replica, and sends nothing |
| Engine.Psync | src/client_handler.py:104-112 | PSYNC changes nothing, sends nothing, and replies whenever it has an argument |
| Engine.SetStores | src/client_handler.py:48-56 | SET k v always stores v under k. With PX ms, k expires at now + ms; without PX, the expiry table is unchanged |
| Engine.SetReplies | src/client_handler.py:58-65 | a slave answers `$-1\r\n` and sends nothing. A master with numeric replica ports answers `+OK\r\n` and sends the encoded command to every replica in order; otherwise the connection closes |
| Engine.GetExpires | src/client_handler.py:80-87 | GET k drops k from both maps when its expiry is before now and answers `$-1`; otherwise it changes nothing and answers the bulk value or `$-1` |
| Engine.SetPxThenGet | src/client_handler.py:54-87 | after SET k v PX ms at t0, GET k at t1 gives v when t1 <= t0 + ms. Later it gives `$-1`, and k is gone from both maps |
| Engine.SetPxStores | src/client_handler.py:48-56 | SET k v PX ms at t0 leaves v under k and the expiry t0 + ms |
| Engine.GetWithExpiry | src/client_handler.py:80-87 | GET of a stored key with an expiry gives the value up to and including that instant, and afterwards `$-1` with the key gone from both maps |
| Engine.DelRemoves | src/client_handler.py:66-79 | DEL of a stored key removes it and its expiry and answers `:1`. Otherwise it answers `:0` and changes nothing |
| Engine.ExistsReports | src/client_handler.py:115-118 | EXISTS answers `:1` exactly when the key is in the cache, whatever its expiry, and changes nothing |
| Engine.DelThenExists | src/client_handler.py:66-118 | after DEL k, EXISTS k answers `:0` |
| Engine.ReplconfRegisters | src/client_handler.py:92-95 | REPLCONF listening-port p appends (peer host, p) to SLAVES and answers `+OK` |
| Engine.ReplconfOthers | src/client_handler.py:96-103 | REPLCONF getack answers `*3\r\n+REPLECONF\r\n+ACK\r\n:0\r\n`; capa and every other subcommand answer `+OK`; no state changes |
| Engine.GetackBytes | src/client_handler.py:100 | the encoding of ['REPLECONF', 'ACK', 0], byte for byte |
| Engine.SnapshotIsOpaque | src/client_handler.py:107-108 | the snapshot is 88 bytes, starts with `REDIS`, and decodes to the IGNORE marker |
| Engine.SnapshotHeader | src/client_handler.py:109-110 | the snapshot's length header is `$88\r\n` |
| Engine.PsyncFullResync | src/client_handler.py:104-112 | PSYNC ? answers `+FULLRESYNC <replid> <offset>\r\n`, then `$88\r\n` and the snapshot with no trailing CRLF; nothing else changes |
| Engine.PingEcho | src/client_handler.py:42-47 | PING answers `+PONG`; ECHO m answers a bulk string that decodes to m |
| Engine.UnrecognisedVerbs | src/client_handler.py:113-130 | any verb outside the dispatch is skipped with no reply and no state change; `unknown` and `fullresync` answer `$-1` |
| Engine.ShutdownStops | src/client_handler.py:119-122 | SHUTDOWN clears the running flag and answers `+OK` |
| Engine.InfoReports | src/client_handler.py:88-90 | INFO answers one simple string with role, replica count, replication id and offset |
| Engine.InfoDecodes | src/client_handler.py:90 | the INFO reply decodes back to exactly the INFO line, as long as the replication id holds no carriage return |
| Engine.NoCrJoin | src/client_handler.py:90 | joining two pieces without a carriage return gives text that holds neither a carriage return nor a CRLF |
| Connection.FramesAsWritten | src/client_handler.py:20-31 | the framing as written never yields more than one command per buffer, and none when decoding raises |
| Connection.Frames | src/client_handler.py:20-31 | the intended framing never yields more values than the buffer has bytes |
| Connection.FramesBy | src/client_handler.py:20-31 | the framing as written yields at most one command per buffer |
| Connection.AsCommand | src/client_handler.py:34-40 | a command is dispatched exactly when the value is a non-empty list of strings, and then its i-th argument is the i-th element's text; a non-empty string or a list headed by a non-string is skipped; None, an int, the empty string and the empty list raise |
| Connection.Written | src/client_handler.py:132 | a reply is written exactly once, byte for byte; no reply and a raise write nothing |
| Connection.Handle | src/client_handler.py:34-130 | one value through the loop body keeps every TTL key in CACHE and leaves role and id unchanged |
| Connection.Run | src/client_handler.py:34-132 | the command loop keeps every TTL key in CACHE, writes at most one reply per command, and leaves role and id unchanged |
| Connection.Receive | src/client_handler.py:20-132 | handling one buffer keeps every TTL key in CACHE and leaves the role unchanged; with the framing as written it writes at most one reply |
| Connection.Session | src/client_handler.py:11-141 | the read loop keeps every TTL key in CACHE, leaves the role unchanged, and leaves the connection open only while the server is running |
| Connection.RunAdvance | src/client_handler.py:34-132 | the loop's output is what the first i commands wrote, followed by the rest of the loop run from the state they left |
| Connection.PipelinedArraysDroppedAsWritten | src/client_handler.py:22-28 | as written, a buffer with two arrays yields no command at all, whatever follows |
| Connection.OnlyFirstFrameAsWritten | src/client_handler.py:29-31 | as written, with at most one `*` only the first frame is dispatched and the rest of the buffer is dropped |
| Connection.PipelineRoundTrip | src/client_handler.py:20-31 | the intended framing gives back every pipelined value, in order |
| Connection.TwoPings | src/client_handler.py:22-31 | two pipelined PINGs: the code dispatches neither, the intended framing both |
| Connection.TwoPingsAnswered | src/client_handler.py:20-132 | on a connection, two pipelined PINGs get no answer as written and two `+PONG` with the intended framing; nothing else changes |
| Connection.PingHandled | src/client_handler.py:42-44 | the array [PING] is answered `+PONG` and changes nothing |
| Connection.LoneFrame | src/client_handler.py:20-31 | under the intended framing, a buffer holding one frame yields that frame |
| Connection.StarInArgument | src/client_handler.py:22-28 | as written, even a single `ECHO *` is dropped; the intended framing keeps it |
| Connection.SimpleStars | src/utils/utils.py:6-7 | simple strings add a `*` to the encoding only through their own text |
| Connection.PropagatedStars | src/client_handler.py:22 | a propagated command's encoding holds at most one `*` exactly when no argument holds a `*` |
| Connection.PropagatedCommandDecodes | src/client_handler.py:60-64 | what a master sends to a replica is framed, on the replica, as one array that becomes the same list of strings. This needs no CRLF in any argument, and, with the framing as written, no `*` either |
| Connection.ReplicaAppliesPropagatedSet | src/client_handler.py:48-65 | a replica receiving the propagated SET, with or without `px`, ends in exactly the state its own SET gives: the same value, and with `px` the same expiry from its own clock; it answers `$-1` and sends nothing on. The argument conditions are those of `PropagatedCommandDecodes` |
| Connection.ReplicaDropsStarredCommand | src/client_handler.py:22-28 | as written, a replica drops a propagated command one of whose arguments holds a `*`: nothing is stored or answered |
| Connection.SessionAppend | src/client_handler.py:12-16 | reading a then b is reading a and then, if the connection is still open, reading b from the state a left |
| Server.RedisServer.constructor | src/server.py:18-27 | the fields start at their declared defaults |
| Server.RedisServer.Dispatch | src/client_handler.py:39-130 | the fields, reply and propagations after one command are exactly those `Step` gives |
| Server.RedisServer.SetKey | src/client_handler.py:48-65 | SET updates the fields and answers exactly as `Set` specifies |
| Server.RedisServer.SendToSlaves | src/client_handler.py:60-65 | the loop over SLAVES produces exactly `Propagate`'s messages and stops at the first bad port |
| Server.RedisServer.DeleteKey | src/client_handler.py:66-79 | DEL updates the fields and answers exactly as `Del` specifies |
| Server.RedisServer.GetKey | src/client_handler.py:80-87 | GET updates the fields and answers exactly as `Get` specifies |
| Server.RedisServer.Configure | src/client_handler.py:91-103 | REPLCONF updates the fields and answers exactly as `Replconf` specifies |
| Server.RedisServer.HandleFrame | src/client_handler.py:34-40 | one decoded value is dispatched, skipped or fails exactly as `Handle` specifies |
| Server.RedisServer.HandleBuffer | src/client_handler.py:20-132 | one buffer, framed as the source frames it, leaves the fields, the replies, the propagations and the connection state exactly as `Receive` specifies |
| Server.RedisServer.Serve | src/client_handler.py:11-141 | the read loop over successive buffers, framed as the source frames them, behaves exactly as `Session` specifies; it closes once `running` is cleared |

## Left out

- Sockets, `recv`, `sendall` and closing connections. The read loop takes the
  received buffers as a list; replies and replica messages are returned as lists.
- Connection.Run: replies and replica messages are kept in two lists, so the
  interleaving of writes to the client with connections to replicas is not recorded.
- Concurrency: every client runs in its own thread over the shared fields. The model
  runs one connection at a time, so interleavings between threads are not modelled.
- `time.time()` floating-point seconds. The clock is an integer number of
  milliseconds, and `time.time() + ms / 1000` becomes `now + ms`. The comparison
  stays strict.
- UTF-8 `.encode()` and `.decode()` between `str` and `bytes`. Strings are byte
  sequences, so a bulk argument that is not valid UTF-8, which would raise, is not
  modelled.
- Byte range: a byte is a `char` not bounded by 255. Every law is proved for all
  such sequences, and so holds for byte strings.
- Engine.Propagate: every connection to a replica is taken to succeed. In the source
  (src/client_handler.py:63-64, caught at 133-141), a replica that is down or refuses
  the connection raises `ConnectionRefusedError`. That closes the client's connection
  after the value is stored, without `+OK`. `Engine.SetReplies`' `+OK` with numeric
  ports holds only when every replica accepts. Network failures are outside the model.
- Builtins.ParseInt: `int()` also accepts surrounding whitespace and underscores
  between digits. On `str` (src/client_handler.py:56, :63) it also accepts non-ASCII
  Unicode decimal digits, e.g. Arabic-Indic digits. The model accepts only an optional
  sign followed by ASCII digits.
- Builtins.Lower: only ASCII letters are lower-cased. Python's `str.lower` also folds
  other letters, e.g. KELVIN SIGN to `k`, so such a spelling of a verb is skipped in
  the model but dispatched by the source.
- Connection.Frames: the intended framing decodes what is in one buffer. A frame cut
  off at the end of a buffer is not kept for the next read; it is decoded from the
  bytes present, as `decode_resp` does.
- Connection.AsCommand: a list whose first element is a string but a later element
  is not (an integer, None or a nested list) closes the connection in the model. The
  source would go on dispatching with that element, and `str()` would be applied to
  it in some branches.
- `encode_resp` of a type it does not know (its TypeError). The datatype of values
  has only the five encodable kinds.
- `server.shutdown()` also closes the listening socket. That is I/O, and the model
  assumes the listener exists.
- The replication handshake (`src/replication.py`), the listener and argument parsing
  in `src/server.py`, the command-line client, log formatting,
  `identify_running_threads` and all logging. None of these is part of this model.

## Findings

| source | as written | input that shows it | evidently intended | confidence | as-written member | corrected member |
|---|---|---|---|---|---|---|
| src/client_handler.py:22-31 | With more than one `*` in a buffer, the buffer is split on `*` and every piece is skipped, because a piece is `bytes` and never a `list`. With at most one `*`, only the first frame is decoded and the rest of the buffer is dropped (`Connection.PipelinedArraysDroppedAsWritten`, `Connection.OnlyFirstFrameAsWritten`). | Two pipelined `*1\r\n$4\r\nPING\r\n` frames in one buffer give no reply at all (`Connection.TwoPings`, `Connection.TwoPingsAnswered`). A lone `ECHO *` is dropped too (`Connection.StarInArgument`). So is a propagated SET whose key or value holds a `*`, on the replica (`Connection.ReplicaDropsStarredCommand`). | Decode frame after frame, each from the previous remainder, and dispatch every command in order (`Connection.PipelineRoundTrip`). A frame that fails to decode closes the connection after the frames before it have run. | high; not executed | Connection.FramesAsWritten | Connection.Frames |

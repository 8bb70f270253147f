# "Can We Talk?" chat system: a Dafny model of its core

The system is a small TCP chat program in C. A client (`chat-client`) starts
with `-user<id> -server<name>`. It then reads lines from the terminal. It cuts
each line into 40-character parcels and writes every parcel as an envelope
`[id] >> parcel`. The server (`chat-server`) keeps a table of ten client
sockets and runs one handler thread per client. Each handler does three things:

- It reads the envelope back with one `sscanf` pattern.
- It formats a fixed-width line holding the text of the global `IP`, the tag, the body and the time.
- It writes that line, marked `<<`, to every other client, and an echo, marked
  `>>`, to the sender.

The model covers this sequential core:

- `text.dfy` (module `Text`) holds the C-string helpers: `isspace`, the
  `printf` field padding, and the `snprintf` cut.
- `client.dfy` (module `Client`) holds the argument checks of the client's
  `main`, the parcel and envelope send loop, and the `char message[48]` buffer
  the envelope is built in with `strcpy`/`strcat`.
- `server_text.dfy` (module `ServerText`) holds the `sscanf` pattern
  `"[%5[^]]]%*[^>]>> %40[^\n]"` as a total function, directive by directive,
  and the two `snprintf` layouts.
- `registry.dfy` (module `Registry`) holds the class `ChatServer`. Its fields
  are the `userList` slots, an `array<int>` where -1 marks a free slot, and
  `numClients`. It covers `initializeArray`, `updateArray`, `writeToClients`,
  the accept loop, and the handler's shutdown.
- `protocol.dfy` (module `Protocol`) holds what the server's scan recovers from
  what the client writes.
- `relay.dfy` (module `Relay`) holds the handler thread `socketThread`, over
  the buffers its reads produce.

Some facts about the code that a reader of the protocol might not expect:

- The client cuts lines at fixed 40-character offsets. It does not look for
  word boundaries.
- The line relayed to the other clients carries `<<` and the echo to the sender
  carries `>>`.
- The tag is right-justified (`%5s`). Both lines wrap the time in parentheses.
- No lock guards the table or the counter.
- A handler stops only on a buffer that is exactly `>>bye<<`, not on end of
  stream. It never frees its slot.

## Model

| member | source | states |
|---|---|---|
| Client.CheckArguments | chat-client/src/tcpip-client.c:27-58 | Any argument count other than three (`argc != 3`) exits with 1. Every exit has code 1. Start-up succeeds exactly when the `-user` and `-server` values are non-empty and the user id has at most 5 characters. The started client name is then the user id, unshortened, with 1 to 5 characters. |
| Client.TwoArguments | chat-client/src/tcpip-client.c:33-43 | The argument loop leaves in each buffer the value of the later argument that names it. `-user` is tested before `-server`. |
| Client.UsualInvocation | chat-client/src/tcpip-client.c:33-58 | `-user<id> -server<name>`, in either order, yields exactly that id and that server. |
| Client.Parcels | chat-client/src/tcpip-client.c:164-170 | Every chunk is non-empty with at most `size` characters. Every chunk but the last has exactly `size`. |
| Client.ParcelsConcat | chat-client/src/tcpip-client.c:164-170 | The chunks, joined in order, are the input line. |
| Client.ParcelCount | chat-client/src/tcpip-client.c:165 | There are ceil(len/size) chunks. There are none exactly when the line is empty. |
| Client.ParcelSpan | chat-client/src/tcpip-client.c:165-168 | (count-1)·size < len ≤ count·size. |
| Client.ParcelAt | chat-client/src/tcpip-client.c:165-170 | Chunk k is `line[k·size .. min(k·size+size, len)]`. |
| Client.WrapAt | chat-client/src/tcpip-client.c:172-176 | Message k is the envelope of chunk k. |
| Client.Envelope | chat-client/src/tcpip-client.c:172-175 | An envelope has 6 + len(name) + len(chunk) characters. |
| Client.StrCat | chat-client/src/tcpip-client.c:173-175 | `strcat` appends the source after the string in the buffer and puts the NUL after it. The earlier characters stay. |
| Client.ComposeMessage | chat-client/src/tcpip-client.c:172-175 | `strcpy` plus three `strcat`s leave exactly the envelope, NUL-terminated, in the buffer. |
| Client.MessageSizeBound | chat-client/src/tcpip-client.c:20 | An envelope and its NUL fit `message[48]` exactly when len(name) + len(chunk) ≤ 41. |
| Client.MessageOverflow | chat-client/src/tcpip-client.c:20 | A 5-character name with a 40-character chunk needs 52 bytes, more than 48. |
| Client.EveryMessageFits | chat-client/src/tcpip-client.c:152-176 | Every message written for a line, the quit message included, fits a 52-byte buffer. |
| Client.SendLine | chat-client/src/tcpip-client.c:152-178 | The loop stops the client exactly when the line is `>>bye<<`. It writes exactly `LineMessages`: the one quit envelope, or the envelopes of the parcels in order. The messages are built in a `char` array with the `strcpy`/`strcat` steps. The array has the corrected 52 bytes, not 48. |
| Client.NothingAfterQuit | chat-client/src/tcpip-client.c:152-160 | Lines typed after `>>bye<<` are never sent. The quit token contributes exactly one envelope. |
| Client.RunClient | chat-client/src/tcpip-client.c:137-178 | The `while (done)` loop consumes lines up to and including the first `>>bye<<`, or all lines. It writes exactly the transcript of the consumed lines. |
| ServerText.SpanNot | chat-server/src/tcpip-server.c:128 | A `%N[^c]` directive ends within its width and the input. |
| ServerText.SpanNotStops | chat-server/src/tcpip-server.c:128 | A `%N[^c]` run holds no stop character. It ends early only at a stop character. |
| ServerText.SpanNotIs | chat-server/src/tcpip-server.c:128 | The end of a `%N[^c]` run is unique: any position with those properties is it. |
| ServerText.SkipSpaceStops | chat-server/src/tcpip-server.c:128 | The blank after `>>` skips only `isspace` characters. It stops at the first other character. |
| ServerText.SkipSpaceIs | chat-server/src/tcpip-server.c:128 | The end of the skipped white space is unique. |
| ServerText.ScanEnvelope | chat-server/src/tcpip-server.c:128 | The tag is stored exactly when the input starts with `[` and a character other than `]`. The body is stored only if the tag is. The tag has 1-5 characters and the body 1-40. |
| ServerText.ScanShape | chat-server/src/tcpip-server.c:128 | A stored tag has no `]`. A stored body has no newline and does not start with white space. |
| ServerText.ScanComplete | chat-server/src/tcpip-server.c:128 | Every input shaped `[` + 1-5 non-`]` + `]` + ≥1 non-`>` + `>>` + white space + 1-40 non-newline characters (+ newline or anything after a full 40) scans to exactly its tag and body. |
| ServerText.ScanSound | chat-server/src/tcpip-server.c:128 | Every input from which the scan stores a body has that shape. The tag and body it stores are the frame's. |
| ServerText.FormatLine | chat-server/src/tcpip-server.c:136-140 | The line is the layout cut to the 78 characters `message[79]` holds. |
| Text.PadRight | chat-server/src/tcpip-server.c:136 | `%-Ns` yields max(len, N) characters: the string, then spaces. |
| Text.PadLeft | chat-server/src/tcpip-server.c:136 | `%Ns` yields max(len, N) characters: spaces, then the string. |
| Text.Truncate | chat-server/src/tcpip-server.c:136 | `snprintf` keeps the first min(len, n) characters. |
| ServerText.LeadColumns | chat-server/src/tcpip-server.c:136 | `%-15s [%5s] ` puts the `IP` text in 0-14 and the tag in 17-21. Together they take 24 characters. |
| ServerText.TrailColumns | chat-server/src/tcpip-server.c:136 | ` %-40s (%s)` puts the body in 1-40 and the time in 43-50, in parentheses. Together they take 52 characters. |
| ServerText.FixedColumns | chat-server/src/tcpip-server.c:136-140 | Take an `IP` text ≤ 15, a tag ≤ 5, a body ≤ 40 and an 8-character time. Then both lines have exactly 78 characters and every field sits in its fixed columns. |
| ServerText.ArrowIsTheOnlyDifference | chat-server/src/tcpip-server.c:136-140 | The relayed line and the echo have the same length. The relayed one has `<<` at 24-25 and the echo `>>`. They agree everywhere else. |
| Protocol.EnvelopeRoundTrip | chat-server/src/tcpip-server.c:128 | The scan reads back the client's envelope as exactly its name and chunk. This holds for a 1-5 character name without `]` and a 1-40 character chunk without newline or leading white space. |
| Protocol.LeadingSpaceLost | chat-server/src/tcpip-server.c:128 | A chunk starting with a space comes back without it. |
| Protocol.BodiesOfWrap | chat-server/src/tcpip-server.c:128 | The scan reads back every envelope of a run of readable chunks as its chunk. |
| Protocol.LineRoundTrip | chat-client/src/tcpip-client.c:164-176 | The bodies the server reads out of a line's messages, joined, are the line. This needs a readable name, no newline, and no parcel starting with white space. |
| Protocol.TranscriptStartsWithBracket | chat-client/src/tcpip-client.c:154-175 | Every message the client writes starts with `[`. |
| Protocol.ClientNeverSendsBareQuit | chat-client/src/tcpip-client.c:152-158 | No message the client writes is the bare `>>bye<<`. |
| Protocol.QuitEnvelopeScan | chat-server/src/tcpip-server.c:124-128 | The quit envelope is not `>>bye<<`. It scans as the client's name with the body `>>bye<<`. |
| Registry.Find | chat-server/src/tcpip-server.c:179-181 | The result is the first slot holding the value, or the table size when no slot does. |
| Registry.OccupiedUpdate | chat-server/src/tcpip-server.c:176-188 | Writing one slot changes the count of occupied slots by what it held and what it holds now. |
| Registry.OccupiedBound | chat-server/src/tcpip-server.c:176-188 | At most 10 slots are occupied. Fewer than all are occupied exactly when a free slot exists. |
| Registry.OccupiedNone | chat-server/src/tcpip-server.c:160-167 | An all-free table counts no client. |
| Registry.InsertSlots | chat-server/src/tcpip-server.c:176-188 | `updateArray` fills the lowest free slot and leaves every other slot alone. It leaves a full table unchanged. |
| Registry.InsertCounts | chat-server/src/tcpip-server.c:176-188 | Storing a socket in a table with room adds exactly one occupied slot. |
| Registry.FreedSlotReused | chat-server/src/tcpip-server.c:176-188 | After a slot is freed, the next `updateArray` takes that slot or a lower one. It takes that slot when all lower slots are in use. |
| Registry.RecipientsExactly | chat-server/src/tcpip-server.c:198-207 | The receiving slots are exactly the occupied slots that are not the sender's, each once, in increasing order. |
| Registry.FanoutExactly | chat-server/src/tcpip-server.c:198-207 | `writeToClients` issues one write per receiving slot, in slot order, each with the message. |
| Registry.FanoutSkipsSender | chat-server/src/tcpip-server.c:198-207 | No write goes to the sender or to a free slot. Every write goes to a socket in the table. |
| Registry.FanoutSize | chat-server/src/tcpip-server.c:198-207 | The number of writes does not depend on the message. |
| Registry.ChatServer.constructor | chat-server/src/tcpip-server.c:11-12 | The zero-initialised globals: all slots 0, count 0. |
| Registry.ChatServer.InitializeArray | chat-server/src/tcpip-server.c:160-167 | Every slot holds -1 and no slot counts as occupied. |
| Registry.ChatServer.UpdateArray | chat-server/src/tcpip-server.c:176-188 | The slots become `Insert(old, sock)`. The count rises by one exactly when a free slot existed. Agreement between count and table is kept. |
| Registry.ChatServer.WriteToClients | chat-server/src/tcpip-server.c:198-207 | The writes are exactly `Fanout` of the current slots. Nothing is changed. |
| Registry.ChatServer.AcceptLoop | chat-server/src/tcpip-server.c:57-88 | Accepted sockets fill the table in turn. The loop ends at a count of 10 or at a failed `accept`. From a consistent table the count rises by the number accepted. |
| Registry.ChatServer.Disconnect | chat-server/src/tcpip-server.c:147-148 | As written, the count drops by one and the table is untouched. |
| Registry.ChatServer.Release | chat-server/src/tcpip-server.c:147-148 | Corrected shutdown: the socket's slot is freed and the count drops by one. Agreement between count and table is kept. |
| Registry.StaleSlotDuplicates | chat-server/src/tcpip-server.c:147-148 | Socket 4 joins, leaves, and a new client gets descriptor 4. As written, a third client's message then reaches socket 4 twice. |
| Registry.ReleasedSlotDeliversOnce | chat-server/src/tcpip-server.c:147-148 | With `Release`, the same sequence delivers the message once. |
| Relay.Rescan | chat-server/src/tcpip-server.c:127-128 | Each field the scan converts is overwritten. A field it does not reach keeps its previous value. The tag stays within 5 characters. |
| Relay.SocketThread | chat-server/src/tcpip-server.c:109-151 | The handler writes exactly `Session`. It closes exactly when some buffer meets the stop test. As written it then only decrements the count. With the corrected test it frees the socket's slot and drops the count by one when the socket is in the table. It keeps the count consistent. |
| Relay.WhoHearsWhat | chat-server/src/tcpip-server.c:136-141 | The sender receives only `>>` echoes. Every other write goes to an occupied, non-sender slot and carries a `<<` line. |
| Relay.RelayedSize | chat-server/src/tcpip-server.c:136-141 | One turn writes once to each receiving slot and once to the sender. |
| Relay.BlankParcelRelaysPrevious | chat-server/src/tcpip-server.c:127-141 | The envelope of a one-space parcel scans to no body. The handler keeps the previous body and relays it again under the sender's tag. |
| Relay.EmptyBufferKeepsFields | chat-server/src/tcpip-server.c:127-128 | An empty buffer leaves both fields as they were. |
| Relay.AsWrittenNeverStops | chat-server/src/tcpip-server.c:124 | As written, as long as no buffer is the bare token, every read produces a full turn of writes. |
| Relay.ClosedPeerReplays | chat-server/src/tcpip-server.c:122-145 | As written, after the peer closes, each empty read relays the last fields again. |
| Relay.ClosedPeerEndsCorrected | chat-server/src/tcpip-server.c:124 | With the corrected test, an empty read ends the session with no writes. |
| Relay.QuitRelayedAsWritten | chat-server/src/tcpip-server.c:124-137 | As written, the client's quit envelope is relayed as a chat line with the body `>>bye<<`, and the loop continues. |
| Relay.QuitEndsCorrected | chat-server/src/tcpip-server.c:124 | With the corrected test, the client's quit envelope ends the session and nothing is relayed. |
| Relay.ClientCannotStopAsWritten | chat-server/src/tcpip-server.c:124 | As written, a server fed only what a client writes never stops. Every read produces a full turn of writes. |

## Findings

| source | as written | input that shows it | evidently intended | confidence | as-written member | corrected member |
|---|---|---|---|---|---|---|
| chat-client/src/tcpip-client.c:20 | `char message[48]` holds `[` + name + `] >> ` + chunk + NUL | name `abcde`, a 40-character chunk: 52 bytes into 48 | the buffer holds any envelope the send loop builds (52 bytes) | not executed | Client.MessageOverflow | Client.EveryMessageFits |
| chat-server/src/tcpip-server.c:124 | the handler stops only on a buffer equal to `>>bye<<` | the client's quit message `[ann] >> >>bye<<` | the body `>>bye<<` ends the session | not executed | Relay.QuitRelayedAsWritten | Relay.QuitEndsCorrected |
| chat-server/src/tcpip-server.c:144 | `read` returning 0 is not checked; the loop goes on with an empty buffer | any client that closes its socket | end of stream ends the session | not executed | Relay.ClosedPeerReplays | Relay.ClosedPeerEndsCorrected |
| chat-server/src/tcpip-server.c:148 | shutdown decrements `numClients` but never frees the slot | client on socket 4 leaves; the next client is given descriptor 4 | the slot is reset to -1 | not executed | Registry.StaleSlotDuplicates | Registry.ReleasedSlotDeliversOnce |

## Left out

- Sockets, name resolution, ncurses windows and the client's receive thread are left out. An input line is a parameter, and a `write` is one element of a written sequence.
- One `write` is read by exactly one `read`. TCP may merge or split writes, and that is not modelled.
- Threads run one at a time. The real handlers and the accept loop share `userList`, `numClients` and `IP` without a lock.
- `time`/`localtime`/`strftime` and `inet_ntop` become parameters (`time`, `ip`).
- `IP` is not the peer's address. Line 69 passes the whole `struct sockaddr_in` to `inet_ntop`, so `IP` is the dotted text of its first four bytes: the address family and the port. It is one global, overwritten by every `accept`. The `ip` parameter stands for whatever string `IP` holds when a line is formatted.
- `userInfo.socket` is declared `int *` but holds descriptors. It is modelled as an `int`, with -1 for a free slot.
- `userInfo.ip` is never written and is left out.
- `main`'s exit codes 1-3 and 5 are left out. They come from `socket`, `bind`, `listen` and `pthread_create` failures.
- The `tid` array, the `pthread_join` loop after the chat is full, and the thread's exit value are left out.
- `strcpy` of an argument into `userID[128]`/`serverName[128]` can overflow for a long argument. That is not modelled: strings are unbounded.
- A `read` that fills all `BUFSIZ` bytes leaves the buffer without a terminator. That is not modelled: a buffer is the C string it holds.
- Client.CheckArguments: a buffer no argument sets reads as empty. In C it is uninitialised.
- Relay.Rescan: the `userID`/`msg` arrays a conversion does not reach keep the previous turn's contents. In C they are indeterminate. The first turn's values are a parameter.
- Relay.SocketThread: the table does not change while the handler runs. In the program other threads may register clients meanwhile.
- Registry.ChatServer.AcceptLoop: no handler leaves while the loop runs. The list of accepted descriptors is finite.
- Client.RunClient: the user types a finite list of lines.
- Protocol.LineRoundTrip: this round trip needs every parcel to start with a character other than white space. Protocol.LeadingSpaceLost shows the scan drops such a space. A parcel made only of white space, such as the line ` ` or the last parcel of a 41-character line that ends in a space, gives no body at all. The handler then relays the previous body again (Relay.BlankParcelRelaysPrevious).
- Failed writes and `SIGPIPE` are not modelled. A write is an append to the written sequence. In the program, the echo to a closed peer raises `SIGPIPE`, which nothing ignores, and that ends the whole server. So the endless replay after a close (Relay.ClosedPeerReplays) lasts only until that write.
- Client.SendLine: the messages are built in a 52-byte buffer (`MessageCapacity`), not the program's `message[48]`. The overflow of the 48-byte buffer is the first finding.

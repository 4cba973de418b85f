# SOCKS5 bytestreams (XEP-0065, mediated connection) in SleekXMPP — a Dafny model

This project models the core of SleekXMPP's `xep_0065` plugin, which sets up a SOCKS5
bytestream between two XMPP peers through a proxy (XEP-0065 section 5.3, the mediated
connection). The plugin's docstring calls it "In-Band Bytestreams", but it is the SOCKS5
protocol. Three parts are modelled and proved:

- **Message reassembly (`Proxy.recv_size`).** The relayed stream carries messages behind
  a four-byte big-endian length. The socket is a queue of chunks. `Sockets.Recv` returns
  the next chunk when it fits the requested size. A longer chunk is split and its tail
  stays queued. When the queue is empty the model reports `Exhausted`, where the source
  would block or spin forever. `FrameReader.ReceiveFrame` is the Python loop over the
  same variables (`size_data`, `total_data`, `size`, `recv_size`, `total_len`).
  `FrameReader.RecvSize` is the same loop as a recursive function. Each outcome records
  every read made: the size asked for and the bytes returned.
- **Proxy discovery (`discover_proxy`).** The server's `disco#items` are walked in order.
  The result is the `from` of the first `disco#info` answer that lists a
  `proxy`/`bytestreams` identity. The discovery queries are function parameters whose
  answer is `None` when the query gets an error reply or no reply. Nothing in
  `discover_proxy` catches the exception such a query raises, so the model ends
  discovery with `QueryFailed` at the first failing query, even when a later item is a
  proxy.
- **Circuit key and role wiring.** `Proxy.run` hashes the session id, then the requester
  JID, then the target JID, and connects to that hex digest on port 0. Under section 5 of
  RFC 1928 the digest travels as a domain-name address. XEP-0065 section 5.3.2 calls it
  DST.ADDR. SHA-1 is a function parameter with no properties assumed. The target handler
  and the requester handler build the (sid, requester, target) triple from different
  local views. The model proves that both feed the hash the same text. It also models
  `send`'s choice of thread.

The messages' four-byte length prefix is this plugin's own framing, not part of XEP-0065.
Quirks of `recv_size` that the model keeps:

- The length prefix is read with `'>i'`, a **signed** 32-bit number, not an unsigned one.
  A first byte of 0x80 or more gives a negative length. The loop then exits right after
  the read that parsed the prefix (`RecvSizeNonPositiveLength`).
- The prefix is parsed only when **one** `recv` returns more than four bytes. Shorter
  reads only grow `size_data`, even past four bytes. When a peer's data arrives in chunks
  of four bytes or fewer, every chunk is received and appended to `size_data`, but no
  message is ever returned (`RecvSizeShortReads`). A message of length zero is never
  returned (`RecvSizeEmptyMessage`).
- Bytes past the declared length are not held back. A read that carries the start of the
  next message puts those bytes into the current payload (`RecvSizeKeepsOverRead`).

## Model

| member | source | states |
|---|---|---|
| `Bytes.DecodeInt32` | sleekxmpp/plugins/xep_0065/proxy.py:281 | `'>i'` reads four bytes as a signed big-endian number: the result lies in [-2^31, 2^31), equals the unsigned reading or that reading minus 2^32, and is negative exactly when the first byte is 0x80 or more |
| `Bytes.DecodeEncodeInt32` | sleekxmpp/plugins/xep_0065/proxy.py:281 | decoding the four-byte two's complement layout of any 32-bit signed `n` gives back `n` |
| `Bytes.EncodeDecodeInt32` | sleekxmpp/plugins/xep_0065/proxy.py:281 | every four-byte prefix is the layout of the length it decodes to, so `'>i'` loses nothing |
| `Sockets.Recv` | sleekxmpp/plugins/xep_0065/proxy.py:277 | `recv(n)` returns at most `n` bytes taken from the front of the pending stream; a chunk that fits is returned whole and dequeued; the socket moves strictly forward; nothing is returned only when no chunk is queued |
| `FrameReader.ReceiveFrame` | sleekxmpp/plugins/xep_0065/proxy.py:268-291 | the loop over `size_data`, `total_data`, `size` and `recv_size` has the same outcome and read trace as the recursive model `RecvSize` |
| `FrameReader.Step` | sleekxmpp/plugins/xep_0065/proxy.py:277-290 | definition of the loop body after one `recv`; characterised by `StepParsesPrefix` and `ReplayShape` |
| `FrameReader.StepParsesPrefix` | sleekxmpp/plugins/xep_0065/proxy.py:279-285 | the read that parses the prefix loses nothing: `size_data` plus that read is the `'>i'` layout of the declared length followed by the new `total_data` |
| `FrameReader.Reassemble` | sleekxmpp/plugins/xep_0065/proxy.py:270-291 | definition of the loop from a given state; characterised by `ReassembleConserves`, `ReassembleReads`, `ReassembleEnd` and `ReassembleWholeChunks` |
| `FrameReader.RecvSize` | sleekxmpp/plugins/xep_0065/proxy.py:268-291 | definition of one `recv_size` call; characterised by the `RecvSize*` lemmas below and matched by `ReceiveFrame` |
| `FrameReader.ReplayShape` | sleekxmpp/plugins/xep_0065/proxy.py:276-290 | after any reads, the prefix is still unparsed exactly when no single read returned more than four bytes, and `size_data` is then everything read; once parsed, `size` is the first four bytes read as `'>i'` and the payload is everything read after those four bytes |
| `FrameReader.ReassembleConserves` | sleekxmpp/plugins/xep_0065/proxy.py:276-291 | the bytes read by the loop, followed by the bytes left on the socket, are exactly the bytes that were pending |
| `FrameReader.ReassembleReads` | sleekxmpp/plugins/xep_0065/proxy.py:274-284 | each read asks for the `recv_size` of the state it is made in and gets no more, and no state before a read had ended the loop |
| `FrameReader.ReassembleEnd` | sleekxmpp/plugins/xep_0065/proxy.py:276-291 | a returned message is the payload of a state in which `total_len >= size`; a socket that runs dry leaves the loop in a state with `total_len < size` |
| `FrameReader.ReassembleWholeChunks` | sleekxmpp/plugins/xep_0065/proxy.py:274-287 | a call from an unparsed prefix that runs the socket dry, with no read over four bytes, read exactly the queued chunks, one whole chunk per read (a longer chunk would be split at 8192, but then the prefix is parsed) |
| `FrameReader.RecvSizeFrame` | sleekxmpp/plugins/xep_0065/proxy.py:276-291 | a returned message means some single read returned more than four bytes; the message is every byte read except the first four, nothing dropped past the declared length; it is at least the declared length long; the loop did not exit earlier |
| `FrameReader.RecvSizeExhausted` | sleekxmpp/plugins/xep_0065/proxy.py:276-289 | a call that runs the socket dry has read every pending byte; either no read parsed the prefix and the reads were the queued chunks, or the payload stayed shorter than the declared length |
| `FrameReader.RecvSizeRequests` | sleekxmpp/plugins/xep_0065/proxy.py:274-284 | each read asks for 8192 bytes until a read has returned more than four bytes, and for the declared length capped at 524288 afterwards |
| `FrameReader.RecvSizeRoundTrip` | sleekxmpp/plugins/xep_0065/proxy.py:270-291 | a stream holding exactly the four-byte length `N < 2^31` and `N` payload bytes, with some chunk over four bytes, yields the payload and leaves nothing pending |
| `FrameReader.RecvSizeShortReads` | sleekxmpp/plugins/xep_0065/proxy.py:278-287 | chunks of at most four bytes never trigger the prefix parse, however long `size_data` grows: each read asks for 8192 bytes, takes one chunk, and no message is returned |
| `FrameReader.RecvSizeEmptyMessage` | sleekxmpp/plugins/xep_0065/proxy.py:276-287 | a stream holding only a zero length prefix never yields a message |
| `FrameReader.RecvSizeNonPositiveLength` | sleekxmpp/plugins/xep_0065/proxy.py:276-290 | when the declared length is zero or negative, the read that parses the prefix is the last read of the call |
| `FrameReader.RecvSizeKeepsOverRead` | sleekxmpp/plugins/xep_0065/proxy.py:279-291 | a single chunk holding a message followed by further bytes is returned whole: the further bytes end up in the payload |
| `ProxyThread.CircuitPreimage` | sleekxmpp/plugins/xep_0065/proxy.py:240-243 | the three `update` calls feed the digest the session id, then the requester JID, then the target JID, with no separators |
| `ProxyThread.ConnectPlan` | sleekxmpp/plugins/xep_0065/proxy.py:234-249 | `run` asks to connect through the thread's proxy host and port, to the hex SHA-1 of sid, requester and target as a host name, on port 0 |
| `ProxyThread.SendAll` | sleekxmpp/plugins/xep_0065/proxy.py:293-297 | `sendall` writes the whole message after everything sent before |
| `ProxyThread.PreimageIgnoresFieldBoundaries` | sleekxmpp/plugins/xep_0065/proxy.py:238-243 | without separators, two different triples can hash the same text: moving bytes from the requester JID to the end of the session id leaves the preimage unchanged |
| `Plugin.HasProxyIdentity` | sleekxmpp/plugins/xep_0065/proxy.py:93-95 | the identity loop finds a match exactly when some identity has category `proxy` and type `bytestreams` |
| `Plugin.SearchProxy` | sleekxmpp/plugins/xep_0065/proxy.py:88-97 | the item loop meets `DescribesSearch`: no proxy exactly when every item's query is answered and no answer lists a proxy identity; otherwise the first item whose query fails or whose answer lists one decides, by the failure or by that answer's `from` |
| `Plugin.DescribedSearchIsUnique` | sleekxmpp/plugins/xep_0065/proxy.py:88-97 | the stated outcome of the item loop is a single outcome: no two outcomes meet `DescribesSearch` |
| `Plugin.DiscoverProxy` | sleekxmpp/plugins/xep_0065/proxy.py:78-97 | a failing `get_items` to the server ends discovery before any item is queried; otherwise the outcome is the one `DescribesSearch` states for the server's items |
| `Plugin.QueriedJids` | sleekxmpp/plugins/xep_0065/proxy.py:86-97 | `get_info` is called on the item JIDs in order, up to and including the first item whose query fails or whose answer lists a proxy, or on all items when there is none |
| `Plugin.SearchReadsOnlyQueried` | sleekxmpp/plugins/xep_0065/proxy.py:88-97 | items after the stop are never queried: answers that agree on the queried JIDs give the same outcome and the same queries |
| `Plugin.SearchAnswersLastQuery` | sleekxmpp/plugins/xep_0065/proxy.py:88-97 | the loop stops at the item it queried last: it ends without a proxy exactly when that item neither failed nor advertised, and otherwise that item's failure or answer decides |
| `Plugin.ChooseStreamer` | sleekxmpp/plugins/xep_0065/proxy.py:55 | a non-empty given streamer is used as is; otherwise discovery decides, including a failing query that raises out of `handshake` |
| `Plugin.Handshake` | sleekxmpp/plugins/xep_0065/proxy.py:54-76 | the handshake records the proxy and its address, leaves the threads alone, and offers the target exactly that proxy with the new session id |
| `Plugin.HandleStreamhost` | sleekxmpp/plugins/xep_0065/proxy.py:110-139 | the target records the offered proxy, starts its thread for (sid, offer sender, own JID) through that proxy, leaves the requester thread alone, and replies with the sid and the proxy's JID |
| `Plugin.HandleStreamhostUsed` | sleekxmpp/plugins/xep_0065/proxy.py:141-175 | the requester fails exactly when it has no recorded proxy; otherwise it starts its thread for (sid, own JID, reply sender) through the recorded proxy, changes nothing else, and asks that proxy to activate the sid towards the reply sender |
| `Plugin.RolesAgreeOnCircuit` | sleekxmpp/plugins/xep_0065/proxy.py:119-153 | when each peer's own JID is the other's view of it and the sids agree, both threads hash the same text, sid then requester then target, and connect to the same destination |
| `Plugin.ExchangeConnectsBothLegs` | sleekxmpp/plugins/xep_0065/proxy.py:55-175 | after handshake, offer and reply, both threads ask to connect through the same proxy to the hex SHA-1 of sid, requester JID and target JID on port 0, and activation names the target |
| `Plugin.ActiveThread` | sleekxmpp/plugins/xep_0065/proxy.py:183-186 | definition of the thread `send` writes to, the requester thread before the target thread; characterised by `Send` and `SendsAppendInOrder` |
| `Plugin.Send` | sleekxmpp/plugins/xep_0065/proxy.py:177-186 | a message is written whole to the requester thread if present, else to the target thread, else nowhere; nothing else changes |
| `Plugin.SendsAppendInOrder` | sleekxmpp/plugins/xep_0065/proxy.py:177-186 | consecutive sends from one caller reach the same thread, each message whole and after the previous one; with no thread nothing changes |
| `Plugin.ExchangeRoutesSends` | sleekxmpp/plugins/xep_0065/proxy.py:146-186 | after the exchange the requester's sends go to its new thread; the target's go to its new thread only if it has no requester thread left from a session it started |

## Left out

- Threads and synchronisation: `Thread`, the `connected` event and its `wait()`, and the
  `select` loop in `listen`. The model is sequential: each handler is one function.
- Plugin.SendsAppendInOrder, Plugin.Send: concurrent sends are not modelled. Neither
  `send` nor `Proxy.send` takes a lock, and `sendall` may write a long message in several
  pieces, so two threads sending at once can interleave their bytes on the wire.
- Plugin.HandleStreamhost, Plugin.HandleStreamhostUsed, Plugin.ExchangeConnectsBothLegs:
  the model assumes the thread's `connect` succeeds. In the source a failing `connect`
  (or the hashing error below) ends `run` before `connected.set()`, so the handler's
  `connected.wait()` blocks forever and no streamhost-used reply or activation is sent.
- `listen` calling `recv_size` again and again and passing each result to `on_recv`. One
  call is modelled. The default callback `_handle_on_recv` only logs.
- The SOCKS5 negotiation inside `socksocket`, `setproxy` and `connect`. It is a foreign
  library. `ConnectPlan` gives the relay address and destination that `run` hands to it.
- SHA-1. The hex digest is the parameter `sha1Hex`, with no properties assumed. The
  preimage is modelled as text. The byte encoding `hashlib` applies to it is not modelled,
  nor its failure: a `unicode` JID with non-ASCII characters raises `UnicodeEncodeError`
  under the implicit ASCII encoding and ends `run`.
- `uuid4().hex` session ids, which are random. The sid is a parameter.
- `int(proxy_port)`. Ports are integers throughout the model.
- Building, sending and answering stanzas (`Iq`, `iq.send()`, `iq.reply()`,
  `registerHandler`, `plugin_init`), and `get_network_address`. The proxy's address reply
  is the `address` parameter of `Handshake`. Replies and the activation request are
  modelled as records of the fields these routines set. Their `from` is the sending
  client's bound JID, which the server stamps on them. The end-to-end lemmas rely on that
  stamping.
- `handshake` when discovery finds nothing. The source then goes on with `None` as the
  streamer, and what follows happens in the stanza layer. `Handshake` takes the chosen
  streamer; `ChooseStreamer` gives the choice. When a discovery query fails, the
  exception leaves `handshake` at once; that is `QueryFailed`, and nothing further is
  modelled for it.
- Which of an error reply and a timeout a failing discovery query saw. Both are `None`.
- Logging.
- EOF and socket errors. At EOF the source's `recv` keeps returning the empty string and
  the loop spins. The model reads an empty chunk as one empty read, and stops with
  `Exhausted` when no chunk is left.
- The loop's `total_len` is kept as the length of the joined pieces rather than a sum
  over them; the two are equal.

/**
  `Proxy.recv_size`: reassembles one message from the relayed byte stream, whose first
  four bytes give the message length. The model keeps the routine's quirks:
  - the length prefix is parsed only when ONE `recv` returns more than four bytes;
    short reads are merely appended to `size_data`, however long it has grown;
  - the prefix is read as a signed big-endian 32-bit number (`'>i'`);
  - bytes read beyond the declared length are kept in the result.
 */
module FrameReader {
  import opened Wrappers
  import opened Bytes
  import opened Sockets

  /** `recv_size` before the prefix is parsed. */
  const PrefixRecvSize: int := 8192
  /** Cap on `recv_size` once the declared length is known. */
  const MaxRecvSize: int := 524288
  /** `sys.maxint` on a 64-bit Python 2, the initial `size`. */
  const MaxInt: int := 0x7FFF_FFFF_FFFF_FFFF
  /** Width of the length prefix. */
  const PrefixLength: int := 4

  /**
    The loop's state: before the prefix is parsed (`total_data` is still the empty list)
    only `size_data` matters; afterwards the declared `size` and the payload collected so far.
   */
  datatype ReaderState =
    | AwaitingPrefix(sizeData: seq<byte>)
    | ReadingPayload(size: int, totalData: seq<byte>)

  /** One call of `the_socket.recv(request)` and the bytes it returned. */
  datatype Read = Read(request: int, data: seq<byte>)

  /**
    The result of one `recv_size` call: the reassembled message, every read made, and the
    socket left behind; or the reads made before the socket ran dry without the loop
    exiting (the source then waits forever).
   */
  datatype Outcome =
    | Frame(payload: seq<byte>, trace: seq<Read>, rest: Socket)
    | Exhausted(trace: seq<Read>)

  function Cap(size: int): int {
    if size > MaxRecvSize then MaxRecvSize else size
  }

  /** The `recv_size` variable in a given state. */
  function RequestSize(st: ReaderState): int {
    match st
    case AwaitingPrefix(_) => PrefixRecvSize
    case ReadingPayload(size, _) => Cap(size)
  }

  /** The loop condition `total_len < size` is false. */
  predicate Finished(st: ReaderState) {
    st.ReadingPayload? && |st.totalData| >= st.size
  }

  /** The loop body after `sock_data` has been received. */
  function Step(st: ReaderState, data: seq<byte>): ReaderState {
    match st
    case AwaitingPrefix(sizeData) =>
      if |data| > PrefixLength then
        var sd := sizeData + data;
        ReadingPayload(DecodeInt32(sd[..PrefixLength]), sd[PrefixLength..])
      else
        AwaitingPrefix(sizeData + data)
    case ReadingPayload(size, totalData) => ReadingPayload(size, totalData + data)
  }

  /**
    The read that parses the prefix loses nothing: the bytes seen so far are the
    four-byte `'>i'` layout of the declared length followed by the payload.
   */
  lemma StepParsesPrefix(sizeData: seq<byte>, data: seq<byte>)
    requires |data| > PrefixLength
    ensures var r := Step(AwaitingPrefix(sizeData), data);
      r.ReadingPayload? && sizeData + data == EncodeInt32(r.size) + r.totalData
  {
    var sd := sizeData + data;
    EncodeDecodeInt32(sd[..PrefixLength]);
    assert sd == sd[..PrefixLength] + sd[PrefixLength..];
  }

  /** The state reached from the initial one after receiving `ds`, in order. */
  function Replay(ds: seq<seq<byte>>): ReaderState
    decreases |ds|
  {
    if ds == [] then AwaitingPrefix([]) else Step(Replay(ds[..|ds| - 1]), ds[|ds| - 1])
  }

  /** The bytes returned by each read, in order. */
  function Received(trace: seq<Read>): (ds: seq<seq<byte>>)
    ensures |ds| == |trace|
    ensures forall i :: 0 <= i < |trace| ==> ds[i] == trace[i].data
  {
    seq(|trace|, i requires 0 <= i < |trace| => trace[i].data)
  }

  /** No read returned more than four bytes, so the prefix was never parsed. */
  predicate AllShort(ds: seq<seq<byte>>) {
    forall i :: 0 <= i < |ds| ==> |ds[i]| <= PrefixLength
  }

  /** The bytes still pending on the socket after the call, if it returned. */
  function Leftover(o: Outcome): seq<byte> {
    if o.Frame? then Pending(o.rest) else []
  }

  /** The loop of `recv_size` run from state `st` on socket `sock`. */
  function Reassemble(st: ReaderState, sock: Socket): Outcome
    decreases |Pending(sock)|, |sock.chunks|
  {
    if Finished(st) then Frame(st.totalData, [], sock)
    else
      match Recv(sock, RequestSize(st))
      case None => Exhausted([])
      case Some((data, rest)) =>
        var o := Reassemble(Step(st, data), rest);
        o.(trace := [Read(RequestSize(st), data)] + o.trace)
  }

  /** `recv_size(the_socket)`. */
  function RecvSize(sock: Socket): Outcome {
    Reassemble(AwaitingPrefix([]), sock)
  }

  /** `o` with `earlier` reads made before it. */
  function After(earlier: seq<Read>, o: Outcome): Outcome {
    o.(trace := earlier + o.trace)
  }

  /** One turn of the loop, seen from the whole call: `UnfoldOutcome` with earlier reads. */
  lemma UnfoldReassemble(st: ReaderState, sock: Socket, earlier: seq<Read>)
    requires !Finished(st) && RequestSize(st) > 0 && Recv(sock, RequestSize(st)).Some?
    ensures var (data, rest) := Recv(sock, RequestSize(st)).value;
      After(earlier, Reassemble(st, sock))
      == After(earlier + [Read(RequestSize(st), data)], Reassemble(Step(st, data), rest))
  {
    var (data, rest) := Recv(sock, RequestSize(st)).value;
    var tail := Reassemble(Step(st, data), rest);
    UnfoldOutcome(st, sock);
    assert earlier + ([Read(RequestSize(st), data)] + tail.trace) == (earlier + [Read(RequestSize(st), data)]) + tail.trace;
  }

  /**
    The loop of `recv_size` over the Python variables: `total_data` is a list of pieces and
    `total_len` the sum of their lengths.
   */
  method ReceiveFrame(sock: Socket) returns (o: Outcome)
    ensures o == RecvSize(sock)
  {
    var totalLen := 0;
    var totalData: seq<seq<byte>> := [];
    var size := MaxInt;
    var sizeData: seq<byte> := [];
    var recvSize := PrefixRecvSize;
    var cur := sock;
    var trace: seq<Read> := [];
    ghost var st := AwaitingPrefix([]);
    while totalLen < size
      invariant totalLen == |Flatten(totalData)|
      invariant totalData == [] ==> st == AwaitingPrefix(sizeData) && size == MaxInt
      invariant totalData != [] ==> st == ReadingPayload(size, Flatten(totalData))
      invariant recvSize == RequestSize(st)
      invariant RecvSize(sock) == After(trace, Reassemble(st, cur))
      decreases |Pending(cur)|, |cur.chunks|
    {
      var r := Recv(cur, recvSize);
      if r.None? {
        return Exhausted(trace);
      }
      var (sockData, rest) := r.value;
      UnfoldReassemble(st, cur, trace);
      trace := trace + [Read(recvSize, sockData)];
      cur := rest;
      st := Step(st, sockData);
      if totalData == [] {
        if |sockData| > PrefixLength {
          sizeData := sizeData + sockData;
          size := DecodeInt32(sizeData[..PrefixLength]);
          recvSize := size;
          if recvSize > MaxRecvSize {
            recvSize := MaxRecvSize;
          }
          totalData := totalData + [sizeData[PrefixLength..]];
          assert Flatten(totalData) == sizeData[PrefixLength..] by {
            assert totalData[1..] == [];
          }
        } else {
          sizeData := sizeData + sockData;
        }
      } else {
        FlattenAppend(totalData, [sockData]);
        assert Flatten([sockData]) == sockData by {
          assert [sockData][1..] == [];
        }
        totalData := totalData + [sockData];
      }
      totalLen := |Flatten(totalData)|;
    }
    return Frame(Flatten(totalData), trace, cur);
  }

  // ---------------------------------------------------------------------------
  // What the state after a sequence of reads holds
  // ---------------------------------------------------------------------------

  lemma ReplaySnoc(ds: seq<seq<byte>>, d: seq<byte>)
    ensures Replay(ds + [d]) == Step(Replay(ds), d)
  {
    assert (ds + [d])[..|ds|] == ds;
  }

  /**
    Until some read returns more than four bytes the reader only accumulates them in
    `size_data`; from then on `size` is the first four bytes of everything received, read as
    a signed number, and the payload is everything received after those four bytes.
   */
  lemma {:induction false} ReplayShape(ds: seq<seq<byte>>)
    ensures Replay(ds).AwaitingPrefix? <==> AllShort(ds)
    ensures Replay(ds).AwaitingPrefix? ==> Replay(ds).sizeData == Flatten(ds)
    ensures Replay(ds).ReadingPayload? ==>
      && |Flatten(ds)| > PrefixLength
      && Replay(ds).size == DecodeInt32(Flatten(ds)[..PrefixLength])
      && Replay(ds).totalData == Flatten(ds)[PrefixLength..]
    decreases |ds|
  {
    if ds != [] {
      var init, d := ds[..|ds| - 1], ds[|ds| - 1];
      assert ds == init + [d];
      ReplayShape(init);
      ReplaySnoc(init, d);
      FlattenAppend(init, [d]);
      assert Flatten([d]) == d by {
        assert [d][1..] == [];
      }
      assert AllShort(ds) <==> AllShort(init) && |d| <= PrefixLength by {
        assert forall i :: 0 <= i < |init| ==> ds[i] == init[i];
      }
      var x := Flatten(init);
      assert Flatten(ds) == x + d;
      if Replay(init).ReadingPayload? {
        assert (x + d)[..PrefixLength] == x[..PrefixLength];
        assert (x + d)[PrefixLength..] == x[PrefixLength..] + d;
      }
    }
  }

  /** The outcome of one more turn of the loop, when the loop does not exit and a read succeeds. */
  lemma UnfoldOutcome(st: ReaderState, sock: Socket)
    requires !Finished(st) && sock.chunks != []
    ensures var (data, rest) := Recv(sock, RequestSize(st)).value;
      var o, o' := Reassemble(st, sock), Reassemble(Step(st, data), rest);
      && o == o'.(trace := [Read(RequestSize(st), data)] + o'.trace)
      && Received(o.trace) == [data] + Received(o'.trace)
      && Leftover(o) == Leftover(o')
  {
    var (data, rest) := Recv(sock, RequestSize(st)).value;
    var o' := Reassemble(Step(st, data), rest);
    ReceivedCons(Read(RequestSize(st), data), o'.trace);
  }

  lemma ReceivedCons(r: Read, trace: seq<Read>)
    ensures Received([r] + trace) == [r.data] + Received(trace)
  {
  }

  /** The bytes read, followed by those left on the socket, are the bytes that were pending. */
  lemma {:induction false} ReassembleConserves(st: ReaderState, sock: Socket)
    ensures var o := Reassemble(st, sock);
      Pending(sock) == Flatten(Received(o.trace)) + Leftover(o)
    decreases |Pending(sock)|, |sock.chunks|
  {
    if !Finished(st) && sock.chunks != [] {
      var (data, rest) := Recv(sock, RequestSize(st)).value;
      UnfoldOutcome(st, sock);
      ReassembleConserves(Step(st, data), rest);
      var ds := Received(Reassemble(st, sock).trace);
      assert ds[1..] == Received(Reassemble(Step(st, data), rest).trace);
    }
  }

  /** `prev` followed by the first `i + 1` reads of a turn that read `data` first. */
  lemma ShiftPrefix(prev: seq<seq<byte>>, data: seq<byte>, ds': seq<seq<byte>>, i: int)
    requires 0 <= i <= |ds'|
    ensures prev + ([data] + ds')[..i + 1] == (prev + [data]) + ds'[..i]
  {
    assert ([data] + ds')[..i + 1] == [data] + ds'[..i];
  }

  /** Read `i` of `trace`, made after `prev`, asks for the `recv_size` of its state, gets no more, and the loop had not exited. */
  predicate ReadMade(prev: seq<seq<byte>>, trace: seq<Read>, i: int)
    requires 0 <= i < |trace|
  {
    var st := Replay(prev + Received(trace)[..i]);
    && !Finished(st)
    && trace[i].request == RequestSize(st)
    && |trace[i].data| <= trace[i].request
  }

  lemma ReadMadeLater(prev: seq<seq<byte>>, r: Read, trace: seq<Read>, i: int)
    requires 0 < i <= |trace|
    requires ReadMade(prev + [r.data], trace, i - 1)
    ensures ReadMade(prev, [r] + trace, i)
  {
    assert Received([r] + trace) == [r.data] + Received(trace);
    ShiftPrefix(prev, r.data, Received(trace), i - 1);
  }

  /**
    Each read asks for the `recv_size` of the state it is made in, gets at most that many
    bytes, and is made in a state that does not end the loop.
   */
  lemma {:induction false} ReassembleReads(prev: seq<seq<byte>>, sock: Socket)
    ensures var o := Reassemble(Replay(prev), sock);
      forall i :: 0 <= i < |o.trace| ==> ReadMade(prev, o.trace, i)
    decreases |Pending(sock)|, |sock.chunks|
  {
    var st := Replay(prev);
    if !Finished(st) && sock.chunks != [] {
      var (data, rest) := Recv(sock, RequestSize(st)).value;
      ReplaySnoc(prev, data);
      var prev' := prev + [data];
      UnfoldOutcome(st, sock);
      ReassembleReads(prev', rest);
      var o := Reassemble(st, sock);
      var o' := Reassemble(Replay(prev'), rest);
      var ds := Received(o.trace);
      forall i | 0 <= i < |o.trace|
        ensures ReadMade(prev, o.trace, i)
      {
        if i == 0 {
          assert prev + ds[..0] == prev;
        } else {
          ReadMadeLater(prev, Read(RequestSize(st), data), o'.trace, i);
        }
      }
    }
  }

  /** `o` ends in state `st`: it returns the payload of a finished state, or runs dry in an unfinished one. */
  predicate EndsIn(st: ReaderState, o: Outcome) {
    && (o.Frame? ==> Finished(st) && o.payload == st.totalData)
    && (o.Exhausted? ==> !Finished(st))
  }

  /** The state reached from `st` after receiving `ds`, in order. */
  function Fold(st: ReaderState, ds: seq<seq<byte>>): ReaderState
    decreases |ds|
  {
    if ds == [] then st else Fold(Step(st, ds[0]), ds[1..])
  }

  lemma {:induction false} FoldReplay(prev: seq<seq<byte>>, ds: seq<seq<byte>>)
    ensures Fold(Replay(prev), ds) == Replay(prev + ds)
    decreases |ds|
  {
    if ds == [] {
      assert prev + ds == prev;
    } else {
      ReplaySnoc(prev, ds[0]);
      FoldReplay(prev + [ds[0]], ds[1..]);
      assert (prev + [ds[0]]) + ds[1..] == prev + ds;
    }
  }

  /** A returned message is the payload of the final state; a socket that runs dry leaves the loop unfinished. */
  lemma {:induction false} ReassembleEnd(st: ReaderState, sock: Socket)
    ensures var o := Reassemble(st, sock);
      EndsIn(Fold(st, Received(o.trace)), o)
    decreases |Pending(sock)|, |sock.chunks|
  {
    if !Finished(st) && sock.chunks != [] {
      var (data, rest) := Recv(sock, RequestSize(st)).value;
      UnfoldOutcome(st, sock);
      ReassembleEnd(Step(st, data), rest);
      assert ([data] + Received(Reassemble(Step(st, data), rest).trace))[1..]
          == Received(Reassemble(Step(st, data), rest).trace);
    }
  }

  /** While the prefix is unparsed a read takes a whole chunk, so a run that never parses it reads the chunks as queued. */
  lemma {:induction false} ReassembleWholeChunks(sizeData: seq<byte>, sock: Socket)
    ensures var o := Reassemble(AwaitingPrefix(sizeData), sock);
      o.Exhausted? && AllShort(Received(o.trace)) ==> Received(o.trace) == sock.chunks
    decreases |Pending(sock)|, |sock.chunks|
  {
    var st := AwaitingPrefix(sizeData);
    var o := Reassemble(st, sock);
    var ds := Received(o.trace);
    if sock.chunks != [] && o.Exhausted? && AllShort(ds) {
      var (data, rest) := Recv(sock, RequestSize(st)).value;
      UnfoldOutcome(st, sock);
      assert ds[0] == data;
      assert |sock.chunks[0]| <= RequestSize(st);
      ReassembleWholeChunks(sizeData + data, rest);
      var ds' := Received(Reassemble(Step(st, data), rest).trace);
      assert AllShort(ds') by {
        assert forall i :: 0 <= i < |ds'| ==> ds'[i] == ds[i + 1];
      }
      assert sock.chunks == [sock.chunks[0]] + sock.chunks[1..];
    }
  }

  // ---------------------------------------------------------------------------
  // Properties of one `recv_size` call
  // ---------------------------------------------------------------------------

  /** The length the first four pending bytes declare, read as `'>i'`. */
  function DeclaredLength(bytes: seq<byte>): int
    requires |bytes| >= PrefixLength
  {
    DecodeInt32(bytes[..PrefixLength])
  }

  /** Once some read among the first `i` has parsed the prefix, the state holds the length declared by the stream. */
  lemma ParsedState(ds: seq<seq<byte>>, i: int, stream: seq<byte>)
    requires 0 <= i <= |ds|
    requires !AllShort(ds[..i])
    requires |Flatten(ds)| <= |stream| && stream[..|Flatten(ds)|] == Flatten(ds)
    ensures |Flatten(ds[..i])| > PrefixLength && |stream| > PrefixLength
    ensures Replay(ds[..i]) == ReadingPayload(DeclaredLength(stream), Flatten(ds[..i])[PrefixLength..])
  {
    ReplayShape(ds[..i]);
    FlattenPrefix(ds, i);
    var x := Flatten(ds[..i]);
    assert x[..PrefixLength] == stream[..PrefixLength];
  }

  /** `Reassemble` from the initial state is `recv_size`, and the facts about it specialised to no earlier reads. */
  lemma RecvSizeFacts(sock: Socket)
    ensures var o := RecvSize(sock);
      var ds := Received(o.trace);
      && Pending(sock) == Flatten(ds) + Leftover(o)
      && (forall i :: 0 <= i < |o.trace| ==> ReadMade([], o.trace, i))
      && EndsIn(Replay(ds), o)
      && (o.Exhausted? && AllShort(ds) ==> ds == sock.chunks)
  {
    var o := RecvSize(sock);
    assert Replay([]) == AwaitingPrefix([]);
    ReassembleConserves(AwaitingPrefix([]), sock);
    ReassembleReads([], sock);
    ReassembleEnd(AwaitingPrefix([]), sock);
    FoldReplay([], Received(o.trace));
    ReassembleWholeChunks([], sock);
    assert [] + Received(o.trace) == Received(o.trace);
  }

  /** Before read `i` the loop had made reads `ds[..i]` and was in state `Replay(ds[..i])`. */
  lemma ReadState(trace: seq<Read>, i: int)
    requires 0 <= i < |trace|
    requires ReadMade([], trace, i)
    ensures var st := Replay(Received(trace)[..i]);
      !Finished(st) && trace[i].request == RequestSize(st) && |trace[i].data| <= trace[i].request
  {
    assert [] + Received(trace)[..i] == Received(trace)[..i];
  }

  /**
    A message `recv_size` returns: some single read returned more than four bytes; the
    bytes read are taken from the front of the stream; the message is every byte read
    except the first four, over-read bytes included; it is at least as long as the length
    the first four bytes declare; and the loop went on while the payload collected was
    shorter than that.
   */
  lemma RecvSizeFrame(sock: Socket)
    ensures match RecvSize(sock)
      case Frame(payload, trace, rest) =>
        var ds := Received(trace);
        && !AllShort(ds)
        && |Flatten(ds)| > PrefixLength
        && Pending(sock) == Flatten(ds) + Pending(rest)
        && payload == Flatten(ds)[PrefixLength..]
        && |payload| >= DeclaredLength(Pending(sock))
        && (forall i :: 0 <= i < |trace| && !AllShort(ds[..i]) ==>
              |Flatten(ds[..i])| - PrefixLength < DeclaredLength(Pending(sock)))
      case Exhausted(_) => true
  {
    RecvSizeFacts(sock);
    var o := RecvSize(sock);
    if o.Frame? {
      var ds := Received(o.trace);
      ReplayShape(ds);
      assert Pending(sock)[..|Flatten(ds)|] == Flatten(ds);
      assert Pending(sock)[..PrefixLength] == Flatten(ds)[..PrefixLength];
      forall i | 0 <= i < |o.trace| && !AllShort(ds[..i])
        ensures |Flatten(ds[..i])| - PrefixLength < DeclaredLength(Pending(sock))
      {
        ReadState(o.trace, i);
        ParsedState(ds, i, Pending(sock));
      }
    }
  }

  /**
    A call that runs the socket dry has read every pending byte without collecting the
    declared length; when no single read returned more than four bytes, the reads were
    exactly the queued chunks.
   */
  lemma RecvSizeExhausted(sock: Socket)
    ensures match RecvSize(sock)
      case Exhausted(trace) =>
        var ds := Received(trace);
        && Flatten(ds) == Pending(sock)
        && (AllShort(ds) ==> ds == sock.chunks)
        && (!AllShort(ds) ==>
              |Pending(sock)| > PrefixLength && |Pending(sock)| - PrefixLength < DeclaredLength(Pending(sock)))
      case Frame(_, _, _) => true
  {
    RecvSizeFacts(sock);
    var o := RecvSize(sock);
    if o.Exhausted? {
      var ds := Received(o.trace);
      assert Flatten(ds) == Pending(sock);
      if !AllShort(ds) {
        assert ds[..|ds|] == ds;
        ParsedState(ds, |ds|, Pending(sock));
      }
    }
  }

  /**
    Every read asks for 8192 bytes until a read has returned more than four, and for the
    declared length capped at 524288 afterwards; no read returns more than it asked for.
   */
  lemma RecvSizeRequests(sock: Socket)
    ensures var trace := RecvSize(sock).trace;
      var ds := Received(trace);
      forall i :: 0 <= i < |trace| ==>
        && |ds[i]| <= trace[i].request
        && (AllShort(ds[..i]) ==> trace[i].request == PrefixRecvSize)
        && (!AllShort(ds[..i]) ==>
              |Pending(sock)| > PrefixLength && trace[i].request == Cap(DeclaredLength(Pending(sock))))
  {
    RecvSizeFacts(sock);
    var o := RecvSize(sock);
    var ds := Received(o.trace);
    assert Pending(sock)[..|Flatten(ds)|] == Flatten(ds);
    forall i | 0 <= i < |o.trace|
      ensures |ds[i]| <= o.trace[i].request
      ensures AllShort(ds[..i]) ==> o.trace[i].request == PrefixRecvSize
      ensures !AllShort(ds[..i]) ==>
                |Pending(sock)| > PrefixLength && o.trace[i].request == Cap(DeclaredLength(Pending(sock)))
    {
      ReadState(o.trace, i);
      ReplayShape(ds[..i]);
      if !AllShort(ds[..i]) {
        ParsedState(ds, i, Pending(sock));
      }
    }
  }

  /**
    Round trip: when the stream holds exactly one message, its four-byte length followed by
    that many bytes, and some queued chunk is longer than four bytes, `recv_size` returns
    the message and leaves nothing pending.
   */
  lemma RecvSizeRoundTrip(sock: Socket, payload: seq<byte>)
    requires |payload| < Two31
    requires Pending(sock) == EncodeInt32(|payload|) + payload
    requires !AllShort(sock.chunks)
    ensures RecvSize(sock).Frame?
    ensures RecvSize(sock).payload == payload
    ensures Pending(RecvSize(sock).rest) == []
  {
    var stream := Pending(sock);
    DecodeEncodeInt32(|payload|);
    assert stream[..PrefixLength] == EncodeInt32(|payload|);
    assert DeclaredLength(stream) == |payload|;
    assert stream[PrefixLength..] == payload;
    RecvSizeFrame(sock);
    RecvSizeExhausted(sock);
    var o := RecvSize(sock);
    if o.Exhausted? {
      assert false;
    }
  }

  /**
    When every queued chunk has at most four bytes the prefix is never parsed, whatever
    `size_data` grows to: every read asks for 8192 bytes and takes one whole chunk, and the
    socket runs dry with no message returned.
   */
  lemma RecvSizeShortReads(sock: Socket)
    requires AllShort(sock.chunks)
    ensures RecvSize(sock).Exhausted?
    ensures Received(RecvSize(sock).trace) == sock.chunks
    ensures forall i :: 0 <= i < |RecvSize(sock).trace| ==> RecvSize(sock).trace[i].request == PrefixRecvSize
  {
    ShortChunksNeverParse([], sock);
    RecvSizeRequests(sock);
    var ds := Received(RecvSize(sock).trace);
    forall i | 0 <= i < |ds|
      ensures AllShort(ds[..i])
    {
    }
  }

  lemma {:induction false} ShortChunksNeverParse(sizeData: seq<byte>, sock: Socket)
    requires AllShort(sock.chunks)
    ensures Reassemble(AwaitingPrefix(sizeData), sock).Exhausted?
    ensures Received(Reassemble(AwaitingPrefix(sizeData), sock).trace) == sock.chunks
    decreases |sock.chunks|
  {
    if sock.chunks != [] {
      var st := AwaitingPrefix(sizeData);
      var (data, rest) := Recv(sock, RequestSize(st)).value;
      UnfoldOutcome(st, sock);
      assert data == sock.chunks[0];
      ShortChunksNeverParse(sizeData + data, rest);
      assert sock.chunks == [sock.chunks[0]] + sock.chunks[1..];
    }
  }

  /** A message of length zero is never returned: its four bytes alone never make a read longer than four. */
  lemma RecvSizeEmptyMessage(sock: Socket)
    requires Pending(sock) == EncodeInt32(0)
    ensures RecvSize(sock).Exhausted?
  {
    forall i | 0 <= i < |sock.chunks|
      ensures |sock.chunks[i]| <= PrefixLength
    {
      PieceWithinFlatten(sock.chunks, i);
    }
    RecvSizeShortReads(sock);
  }

  /**
    A declared length of zero or less (a first byte of 0x80 or more makes it negative)
    ends the loop at the read that parses the prefix: that read is the last one.
   */
  lemma RecvSizeNonPositiveLength(sock: Socket)
    requires |Pending(sock)| >= PrefixLength && DeclaredLength(Pending(sock)) <= 0
    ensures match RecvSize(sock)
      case Frame(_, trace, _) => |trace| > 0 && AllShort(Received(trace)[..|trace| - 1])
      case Exhausted(_) => true
  {
    RecvSizeFrame(sock);
    var o := RecvSize(sock);
    if o.Frame? {
      var ds := Received(o.trace);
      var i := |ds| - 1;
      if !AllShort(ds[..i]) {
        ReplayShape(ds[..i]);
        assert false;
      }
    }
  }

  /**
    Bytes past the declared length are not held back: a chunk carrying one message and the
    start of the next is returned whole, the second message's bytes inside the first's payload.
   */
  lemma RecvSizeKeepsOverRead(payload: seq<byte>, extra: seq<byte>, more: seq<seq<byte>>)
    requires |payload| < Two31
    requires 0 < |payload| + |extra| && PrefixLength + |payload| + |extra| <= PrefixRecvSize
    ensures var chunk := EncodeInt32(|payload|) + payload + extra;
      RecvSize(Socket([chunk] + more)) == Frame(payload + extra, [Read(PrefixRecvSize, chunk)], Socket(more))
  {
    var chunk := EncodeInt32(|payload|) + payload + extra;
    var sock := Socket([chunk] + more);
    DecodeEncodeInt32(|payload|);
    assert chunk[..PrefixLength] == EncodeInt32(|payload|);
    assert chunk[PrefixLength..] == payload + extra;
    assert ([chunk] + more)[1..] == more;
    var st' := Step(AwaitingPrefix([]), chunk);
    assert st' == ReadingPayload(|payload|, payload + extra) by {
      assert [] + chunk == chunk;
    }
    UnfoldOutcome(AwaitingPrefix([]), sock);
  }
}

/**
  A connected stream socket seen from the reading side: the byte strings the peer's data
  arrives in, in order. `recv(n)` hands back the next queued chunk when it fits in `n`
  bytes; a longer chunk is split, its first `n` bytes returned and the remainder left at
  the head of the queue, as a stream socket does. When nothing is queued the model stops
  (`None`), where the real call would block or keep returning the empty string.
 */
module Sockets {
  import opened Wrappers
  import opened Bytes

  datatype Socket = Socket(chunks: seq<seq<byte>>)

  /** Every byte still to be read, in order. */
  function Pending(s: Socket): seq<byte> {
    Flatten(s.chunks)
  }

  /** `s.recv(n)`: the data returned and the socket left behind. */
  function Recv(s: Socket, n: int): (r: Option<(seq<byte>, Socket)>)
    requires n > 0
    ensures r.None? <==> s.chunks == []
    ensures r.Some? ==> |r.value.0| <= n
    ensures r.Some? ==> Pending(s) == r.value.0 + Pending(r.value.1)
    ensures r.Some? && |s.chunks[0]| <= n ==> r.value.0 == s.chunks[0] && r.value.1.chunks == s.chunks[1..]
    ensures r.Some? && |s.chunks[0]| > n ==> |r.value.0| == n
    ensures r.Some? ==> Consumes(s, r.value.1)
  {
    if s.chunks == [] then None
    else
      var c := s.chunks[0];
      if |c| <= n then Some((c, Socket(s.chunks[1..])))
      else
        var rest := Socket([c[n..]] + s.chunks[1..]);
        assert Pending(rest) == c[n..] + Pending(Socket(s.chunks[1..])) by {
          assert rest.chunks[1..] == s.chunks[1..];
        }
        assert c == c[..n] + c[n..];
        Some((c[..n], rest))
  }

  /** `after` is strictly further along than `before`: fewer bytes pending, or as many bytes in fewer chunks. */
  predicate Consumes(before: Socket, after: Socket) {
    |Pending(after)| < |Pending(before)|
    || (|Pending(after)| == |Pending(before)| && |after.chunks| < |before.chunks|)
  }
}

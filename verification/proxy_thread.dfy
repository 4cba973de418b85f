/**
  The `Proxy` thread's fixed part: the arguments it is built with and what `run` hands
  to the SOCKS5 layer. The SHA-1 hex digest is a parameter `sha1Hex` with nothing
  assumed about it; the SOCKS5 negotiation itself is not part of this model.
 */
module ProxyThread {
  import opened Bytes

  /** `Proxy(sid, requester, target, proxy, proxy_port, on_recv)`, the callback left out. */
  datatype ProxyArgs = ProxyArgs(sid: string, requester: string, target: string, proxyHost: string, proxyPort: int)

  /** A running `Proxy`: its arguments and every byte `send` has written to its socket. */
  datatype Proxy = Proxy(args: ProxyArgs, sent: seq<byte>)

  /** A `hashlib.sha1()` object, represented by the text fed to it so far. */
  datatype Digest = Digest(fed: string)

  /** `digest.update(data)`. */
  function Update(d: Digest, data: string): Digest {
    Digest(d.fed + data)
  }

  /** `digest.hexdigest()`. */
  function HexDigest(sha1Hex: string -> string, d: Digest): string {
    sha1Hex(d.fed)
  }

  /** A host and port pair. */
  datatype Address = Address(host: string, port: int)

  /** `setproxy(PROXY_TYPE_SOCKS5, proxy, port)` followed by `connect((dest, 0))`. */
  datatype Connection = Connection(relay: Address, destination: Address)

  /** The text hashed into the circuit key: session id, requester JID, target JID, no separators. */
  function CircuitPreimage(args: ProxyArgs): (s: string)
    ensures |s| == |args.sid| + |args.requester| + |args.target|
    ensures s[..|args.sid|] == args.sid
    ensures s[|args.sid|..|args.sid| + |args.requester|] == args.requester
    ensures s[|args.sid| + |args.requester|..] == args.target
  {
    Update(Update(Update(Digest(""), args.sid), args.requester), args.target).fed
  }

  /**
    The connection `run` opens: through the relay named by the thread's arguments, to the
    hex SHA-1 of the circuit preimage as a domain name, on port 0.
   */
  function ConnectPlan(sha1Hex: string -> string, args: ProxyArgs): (c: Connection)
    ensures c.relay == Address(args.proxyHost, args.proxyPort)
    ensures c.destination.port == 0
    ensures c.destination.host == sha1Hex(args.sid + args.requester + args.target)
  {
    var digest := Update(Update(Update(Digest(""), args.sid), args.requester), args.target);
    assert digest.fed == args.sid + args.requester + args.target by {
      assert "" + args.sid == args.sid;
    }
    Connection(Address(args.proxyHost, args.proxyPort), Address(HexDigest(sha1Hex, digest), 0))
  }

  /** `Proxy.send(msg)`: `sendall` writes the whole message after what was sent before. */
  function SendAll(p: Proxy, msg: seq<byte>): (q: Proxy)
    ensures q.args == p.args
    ensures |q.sent| == |p.sent| + |msg|
    ensures q.sent[..|p.sent|] == p.sent && q.sent[|p.sent|..] == msg
  {
    Proxy(p.args, p.sent + msg)
  }

  lemma PreimageIsConcatenation(a: ProxyArgs)
    ensures CircuitPreimage(a) == a.sid + a.requester + a.target
  {
    assert "" + a.sid == a.sid;
  }

  /**
    The preimage has no separators, so distinct triples can share a circuit key: moving
    the boundary between session id and requester JID leaves the preimage unchanged.
   */
  lemma PreimageIgnoresFieldBoundaries(a: ProxyArgs, shift: int)
    requires 0 < shift <= |a.requester|
    ensures var b := a.(sid := a.sid + a.requester[..shift], requester := a.requester[shift..]);
      b != a && CircuitPreimage(b) == CircuitPreimage(a)
  {
    var head, tail := a.requester[..shift], a.requester[shift..];
    var b := a.(sid := a.sid + head, requester := tail);
    assert |b.sid| != |a.sid|;
    assert a.requester == head + tail;
    PreimageIsConcatenation(a);
    PreimageIsConcatenation(b);
    assert (a.sid + head) + tail + a.target == a.sid + (head + tail) + a.target;
  }
}

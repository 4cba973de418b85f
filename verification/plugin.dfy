/**
  The `xep_0065` plugin: choosing the bytestream proxy from service discovery, the field
  values the handshake and the two stanza handlers copy into `Proxy` threads and replies,
  and the rule `send` uses to pick a thread.

  Stanzas are reduced to the fields these routines read or write. An inbound stanza's
  `from` is what the server stamps on it, the sender's bound JID; the outgoing stanzas
  built here carry the sender's bound JID in `from` for that reason. Service discovery
  queries are the functions `getItems` and `getInfo`, from a JID to the `disco#items` or
  `disco#info` answer, or to `None` when the query is answered with an error or not at all.
 */
module Plugin {
  import opened Wrappers
  import opened Bytes
  import opened ProxyThread

  // ---------------------------------------------------------------------------
  // Proxy discovery
  // ---------------------------------------------------------------------------

  /** A `disco#info` identity; only its category and type are read. */
  datatype Identity = Identity(category: string, kind: string)

  /** A `disco#info` answer: who answered and the identities it lists, in order. */
  datatype DiscoInfo = DiscoInfo(from: string, identities: seq<Identity>)

  /** A `disco#items` entry (jid, node, name). */
  datatype DiscoItem = DiscoItem(jid: string, node: string, name: string)

  /**
    How the proxy choice ends: a proxy JID, no item advertising a proxy (the loop falls
    off its end and returns `None`), or a query to `jid` that raised because it was
    answered with an error or not at all.
   */
  datatype ProxyChoice = Chosen(jid: string) | NoProxy | QueryFailed(jid: string)

  predicate IsBytestreamProxy(id: Identity) {
    id.category == "proxy" && id.kind == "bytestreams"
  }

  /** The inner loop of `discover_proxy`: some identity is a bytestream proxy. */
  function HasProxyIdentity(ids: seq<Identity>): (r: bool)
    ensures r <==> exists k :: 0 <= k < |ids| && IsBytestreamProxy(ids[k])
    decreases |ids|
  {
    if ids == [] then false
    else if IsBytestreamProxy(ids[0]) then true
    else
      var r := HasProxyIdentity(ids[1..]);
      assert forall k :: 1 <= k < |ids| ==> ids[k] == ids[1..][k - 1];
      r
  }

  /** The item's `disco#info` query is answered, and the answer advertises a bytestream proxy. */
  predicate Advertises(getInfo: string -> Option<DiscoInfo>, item: DiscoItem) {
    getInfo(item.jid).Some? && HasProxyIdentity(getInfo(item.jid).value.identities)
  }

  /** The loop goes no further than this item: its query fails, or its answer advertises a proxy. */
  predicate EndsSearch(getInfo: string -> Option<DiscoInfo>, item: DiscoItem) {
    getInfo(item.jid).None? || Advertises(getInfo, item)
  }

  /** Item `i` is the first one at which the loop stops. */
  predicate FirstStopAt(items: seq<DiscoItem>, getInfo: string -> Option<DiscoInfo>, i: int) {
    && 0 <= i < |items|
    && EndsSearch(getInfo, items[i])
    && forall j :: 0 <= j < i ==> !EndsSearch(getInfo, items[j])
  }

  /** Stopping at item `i` gives the outcome `r`. */
  predicate DecidedAt(items: seq<DiscoItem>, getInfo: string -> Option<DiscoInfo>, i: int, r: ProxyChoice)
    requires 0 <= i < |items|
  {
    match r
    case NoProxy => false
    case Chosen(jid) => Advertises(getInfo, items[i]) && jid == getInfo(items[i].jid).value.from
    case QueryFailed(jid) => getInfo(items[i].jid).None? && jid == items[i].jid
  }

  /**
    What the loop over `items` ends with, stated without running it: no proxy when every
    query is answered and none advertises one; otherwise the first item at which the loop
    stops decides, by the `from` of its answer or by the failure of its query.
   */
  predicate DescribesSearch(items: seq<DiscoItem>, getInfo: string -> Option<DiscoInfo>, r: ProxyChoice) {
    if r.NoProxy? then forall i :: 0 <= i < |items| ==> !EndsSearch(getInfo, items[i])
    else exists i :: 0 <= i < |items| && FirstStopAt(items, getInfo, i) && DecidedAt(items, getInfo, i, r)
  }

  /** The loop over the disco items in `discover_proxy`, each queried with `get_info`. */
  function SearchProxy(items: seq<DiscoItem>, getInfo: string -> Option<DiscoInfo>): (r: ProxyChoice)
    ensures DescribesSearch(items, getInfo, r)
    decreases |items|
  {
    if items == [] then NoProxy
    else if getInfo(items[0].jid).None? then
      assert FirstStopAt(items, getInfo, 0);
      QueryFailed(items[0].jid)
    else if Advertises(getInfo, items[0]) then
      assert FirstStopAt(items, getInfo, 0);
      Chosen(getInfo(items[0].jid).value.from)
    else
      var r := SearchProxy(items[1..], getInfo);
      assert DescribesSearch(items, getInfo, r) by {
        if r.NoProxy? {
          NoneAfterSkip(items, getInfo);
        } else {
          var i :| FirstStopAt(items[1..], getInfo, i) && DecidedAt(items[1..], getInfo, i, r);
          SkipNonProxy(items, getInfo, i);
        }
      }
      r
  }

  /** Skipping a first item that answers without a proxy moves the first stop one place on. */
  lemma SkipNonProxy(items: seq<DiscoItem>, getInfo: string -> Option<DiscoInfo>, i: int)
    requires |items| > 0 && !EndsSearch(getInfo, items[0])
    requires FirstStopAt(items[1..], getInfo, i)
    ensures FirstStopAt(items, getInfo, i + 1) && items[i + 1] == items[1..][i]
  {
    forall j | 0 < j < i + 1
      ensures !EndsSearch(getInfo, items[j])
    {
      assert items[j] == items[1..][j - 1];
    }
  }

  lemma NoneAfterSkip(items: seq<DiscoItem>, getInfo: string -> Option<DiscoInfo>)
    requires |items| > 0 && !EndsSearch(getInfo, items[0])
    ensures (forall i :: 0 <= i < |items| ==> !EndsSearch(getInfo, items[i]))
        <==> (forall i :: 0 <= i < |items[1..]| ==> !EndsSearch(getInfo, items[1..][i]))
  {
    if forall i :: 0 <= i < |items[1..]| ==> !EndsSearch(getInfo, items[1..][i]) {
      forall i | 0 < i < |items|
        ensures !EndsSearch(getInfo, items[i])
      {
        assert items[i] == items[1..][i - 1];
      }
    }
  }

  /** The loop stops at one place only. */
  lemma FirstStopIsUnique(items: seq<DiscoItem>, getInfo: string -> Option<DiscoInfo>, i: int, k: int)
    requires FirstStopAt(items, getInfo, i) && FirstStopAt(items, getInfo, k)
    ensures i == k
  {
  }

  /** `DescribesSearch` is a specification of one outcome: no two outcomes meet it. */
  lemma DescribedSearchIsUnique(items: seq<DiscoItem>, getInfo: string -> Option<DiscoInfo>, r1: ProxyChoice, r2: ProxyChoice)
    requires DescribesSearch(items, getInfo, r1) && DescribesSearch(items, getInfo, r2)
    ensures r1 == r2
  {
    if !r1.NoProxy? && !r2.NoProxy? {
      var i :| 0 <= i < |items| && FirstStopAt(items, getInfo, i) && DecidedAt(items, getInfo, i, r1);
      var k :| 0 <= k < |items| && FirstStopAt(items, getInfo, k) && DecidedAt(items, getInfo, k, r2);
      FirstStopIsUnique(items, getInfo, i, k);
    }
  }

  /**
    `discover_proxy`: ask the server for its disco items, then search them. A failing items
    query ends the call before any item is looked at.
   */
  function DiscoverProxy(server: string, getItems: string -> Option<seq<DiscoItem>>,
                         getInfo: string -> Option<DiscoInfo>): (r: ProxyChoice)
    ensures getItems(server).None? ==> r == QueryFailed(server)
    ensures getItems(server).Some? ==> DescribesSearch(getItems(server).value, getInfo, r)
  {
    match getItems(server)
    case None => QueryFailed(server)
    case Some(items) => SearchProxy(items, getInfo)
  }

  /**
    The JIDs `discover_proxy` calls `get_info` on, in order: the items up to and including
    the first one at which the loop stops, or all of them when it never stops.
   */
  function QueriedJids(items: seq<DiscoItem>, getInfo: string -> Option<DiscoInfo>): (q: seq<string>)
    ensures |q| <= |items|
    ensures forall k :: 0 <= k < |q| ==> q[k] == items[k].jid
    ensures forall k :: 0 <= k < |q| - 1 ==> !EndsSearch(getInfo, items[k])
    ensures |q| < |items| ==> |q| > 0 && EndsSearch(getInfo, items[|q| - 1])
    decreases |items|
  {
    if items == [] then []
    else if EndsSearch(getInfo, items[0]) then [items[0].jid]
    else
      var q := QueriedJids(items[1..], getInfo);
      assert forall k :: 1 <= k < |items| ==> items[k] == items[1..][k - 1];
      [items[0].jid] + q
  }

  /**
    Items after the stop are never queried: two discovery services that answer alike
    for the queried JIDs lead to the same outcome and the same queries.
   */
  lemma {:induction false} SearchReadsOnlyQueried(items: seq<DiscoItem>, f: string -> Option<DiscoInfo>, g: string -> Option<DiscoInfo>)
    requires forall jid :: jid in QueriedJids(items, f) ==> f(jid) == g(jid)
    ensures SearchProxy(items, f) == SearchProxy(items, g)
    ensures QueriedJids(items, f) == QueriedJids(items, g)
    decreases |items|
  {
    if items != [] {
      var q := QueriedJids(items, f);
      assert f(items[0].jid) == g(items[0].jid);
      if !EndsSearch(f, items[0]) {
        var tail := items[1..];
        var q' := QueriedJids(tail, f);
        assert q == [items[0].jid] + q';
        SearchReadsOnlyQueried(tail, f, g);
      }
    }
  }

  /** The outcome is decided by the answer to the last query, or by that query's failure. */
  lemma {:induction false} SearchAnswersLastQuery(items: seq<DiscoItem>, getInfo: string -> Option<DiscoInfo>)
    ensures var q := QueriedJids(items, getInfo);
      var r := SearchProxy(items, getInfo);
      && (r.NoProxy? <==> !(|q| > 0 && EndsSearch(getInfo, items[|q| - 1])))
      && (!r.NoProxy? ==> DecidedAt(items, getInfo, |q| - 1, r))
    decreases |items|
  {
    if items != [] && !EndsSearch(getInfo, items[0]) {
      SearchAnswersLastQuery(items[1..], getInfo);
      var q' := QueriedJids(items[1..], getInfo);
      if |q'| > 0 {
        assert items[|q'|] == items[1..][|q'| - 1];
      }
    }
  }

  /**
    `streamer or self.discover_proxy()`: a given non-empty JID wins; otherwise discovery
    decides, and a failing query raises out of `handshake` as well.
   */
  function ChooseStreamer(given: Option<string>, server: string, getItems: string -> Option<seq<DiscoItem>>,
                          getInfo: string -> Option<DiscoInfo>): (r: ProxyChoice)
    ensures given.Some? && given.value != "" ==> r == Chosen(given.value)
    ensures !(given.Some? && given.value != "") && getItems(server).None? ==> r == QueryFailed(server)
    ensures !(given.Some? && given.value != "") && getItems(server).Some? ==>
      DescribesSearch(getItems(server).value, getInfo, r)
  {
    if given.Some? && given.value != "" then Chosen(given.value) else DiscoverProxy(server, getItems, getInfo)
  }

  // ---------------------------------------------------------------------------
  // Handshake and the two stanza handlers
  // ---------------------------------------------------------------------------

  /** A `<streamhost/>` element: the proxy's JID and network address. */
  datatype Streamhost = Streamhost(jid: string, host: string, port: int)

  /** The iq-set offering a streamhost for session `sid`. */
  datatype StreamhostOffer = StreamhostOffer(from: string, to: string, sid: string, streamhost: Streamhost)

  /** The iq-result naming the streamhost used for session `sid`. */
  datatype StreamhostUsed = StreamhostUsed(from: string, to: string, sid: string, jid: string)

  /** The iq-set asking the proxy to activate session `sid` towards `activate`. */
  datatype ActivateRequest = ActivateRequest(to: string, sid: string, activate: string)

  /**
    The plugin's attributes: its own bound JID, the proxy it uses (`streamer`, `proxy_host`,
    `proxy_port`, always set together) and the two thread attributes, each absent until set.
   */
  datatype PluginState = PluginState(
    boundJid: string,
    relay: Option<Streamhost>,
    requesterThread: Option<Proxy>,
    targetThread: Option<Proxy>)

  /**
    `handshake(to)` once the proxy is chosen and its network address known: it records
    the proxy and sends the target an offer with the new session id and that address.
   */
  function Handshake(p: PluginState, to: string, streamer: string, address: Streamhost, sid: string): (r: (PluginState, StreamhostOffer))
    ensures r.0.boundJid == p.boundJid
    ensures r.0.requesterThread == p.requesterThread && r.0.targetThread == p.targetThread
    ensures r.0.relay == Some(r.1.streamhost)
    ensures r.1.streamhost == Streamhost(streamer, address.host, address.port)
    ensures r.1.from == p.boundJid && r.1.to == to && r.1.sid == sid
  {
    var relay := Streamhost(streamer, address.host, address.port);
    (p.(relay := Some(relay)), StreamhostOffer(p.boundJid, to, sid, relay))
  }

  /**
    `_handle_streamhost` on the target: record the offered proxy, start the target thread
    for (sid, offer sender, own JID), and reply naming the proxy used.
   */
  function HandleStreamhost(p: PluginState, iq: StreamhostOffer): (r: (PluginState, StreamhostUsed))
    ensures r.0.boundJid == p.boundJid && r.0.requesterThread == p.requesterThread
    ensures r.0.relay == Some(iq.streamhost)
    ensures r.0.targetThread.Some? && r.0.targetThread.value.sent == []
    ensures r.0.targetThread.value.args
      == ProxyArgs(iq.sid, iq.from, p.boundJid, iq.streamhost.host, iq.streamhost.port)
    ensures r.1 == StreamhostUsed(p.boundJid, iq.from, iq.sid, iq.streamhost.jid)
  {
    var args := ProxyArgs(iq.sid, iq.from, p.boundJid, iq.streamhost.host, iq.streamhost.port);
    var p' := p.(relay := Some(iq.streamhost), targetThread := Some(Proxy(args, [])));
    (p', StreamhostUsed(p.boundJid, iq.from, iq.sid, iq.streamhost.jid))
  }

  /**
    `_handle_streamhost_used` on the requester: start the requester thread for
    (sid, own JID, reply sender) through the recorded proxy, then ask the proxy to activate
    the session towards the reply's sender. Without a recorded proxy the handler fails on
    the missing attribute.
   */
  function HandleStreamhostUsed(p: PluginState, iq: StreamhostUsed): (r: Option<(PluginState, ActivateRequest)>)
    ensures r.None? <==> p.relay.None?
    ensures r.Some? ==>
      && r.value.0 == p.(requesterThread := r.value.0.requesterThread)
      && r.value.0.requesterThread == Some(Proxy(ProxyArgs(iq.sid, p.boundJid, iq.from, p.relay.value.host, p.relay.value.port), []))
      && r.value.1 == ActivateRequest(p.relay.value.jid, iq.sid, iq.from)
  {
    match p.relay
    case None => None
    case Some(relay) =>
      var args := ProxyArgs(iq.sid, p.boundJid, iq.from, relay.host, relay.port);
      Some((p.(requesterThread := Some(Proxy(args, []))), ActivateRequest(relay.jid, iq.sid, iq.from)))
  }

  /**
    Both roles hash the same preimage: when the target's view of the requester (the offer's
    sender) is the requester's own JID, the requester's view of the target (the reply's
    sender) is the target's own JID, and the session ids agree, the two threads are built
    with the same (sid, requester, target) and connect to the same destination.
   */
  lemma RolesAgreeOnCircuit(sha1Hex: string -> string, target: PluginState, offer: StreamhostOffer,
                            requester: PluginState, used: StreamhostUsed)
    requires offer.from == requester.boundJid
    requires used.from == target.boundJid
    requires used.sid == offer.sid
    requires requester.relay.Some?
    ensures var t := HandleStreamhost(target, offer).0.targetThread.value.args;
      var r := HandleStreamhostUsed(requester, used).value.0.requesterThread.value.args;
      && (t.sid, t.requester, t.target) == (r.sid, r.requester, r.target)
      && CircuitPreimage(t) == CircuitPreimage(r) == offer.sid + requester.boundJid + target.boundJid
      && ConnectPlan(sha1Hex, t).destination == ConnectPlan(sha1Hex, r).destination
  {
    var t := HandleStreamhost(target, offer).0.targetThread.value.args;
    PreimageIsConcatenation(t);
    PreimageIsConcatenation(HandleStreamhostUsed(requester, used).value.0.requesterThread.value.args);
  }

  /**
    The whole exchange: the requester's handshake offer reaches the target, the target's
    reply reaches the requester, and then both threads connect through the same proxy to
    the same destination, and the requester asks that proxy to activate the session towards
    the target.
   */
  lemma ExchangeConnectsBothLegs(sha1Hex: string -> string, requester: PluginState, target: PluginState,
                                 to: string, streamer: string, address: Streamhost, sid: string)
    ensures var (r1, offer) := Handshake(requester, to, streamer, address, sid);
      var (t1, used) := HandleStreamhost(target, offer);
      var res := HandleStreamhostUsed(r1, used);
      && res.Some?
      && ConnectPlan(sha1Hex, res.value.0.requesterThread.value.args)
         == ConnectPlan(sha1Hex, t1.targetThread.value.args)
         == Connection(Address(address.host, address.port),
                       Address(sha1Hex(sid + requester.boundJid + target.boundJid), 0))
      && res.value.1 == ActivateRequest(streamer, sid, target.boundJid)
  {
    var (r1, offer) := Handshake(requester, to, streamer, address, sid);
    var (t1, used) := HandleStreamhost(target, offer);
    RolesAgreeOnCircuit(sha1Hex, target, offer, r1, used);
  }

  // ---------------------------------------------------------------------------
  // Sending
  // ---------------------------------------------------------------------------

  /** The thread `send` writes to: the requester thread when present, else the target thread. */
  function ActiveThread(p: PluginState): Option<Proxy> {
    if p.requesterThread.Some? then p.requesterThread else p.targetThread
  }

  /**
    `send(msg)`: the whole message goes to the requester thread when there is one,
    otherwise to the target thread, otherwise nowhere; nothing else changes.
   */
  function Send(p: PluginState, msg: seq<byte>): (q: PluginState)
    ensures q.boundJid == p.boundJid && q.relay == p.relay
    ensures p.requesterThread.Some? ==>
      q.requesterThread == Some(SendAll(p.requesterThread.value, msg)) && q.targetThread == p.targetThread
    ensures p.requesterThread.None? ==> q.requesterThread == None
    ensures p.requesterThread.None? && p.targetThread.Some? ==>
      q.targetThread == Some(SendAll(p.targetThread.value, msg))
    ensures p.requesterThread.None? && p.targetThread.None? ==> q == p
  {
    if p.requesterThread.Some? then
      p.(requesterThread := Some(SendAll(p.requesterThread.value, msg)))
    else if p.targetThread.Some? then
      p.(targetThread := Some(SendAll(p.targetThread.value, msg)))
    else p
  }

  /**
    Consecutive sends reach the same thread, each message written whole after the previous
    one, so they never interleave; a peer with no thread sends nothing.
   */
  lemma {:induction false} SendsAppendInOrder(p: PluginState, msgs: seq<seq<byte>>)
    ensures ActiveThread(SendEach(p, msgs)).Some? == ActiveThread(p).Some?
    ensures ActiveThread(p).Some? ==>
      && ActiveThread(SendEach(p, msgs)).value.args == ActiveThread(p).value.args
      && ActiveThread(SendEach(p, msgs)).value.sent == ActiveThread(p).value.sent + Flatten(msgs)
    ensures ActiveThread(p).None? ==> SendEach(p, msgs) == p
    decreases |msgs|
  {
    if msgs != [] {
      SendsAppendInOrder(Send(p, msgs[0]), msgs[1..]);
      if ActiveThread(p).Some? {
        var s := ActiveThread(p).value.sent;
        assert ActiveThread(Send(p, msgs[0])).value.sent == s + msgs[0];
        assert (s + msgs[0]) + Flatten(msgs[1..]) == s + (msgs[0] + Flatten(msgs[1..]));
      }
    }
  }

  /** `send(m)` for each message in turn. */
  function SendEach(p: PluginState, msgs: seq<seq<byte>>): PluginState
    decreases |msgs|
  {
    if msgs == [] then p else SendEach(Send(p, msgs[0]), msgs[1..])
  }

  /**
    After the exchange the requester's sends go to its new requester thread. The target's
    go to its new target thread only if it has no requester thread of its own: one left
    from an earlier session it initiated takes every send.
   */
  lemma ExchangeRoutesSends(requester: PluginState, target: PluginState,
                            to: string, streamer: string, address: Streamhost, sid: string, msg: seq<byte>)
    ensures var (r1, offer) := Handshake(requester, to, streamer, address, sid);
      var (t1, used) := HandleStreamhost(target, offer);
      var r2 := HandleStreamhostUsed(r1, used).value.0;
      && Send(r2, msg).requesterThread.value.sent == msg
      && (target.requesterThread.None? ==> Send(t1, msg).targetThread.value.sent == msg)
      && (target.requesterThread.Some? ==> Send(t1, msg).targetThread.value.sent == [])
  {
  }
}

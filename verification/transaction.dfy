/**
 The per-message transitions of the packet handler once a subnet is chosen
 and the packet passed the ownership and de-duplication gate: DISCOVER
 (offer), REQUEST (acknowledge or refuse), RELEASE and DECLINE (give the
 reservation back), and a NAK for every other message type.
 */
module Transaction {
  import opened IPv4
  import opened Dhcp
  import opened OptionMerge
  import Discovery

  /** Handler, global caches and reply after one message. */
  datatype Step = Step(h: Handler, g: Global, reply: Reply)

  /** Options and lease for an OFFER or ACK: the handler's options with the
      overrides stored for the subnet's network address and for the client. */
  function ReplyOptions(h: Handler, scope: Uint32, mac: Mac, o: Oracles): (r: Merged)
    ensures var network := o.overrides(NetworkScope(scope));
      var client := o.overrides(ClientScope(mac));
      && r.lease ==
           (if Has(client, OptionIPAddressLeaseTime) then GoStrconv.Atoi(client.value[OptionIPAddressLeaseTime])
            else if Has(network, OptionIPAddressLeaseTime) then GoStrconv.Atoi(network.value[OptionIPAddressLeaseTime])
            else h.leaseSeconds)
      && h.options.Keys <= r.options.Keys
      && (forall k :: k in r.options && k != OptionIPAddressLeaseTime && Has(client, k) ==> r.options[k] == client.value[k])
  {
    Merge(h.options, h.leaseSeconds, o.overrides(NetworkScope(scope)), o.overrides(ClientScope(mac)), o.shuffle)
  }

  /** The parameter-request list the reply is filtered by. As written it is
      looked up in the merged reply options (the local map shadows the
      client's parsed options); corrected, in the client's options. None
      means every option is sent. */
  function Order(m: Merged, p: Packet, build: Build): (r: Option<seq<Byte>>)
    ensures build == Corrected ==>
      (r.Some? <==> OptionParameterRequestList in p.options)
      && (r.Some? ==> r.value == p.options[OptionParameterRequestList])
    ensures build == AsWritten ==>
      (r.Some? <==> OptionParameterRequestList in m.options)
      && (r.Some? ==> r.value == m.options[OptionParameterRequestList])
  {
    var source := if build == AsWritten then m.options else p.options;
    if OptionParameterRequestList in source then Some(source[OptionParameterRequestList]) else None
  }

  /** The requested address: option 50 when present, else the client address. */
  function RequestedBytes(p: Packet): (r: seq<Byte>)
    ensures OptionRequestedIPAddress in p.options ==> r == p.options[OptionRequestedIPAddress]
    ensures OptionRequestedIPAddress !in p.options ==> |r| == 4 && BigEndian(r) == p.ciaddr
  {
    if OptionRequestedIPAddress in p.options then p.options[OptionRequestedIPAddress] else Octets(p.ciaddr)
  }

  /** DISCOVER: the offer (or NAK, silence, panic, endless loop). */
  function HandleDiscover(h: Handler, g: Global, p: Packet, scope: Uint32, o: Oracles, build: Build): (s: Step)
    ensures s.g == g && SameConfig(h, s.h)
    ensures s.h.free <= h.free
    ensures !s.reply.SendAck?
    ensures s.reply.SendOffer? ==>
      && p.chaddr in s.h.resv && s.reply.ip == Add(h.start, s.h.resv[p.chaddr])
      && (s.h.resv[p.chaddr] in h.free || (p.chaddr in h.resv && h.resv[p.chaddr] == s.h.resv[p.chaddr]))
      && s.reply.lease == ReplyOptions(h, scope, p.chaddr, o).lease
    ensures !s.reply.SendOffer? ==> s.h.resv.Keys <= h.resv.Keys
  {
    var (h', v) := Discovery.Discover(h, p, o, build);
    var reply :=
      match v
      case Offered(e) =>
        var m := ReplyOptions(h, scope, p.chaddr, o);
        SendOffer(Add(h.start, e), m.lease, m.options, Order(m, p, build))
      case Refused => SendNak
      case Exhausted => NoPacket
      case Malformed => Panics
      case Hangs => Loops;
    Step(h', g, reply)
  }

  /** REQUEST. A four-byte, non-zero requested address inside the pool that is
      the address of the client's reservation is acknowledged and recorded in
      the global caches; anything else is refused. A client whose reservation
      is for another address loses it when the transaction mark read under
      the REQUEST's key is 1. The pool is never touched. */
  function HandleRequest(h: Handler, g: Global, p: Packet, scope: Uint32, o: Oracles, build: Build): (s: Step)
    ensures s.h.free == h.free && SameConfig(h, s.h)
    ensures s.reply.SendAck? <==> Acknowledgeable(h, p)
    ensures !s.reply.SendAck? ==> s.reply == SendNak && s.g == g
    ensures s.reply.SendAck? ==> s.h == h && s.g.macToIp == g.macToIp[p.chaddr := s.reply.ip]
  {
    var raw := RequestedBytes(p);
    if |raw| == 4 && BigEndian(raw) != Zero then
      var req := BigEndian(raw);
      var leaseNum := Distance(h.start, req);
      if 0 <= leaseNum < h.leaseRange && p.chaddr in h.resv then
        var index := h.resv[p.chaddr];
        if Add(h.start, index) == req then
          var m := ReplyOptions(h, scope, p.chaddr, o);
          Step(h,
               g.(ipToMac := g.ipToMac[req := p.chaddr], macToIp := g.macToIp[p.chaddr := req]),
               SendAck(req, m.lease, m.options, Order(m, p, build)))
        else
          var key := o.lookupKey(p.xid);
          var evict := key in h.marks && h.marks[key] == 1;
          Step(if evict then h.(resv := h.resv - {p.chaddr}) else h, g, SendNak)
      else Step(h, g, SendNak)
    else Step(h, g, SendNak)
  }

  /** RELEASE and DECLINE: a reservation is returned to the pool and dropped. */
  function HandleRelease(h: Handler, p: Packet): (r: Handler)
    ensures SameConfig(h, r)
    ensures p.chaddr !in r.resv && r.resv.Keys == h.resv.Keys - {p.chaddr}
    ensures forall m :: m in r.resv ==> r.resv[m] == h.resv[m]
    ensures p.chaddr in h.resv ==> r.free == h.free + {h.resv[p.chaddr]}
    ensures p.chaddr !in h.resv ==> r == h
  {
    if p.chaddr in h.resv then h.(free := h.free + {h.resv[p.chaddr]}, resv := h.resv - {p.chaddr})
    else h
  }

  /** The message switch. */
  function Transition(h: Handler, g: Global, p: Packet, msg: MsgType, scope: Uint32, o: Oracles, build: Build): (s: Step)
    ensures SameConfig(h, s.h)
    ensures s.g.dedup == g.dedup && (!s.reply.SendAck? ==> s.g == g)
    ensures s.reply.SendOffer? ==> msg == Discover
    ensures s.reply.SendAck? ==> msg == Request
    ensures msg == Release || msg == Decline ==> s.reply == NoPacket
  {
    match msg
    case Discover => HandleDiscover(h, g, p, scope, o, build)
    case Request => HandleRequest(h, g, p, scope, o, build)
    case Release => Step(HandleRelease(h, p), g, NoPacket)
    case Decline => Step(HandleRelease(h, p), g, NoPacket)
    case _ => Step(h, g, SendNak)
  }

  /** What an ACK needs: a four-byte, non-zero address inside the pool that
      is the address of the client's reserved offset. */
  predicate Acknowledgeable(h: Handler, p: Packet)
  {
    var raw := RequestedBytes(p);
    && |raw| == 4
    && BigEndian(raw) != Zero
    && 0 <= BigEndian(raw) - h.start < h.leaseRange
    && p.chaddr in h.resv
    && Add(h.start, h.resv[p.chaddr]) == BigEndian(raw)
  }

  /** REQUEST is acknowledged exactly when it is acknowledgeable and refused
      otherwise; it never changes the pool. An ACK leaves the handler as it
      was and records the address in both global caches; a NAK leaves the
      caches alone and at most drops the client's reservation, which happens
      only when the reserved address differs from the requested one. */
  lemma RequestAcksIff(h: Handler, g: Global, p: Packet, scope: Uint32, o: Oracles, build: Build)
    ensures var s := Transition(h, g, p, Request, scope, o, build);
      && s.h.free == h.free
      && SameConfig(h, s.h)
      && (s.reply.SendAck? <==> Acknowledgeable(h, p))
      && (!s.reply.SendAck? ==> s.reply == SendNak)
      && (s.reply.SendAck? ==>
            && s.reply.ip == BigEndian(RequestedBytes(p))
            && s.h == h
            && s.g.macToIp == g.macToIp[p.chaddr := s.reply.ip]
            && s.g.ipToMac == g.ipToMac[s.reply.ip := p.chaddr]
            && s.g.dedup == g.dedup)
      && (s.reply == SendNak ==>
            && s.g == g
            && (s.h.resv == h.resv || s.h.resv == h.resv - {p.chaddr})
            && (s.h.resv != h.resv ==>
                  p.chaddr in h.resv && Add(h.start, h.resv[p.chaddr]) != BigEndian(RequestedBytes(p))))
  {
  }

  /** RELEASE and DECLINE send nothing; a client's reserved offset goes back
      to the pool and its reservation is dropped, every other reservation
      stays; without a reservation nothing changes. */
  lemma ReleaseReturnsOffset(h: Handler, g: Global, p: Packet, msg: MsgType, scope: Uint32, o: Oracles, build: Build)
    requires msg == Release || msg == Decline
    ensures var s := Transition(h, g, p, msg, scope, o, build);
      && s.reply == NoPacket
      && s.g == g
      && SameConfig(h, s.h)
      && (p.chaddr in h.resv ==>
            && s.h.free == h.free + {h.resv[p.chaddr]}
            && p.chaddr !in s.h.resv
            && (forall m :: m in h.resv && m != p.chaddr ==> m in s.h.resv && s.h.resv[m] == h.resv[m])
            && s.h.resv.Keys == h.resv.Keys - {p.chaddr})
      && (p.chaddr !in h.resv ==> s.h == h)
  {
  }

  /** Every message type other than DISCOVER, REQUEST, RELEASE and DECLINE is
      answered with a NAK and changes nothing. */
  lemma OtherTypesNak(h: Handler, g: Global, p: Packet, msg: MsgType, scope: Uint32, o: Oracles, build: Build)
    requires msg !in {Discover, Request, Release, Decline}
    ensures Transition(h, g, p, msg, scope, o, build) == Step(h, g, SendNak)
  {
  }

  /** DISCOVER from a client that holds a reservation is answered with an
      OFFER of the pool start plus that offset, and changes nothing. */
  lemma ReofferSameAddress(h: Handler, g: Global, p: Packet, scope: Uint32, o: Oracles, build: Build)
    requires p.chaddr in h.resv
    ensures var s := Transition(h, g, p, Discover, scope, o, build);
      && s.reply.SendOffer? && s.reply.ip == Add(h.start, h.resv[p.chaddr])
      && s.h == h && s.g == g
  {
    Discovery.DiscoverReoffers(h, p, o, build);
  }

  /** DISCOVER without option 50 from a client without a reservation that
      finds no quiet free offset sends nothing. */
  lemma ExhaustedIsSilent(h: Handler, g: Global, p: Packet, scope: Uint32, o: Oracles, build: Build)
    requires p.chaddr !in h.resv && OptionRequestedIPAddress !in p.options
    requires Discovery.FirstQuiet(h.free, 0, h.start, o.ping).None?
    ensures Transition(h, g, p, Discover, scope, o, build).reply == NoPacket
  {
    Discovery.DiscoverLowestFree(h, p, o, build);
  }

  /** DISCOVER then REQUEST for the offered address, from the same client,
      is acknowledged with that address, when the pool neither starts at
      0.0.0.0 nor wraps past 255.255.255.255. */
  lemma OfferThenRequestAcks(h: Handler, g: Global, p: Packet, q: Packet, scope: Uint32, o: Oracles, build: Build)
    requires InRange(h)
    requires 0 < h.start && h.start + h.leaseRange <= Modulus
    requires Transition(h, g, p, Discover, scope, o, build).reply.SendOffer?
    requires q.chaddr == p.chaddr
    requires RequestedBytes(q) == Octets(Transition(h, g, p, Discover, scope, o, build).reply.ip)
    ensures var s := Transition(h, g, p, Discover, scope, o, build);
      var t := Transition(s.h, s.g, q, Request, scope, o, build);
      && t.reply.SendAck?
      && t.reply.ip == s.reply.ip
      && t.h == s.h
      && t.g.macToIp[p.chaddr] == s.reply.ip
  {
    var s := Transition(h, g, p, Discover, scope, o, build);
    var e := Discovery.Discover(h, p, o, build).1.offset;
    assert e < h.leaseRange;
    assert s.reply.ip == h.start + e;
    assert BigEndian(RequestedBytes(q)) == s.reply.ip;
    assert Acknowledgeable(s.h, q);
    RequestAcksIff(s.h, s.g, q, scope, o, build);
  }

  /** The global caches change only on an ACK, and the de-duplication set never. */
  lemma CachesOnlyOnAck(h: Handler, g: Global, p: Packet, msg: MsgType, scope: Uint32, o: Oracles, build: Build)
    ensures var s := Transition(h, g, p, msg, scope, o, build);
      && s.g.dedup == g.dedup
      && (!s.reply.SendAck? ==> s.g == g)
  {
  }

  /** Corrected, every OFFER and ACK is filtered by the client's own
      parameter-request list, and carries every option when it sent none. */
  lemma CorrectedOrderIsClientList(h: Handler, g: Global, p: Packet, msg: MsgType, scope: Uint32, o: Oracles)
    ensures var r := Transition(h, g, p, msg, scope, o, Corrected).reply;
      (r.SendOffer? || r.SendAck?) ==>
        r.order == if OptionParameterRequestList in p.options then Some(p.options[OptionParameterRequestList]) else None
  {
  }

  /** As written, whether an OFFER or ACK is filtered depends only on the
      configured options and the stored overrides, never on the client's
      list; the list used is the configured one. */
  lemma AsWrittenOrderIsConfigured(h: Handler, g: Global, p: Packet, msg: MsgType, scope: Uint32, o: Oracles)
    ensures var r := Transition(h, g, p, msg, scope, o, AsWritten).reply;
      var network := o.overrides(NetworkScope(scope));
      var client := o.overrides(ClientScope(p.chaddr));
      (r.SendOffer? || r.SendAck?) ==>
        && (r.order.Some? <==>
              OptionParameterRequestList in h.options
              || Has(network, OptionParameterRequestList) || Has(client, OptionParameterRequestList))
        && (r.order.Some? && !Has(network, OptionParameterRequestList) && !Has(client, OptionParameterRequestList) ==>
              r.order.value == h.options[OptionParameterRequestList])
  {
  }
}

/**
 The packet handler of one interface: pick the subnet, then, when this
 server holds the virtual IP and the packet is not a retransmission seen in
 the last moments, run the message's transition on that subnet's handler.
 */
module Serve {
  import opened IPv4
  import opened Dhcp
  import Selection
  import Transaction

  /** The interface and global caches afterwards, the source address of the
      answer, and the reply. */
  datatype Answer = Answer(iface: Interface, g: Global, srcIP: Uint32, reply: Reply)

  /** The de-duplication key of a packet: client, message type, rendered xid. */
  function KeyOf(p: Packet, msg: MsgType, o: Oracles): DedupKey
  {
    DedupKey(p.chaddr, msg, o.markKey(p.xid))
  }

  /** One packet. `vip` says whether this server holds the interface's
      virtual IP. The classification is asked for every packet here; the
      handler asks only for role-split networks, which are the only ones
      whose choice depends on it. */
  function Serve(iface: Interface, g: Global, p: Packet, msg: MsgType, vip: bool, o: Oracles, build: Build): (a: Answer)
    ensures a.iface.name == iface.name && a.iface.ipv4 == iface.ipv4
    ensures |a.iface.networks| == |iface.networks|
    ensures !vip ==> a.iface == iface && a.g == g && a.reply == NoPacket
    ensures a.reply != NoPacket || a.iface != iface || a.g != g ==>
      && vip && KeyOf(p, msg, o) !in g.dedup
      && a.g.dedup == g.dedup + {KeyOf(p, msg, o)}
    ensures forall j :: 0 <= j < |iface.networks| ==>
      && a.iface.networks[j].subnet == iface.networks[j].subnet
      && a.iface.networks[j].split == iface.networks[j].split
      && SameConfig(iface.networks[j].handler, a.iface.networks[j].handler)
  {
    match Selection.Select(iface.networks, p, o.classify(p.chaddr))
    case None => Answer(iface, g, iface.ipv4, NoPacket)
    case Some(sel) =>
      var n := iface.networks[sel.index];
      var src := if sel.rule == Selection.RoleMatch then n.handler.ip else iface.ipv4;
      var key := KeyOf(p, msg, o);
      if !vip || key in g.dedup then Answer(iface, g, src, NoPacket)
      else
        var s := Transaction.Transition(n.handler, g.(dedup := g.dedup + {key}), p, msg, n.subnet.base, o, build);
        Answer(iface.(networks := iface.networks[sel.index := n.(handler := s.h)]), s.g, src, s.reply)
  }

  /** A packet no network accepts gets no answer and changes nothing; the
      answer would come from the interface address. */
  lemma NoNetworkSilent(iface: Interface, g: Global, p: Packet, msg: MsgType, vip: bool, o: Oracles, build: Build)
    requires forall j :: 0 <= j < |iface.networks| ==> !Selection.Accepts(iface.networks[j], p, o.classify(p.chaddr))
    ensures Serve(iface, g, p, msg, vip, o, build) == Answer(iface, g, iface.ipv4, NoPacket)
  {
  }

  /** Without the virtual IP, or for a packet whose key is already cached,
      nothing is sent and nothing changes. */
  lemma GateSilent(iface: Interface, g: Global, p: Packet, msg: MsgType, vip: bool, o: Oracles, build: Build)
    requires !vip || KeyOf(p, msg, o) in g.dedup
    ensures var a := Serve(iface, g, p, msg, vip, o, build);
      a.iface == iface && a.g == g && a.reply == NoPacket
  {
  }

  /** The answer's source is the network handler's own address exactly when
      the network was chosen for the device's role, else the interface's. */
  lemma SourceAddress(iface: Interface, g: Global, p: Packet, msg: MsgType, vip: bool, o: Oracles, build: Build)
    ensures var a := Serve(iface, g, p, msg, vip, o, build);
      var sel := Selection.Select(iface.networks, p, o.classify(p.chaddr));
      && (sel.Some? && sel.value.rule == Selection.RoleMatch ==>
            a.srcIP == iface.networks[sel.value.index].handler.ip)
      && (!(sel.Some? && sel.value.rule == Selection.RoleMatch) ==> a.srcIP == iface.ipv4)
  {
  }

  /** A packet that passes the gate is recorded in the de-duplication cache
      and handled by the first network that accepts it; that network's
      handler takes the transition's state, every other network and the
      interface's name and address stay as they were. */
  lemma GatePasses(iface: Interface, g: Global, p: Packet, msg: MsgType, o: Oracles, build: Build, k: nat)
    requires k < |iface.networks| && Selection.Accepts(iface.networks[k], p, o.classify(p.chaddr))
    requires forall j :: 0 <= j < k ==> !Selection.Accepts(iface.networks[j], p, o.classify(p.chaddr))
    requires KeyOf(p, msg, o) !in g.dedup
    ensures var a := Serve(iface, g, p, msg, true, o, build);
      var n := iface.networks[k];
      var s := Transaction.Transition(n.handler, g.(dedup := g.dedup + {KeyOf(p, msg, o)}), p, msg, n.subnet.base, o, build);
      && a.reply == s.reply
      && a.g == s.g
      && a.g.dedup == g.dedup + {KeyOf(p, msg, o)}
      && a.iface.name == iface.name && a.iface.ipv4 == iface.ipv4
      && |a.iface.networks| == |iface.networks|
      && a.iface.networks[k] == n.(handler := s.h)
      && (forall j :: 0 <= j < |iface.networks| && j != k ==> a.iface.networks[j] == iface.networks[j])
  {
    var info := o.classify(p.chaddr);
    var sel := Selection.Select(iface.networks, p, info);
    assert sel.Some? && sel.value.index == k;
    var n := iface.networks[k];
    Transaction.CachesOnlyOnAck(n.handler, g.(dedup := g.dedup + {KeyOf(p, msg, o)}), p, msg, n.subnet.base, o, build);
  }

  /** A retransmission (the same packet again, right after) is not answered
      and changes nothing: whatever the first copy did, its key is cached and
      the network chosen for the copy is the same one. */
  lemma Retransmission(iface: Interface, g: Global, p: Packet, msg: MsgType, vip: bool, o: Oracles, build: Build)
    ensures var a := Serve(iface, g, p, msg, vip, o, build);
      var b := Serve(a.iface, a.g, p, msg, vip, o, build);
      && b.iface == a.iface && b.g == a.g && b.reply == NoPacket && b.srcIP == a.srcIP
  {
    var a := Serve(iface, g, p, msg, vip, o, build);
    var info := o.classify(p.chaddr);
    var sel := Selection.Select(iface.networks, p, info);
    if sel.Some? && vip && KeyOf(p, msg, o) !in g.dedup {
      var k := sel.value.index;
      var n := iface.networks[k];
      var g1 := g.(dedup := g.dedup + {KeyOf(p, msg, o)});
      var s := Transaction.Transition(n.handler, g1, p, msg, n.subnet.base, o, build);
      Transaction.CachesOnlyOnAck(n.handler, g1, p, msg, n.subnet.base, o, build);
      assert a.iface.networks == iface.networks[k := n.(handler := s.h)];
      Selection.SelectConfigOnly(iface.networks, a.iface.networks, p, info);
      assert KeyOf(p, msg, o) in a.g.dedup;
    }
  }

}

/**
 Choosing the subnet handler for an incoming packet: the interface's
 networks are tried in configuration order and the first one that accepts
 the packet wins. Layer-2 networks may be split by role, in which case the
 device's classification decides.
 */
module Selection {
  import opened IPv4
  import opened Dhcp

  const Registration: string := "registration"
  const Unregistered: string := "unreg"

  /** The role a device is served under: its category, or "registration"
      when it has none or is unregistered. */
  function Category(info: NodeInfo): string
  {
    if info.category == "" || info.status == Unregistered then Registration else info.category
  }

  /** Why a network was chosen: layer-2 with matching role, layer-2, a client
      already holding an address in the subnet, or a relayed/renewing client. */
  datatype Rule = RoleMatch | Layer2 | Leased | Relayed

  /** The checks one network undergoes, in the order the handler makes them.
      None means "try the next network": a layer-2 network whose role or
      client address does not fit is skipped without the later checks. */
  function RuleFor(n: Network, p: Packet, info: NodeInfo): (r: Option<Rule>)
    ensures r.Some? <==> Accepts(n, p, info)
    ensures r == Some(RoleMatch) <==>
      n.handler.layer2 && n.split && (p.giaddr == Zero || Contains(n.subnet, p.ciaddr)) && n.handler.role == Category(info)
  {
    if n.handler.layer2 && (p.giaddr == Zero || Contains(n.subnet, p.ciaddr)) then
      if n.split then
        if n.handler.role == Category(info) then Some(RoleMatch) else None
      else if p.ciaddr != Zero && !Contains(n.subnet, p.ciaddr) then None
      else Some(Layer2)
    else if p.giaddr == Zero && Contains(n.subnet, p.ciaddr) then Some(Leased)
    else if (p.giaddr != Zero && Contains(n.subnet, p.giaddr)) || Contains(n.subnet, p.ciaddr) then Some(Relayed)
    else None
  }

  /** When a network accepts a packet, stated without the order of the checks:
      a role-split layer-2 network that the packet reaches accepts exactly the
      devices of its role; any other network accepts a client address inside
      it, a relay address inside it, or an unrelayed client without an
      address when it is a layer-2 network. */
  predicate Accepts(n: Network, p: Packet, info: NodeInfo)
  {
    if n.handler.layer2 && n.split && (p.giaddr == Zero || Contains(n.subnet, p.ciaddr)) then
      n.handler.role == Category(info)
    else
      || Contains(n.subnet, p.ciaddr)
      || (p.giaddr != Zero && Contains(n.subnet, p.giaddr))
      || (n.handler.layer2 && p.giaddr == Zero && p.ciaddr == Zero)
  }

  datatype Selected = Selected(index: nat, rule: Rule)

  /** First network at or after `k` that the packet's checks select. */
  function SelectFrom(nets: seq<Network>, p: Packet, info: NodeInfo, k: nat): (r: Option<Selected>)
    requires k <= |nets|
    ensures r.Some? ==> k <= r.value.index < |nets|
    ensures r.Some? ==> RuleFor(nets[r.value.index], p, info) == Some(r.value.rule)
    ensures r.Some? ==> forall j :: k <= j < r.value.index ==> RuleFor(nets[j], p, info).None?
    ensures r.None? ==> forall j :: k <= j < |nets| ==> RuleFor(nets[j], p, info).None?
    decreases |nets| - k
  {
    if k == |nets| then None
    else match RuleFor(nets[k], p, info)
      case Some(rule) => Some(Selected(k, rule))
      case None => SelectFrom(nets, p, info, k + 1)
  }

  /** The handler lookup of the packet handler (first match wins). */
  function Select(nets: seq<Network>, p: Packet, info: NodeInfo): (r: Option<Selected>)
    ensures r.Some? ==>
      && r.value.index < |nets| && Accepts(nets[r.value.index], p, info)
      && RuleFor(nets[r.value.index], p, info) == Some(r.value.rule)
      && forall j :: 0 <= j < r.value.index ==> !Accepts(nets[j], p, info)
    ensures r.None? <==> forall j :: 0 <= j < |nets| ==> !Accepts(nets[j], p, info)
  {
    SelectFrom(nets, p, info, 0)
  }

  /** On an interface whose networks are all role-split layer-2 networks, an
      unrelayed packet goes to the first network whose role is the device's
      category, and is dropped when no network has that role. */
  lemma RoleSplitSelection(nets: seq<Network>, p: Packet, info: NodeInfo)
    requires forall j :: 0 <= j < |nets| ==> nets[j].split && nets[j].handler.layer2
    requires p.giaddr == Zero
    ensures Select(nets, p, info).Some? ==>
      var k := Select(nets, p, info).value.index;
      && Select(nets, p, info).value.rule == RoleMatch
      && nets[k].handler.role == Category(info)
      && forall j :: 0 <= j < k ==> nets[j].handler.role != Category(info)
    ensures Select(nets, p, info).None? <==> forall j :: 0 <= j < |nets| ==> nets[j].handler.role != Category(info)
  {
  }

  /** Selection reads only the configuration of each network, so networks
      whose handlers agree on configuration select alike. */
  lemma SelectConfigOnly(nets: seq<Network>, nets': seq<Network>, p: Packet, info: NodeInfo)
    requires |nets| == |nets'|
    requires forall j :: 0 <= j < |nets| ==>
      nets'[j].subnet == nets[j].subnet && nets'[j].split == nets[j].split
      && SameConfig(nets[j].handler, nets'[j].handler)
    ensures Select(nets', p, info) == Select(nets, p, info)
  {
    assert forall j :: 0 <= j < |nets| ==> RuleFor(nets'[j], p, info) == RuleFor(nets[j], p, info);
    SelectFromSame(nets, nets', p, info, 0);
  }

  lemma {:induction false} SelectFromSame(nets: seq<Network>, nets': seq<Network>, p: Packet, info: NodeInfo, k: nat)
    requires k <= |nets| == |nets'|
    requires forall j :: 0 <= j < |nets| ==> RuleFor(nets'[j], p, info) == RuleFor(nets[j], p, info)
    ensures SelectFrom(nets', p, info, k) == SelectFrom(nets, p, info, k)
    decreases |nets| - k
  {
    if k < |nets| {
      SelectFromSame(nets, nets', p, info, k + 1);
    }
  }
}

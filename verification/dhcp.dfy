/**
 The data the DHCP server's packet handler works on: packets, subnet
 handlers with their address pool and reservation cache, the interface's
 ordered list of networks, the process-wide caches, and the collaborators
 whose code is outside the model (classification lookup, ping probe,
 option-override storage, IP shuffling, transaction-id rendering), which
 are passed in as functions.
 */
module Dhcp {
  import opened IPv4

  datatype Option<+T> = None | Some(value: T)

  /** Client hardware address (`chaddr`), as raw bytes. */
  type Mac = seq<Byte>

  /** DHCP option code (one byte on the wire). */
  type Code = c: int | 0 <= c < 0x100

  /** Options keyed by code, values as raw bytes (`dhcp.Options`). */
  type OptionMap = map<Code, seq<Byte>>

  const OptionRouter: Code := 3
  const OptionDomainNameServer: Code := 6
  const OptionRequestedIPAddress: Code := 50
  const OptionIPAddressLeaseTime: Code := 51
  const OptionParameterRequestList: Code := 55

  /** The message types the dhcp4 listener hands to the handler (codes 1-8;
      it drops packets carrying any other type before the handler runs). */
  datatype MsgType = Discover | Offer | Request | Decline | Ack | Nak | Release | Inform

  /** A parsed client packet: the fields the handler reads. */
  datatype Packet = Packet(
    chaddr: Mac,
    giaddr: Uint32,
    ciaddr: Uint32,
    xid: Uint32,
    options: OptionMap)

  /** What the external classification service reports about a device. */
  datatype NodeInfo = NodeInfo(category: string, status: string)

  /** One configured subnet's handler. The first group of fields is
      configuration; `free` is the pool bitmap of free offsets, `resv` the
      reservation cache (client to offset), `marks` the transaction-id cache
      (rendered xid to 0 = offer pending, 1 = offer committed). */
  datatype Handler = Handler(
    ip: Uint32,
    start: Uint32,
    leaseRange: nat,
    leaseSeconds: int,
    options: OptionMap,
    layer2: bool,
    role: string,
    free: set<Uint32>,
    resv: map<Mac, Uint32>,
    marks: map<string, nat>)

  /** A subnet of an interface: its CIDR, whether it is split by role, and its handler. */
  datatype Network = Network(subnet: Subnet, split: bool, handler: Handler)

  /** A listening interface: name, own address, and its networks in configuration order. */
  datatype Interface = Interface(name: string, ipv4: Uint32, networks: seq<Network>)

  /** Key of the global transaction de-duplication cache. */
  datatype DedupKey = DedupKey(mac: Mac, msg: MsgType, xid: string)

  /** Process-wide state: the de-duplication cache and the IP/MAC lookup caches. */
  datatype Global = Global(
    dedup: set<DedupKey>,
    ipToMac: map<Uint32, Mac>,
    macToIp: map<Mac, Uint32>)

  /** Key under which option overrides are stored: a network address or a client. */
  datatype Scope = NetworkScope(base: Uint32) | ClientScope(mac: Mac)

  /** An option name as the dhcp4 package prints it; its first byte is ASCII. */
  type OptionName = s: string | |s| > 0 && s[0] as int < 0x80 witness "A"

  /** Collaborators outside the model, as deterministic functions:
      - classify: `NodeInformation`, the device classification lookup;
      - ping: `sharedutils.Ping`, true when the address answers;
      - overrides: `decodeOptions`, None when nothing is stored for the key;
      - shuffle: `ShuffleIP`, the reordering of an address-list option;
      - markKey: `sharedutils.ByteToString` of a transaction id;
      - lookupKey: `string(binary.BigEndian.Uint32(xid))`, the key REQUEST reads;
      - name, render, duration: the printed forms used by the stats report. */
  datatype Oracles = Oracles(
    classify: Mac -> NodeInfo,
    ping: Uint32 -> bool,
    overrides: Scope -> Option<OptionMap>,
    shuffle: seq<Byte> -> seq<Byte>,
    markKey: Uint32 -> string,
    lookupKey: Uint32 -> string,
    name: Code -> OptionName,
    render: (Code, seq<Byte>) -> string,
    duration: int -> string)

  /** Which program is modelled: the code as written, or with the four
      defects the proofs expose corrected. */
  datatype Build = AsWritten | Corrected

  /** What the handler answers. `Panics` is the index-out-of-range panic of
      `binary.BigEndian.Uint32` on a short option; `Loops` is a retry loop that
      never exits. */
  datatype Reply =
    | NoPacket
    | SendOffer(ip: Uint32, lease: int, options: OptionMap, order: Option<seq<Byte>>)
    | SendAck(ip: Uint32, lease: int, options: OptionMap, order: Option<seq<Byte>>)
    | SendNak
    | Panics
    | Loops

  /** The configuration part of a handler: everything a packet cannot change. */
  /** Offsets of the pool and of reservations lie inside the lease range. */
  ghost predicate InRange(h: Handler)
  {
    && (forall x :: x in h.free ==> x < h.leaseRange)
    && (forall m :: m in h.resv ==> h.resv[m] < h.leaseRange)
  }

  predicate SameConfig(h: Handler, h': Handler)
  {
    && h'.ip == h.ip && h'.start == h.start && h'.leaseRange == h.leaseRange
    && h'.leaseSeconds == h.leaseSeconds && h'.options == h.options
    && h'.layer2 == h.layer2 && h'.role == h.role
  }
}

/**
 The control-channel reports of an interface: "stats" describes every
 subnet (free count, printed options, reservations, a consistency status)
 and "debug" lists the subnets of one role.
 */
module Report {
  import opened IPv4
  import opened Dhcp
  import Accounting

  /** The report key of the lease duration; it is also what the handler-option
      naming below gives option 51, so a configured option 51 overwrites it. */
  const LeaseTimeKey: string := "optionIPAddressLeaseTime"

  /** `Normal`, or the mismatch message with the number of addresses the
      reservation count leaves available. */
  datatype Status = Normal | Mismatch(calculated: int)

  datatype NetStats = NetStats(
    ethernet: string,
    net: Subnet,
    free: nat,
    category: string,
    options: map<string, string>,
    members: map<Mac, Uint32>,
    status: Status)

  datatype DebugEntry = DebugEntry(ethernet: string, net: Subnet, free: nat, category: string)

  /** Setting bit 5 (0x20) of an ASCII code: upper-case letters become lower
      case. */
  function SetBit5(c: char): (r: char)
    requires c as int < 0x80
    ensures r as int < 0x80
    ensures 'A' <= c <= 'Z' ==> r as int == c as int + ('a' as int - 'A' as int)
    ensures 'a' <= c <= 'z' ==> r == c
  {
    if c as int % 0x40 >= 0x20 then c else (c as int + 0x20) as char
  }

  /** The option name with its first byte lower-cased as above. */
  function LowerFirst(s: OptionName): (r: string)
    ensures |r| == |s| && r[1..] == s[1..]
    ensures r[0] == SetBit5(s[0])
  {
    [SetBit5(s[0])] + s[1..]
  }

  /** Writes one entry per code of `opts`, codes visited from `k` upward;
      a later code overwrites an earlier one that prints the same key. */
  function Entries(opts: OptionMap, key: Code -> string, render: (Code, seq<Byte>) -> string,
                   k: nat, acc: map<string, string>): map<string, string>
    requires k <= 0x100
    decreases 0x100 - k
  {
    if k == 0x100 then acc
    else Entries(opts, key, render, k + 1, if k in opts then acc[key(k) := render(k, opts[k])] else acc)
  }

  /** Keys `key` prints for the codes of `opts` from `k` upward. */
  ghost function KeysFrom(opts: OptionMap, key: Code -> string, k: nat): set<string>
  {
    set c | c in opts && c >= k :: key(c)
  }

  /** The keys written: those of `acc` and the key of every code from `k` upward. */
  lemma {:induction false} EntriesKeys(opts: OptionMap, key: Code -> string, render: (Code, seq<Byte>) -> string,
                                       k: nat, acc: map<string, string>)
    requires k <= 0x100
    ensures Entries(opts, key, render, k, acc).Keys == acc.Keys + KeysFrom(opts, key, k)
    decreases 0x100 - k
  {
    if k < 0x100 {
      var acc' := if k in opts then acc[key(k) := render(k, opts[k])] else acc;
      EntriesKeys(opts, key, render, k + 1, acc');
      if k in opts {
        assert KeysFrom(opts, key, k) == KeysFrom(opts, key, k + 1) + {key(k)};
      } else {
        assert KeysFrom(opts, key, k) == KeysFrom(opts, key, k + 1);
      }
    } else {
      assert KeysFrom(opts, key, k) == {};
    }
  }

  /** With distinct keys for distinct codes, every code from `k` upward is
      under its key with its rendered value, and the rest of `acc` stays. */
  lemma {:induction false} EntriesHold(opts: OptionMap, key: Code -> string, render: (Code, seq<Byte>) -> string,
                                       k: nat, acc: map<string, string>)
    requires k <= 0x100
    requires forall c1, c2 :: c1 in opts && c2 in opts && c1 != c2 ==> key(c1) != key(c2)
    ensures var r := Entries(opts, key, render, k, acc);
      && r.Keys == acc.Keys + KeysFrom(opts, key, k)
      && (forall c :: c in opts && c >= k ==> r[key(c)] == render(c, opts[c]))
      && (forall s :: s in acc && s !in KeysFrom(opts, key, k) ==> r[s] == acc[s])
    decreases 0x100 - k
  {
    EntriesKeys(opts, key, render, k, acc);
    if k < 0x100 {
      var acc' := if k in opts then acc[key(k) := render(k, opts[k])] else acc;
      EntriesHold(opts, key, render, k + 1, acc');
      if k in opts {
        assert KeysFrom(opts, key, k) == KeysFrom(opts, key, k + 1) + {key(k)};
        assert key(k) !in KeysFrom(opts, key, k + 1);
      } else {
        assert KeysFrom(opts, key, k) == KeysFrom(opts, key, k + 1);
      }
    }
  }

  /** Handler options are keyed by their name with the first byte lower-cased. */
  function LoweredKey(o: Oracles): Code -> string
  {
    (c: Code) => LowerFirst(o.name(c))
  }

  /** Network options are keyed by their name as printed. */
  function PrintedKey(o: Oracles): Code -> string
  {
    (c: Code) => var s: string := o.name(c); s
  }

  /** The lease duration, then the handler's options. */
  function HandlerPart(n: Network, o: Oracles): (r: map<string, string>)
    ensures r.Keys == {LeaseTimeKey} + KeysFrom(n.handler.options, LoweredKey(o), 0)
    ensures forall c :: c in n.handler.options ==> LowerFirst(o.name(c)) in r
  {
    EntriesKeys(n.handler.options, LoweredKey(o), o.render, 0, map[LeaseTimeKey := o.duration(n.handler.leaseSeconds)]);
    Entries(n.handler.options, LoweredKey(o), o.render, 0, map[LeaseTimeKey := o.duration(n.handler.leaseSeconds)])
  }

  /** The printed options of a subnet: the lease duration, the handler's
      options under their lower-cased names, then the options stored for the
      network under their names as printed. */
  function PrintedOptions(n: Network, o: Oracles): (r: map<string, string>)
    ensures HandlerPart(n, o).Keys <= r.Keys
    ensures o.overrides(NetworkScope(n.subnet.base)).None? ==> r == HandlerPart(n, o)
    ensures o.overrides(NetworkScope(n.subnet.base)).Some? ==>
      forall c :: c in o.overrides(NetworkScope(n.subnet.base)).value ==> o.name(c) in r
  {
    match o.overrides(NetworkScope(n.subnet.base))
    case None => HandlerPart(n, o)
    case Some(x) =>
      EntriesKeys(x, PrintedKey(o), o.render, 0, HandlerPart(n, o));
      Entries(x, PrintedKey(o), o.render, 0, HandlerPart(n, o))
  }

  /** Reservations listed as client and address (pool start plus offset, in
      32-bit arithmetic). */
  function Members(h: Handler): (r: map<Mac, Uint32>)
    ensures r.Keys == h.resv.Keys
    ensures forall m :: m in r ==> Sub(r[m], h.start) == h.resv[m]
  {
    map m | m in h.resv :: Add(h.start, h.resv[m])
  }

  /** The stats entry of one subnet. */
  function NetStatsOf(n: Network, ethernet: string, o: Oracles): (r: NetStats)
    ensures r.free == |n.handler.free| && r.members.Keys == n.handler.resv.Keys
    ensures r.status == Normal <==> |n.handler.resv| + |n.handler.free| == n.handler.leaseRange
    ensures r.status.Mismatch? ==> r.status.calculated == n.handler.leaseRange - |n.handler.resv|
  {
    var h := n.handler;
    NetStats(ethernet, n.subnet, |h.free|, h.role, PrintedOptions(n, o), Members(h),
             if |h.resv| == h.leaseRange - |h.free| then Normal else Mismatch(h.leaseRange - |h.resv|))
  }

  /** The "stats" answer: one entry per subnet, in configuration order, with
      the subnet, its free count and role, its printed options, one member
      per reservation, and a `Normal` status exactly when the reservation
      count is the lease range less the free count. */
  function Stats(nets: seq<Network>, ethernet: string, o: Oracles): (r: seq<NetStats>)
    ensures |r| == |nets|
    ensures forall i :: 0 <= i < |nets| ==>
      && r[i].ethernet == ethernet
      && r[i].net == nets[i].subnet
      && r[i].free == |nets[i].handler.free|
      && r[i].category == nets[i].handler.role
      && r[i].options == PrintedOptions(nets[i], o)
      && r[i].members.Keys == nets[i].handler.resv.Keys
      && (r[i].status == Normal <==> |nets[i].handler.resv| == nets[i].handler.leaseRange - |nets[i].handler.free|)
  {
    seq(|nets|, i requires 0 <= i < |nets| => NetStatsOf(nets[i], ethernet, o))
  }

  /** The debug entry of one subnet. */
  function DebugOf(n: Network, ethernet: string): DebugEntry
  {
    DebugEntry(ethernet, n.subnet, |n.handler.free|, n.handler.role)
  }

  /** The "debug" answer: the subnets whose role is `role`, in order, one
      entry each. */
  function Debug(nets: seq<Network>, ethernet: string, role: string): (r: seq<DebugEntry>)
    ensures |r| == RoleCount(nets, role)
    ensures forall i :: 0 <= i < |r| ==> r[i].category == role && r[i].ethernet == ethernet
  {
    if nets == [] then []
    else
      var n := nets[|nets| - 1];
      Debug(nets[..|nets| - 1], ethernet, role) + (if n.handler.role == role then [DebugOf(n, ethernet)] else [])
  }

  /** The debug answer lists the subnets of the role in configuration order:
      network `j` of that role is entry number `RoleCount(nets[..j], role)`,
      so each has exactly one entry (`DebugSources` gives the converse). */
  lemma {:induction false} DebugLists(nets: seq<Network>, ethernet: string, role: string)
    ensures var r := Debug(nets, ethernet, role);
      forall j :: 0 <= j < |nets| && nets[j].handler.role == role ==>
        RoleCount(nets[..j], role) < |r| && r[RoleCount(nets[..j], role)] == DebugOf(nets[j], ethernet)
    decreases |nets|
  {
    if nets != [] {
      var k := |nets| - 1;
      var front := nets[..k];
      DebugLists(front, ethernet, role);
      forall j | 0 <= j < |nets| && nets[j].handler.role == role
        ensures var r := Debug(nets, ethernet, role);
          RoleCount(nets[..j], role) < |r| && r[RoleCount(nets[..j], role)] == DebugOf(nets[j], ethernet)
      {
        DebugListsStep(nets, ethernet, role, j);
      }
    }
  }

  /** The step of `DebugLists`: network `j` of the role keeps its entry when
      the last network is appended. */
  lemma DebugListsStep(nets: seq<Network>, ethernet: string, role: string, j: nat)
    requires j < |nets| && nets[j].handler.role == role
    requires var front := nets[..|nets| - 1];
      forall j :: 0 <= j < |front| && front[j].handler.role == role ==>
        RoleCount(front[..j], role) < |Debug(front, ethernet, role)|
        && Debug(front, ethernet, role)[RoleCount(front[..j], role)] == DebugOf(front[j], ethernet)
    ensures var r := Debug(nets, ethernet, role);
      RoleCount(nets[..j], role) < |r| && r[RoleCount(nets[..j], role)] == DebugOf(nets[j], ethernet)
  {
    var k := |nets| - 1;
    var front := nets[..k];
    var prefix := Debug(front, ethernet, role);
    var r := Debug(nets, ethernet, role);
    assert r == prefix + [DebugOf(nets[k], ethernet)] || r == prefix;
    if j < k {
      assert front[j] == nets[j];
      assert front[..j] == nets[..j];
      assert r[RoleCount(nets[..j], role)] == prefix[RoleCount(front[..j], role)];
    } else {
      assert nets[..j] == front;
    }
  }

  /** The debug entries of the networks whose role is `role`. */
  function RoleEntries(nets: seq<Network>, ethernet: string, role: string): set<DebugEntry>
  {
    set j | 0 <= j < |nets| && nets[j].handler.role == role :: DebugOf(nets[j], ethernet)
  }

  /** Every debug entry is the entry of a network of the role. */
  lemma {:induction false} DebugSources(nets: seq<Network>, ethernet: string, role: string)
    ensures forall i :: 0 <= i < |Debug(nets, ethernet, role)| ==>
      Debug(nets, ethernet, role)[i] in RoleEntries(nets, ethernet, role)
    decreases |nets|
  {
    if nets != [] {
      var k := |nets| - 1;
      var front := nets[..k];
      DebugSources(front, ethernet, role);
      assert RoleEntries(front, ethernet, role) <= RoleEntries(nets, ethernet, role) by {
        forall j | 0 <= j < |front| && front[j].handler.role == role
          ensures DebugOf(front[j], ethernet) in RoleEntries(nets, ethernet, role)
        {
          assert front[j] == nets[j];
        }
      }
      if nets[k].handler.role == role {
        assert DebugOf(nets[k], ethernet) in RoleEntries(nets, ethernet, role);
      }
    }
  }

  /** Number of subnets whose role is `role`. */
  function RoleCount(nets: seq<Network>, role: string): (c: nat)
    ensures c <= |nets|
  {
    if nets == [] then 0
    else RoleCount(nets[..|nets| - 1], role) + (if nets[|nets| - 1].handler.role == role then 1 else 0)
  }

  /** Under no double allocation the status is `Normal` exactly when no
      offset of the range is lost. */
  lemma StatusNormalIffSound(n: Network, ethernet: string, o: Oracles)
    requires n.handler.leaseRange <= Modulus
    requires Accounting.Consistent(n.handler)
    ensures NetStatsOf(n, ethernet, o).status == Normal <==> Accounting.Complete(n.handler)
    ensures NetStatsOf(n, ethernet, o).status != Normal ==>
      NetStatsOf(n, ethernet, o).status.calculated > |n.handler.free|
  {
    Accounting.NormalIffComplete(n.handler);
    Accounting.Parts(n.handler);
    Accounting.SubsetSize(n.handler.free + n.handler.resv.Values, Accounting.Range(n.handler.leaseRange));
  }

  /** Each member's address maps back to its reserved offset the way REQUEST
      computes a lease number, when reservations lie in the range and the
      pool does not wrap. */
  lemma MembersRoundTrip(h: Handler)
    requires forall m :: m in h.resv ==> h.resv[m] < h.leaseRange
    requires h.start + h.leaseRange <= Modulus
    ensures Members(h).Keys == h.resv.Keys
    ensures forall m :: m in h.resv ==>
      && Distance(h.start, Members(h)[m]) == h.resv[m]
      && h.start <= Members(h)[m] < h.start + h.leaseRange
  {
  }

  /** With lower-cased names that differ from code to code, the handler part
      holds exactly the lease duration and the handler's options, each under
      its lower-cased name; the duration stays unless an option prints the
      same key. */
  lemma HandlerPartHolds(n: Network, o: Oracles)
    requires forall c1: Code, c2: Code :: c1 != c2 ==> LoweredKey(o)(c1) != LoweredKey(o)(c2)
    ensures var r := HandlerPart(n, o);
      var ownKeys := KeysFrom(n.handler.options, LoweredKey(o), 0);
      && r.Keys == {LeaseTimeKey} + ownKeys
      && (LeaseTimeKey !in ownKeys ==> r[LeaseTimeKey] == o.duration(n.handler.leaseSeconds))
      && (forall c :: c in n.handler.options ==> r[LowerFirst(o.name(c))] == o.render(c, n.handler.options[c]))
  {
    EntriesHold(n.handler.options, LoweredKey(o), o.render, 0, map[LeaseTimeKey := o.duration(n.handler.leaseSeconds)]);
  }

  /** With option names that differ from code to code, the network's stored
      options are printed under their names and shadow the handler part only
      where a name coincides with one of its keys. */
  lemma PrintedOptionsHold(n: Network, o: Oracles)
    requires forall c1: Code, c2: Code :: c1 != c2 ==> PrintedKey(o)(c1) != PrintedKey(o)(c2)
    ensures var r := PrintedOptions(n, o);
      var ov := o.overrides(NetworkScope(n.subnet.base));
      var own := HandlerPart(n, o);
      var netKeys := if ov.Some? then KeysFrom(ov.value, PrintedKey(o), 0) else {};
      && r.Keys == own.Keys + netKeys
      && (forall s :: s in own && s !in netKeys ==> r[s] == own[s])
      && (ov.Some? ==> forall c :: c in ov.value ==> r[o.name(c)] == o.render(c, ov.value[c]))
  {
    match o.overrides(NetworkScope(n.subnet.base))
    case None =>
    case Some(x) =>
      EntriesHold(x, PrintedKey(o), o.render, 0, HandlerPart(n, o));
  }

  /** Over a whole report, for subnets kept free of double allocation whose
      pool does not wrap: a status is `Normal` exactly when no offset of the
      subnet is lost, and every member's address lies in the pool and maps
      back to the client's reserved offset. */
  lemma StatsReflectAccounting(nets: seq<Network>, ethernet: string, o: Oracles)
    requires forall j :: 0 <= j < |nets| ==>
      Accounting.Consistent(nets[j].handler) && nets[j].handler.start + nets[j].handler.leaseRange <= Modulus
    ensures var r := Stats(nets, ethernet, o);
      forall i :: 0 <= i < |nets| ==>
        && (r[i].status == Normal <==> Accounting.Complete(nets[i].handler))
        && forall m :: m in nets[i].handler.resv ==>
             && nets[i].handler.start <= r[i].members[m] < nets[i].handler.start + nets[i].handler.leaseRange
             && Distance(nets[i].handler.start, r[i].members[m]) == nets[i].handler.resv[m]
  {
    var r := Stats(nets, ethernet, o);
    forall i | 0 <= i < |nets|
      ensures r[i].status == Normal <==> Accounting.Complete(nets[i].handler)
      ensures forall m :: m in nets[i].handler.resv ==>
        && nets[i].handler.start <= r[i].members[m] < nets[i].handler.start + nets[i].handler.leaseRange
        && Distance(nets[i].handler.start, r[i].members[m]) == nets[i].handler.resv[m]
    {
      StatusNormalIffSound(nets[i], ethernet, o);
      MembersRoundTrip(nets[i].handler);
      assert r[i] == NetStatsOf(nets[i], ethernet, o);
    }
  }
}

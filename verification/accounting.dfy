/**
 The bookkeeping a subnet handler must keep so that no address is handed
 to two clients: every offset lies in the lease range, none is both free
 and reserved, and no two clients hold the same one. With the defects
 corrected, every packet keeps this; as written, an OFFER for a requested
 address breaks it (see the Findings module).
 */
module Accounting {
  import opened IPv4
  import opened Dhcp
  import Discovery
  import Transaction
  import Selection
  import Serve

  /** No double allocation: offsets in range, free and reserved disjoint,
      reservations pairwise distinct. */
  ghost predicate Consistent(h: Handler)
  {
    && InRange(h)
    && (forall m :: m in h.resv ==> h.resv[m] !in h.free)
    && (forall m1, m2 :: m1 in h.resv && m2 in h.resv && m1 != m2 ==> h.resv[m1] != h.resv[m2])
  }

  /** No offset of the range is lost: each is free or reserved. */
  ghost predicate Complete(h: Handler)
  {
    forall x: Uint32 :: x < h.leaseRange ==> x in h.free || x in h.resv.Values
  }

  /** The offsets `0 .. n-1`. */
  function Range(n: nat): (r: set<Uint32>)
    requires n <= Modulus
    ensures forall x: int :: x in r <==> 0 <= x < n
    ensures |r| == n
  {
    if n == 0 then {} else Range(n - 1) + {n - 1}
  }

  /** A freshly initialised pool: every offset free, no reservation. */
  lemma FreshIsSound(h: Handler)
    requires h.leaseRange <= Modulus
    requires h.free == Range(h.leaseRange) && h.resv == map[]
    ensures Consistent(h) && Complete(h)
  {
  }

  /** Taking a free offset for a client without a reservation. */
  lemma TakeKeeps(h: Handler, h': Handler, mac: Mac, e: Uint32)
    requires Consistent(h)
    requires mac !in h.resv && e in h.free
    requires h'.leaseRange == h.leaseRange
    requires h'.free == h.free - {e} && h'.resv == h.resv[mac := e]
    ensures Consistent(h')
    ensures Complete(h) ==> Complete(h')
  {
    if Complete(h) {
      forall x: Uint32 | x < h'.leaseRange
        ensures x in h'.free || x in h'.resv.Values
      {
        if x == e {
          assert h'.resv[mac] == e;
        } else if x !in h.free {
          var m :| m in h.resv && h.resv[m] == x;
          assert h'.resv[m] == x;
        }
      }
    }
  }

  /** Corrected, DISCOVER keeps the bookkeeping: no double allocation, and no
      offset that was free or reserved goes missing. */
  lemma CorrectedDiscoverSound(h: Handler, p: Packet, o: Oracles)
    requires Consistent(h)
    ensures var h' := Discovery.Discover(h, p, o, Corrected).0;
      && Consistent(h')
      && (Complete(h) ==> Complete(h'))
  {
    var (h', v) := Discovery.Discover(h, p, o, Corrected);
    if p.chaddr in h.resv {
      Discovery.DiscoverReoffers(h, p, o, Corrected);
    } else if OptionRequestedIPAddress !in p.options {
      Discovery.DiscoverLowestFree(h, p, o, Corrected);
      match Discovery.FirstQuiet(h.free, 0, h.start, o.ping)
      case Some(e) => TakeKeeps(h, h', p.chaddr, e);
      case None =>
    } else {
      Discovery.DiscoverRequested(h, p, o, Corrected);
      var raw := p.options[OptionRequestedIPAddress];
      if h.free != {} && |raw| >= 4 {
        var e := Sub(BigEndian(raw), h.start);
        if e in h.free && !Discovery.Loud(h.start, o.ping, e) {
          TakeKeeps(h, h', p.chaddr, e);
        } else if e in h.free {
          Discovery.CorrectedRequestedFallsBack(h, p, o);
          match Discovery.FirstQuiet(h.free, 0, h.start, o.ping)
          case Some(e') => TakeKeeps(h, h', p.chaddr, e');
          case None =>
        }
      }
    }
  }

  /** Corrected, every message keeps the handler free of double allocation;
      DISCOVER, RELEASE and DECLINE also lose no offset. */
  lemma CorrectedTransitionSound(h: Handler, g: Global, p: Packet, msg: MsgType, scope: Uint32, o: Oracles)
    requires Consistent(h)
    ensures var h' := Transaction.Transition(h, g, p, msg, scope, o, Corrected).h;
      && Consistent(h')
      && (Complete(h) && msg != Request ==> Complete(h'))
  {
    var h' := Transaction.Transition(h, g, p, msg, scope, o, Corrected).h;
    match msg
    case Discover => CorrectedDiscoverSound(h, p, o);
    case Request => Transaction.RequestAcksIff(h, g, p, scope, o, Corrected);
    case Release => ReleaseSound(h, g, p, msg, scope, o);
    case Decline => ReleaseSound(h, g, p, msg, scope, o);
    case _ =>
  }

  lemma ReleaseSound(h: Handler, g: Global, p: Packet, msg: MsgType, scope: Uint32, o: Oracles)
    requires Consistent(h)
    requires msg == Release || msg == Decline
    ensures var h' := Transaction.Transition(h, g, p, msg, scope, o, Corrected).h;
      Consistent(h') && (Complete(h) ==> Complete(h'))
  {
    var h' := Transaction.Transition(h, g, p, msg, scope, o, Corrected).h;
    Transaction.ReleaseReturnsOffset(h, g, p, msg, scope, o, Corrected);
    if p.chaddr in h.resv && Complete(h) {
      forall x: Uint32 | x < h'.leaseRange
        ensures x in h'.free || x in h'.resv.Values
      {
        if x !in h.free && x != h.resv[p.chaddr] {
          var m :| m in h.resv && h.resv[m] == x;
          assert h'.resv[m] == x;
        }
      }
    }
  }

  /** Corrected, a whole packet keeps every network of the interface free of
      double allocation. */
  lemma CorrectedServeSound(iface: Interface, g: Global, p: Packet, msg: MsgType, vip: bool, o: Oracles)
    requires forall j :: 0 <= j < |iface.networks| ==> Consistent(iface.networks[j].handler)
    ensures var a := Serve.Serve(iface, g, p, msg, vip, o, Corrected);
      && |a.iface.networks| == |iface.networks|
      && forall j :: 0 <= j < |a.iface.networks| ==> Consistent(a.iface.networks[j].handler)
  {
    var info := o.classify(p.chaddr);
    var sel := Selection.Select(iface.networks, p, info);
    if sel.Some? && vip && Serve.KeyOf(p, msg, o) !in g.dedup {
      var n := iface.networks[sel.value.index];
      CorrectedTransitionSound(n.handler, g.(dedup := g.dedup + {Serve.KeyOf(p, msg, o)}), p, msg, n.subnet.base, o);
    }
  }

  /** Reservations that share no offset have as many distinct offsets as clients. */
  lemma {:induction false} InjectiveValues(r: map<Mac, Uint32>)
    requires forall m1, m2 :: m1 in r && m2 in r && m1 != m2 ==> r[m1] != r[m2]
    ensures |r.Values| == |r|
    decreases |r|
  {
    if r != map[] {
      var m :| m in r;
      var r' := r - {m};
      InjectiveValues(r');
      assert r.Values == r'.Values + {r[m]} by {
        forall x | x in r.Values ensures x in r'.Values + {r[m]} {
          var k :| k in r && r[k] == x;
          if k != m {
            assert r'[k] == x;
          }
        }
      }
      assert r.Keys == r'.Keys + {m};
    }
  }

  lemma SubsetSize(a: set<Uint32>, b: set<Uint32>)
    requires a <= b
    ensures |a| <= |b|
  {
    assert b == a + (b - a);
  }

  /** Under no double allocation, the free and reserved offsets are disjoint
      parts of the range, counted by the free and reservation counts. */
  lemma Parts(h: Handler)
    requires h.leaseRange <= Modulus
    requires Consistent(h)
    ensures h.free + h.resv.Values <= Range(h.leaseRange)
    ensures |h.free + h.resv.Values| == |h.free| + |h.resv|
  {
    InjectiveValues(h.resv);
    assert h.free * h.resv.Values == {};
  }

  /** A subset of a finite set has its size exactly when it is all of it. */
  lemma CoverIffSize(part: set<Uint32>, all: set<Uint32>)
    requires part <= all
    ensures |part| == |all| <==> part == all
  {
    if part != all {
      var x :| x in all && x !in part;
      SubsetSize(part, all - {x});
    }
  }

  /** No offset is lost exactly when free and reserved offsets cover the range. */
  lemma CompleteIffCovers(h: Handler)
    requires h.leaseRange <= Modulus
    ensures Complete(h) <==> Range(h.leaseRange) <= h.free + h.resv.Values
  {
    var r := Range(h.leaseRange);
    if Complete(h) {
      forall x | x in r
        ensures x in h.free + h.resv.Values
      {
      }
    }
    if r <= h.free + h.resv.Values {
      forall x: Uint32 | x < h.leaseRange
        ensures x in h.free || x in h.resv.Values
      {
        assert x in r;
      }
    }
  }

  /** With no double allocation, the reservation count equals the lease
      range minus the free count exactly when no offset is lost. */
  lemma NormalIffComplete(h: Handler)
    requires h.leaseRange <= Modulus
    requires Consistent(h)
    ensures |h.resv| == h.leaseRange - |h.free| <==> Complete(h)
  {
    Parts(h);
    CoverIffSize(h.free + h.resv.Values, Range(h.leaseRange));
    CompleteIffCovers(h);
  }
}

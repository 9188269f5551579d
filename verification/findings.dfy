/**
 Concrete inputs on which the handler as written misbehaves, each next to
 the corrected behaviour. The general statements of the corrected side are
 in the Accounting, Discovery and Transaction modules.
 */
module Findings {
  import opened IPv4
  import opened Dhcp
  import Discovery
  import Transaction
  import Accounting

  /** A pool at 0.0.0.10 with nothing reserved and every offset free. */
  predicate FreshPool(h: Handler, free: set<Uint32>, size: nat)
  {
    && h.start == 10 && h.leaseRange == size && h.resv == map[] && h.free == free
  }

  /** The first half: client A asks for 0.0.0.11 and is offered offset 1,
      which stays free while offset 0 is taken out. */
  lemma RequestedOfferKeepsOffset(h: Handler, pA: Packet, o: Oracles)
    requires FreshPool(h, {0, 1, 2, 3}, 4)
    requires pA.chaddr == [1] && pA.options == map[OptionRequestedIPAddress := Octets(11)]
    requires forall x :: !o.ping(x)
    ensures var (hA, vA) := Discovery.Discover(h, pA, o, AsWritten);
      && vA == Discovery.Offered(1)
      && hA.start == 10 && hA.free == {1, 2, 3} && hA.resv == map[[1] := 1]
  {
    var raw := pA.options[OptionRequestedIPAddress];
    assert BigEndian(raw) == 11;
    assert Sub(BigEndian(raw), h.start) == 1;
    Discovery.RequestedQuietOffered(h, pA, o, AsWritten);
    assert h.free - {0} == {1, 2, 3};
  }

  /** Client A asks for 0.0.0.11 (offset 1) and is offered it, but offset 0
      leaves the pool instead of offset 1; client B, asking for nothing, is
      then offered offset 1 as well. Two clients hold the same address. */
  lemma RequestedOfferStaysFree(h: Handler, pA: Packet, pB: Packet, o: Oracles)
    requires FreshPool(h, {0, 1, 2, 3}, 4)
    requires pA.chaddr == [1] && pA.options == map[OptionRequestedIPAddress := Octets(11)]
    requires pB.chaddr == [2] && pB.options == map[]
    requires forall x :: !o.ping(x)
    ensures var (hA, vA) := Discovery.Discover(h, pA, o, AsWritten);
      var (hB, vB) := Discovery.Discover(hA, pB, o, AsWritten);
      && Accounting.Consistent(h)
      && vA == Discovery.Offered(1) && vB == Discovery.Offered(1)
      && hB.resv == map[[1] := 1, [2] := 1]
      && !Accounting.Consistent(hA)
      && !Accounting.Consistent(hB)
  {
    RequestedOfferKeepsOffset(h, pA, o);
    var (hA, vA) := Discovery.Discover(h, pA, o, AsWritten);
    assert hA.resv[[1]] == 1 && 1 in hA.free;
    Discovery.DiscoverLowestFree(hA, pB, o, AsWritten);
    var q := Discovery.FirstQuiet(hA.free, 0, hA.start, o.ping);
    assert q.Some? by {
      assert 1 in hA.free && !Discovery.Loud(hA.start, o.ping, 1);
    }
    assert q.value == 1;
    var (hB, vB) := Discovery.Discover(hA, pB, o, AsWritten);
    assert hB.resv[[1]] == 1 && hB.resv[[2]] == 1;
  }

  /** In a two-offset pool whose first address answers the probe, a plain
      DISCOVER is offered offset 1 and offset 0 ends up neither free nor
      reserved; corrected, offset 0 stays free. */
  lemma LoudOffsetLost(h: Handler, p: Packet, o: Oracles)
    requires FreshPool(h, {0, 1}, 2)
    requires OptionRequestedIPAddress !in p.options
    requires forall x :: o.ping(x) <==> x == 10
    ensures var (h', v) := Discovery.Discover(h, p, o, AsWritten);
      && v == Discovery.Offered(1)
      && h'.free == {} && h'.resv == map[p.chaddr := 1]
      && Accounting.Complete(h) && !Accounting.Complete(h')
    ensures var (h', v) := Discovery.Discover(h, p, o, Corrected);
      && v == Discovery.Offered(1)
      && h'.free == {0} && h'.resv == map[p.chaddr := 1]
      && Accounting.Complete(h')
  {
    Discovery.DiscoverLowestFree(h, p, o, AsWritten);
    Discovery.DiscoverLowestFree(h, p, o, Corrected);
    var q := Discovery.FirstQuiet(h.free, 0, h.start, o.ping);
    assert Discovery.Loud(h.start, o.ping, 0);
    assert q.Some? by {
      assert !Discovery.Loud(h.start, o.ping, 1);
    }
    assert q.value == 1;
    var (h', v) := Discovery.Discover(h, p, o, AsWritten);
    assert Discovery.Above(h.free, 1) == {};
    assert 0 !in h'.resv.Values;
  }

  /** A client asking for the first address of a pool where that address
      answers the probe: as written the handler never answers (its retry
      loop cannot leave); corrected, it is offered the next address. */
  lemma RequestedLoudHangs(h: Handler, g: Global, p: Packet, scope: Uint32, o: Oracles)
    requires FreshPool(h, {0, 1}, 2)
    requires p.options == map[OptionRequestedIPAddress := Octets(10)]
    requires forall x :: o.ping(x) <==> x == 10
    ensures Transaction.Transition(h, g, p, Discover, scope, o, AsWritten).reply == Loops
    ensures var r := Transaction.Transition(h, g, p, Discover, scope, o, Corrected).reply;
      r.SendOffer? && r.ip == 11
  {
    assert Sub(BigEndian(Octets(10)), h.start) == 0;
    assert Discovery.Loud(h.start, o.ping, 0);
    Discovery.DiscoverRequested(h, p, o, AsWritten);
    Discovery.CorrectedRequestedFallsBack(h, p, o);
    var q := Discovery.FirstQuiet(h.free, 0, h.start, o.ping);
    assert q.Some? by {
      assert !Discovery.Loud(h.start, o.ping, 1);
    }
    assert q.value == 1;
  }

  /** A client that lists only options 1 and 3, served by a handler with no
      option 55 and no overrides: as written the OFFER carries every option;
      corrected, it is filtered by the client's list. */
  lemma ParameterListIgnored(h: Handler, g: Global, p: Packet, scope: Uint32, o: Oracles)
    requires FreshPool(h, {0}, 1)
    requires OptionParameterRequestList !in h.options
    requires p.options == map[OptionParameterRequestList := [1, 3]]
    requires forall x :: !o.ping(x)
    requires forall s :: o.overrides(s) == None
    ensures var r := Transaction.Transition(h, g, p, Discover, scope, o, AsWritten).reply;
      r.SendOffer? && r.order == None
    ensures var r := Transaction.Transition(h, g, p, Discover, scope, o, Corrected).reply;
      r.SendOffer? && r.order == Some([1, 3])
  {
    Discovery.DiscoverLowestFree(h, p, o, AsWritten);
    Discovery.DiscoverLowestFree(h, p, o, Corrected);
    assert !Discovery.Loud(h.start, o.ping, 0);
    Transaction.AsWrittenOrderIsConfigured(h, g, p, Discover, scope, o);
    Transaction.CorrectedOrderIsClientList(h, g, p, Discover, scope, o);
  }
}

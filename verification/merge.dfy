/**
 The options and lease time an OFFER or ACK carries: the handler's own
 options (router and name-server lists reshuffled), then the overrides
 stored for the network, then those stored for the client. A lease-time
 entry in an override sets the lease instead of becoming an option.
 */
module OptionMerge {
  import opened IPv4
  import opened Dhcp
  import GoStrconv

  datatype Merged = Merged(options: OptionMap, lease: int)

  /** True when an override layer exists and holds code `k`. */
  predicate Has(ov: Option<OptionMap>, k: Code)
  {
    ov.Some? && k in ov.value
  }

  /** Whether a code holds an address list that is reshuffled on every reply. */
  predicate Shuffles(k: Code)
  {
    k == OptionDomainNameServer || k == OptionRouter
  }

  /** A fresh copy of the handler's options, address lists reshuffled. */
  function Shuffled(base: OptionMap, shuffle: seq<Byte> -> seq<Byte>): OptionMap
  {
    map k | k in base :: if Shuffles(k) then shuffle(base[k]) else base[k]
  }

  /** Applying one override layer: every entry but the lease time overwrites
      the option of its code; the lease time is read with `Atoi`. */
  function Overlay(m: Merged, ov: Option<OptionMap>): (r: Merged)
    ensures ov.None? ==> r == m
    ensures forall k :: k in r.options <==> k in m.options || (k != OptionIPAddressLeaseTime && Has(ov, k))
    ensures forall k :: k in r.options ==>
      r.options[k] == if k != OptionIPAddressLeaseTime && Has(ov, k) then ov.value[k] else m.options[k]
    ensures r.lease == if Has(ov, OptionIPAddressLeaseTime) then GoStrconv.Atoi(ov.value[OptionIPAddressLeaseTime]) else m.lease
  {
    match ov
    case None => m
    case Some(x) =>
      Merged(
        m.options + map k | k in x && k != OptionIPAddressLeaseTime :: x[k],
        if OptionIPAddressLeaseTime in x then GoStrconv.Atoi(x[OptionIPAddressLeaseTime]) else m.lease)
  }

  /** Handler options, then network overrides, then client overrides. The lease
      comes from the most specific layer that sets it; every other code takes
      the value of the most specific layer holding it; the lease-time code
      never enters the options from an override. */
  function Merge(
    base: OptionMap, defaultLease: int,
    network: Option<OptionMap>, client: Option<OptionMap>,
    shuffle: seq<Byte> -> seq<Byte>): (r: Merged)
    ensures r.lease ==
      if Has(client, OptionIPAddressLeaseTime) then GoStrconv.Atoi(client.value[OptionIPAddressLeaseTime])
      else if Has(network, OptionIPAddressLeaseTime) then GoStrconv.Atoi(network.value[OptionIPAddressLeaseTime])
      else defaultLease
    ensures forall k :: k in r.options <==>
      k in base || (k != OptionIPAddressLeaseTime && (Has(network, k) || Has(client, k)))
    ensures forall k :: k in r.options ==> (r.options[k] ==
      if k != OptionIPAddressLeaseTime && Has(client, k) then client.value[k]
      else if k != OptionIPAddressLeaseTime && Has(network, k) then network.value[k]
      else if Shuffles(k) then shuffle(base[k])
      else base[k])
  {
    Overlay(Overlay(Merged(Shuffled(base, shuffle), defaultLease), network), client)
  }

  /** The lease-time code is in the merged options exactly when the handler's
      own options have it, and then with the handler's value. */
  lemma LeaseCodeFromHandlerOnly(
    base: OptionMap, defaultLease: int,
    network: Option<OptionMap>, client: Option<OptionMap>,
    shuffle: seq<Byte> -> seq<Byte>)
    ensures var r := Merge(base, defaultLease, network, client, shuffle);
      && (OptionIPAddressLeaseTime in r.options <==> OptionIPAddressLeaseTime in base)
      && (OptionIPAddressLeaseTime in base ==> r.options[OptionIPAddressLeaseTime] == base[OptionIPAddressLeaseTime])
  {
  }

  /** A lease-time override that is not a number (at most 19 bytes, a
      non-digit after the optional sign) gives a lease of zero seconds, when
      it comes from the most specific layer that sets one. */
  lemma NonNumericLeaseIsZero(
    base: OptionMap, defaultLease: int,
    network: Option<OptionMap>, client: Option<OptionMap>,
    shuffle: seq<Byte> -> seq<Byte>, i: nat)
    requires Has(client, OptionIPAddressLeaseTime) || Has(network, OptionIPAddressLeaseTime)
    requires var v := if Has(client, OptionIPAddressLeaseTime) then client.value[OptionIPAddressLeaseTime]
                      else network.value[OptionIPAddressLeaseTime];
      && |v| <= 19
      && (0 < |v| && (v[0] == GoStrconv.Plus || v[0] == GoStrconv.Minus) ==> 0 < i < |v|)
      && (0 < |v| && !(v[0] == GoStrconv.Plus || v[0] == GoStrconv.Minus) ==> i < |v|)
      && (i < |v| ==> !GoStrconv.IsDigit(v[i]))
    ensures Merge(base, defaultLease, network, client, shuffle).lease == 0
  {
    var v := if Has(client, OptionIPAddressLeaseTime) then client.value[OptionIPAddressLeaseTime]
             else network.value[OptionIPAddressLeaseTime];
    GoStrconv.NonNumericIsZero(v, i);
  }

  /** A numeric lease override written by `Itoa` is read back exactly. */
  lemma NumericLeaseRoundTrip(
    base: OptionMap, defaultLease: int, network: Option<OptionMap>,
    overrides: OptionMap, seconds: int, shuffle: seq<Byte> -> seq<Byte>)
    requires GoStrconv.MinInt64 <= seconds <= GoStrconv.MaxInt64
    ensures Merge(base, defaultLease, network,
                  Some(overrides[OptionIPAddressLeaseTime := GoStrconv.Itoa(seconds)]), shuffle).lease == seconds
  {
    GoStrconv.AtoiItoa(seconds);
  }
}

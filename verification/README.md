# PacketFence DHCP server: packet handler model

A Dafny model of the decision logic of PacketFence's Go DHCP server, the
`Interface.ServeDHCP` packet handler in `go/dhcp/main.go`, and of the pure
part of the per-interface control channel (the "stats" and "debug"
reports). The handler is the server side of RFC 2131 (section 4.3.1
DISCOVER, 4.3.2 REQUEST, 4.3.3 DECLINE, 4.3.4 RELEASE) with the
requested-address option of section 9.1 of RFC 2132. The model follows the
code where it departs from the RFC:

- a DISCOVER whose requested address is not free gets a NAK;
- a DISCOVER that finds the pool exhausted gets no reply at all;
- a REQUEST that cannot be acknowledged gets a NAK, and so does a message
  of any type other than DISCOVER, REQUEST, RELEASE and DECLINE.

State is immutable data. A subnet handler holds its configuration, the
pool bitmap (a roaring bitmap in Go) as a set of free offsets, and the
reservation cache `hwcache` (client to offset) and the transaction-mark
cache `xid` (go-cache instances) as maps. The process-wide state holds the
de-duplication cache as a set and the IP/MAC caches as maps. The caches'
`Get`, `Set`, `Replace` and `Delete` and the bitmap's `Contains`, `Add`,
`Remove` and iterator are written out as operations on these maps and
sets. `strconv.Atoi` is written out in `GoStrconv`. The remaining calls,
whose behaviour is not part of this model, are functions in
`Dhcp.Oracles`: the device classification (`NodeInformation`), the ping
probe, the option-override store (`decodeOptions`), the IP shuffling, and
the rendering of transaction ids, option names, option values and
durations.

Modules, in dependency order:

- `IPv4`: addresses as 32-bit naturals, `IPAdd` with wrap-around, uint32
  subtraction, the signed `IPRange` difference, `net.IPNet.Contains`.
- `GoStrconv`: Go's `strconv.Atoi` on 64 bits (syntax errors give 0, overflow
  clamps) and `Itoa`, used for lease-time overrides.
- `Dhcp`: packets, handlers, networks, interface, caches, oracles, replies.
- `Selection`: the first-match subnet lookup.
- `OptionMerge`: the reply options and lease from handler, network and
  client layers.
- `Discovery`: the DISCOVER scan, with its retry loop.
- `Transaction`: REQUEST, RELEASE/DECLINE and the message switch.
- `Serve`: selection, the virtual-IP and de-duplication gate, and the transition.
- `Accounting`: the "no double allocation" invariant and pool counting.
- `Report`: the stats and debug answers.
- `Findings`: concrete inputs on which the code as written misbehaves.

Four defects are modelled both ways. A `Build` value selects `AsWritten`
(the code) or `Corrected` (the evident intent), and every lemma says which
build it speaks of. The defects are listed under Findings.

The option-50 retry loop has no termination measure in the code. The model
runs the scan as a recursion whose measure is the set of free offsets not
yet visited, paired with the "requested address still followed" flag. A
pass that would change neither stops the recursion with the verdict
`Hangs`. `Discovery.HangsIsFixpoint` shows that such a pass maps the
state to itself. The ping answer is a function of the address, so the Go
loop would repeat that same pass forever. The handler's reply is then
`Loops`.

## Model

| member | source | states |
|---|---|---|
| IPv4.Octets | go/dhcp/main.go:483-486 | the four bytes of the client address read back as that address |
| IPv4.OctetsOfBigEndian | go/dhcp/main.go:483-486 | four option bytes read as an address and written back are the same bytes |
| IPv4.Add | go/dhcp/main.go:436 | `IPAdd` is start plus offset below 2^32, and wraps once past 255.255.255.255 |
| IPv4.Sub | go/dhcp/main.go:397 | the requested offset is the plain difference when the address is not below the start, else the difference plus 2^32 |
| IPv4.AddSubInverse | go/dhcp/main.go:397 | adding the uint32 offset back to the start gives the requested address |
| IPv4.SubAddInverse | go/dhcp/main.go:436 | the offset of an offered address, taken from the start, is the offset |
| IPv4.Distance | go/dhcp/main.go:498 | the lease number is the signed difference, strictly within ±2^32, and `IPAdd` of it leads back to the requested address |
| IPv4.Contains | go/dhcp/main.go:298-299 | an address is in a subnet exactly when it lies in the aligned block of the prefix's size that holds the subnet's base |
| GoStrconv.Atoi | go/dhcp/main.go:456 | a lease-time override is read as a 64-bit signed integer |
| GoStrconv.AtoiItoa | go/dhcp/main.go:456 | every 64-bit integer written in decimal is read back exactly |
| GoStrconv.NonNumericIsZero | go/dhcp/main.go:456 | a value of at most 19 bytes with a non-digit after the optional sign reads as 0, because the error is dropped |
| GoStrconv.ParseDecimal | go/dhcp/main.go:456 | digit parsing of a decimal rendering, followed by more text, continues from the rendered number |
| GoStrconv.DecimalParses | go/dhcp/main.go:456 | the decimal rendering of every 64-bit natural parses back to it |
| Selection.SelectFrom | go/dhcp/main.go:295-348 | the chosen network is in range, its checks give the returned rule, and every earlier network fails all checks; no choice means every network fails |
| Selection.RuleFor | go/dhcp/main.go:298-347 | a network's checks give a rule exactly when the order-free condition `Accepts` holds; the rule is "by role" exactly for a role-split layer-2 network that the packet reaches and whose role is the device's category |
| Selection.Select | go/dhcp/main.go:295-348 | the chosen network accepts the packet and every earlier network refuses it; nothing is chosen exactly when no network accepts |
| Selection.RoleSplitSelection | go/dhcp/main.go:298-327 | on role-split layer-2 networks an unrelayed device goes to the first network of its category ("registration" when it has none or is unregistered) |
| Selection.SelectConfigOnly | go/dhcp/main.go:295-348 | selection reads only configuration, so pool changes never reroute a client |
| OptionMerge.Merge | go/dhcp/main.go:439-475 | lease from the client override, else the network override, else the handler; codes are the handler's plus every override code but 51; each code takes the most specific layer's value, routers and name servers shuffled |
| OptionMerge.Overlay | go/dhcp/main.go:451-475 | with no override layer nothing changes; otherwise every override code but 51 is added or replaces the earlier value, every other code keeps it, and an option 51 sets the lease through `Atoi` |
| OptionMerge.LeaseCodeFromHandlerOnly | go/dhcp/main.go:455-459 | option 51 is in the reply exactly when the handler has it, with the handler's value |
| OptionMerge.NonNumericLeaseIsZero | go/dhcp/main.go:468-471 | a non-numeric lease override from the deciding layer gives a lease of 0 seconds |
| OptionMerge.NumericLeaseRoundTrip | go/dhcp/main.go:532-558 | a numeric lease override written in decimal becomes the lease |
| Discovery.NextFree | go/dhcp/main.go:393 | the pool iterator yields the least free offset at or above the cursor, and nothing exactly when none is left |
| Discovery.Commit | go/dhcp/main.go:425-428 | the candidate is reserved for the client, no other reservation changes, and the transaction mark becomes 1; corrected the candidate leaves the pool and nothing else does; as written offset 0 leaves the pool instead, so the candidate stays free unless it is 0 |
| Discovery.Probe | go/dhcp/main.go:414-423 | the pass offers the candidate exactly when its address does not answer the ping, and the candidate is then reserved for the client; an answer drops the client's hold and retries, leaving the pool as it was as written, putting the candidate back and giving up option 50 corrected |
| Discovery.Attempt | go/dhcp/main.go:393-423 | an iterator with nothing left gives no reply and no change; a NAK or panic changes nothing; an offer is of a free offset, now reserved; a retry drops only the client's hold and never grows the pool |
| Discovery.Scan | go/dhcp/main.go:393-432 | the loop never grows the pool; an offered offset was free and is now the client's reservation; without an offer no client gains a reservation; other clients' reservations are kept |
| Discovery.Discover | go/dhcp/main.go:376-432 | an offered offset is the client's reservation afterwards and was free or already the client's; the pool never grows; without an offer no client gains a reservation; other clients' reservations are kept |
| Discovery.HangsIsFixpoint | go/dhcp/main.go:397-423 | a pass that makes no progress leaves the handler, cursor and flag unchanged, so the Go loop repeats it forever |
| Discovery.CorrectedNeverHangs | go/dhcp/main.go:393-432 | with the requested address given up once it answers the probe, the scan always ends |
| Discovery.FirstQuiet | go/dhcp/main.go:393-423 | reference for the scan: the least free offset at or above the cursor that does not answer the probe, every free offset before it answering |
| Discovery.ScanMeetsPlainScan | go/dhcp/main.go:393-432 | the scan without option 50 ends with the pool, reservations and verdict the reference gives |
| Discovery.DiscoverReoffers | go/dhcp/main.go:382-389 | a client holding a reservation is re-offered that offset with nothing changed |
| Discovery.DiscoverLowestFree | go/dhcp/main.go:393-432 | without option 50 the offer is the least quiet free offset, now reserved and not free; as written every offset above it stays free and everything up to it leaves the pool; an exhausted pool gives no offer |
| Discovery.DiscoverRequested | go/dhcp/main.go:395-425 | with option 50: empty pool gives no reply, fewer than 4 bytes panic, a non-free offset gets a NAK; a free quiet offset is offered and reserved but, as written, offset 0 leaves the pool instead; a free answering offset hangs as written |
| Discovery.RequestedEmpty | go/dhcp/main.go:393-431 | with option 50 and an empty pool there is no reply and nothing changes |
| Discovery.RequestedAttempt | go/dhcp/main.go:397-407 | option 50 shorter than four bytes panics, and a requested offset that is not free gets a NAK, both with nothing changed |
| Discovery.RequestedLoudSpins | go/dhcp/main.go:397-423 | as written, a free requested offset that answers the probe makes no progress: the handler hangs with only the transaction mark reset to 0 |
| Discovery.RequestedQuietOffered | go/dhcp/main.go:397-428 | a free requested offset that does not answer is offered and reserved |
| Discovery.CorrectedRequestedFallsBack | go/dhcp/main.go:417-423 | corrected, a requested offset that answers is given up for the plain scan |
| Transaction.ReplyOptions | go/dhcp/main.go:439-475 | the lease comes from the client override, else the network override, else the handler; every handler code is in the reply; the client's value wins for every code but 51 |
| Transaction.Order | go/dhcp/main.go:477-478 | corrected, the reply is filtered by the client's option 55 when it sent one; as written, by option 55 of the merged reply options; no list means every option |
| Transaction.RequestedBytes | go/dhcp/main.go:483-486 | the requested address is option 50 when present, else the four bytes of the client address |
| Transaction.HandleDiscover | go/dhcp/main.go:376-480 | DISCOVER never acknowledges, never grows the pool and leaves the global caches alone; an OFFER carries pool start plus the client's reserved offset, taken from the free offsets or already held, with the merged lease; without an OFFER no client gains a reservation |
| Transaction.HandleRequest | go/dhcp/main.go:482-574 | REQUEST never changes the pool; it is acknowledged exactly when the address qualifies; any other answer is a NAK that leaves the global caches alone; an ACK leaves the handler as it was and records the address in the MAC cache |
| Transaction.HandleRelease | go/dhcp/main.go:576-589 | the client's reservation is dropped and its offset returned to the pool, other reservations keep their offsets, and a client without one changes nothing |
| Transaction.Transition | go/dhcp/main.go:374-595 | no message changes a handler's configuration or the de-duplication cache; only an ACK writes the global caches; an OFFER answers only DISCOVER, an ACK only REQUEST; RELEASE and DECLINE send nothing |
| Transaction.RequestAcksIff | go/dhcp/main.go:483-574 | REQUEST is acknowledged exactly when the address is 4 bytes, non-zero, inside the pool and the client's reserved address; else NAK; the pool never changes; ACK writes both global caches; a NAK drops the reservation only on an address mismatch |
| Transaction.ReleaseReturnsOffset | go/dhcp/main.go:576-589 | RELEASE and DECLINE send nothing; a reserved offset returns to the pool and only that reservation is dropped |
| Transaction.OtherTypesNak | go/dhcp/main.go:592-595 | any other message type gets a NAK and changes nothing |
| Transaction.ReofferSameAddress | go/dhcp/main.go:382-389 | a reserved client is offered the pool start plus its offset, with nothing changed |
| Transaction.ExhaustedIsSilent | go/dhcp/main.go:429-431 | an exhausted pool answers DISCOVER with no packet, not a NAK |
| Transaction.OfferThenRequestAcks | go/dhcp/main.go:434-436 | DISCOVER then REQUEST for the offered address from the same client is acknowledged with that address |
| Transaction.CachesOnlyOnAck | go/dhcp/main.go:563-564 | the global IP/MAC caches change only on an ACK |
| Transaction.CorrectedOrderIsClientList | go/dhcp/main.go:478 | corrected, OFFER and ACK are filtered by the client's own parameter-request list |
| Transaction.AsWrittenOrderIsConfigured | go/dhcp/main.go:561 | as written, the filter list is the configured or overridden option 55, never the client's |
| Serve.Serve | go/dhcp/main.go:281-598 | without the virtual IP nothing changes and no packet is sent; a reply or change happens only when the packet's key was not cached, and the key is then cached; every network keeps its subnet, split flag and configuration |
| Serve.NoNetworkSilent | go/dhcp/main.go:350-352 | a packet no network accepts gets no packet and changes nothing |
| Serve.GateSilent | go/dhcp/main.go:355-364 | without the virtual IP, or for a cached key, no packet and no change |
| Serve.SourceAddress | go/dhcp/main.go:285-321 | the answer comes from the network handler's address exactly when chosen by role, else the interface's |
| Serve.GatePasses | go/dhcp/main.go:359-368 | a passing packet's key is cached before the transition, and only the chosen network's handler changes |
| Serve.Retransmission | go/dhcp/main.go:359-368 | the same packet again is silent and changes nothing |
| Accounting.FreshIsSound | go/dhcp/main.go:236 | a pool with every offset free and no reservation has no double allocation and no lost offset |
| Accounting.CorrectedDiscoverSound | go/dhcp/main.go:370-432 | corrected, DISCOVER keeps "no double allocation" and loses no offset |
| Accounting.CorrectedTransitionSound | go/dhcp/main.go:370-595 | corrected, every message keeps "no double allocation"; DISCOVER, RELEASE and DECLINE also lose no offset |
| Accounting.CorrectedServeSound | go/dhcp/main.go:281-598 | corrected, a whole packet keeps every network free of double allocation |
| Accounting.NormalIffComplete | go/dhcp/main.go:236-240 | with no double allocation, reservation count equals lease range minus free count exactly when no offset is lost |
| Report.SetBit5 | go/dhcp/main.go:212 | ORing 0x20 into an ASCII code lower-cases a capital and keeps a small letter |
| Report.LowerFirst | go/dhcp/main.go:211-212 | only the first character of an option name changes, as above |
| Report.HandlerPart | go/dhcp/main.go:209-214 | the handler part holds the lease-duration key and one key per handler option, its name with the first letter lower-cased |
| Report.PrintedOptions | go/dhcp/main.go:216-222 | every key of the handler part stays; without stored network options the report is the handler part; with them, each option's printed name is a key |
| Report.Members | go/dhcp/main.go:224-233 | one member per reservation, whose address taken back from the pool start is the reserved offset |
| Report.NetStatsOf | go/dhcp/main.go:204-242 | the entry carries the free count and one member per reservation; the status is Normal exactly when reservations plus free offsets make the lease range, and otherwise reports the range less the reservation count |
| Report.HandlerPartHolds | go/dhcp/main.go:209-214 | the report holds the lease duration and each handler option under its lower-cased name; the duration stays unless a handler option prints the same key |
| Report.PrintedOptionsHold | go/dhcp/main.go:216-222 | network options are printed under their unlowered names and override a handler entry only on an equal key |
| Report.MembersRoundTrip | go/dhcp/main.go:229-233 | a member's address is start plus its offset, and the REQUEST lease-number computation maps it back |
| Report.StatusNormalIffSound | go/dhcp/main.go:236-240 | with no double allocation the status is Normal exactly when no offset is lost; otherwise the reported figure exceeds the free count |
| Report.Stats | go/dhcp/main.go:203-244 | one entry per network in configuration order, with its subnet, free count, role, printed options and one member per reservation; status Normal exactly when the reservation count is the lease range less the free count |
| Report.StatsReflectAccounting | go/dhcp/main.go:224-240 | for subnets with no double allocation whose pool does not wrap, each status is Normal exactly when no offset is lost, and every member address lies in the pool and maps back to the reserved offset |
| Report.Debug | go/dhcp/main.go:257-266 | as many entries as networks of the requested role, each carrying that role and the interface name |
| Report.DebugLists | go/dhcp/main.go:257-266 | the entry of each network of the role (its subnet, free count and role) stands at the position given by the number of such networks before it, so entries follow configuration order |
| Report.DebugSources | go/dhcp/main.go:257-266 | every entry is the entry of some network of the role |
| Findings.RequestedOfferStaysFree | go/dhcp/main.go:425 | two clients get the same offset after one asks for it by option 50 |
| Findings.LoudOffsetLost | go/dhcp/main.go:410 | an offset that answers the probe is lost from the pool as written, kept corrected |
| Findings.RequestedLoudHangs | go/dhcp/main.go:397-423 | a requested offset that answers the probe hangs the handler as written |
| Findings.ParameterListIgnored | go/dhcp/main.go:478 | a client's parameter-request list is ignored as written |

## Left out

- Process start-up, configuration loading (etcd, MySQL, pfconfig), the HTTP API and the systemd watchdog: I/O plumbing outside the handler.
- Listener goroutines, the worker pool, the job and control channels: concurrency. The report functions model only what a request computes.
- `GlobalTransactionLock`: the de-duplication check and insert is one atomic step in the model.
- Detection of the virtual IP: `vip` is an input to `Serve.Serve`.
- Reservation-cache eviction: `hwcache` is a map, and its `Delete` at lines 422, 511 and 584 only drops the entry; no eviction callback returns the offset to the pool. RELEASE adds the offset back itself at line 583 before deleting, which fits a cache without such a callback, but the cache's construction is not part of this model. `Findings.LoudOffsetLost`, the finding for line 410 and the as-written part of `Discovery.DiscoverLowestFree` depend on this.
- Cache TTLs and expiry: entries never expire. A reservation dropped by a mismatched REQUEST is not returned to the pool by this file. Whether an eviction callback configured elsewhere returns it is not part of this model.
- Accounting.CorrectedTransitionSound: states "no lost offset" for DISCOVER, RELEASE and DECLINE only. A REQUEST for a different address drops the client's reservation without returning its offset (lines 509-513), and whether the cache's eviction returns it is not part of this model.
- `time.Duration`: leases are whole seconds as `int`. The nanosecond product of lines 457 and 540 and its overflow are not modelled.
- `dhcp.ReplyPacket` encoding and `SelectOrderOrAll`: a reply is a tag with address, lease, option map and the list it is filtered by.
- `sharedutils.Ping`, `NodeInformation`, `decodeOptions`, `ShuffleIP`, `sharedutils.ByteToString`, the option-name printer and the TLV value printer are not part of this model. They are oracle functions, each deterministic. The per-packet classification cache of lines 292-307 is not modelled, since a deterministic lookup needs no cache.
- The "initialease" request (lines 247-254): `initiaLease` is not part of this model.
- The `len(handler.ip) == 0` test of line 350 is modelled as "no network selected". A selected network whose handler has no configured address is not modelled.
- The failing `Replace` of lines 385-387: it fails only when the reservation expired in between, which needs TTLs.
- Logging, `spew.Dump`, and the `Iface` and `MAC` fields of the answer.
- Discovery.NextFree: the roaring iterator is modelled as an ascending cursor over the current free set. What the library's iterator does when the bitmap changes under it is not modelled.
- Report.Stats: the free count is the size of the free set. The source adds only the run-container and array-container counts of the bitmap, which omit offsets held in bitmap containers. The mismatch status keeps the figure derived from the reservation count and drops the message's second figure, which is a container count.
- Report.PrintedOptions: Go visits maps in random order; the model visits option codes in ascending order. The order matters only when two codes print the same key, which `Report.HandlerPartHolds` and `Report.PrintedOptionsHold` rule out by requiring distinct names.
- Serve.Serve: the classification is an input to every selection. Go looks it up only when the scan reaches a role-split network, and at most once per packet through the per-packet cache of lines 292-307. The lookup is deterministic, so the choice is the same.
- Transaction.HandleRequest: the mark read at line 509 is looked up under `lookupKey`, an oracle for `string(binary.BigEndian.Uint32(xid))`. Marks are written under `markKey`, the `ByteToString` rendering. Whether the two keys ever coincide depends on `ByteToString`, which is not part of this model.

## Findings

| source | as written | input that shows it | evidently intended | confidence | as-written member | corrected member |
|---|---|---|---|---|---|---|
| go/dhcp/main.go:425 | `Remove(element)` uses the `element` of line 395, always 0, so an offset requested by option 50 is offered and reserved but stays free | pool 0.0.0.10 with offsets {0,1,2,3}; client A asks for 0.0.0.11, client B asks for nothing; both are offered 0.0.0.11 | remove the offered offset | high, not executed | Findings.RequestedOfferStaysFree | Accounting.CorrectedDiscoverSound |
| go/dhcp/main.go:410 | a candidate that answers the probe was already removed at line 410 and is not put back, despite the comment at line 421 | pool 0.0.0.10 with offsets {0,1}, 0.0.0.10 answers ping; the client gets offset 1 and offset 0 is neither free nor reserved | put the candidate back in the pool | low, depends on the reservation cache having no eviction callback; not executed | Findings.LoudOffsetLost | Accounting.CorrectedDiscoverSound |
| go/dhcp/main.go:397-423 | with option 50, a free requested address that answers the probe sends the loop back to `retry`, where the same address is tried again, forever | pool 0.0.0.10 with offsets {0,1}, client asks for 0.0.0.10, which answers ping | give up the requested address and scan for another | high, not executed | Findings.RequestedLoudHangs | Discovery.CorrectedNeverHangs |
| go/dhcp/main.go:478 | the parameter-request list is read from the merged reply options (declared at 440, shadowing the parsed client options), so the client's list is ignored | client lists options 1 and 3; handler has no option 55 and nothing is overridden; the OFFER carries every option | filter by the client's option 55 (same at line 561) | high, not executed | Findings.ParameterListIgnored | Transaction.CorrectedOrderIsClientList |

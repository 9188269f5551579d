/**
 DISCOVER: choosing the offset to offer. A client that already holds a
 reservation is re-offered it. Otherwise the pool is scanned from its lowest
 free offset (or, when the client names an address in option 50, that
 address is tried), each candidate is held for the client, probed with a
 ping, and either committed or given up for the next one.

 The scan is the handler's `goto retry` loop. `Attempt` is one pass of the
 loop body; `Scan` repeats it while the pass makes progress and reports
 `Hangs` when a pass leaves the loop state as it found it, which
 `HangsIsFixpoint` shows means the loop can never exit.
 */
module Discovery {
  import opened IPv4
  import opened Dhcp

  /** Free offsets the pool iterator has not yet passed. */
  function Pending(free: set<Uint32>, cursor: nat): set<Uint32>
  {
    set e | e in free && e >= cursor
  }

  /** Free offsets in `[lo, hi)`. */
  function Probed(free: set<Uint32>, lo: nat, hi: nat): set<Uint32>
  {
    set e | e in free && lo <= e < hi
  }

  /** The pool iterator's `HasNext`/`Next`: the least free offset at or above
      the cursor, if any. */
  function NextFree(free: set<Uint32>, cursor: nat): (r: Option<Uint32>)
    ensures r.None? <==> Pending(free, cursor) == {}
    ensures r.Some? ==> r.value in free && r.value >= cursor
    ensures r.Some? ==> forall e :: e in free && cursor <= e ==> r.value <= e
    decreases Modulus - cursor
  {
    if cursor >= Modulus then
      assert forall e :: e in free ==> e !in Pending(free, cursor);
      None
    else if cursor in free then
      assert cursor in Pending(free, cursor);
      Some(cursor as Uint32)
    else
      var r := NextFree(free, cursor + 1);
      assert Pending(free, cursor) == Pending(free, cursor + 1);
      r
  }

  /** Why DISCOVER stopped: an offset to offer, a NAK for an unavailable
      requested address, an empty pool (no reply), an option 50 shorter than
      four bytes (the decoder panics), or a loop that never exits. */
  datatype Verdict = Offered(offset: Uint32) | Refused | Exhausted | Malformed | Hangs

  /** One pass of the loop body: go round again from a cursor, or stop.
      `honour` is whether option 50 is still being followed. */
  datatype Pass = Retry(h: Handler, cursor: nat, honour: bool) | Stop(h: Handler, verdict: Verdict)

  /** Committing candidate `e`: it is taken out of the pool, reserved for the
      client, and the transaction is marked as offered. As written the removal
      takes out offset 0 (the outer, never-assigned `element`), not `e`. */
  function Commit(h: Handler, p: Packet, e: Uint32, o: Oracles, build: Build): (r: Handler)
    ensures SameConfig(h, r)
    ensures p.chaddr in r.resv && r.resv[p.chaddr] == e
    ensures forall m :: m in h.resv && m != p.chaddr ==> m in r.resv && r.resv[m] == h.resv[m]
    ensures r.resv.Keys == h.resv.Keys + {p.chaddr}
    ensures o.markKey(p.xid) in r.marks && r.marks[o.markKey(p.xid)] == 1
    ensures r.free <= h.free
    ensures build == Corrected ==> e !in r.free && h.free <= r.free + {e}
    ensures build == AsWritten ==> (e in r.free <==> e in h.free && e != 0) && h.free <= r.free + {0}
  {
    h.(free := h.free - {if build == AsWritten then 0 else e},
       resv := h.resv[p.chaddr := e],
       marks := h.marks[o.markKey(p.xid) := 1])
  }

  /** Holding candidate `e` for the client and probing it. A probe that answers
      drops the hold and retries from `next`; as written the candidate is not
      put back in the pool, corrected it is, and option 50 is no longer followed. */
  function Probe(h: Handler, p: Packet, e: Uint32, next: nat, o: Oracles, build: Build): (r: Pass)
    ensures SameConfig(h, r.h)
    ensures r.Stop? <==> !o.ping(Add(h.start, e))
    ensures r.Stop? ==>
      && r.verdict == Offered(e)
      && p.chaddr in r.h.resv && r.h.resv[p.chaddr] == e
      && r.h.free <= h.free
    ensures r.Retry? ==>
      && r.cursor == next
      && r.h.resv == h.resv - {p.chaddr}
      && (build == AsWritten ==> r.h.free == h.free && r.honour)
      && (build == Corrected ==> r.h.free == h.free + {e} && !r.honour)
    ensures forall m :: m in h.resv && m != p.chaddr ==> m in r.h.resv && r.h.resv[m] == h.resv[m]
  {
    var held := h.(resv := h.resv[p.chaddr := e], marks := h.marks[o.markKey(p.xid) := 0]);
    if o.ping(Add(h.start, e)) then
      var released := held.(resv := held.resv - {p.chaddr});
      match build
      case AsWritten => Retry(released, next, true)
      case Corrected => Retry(released.(free := released.free + {e}), next, false)
    else Stop(Commit(held, p, e, o, build), Offered(e))
  }

  /** One pass of the retry loop. The iterator must have a next element even
      when option 50 is followed, and option 50 does not advance it. */
  function Attempt(h: Handler, p: Packet, cursor: nat, honour: bool, o: Oracles, build: Build): (r: Pass)
    ensures SameConfig(h, r.h)
    ensures Pending(h.free, cursor) == {} ==> r == Stop(h, Exhausted)
    ensures r.Stop? && !r.verdict.Offered? ==> r.h == h && r.verdict != Hangs
    ensures r.Stop? && r.verdict.Offered? ==>
      && r.verdict.offset in h.free
      && p.chaddr in r.h.resv && r.h.resv[p.chaddr] == r.verdict.offset
      && r.h.free <= h.free
    ensures r.Retry? ==> r.h.free <= h.free && r.h.resv == h.resv - {p.chaddr}
    ensures r.Retry? && build == Corrected ==> r.h.free == h.free
    ensures forall m :: m in h.resv && m != p.chaddr ==> m in r.h.resv && r.h.resv[m] == h.resv[m]
  {
    match NextFree(h.free, cursor)
    case None => Stop(h, Exhausted)
    case Some(next) =>
      if honour && OptionRequestedIPAddress in p.options then
        var raw := p.options[OptionRequestedIPAddress];
        if |raw| < 4 then Stop(h, Malformed)
        else
          var e := Sub(BigEndian(raw), h.start);
          if e in h.free then Probe(h, p, e, cursor, o, build) else Stop(h, Refused)
      else Probe(h.(free := h.free - {next}), p, next, next + 1, o, build)
  }

  /** A pass made progress: fewer offsets left to visit, or option 50 dropped. */
  predicate Progress(h: Handler, cursor: nat, honour: bool, h': Handler, cursor': nat, honour': bool)
  {
    || Pending(h'.free, cursor') < Pending(h.free, cursor)
    || (Pending(h'.free, cursor') == Pending(h.free, cursor) && honour && !honour')
  }

  /** The retry loop, from a cursor. */
  function Scan(h: Handler, p: Packet, cursor: nat, honour: bool, o: Oracles, build: Build): (r: (Handler, Verdict))
    ensures SameConfig(h, r.0)
    ensures r.0.free <= h.free
    ensures r.1.Offered? ==> r.1.offset in h.free && p.chaddr in r.0.resv && r.0.resv[p.chaddr] == r.1.offset
    ensures !r.1.Offered? ==> r.0.resv.Keys <= h.resv.Keys
    ensures forall m :: m in h.resv && m != p.chaddr ==> m in r.0.resv && r.0.resv[m] == h.resv[m]
    decreases Pending(h.free, cursor), honour
  {
    match Attempt(h, p, cursor, honour, o, build)
    case Stop(h', v) => (h', v)
    case Retry(h', cursor', honour') =>
      if Progress(h, cursor, honour, h', cursor', honour') then Scan(h', p, cursor', honour', o, build)
      else (h', Hangs)
  }

  /** The DISCOVER branch up to the reply: re-offer a held reservation, or scan. */
  function Discover(h: Handler, p: Packet, o: Oracles, build: Build): (r: (Handler, Verdict))
    ensures SameConfig(h, r.0)
    ensures r.0.free <= h.free
    ensures r.1.Offered? ==>
      && p.chaddr in r.0.resv && r.0.resv[p.chaddr] == r.1.offset
      && (r.1.offset in h.free || (p.chaddr in h.resv && h.resv[p.chaddr] == r.1.offset))
    ensures !r.1.Offered? ==> r.0.resv.Keys <= h.resv.Keys
    ensures forall m :: m in h.resv && m != p.chaddr ==> m in r.0.resv && r.0.resv[m] == h.resv[m]
  {
    if p.chaddr in h.resv then (h, Offered(h.resv[p.chaddr]))
    else Scan(h, p, 0, true, o, build)
  }

  /** A pass that makes no progress maps the loop state to itself: running
      the body again gives the same state, so the loop never exits. This is
      what `Scan` reports as `Hangs`. */
  lemma HangsIsFixpoint(h: Handler, p: Packet, cursor: nat, honour: bool, o: Oracles, build: Build)
    requires Attempt(h, p, cursor, honour, o, build).Retry?
    requires var a := Attempt(h, p, cursor, honour, o, build);
      !Progress(h, cursor, honour, a.h, a.cursor, a.honour)
    ensures var a := Attempt(h, p, cursor, honour, o, build);
      Attempt(a.h, p, a.cursor, a.honour, o, build) == a
  {
    var a := Attempt(h, p, cursor, honour, o, build);
    if honour && OptionRequestedIPAddress in p.options {
      var e := Sub(BigEndian(p.options[OptionRequestedIPAddress]), h.start);
      var held := h.(resv := h.resv[p.chaddr := e], marks := h.marks[o.markKey(p.xid) := 0]);
      var released := held.(resv := held.resv - {p.chaddr});
      if build == Corrected {
        assert false;
      }
      assert a == Retry(released, cursor, true);
      assert released.resv[p.chaddr := e] == held.resv;
      assert released.marks[o.markKey(p.xid) := 0] == held.marks;
      assert released.(resv := released.resv[p.chaddr := e], marks := released.marks[o.markKey(p.xid) := 0]) == held;
    } else {
      var next := NextFree(h.free, cursor).value;
      ScanStepShrinks(h.free, cursor, next, a.h.free);
      assert false;
    }
  }

  /** Taking the iterator's next offset away, or visiting it, and moving
      the cursor past it leaves strictly fewer offsets to visit. */
  lemma ScanStepShrinks(free: set<Uint32>, cursor: nat, next: Uint32, free': set<Uint32>)
    requires NextFree(free, cursor) == Some(next)
    requires free' <= free + {next}
    ensures Pending(free', next + 1) < Pending(free, cursor)
  {
    assert next in Pending(free, cursor);
    assert next !in Pending(free', next + 1);
  }

  /** In the corrected build every pass makes progress. */
  lemma CorrectedProgress(h: Handler, p: Packet, cursor: nat, honour: bool, o: Oracles)
    requires Attempt(h, p, cursor, honour, o, Corrected).Retry?
    ensures var a := Attempt(h, p, cursor, honour, o, Corrected);
      Progress(h, cursor, honour, a.h, a.cursor, a.honour)
  {
    var a := Attempt(h, p, cursor, honour, o, Corrected);
    if honour && OptionRequestedIPAddress in p.options {
      var e := Sub(BigEndian(p.options[OptionRequestedIPAddress]), h.start);
      assert a.h.free == h.free + {e} == h.free;
    } else {
      ScanStepShrinks(h.free, cursor, NextFree(h.free, cursor).value, a.h.free);
    }
  }

  /** The corrected loop always exits. */
  lemma {:induction false} CorrectedNeverHangs(h: Handler, p: Packet, cursor: nat, honour: bool, o: Oracles)
    ensures Scan(h, p, cursor, honour, o, Corrected).1 != Hangs
    decreases Pending(h.free, cursor), honour
  {
    var a := Attempt(h, p, cursor, honour, o, Corrected);
    if a.Retry? {
      CorrectedProgress(h, p, cursor, honour, o);
      CorrectedNeverHangs(a.h, p, a.cursor, a.honour, o);
    }
  }

  /** Whether offset `x` answers the probe. */
  predicate Loud(start: Uint32, ping: Uint32 -> bool, x: Uint32)
  {
    ping(Add(start, x))
  }

  /** Reference for the plain scan: the least free offset at or above the
      cursor that does not answer the probe. */
  function FirstQuiet(free: set<Uint32>, cursor: nat, start: Uint32, ping: Uint32 -> bool): (r: Option<Uint32>)
    ensures r.None? <==> forall x :: x in free && x >= cursor ==> Loud(start, ping, x)
    ensures r.Some? ==> r.value in free && r.value >= cursor && !Loud(start, ping, r.value)
    ensures r.Some? ==> forall x :: x in free && cursor <= x < r.value ==> Loud(start, ping, x)
    decreases Modulus - cursor
  {
    if cursor >= Modulus then None
    else if cursor in free && !Loud(start, ping, cursor as Uint32) then Some(cursor as Uint32)
    else FirstQuiet(free, cursor + 1, start, ping)
  }

  /** Two searches over the same quiet candidates find the same offset. */
  lemma FirstQuietAgree(f1: set<Uint32>, c1: nat, f2: set<Uint32>, c2: nat, start: Uint32, ping: Uint32 -> bool)
    requires forall x :: x in f1 && x >= c1 && !Loud(start, ping, x) <==> x in f2 && x >= c2 && !Loud(start, ping, x)
    ensures FirstQuiet(f1, c1, start, ping) == FirstQuiet(f2, c2, start, ping)
  {
    var r1 := FirstQuiet(f1, c1, start, ping);
    var r2 := FirstQuiet(f2, c2, start, ping);
    if r1.Some? && r2.Some? {
      assert !(r1.value < r2.value);
      assert !(r2.value < r1.value);
    }
  }

  /** What the plain scan (option 50 absent or no longer followed) leaves:
      the pool, the reservations and the verdict. As written, every offset
      visited is gone from the pool (the loud ones are not put back) and
      offset 0 goes too on success; corrected, only the offered offset goes. */
  function PlainScan(h: Handler, cursor: nat, mac: Mac, o: Oracles, build: Build): (set<Uint32>, map<Mac, Uint32>, Verdict)
  {
    match FirstQuiet(h.free, cursor, h.start, o.ping)
    case Some(e) =>
      (if build == AsWritten then h.free - Probed(h.free, cursor, e + 1) - {0} else h.free - {e},
       h.resv[mac := e], Offered(e))
    case None =>
      (if build == AsWritten then h.free - Pending(h.free, cursor) else h.free,
       h.resv, Exhausted)
  }

  /** The handler after a candidate answered the probe, for a client without
      a reservation: the candidate's hold is dropped, the transaction mark is
      0, and the candidate is out of the pool as written, back in it corrected. */
  function AfterLoud(h: Handler, p: Packet, n: Uint32, o: Oracles, build: Build): Handler
  {
    h.(free := if build == AsWritten then h.free - {n} else h.free + {n},
       marks := h.marks[o.markKey(p.xid) := 0])
  }

  /** One pass of the plain scan on a loud candidate. */
  lemma LoudPass(h: Handler, p: Packet, cursor: nat, honour: bool, o: Oracles, build: Build, n: Uint32)
    requires !honour || OptionRequestedIPAddress !in p.options
    requires p.chaddr !in h.resv
    requires NextFree(h.free, cursor) == Some(n)
    requires Loud(h.start, o.ping, n)
    ensures Attempt(h, p, cursor, honour, o, build) == Retry(AfterLoud(h, p, n, o, build), n + 1, build == AsWritten)
    ensures Progress(h, cursor, honour, AfterLoud(h, p, n, o, build), n + 1, build == AsWritten)
  {
    var held := h.(free := h.free - {n}, resv := h.resv[p.chaddr := n], marks := h.marks[o.markKey(p.xid) := 0]);
    assert held.resv - {p.chaddr} == h.resv;
    assert h.free - {n} + {n} == h.free;
    ScanStepShrinks(h.free, cursor, n, AfterLoud(h, p, n, o, build).free);
  }

  /** After a loud candidate, the rest of the plain scan promises what the
      whole scan promises. */
  lemma PlainScanShift(h: Handler, p: Packet, cursor: nat, o: Oracles, build: Build, n: Uint32)
    requires NextFree(h.free, cursor) == Some(n)
    requires Loud(h.start, o.ping, n)
    ensures PlainScan(AfterLoud(h, p, n, o, build), n + 1, p.chaddr, o, build) == PlainScan(h, cursor, p.chaddr, o, build)
  {
    var h2 := AfterLoud(h, p, n, o, build);
    SkipLoud(h.free, cursor, n, h2.free, h.start, o.ping);
    var q := FirstQuiet(h.free, cursor, h.start, o.ping);
    if build == AsWritten {
      assert h2.free == h.free - {n};
      if q.Some? {
        ProbedShift(h.free, cursor, n, q.value as int + 1);
      } else {
        PendingShift(h.free, cursor, n);
      }
    } else {
      assert h2.free == h.free;
    }
  }

  /** Skipping a loud least candidate does not change the first quiet one. */
  lemma SkipLoud(free: set<Uint32>, cursor: nat, n: Uint32, free': set<Uint32>, start: Uint32, ping: Uint32 -> bool)
    requires NextFree(free, cursor) == Some(n)
    requires Loud(start, ping, n)
    requires free' == free - {n} || free' == free + {n}
    ensures FirstQuiet(free', n + 1, start, ping) == FirstQuiet(free, cursor, start, ping)
  {
    forall x
      ensures x in free' && x >= n + 1 && !Loud(start, ping, x) <==> x in free && x >= cursor && !Loud(start, ping, x)
    {
      if x in free && x >= cursor && x != n {
        assert n <= x;
      }
    }
    FirstQuietAgree(free', n + 1, free, cursor, start, ping);
  }

  lemma ProbedShift(free: set<Uint32>, cursor: nat, n: Uint32, hi: nat)
    requires NextFree(free, cursor) == Some(n)
    requires n < hi
    ensures (free - {n}) - Probed(free - {n}, n + 1, hi) == free - Probed(free, cursor, hi)
  {
  }

  lemma PendingShift(free: set<Uint32>, cursor: nat, n: Uint32)
    requires NextFree(free, cursor) == Some(n)
    ensures (free - {n}) - Pending(free - {n}, n + 1) == free - Pending(free, cursor)
  {
  }

  /** One pass of the plain scan on a quiet candidate: the candidate is offered. */
  lemma QuietPass(h: Handler, p: Packet, cursor: nat, honour: bool, o: Oracles, build: Build, n: Uint32)
    requires !honour || OptionRequestedIPAddress !in p.options
    requires NextFree(h.free, cursor) == Some(n)
    requires !Loud(h.start, o.ping, n)
    ensures var a := Attempt(h, p, cursor, honour, o, build);
      && a.Stop? && SameConfig(h, a.h)
      && (a.h.free, a.h.resv, a.verdict) == PlainScan(h, cursor, p.chaddr, o, build)
  {
    assert FirstQuiet(h.free, cursor, h.start, o.ping) == Some(n);
    var key := o.markKey(p.xid);
    var held := h.(free := h.free - {n}, resv := h.resv[p.chaddr := n], marks := h.marks[key := 0]);
    var a := Attempt(h, p, cursor, honour, o, build);
    assert a == Stop(Commit(held, p, n, o, build), Offered(n));
    assert a.h.resv == held.resv[p.chaddr := n] == h.resv[p.chaddr := n];
    if build == AsWritten {
      assert Probed(h.free, cursor, n + 1) == {n};
      assert a.h.free == h.free - {n} - {0};
    } else {
      assert a.h.free == h.free - {n} - {n} == h.free - {n};
    }
  }

  /** The scan without option 50 meets its reference: it offers the least
      quiet free offset (none: no reply), and leaves pool and reservations as
      `PlainScan` says; the handler's configuration is untouched. */
  lemma {:induction false} ScanMeetsPlainScan(h: Handler, p: Packet, cursor: nat, honour: bool, o: Oracles, build: Build)
    requires OptionRequestedIPAddress !in p.options || (!honour && build == Corrected)
    requires p.chaddr !in h.resv
    ensures var (h', v) := Scan(h, p, cursor, honour, o, build);
      && SameConfig(h, h')
      && (h'.free, h'.resv, v) == PlainScan(h, cursor, p.chaddr, o, build)
    decreases Pending(h.free, cursor), honour
  {
    match NextFree(h.free, cursor)
    case None =>
      assert Attempt(h, p, cursor, honour, o, build) == Stop(h, Exhausted);
      EmptyScan(h, cursor, p.chaddr, o, build);
    case Some(n) =>
      if Loud(h.start, o.ping, n) {
        var h2 := AfterLoud(h, p, n, o, build);
        var honour' := build == AsWritten;
        LoudPass(h, p, cursor, honour, o, build, n);
        assert Scan(h, p, cursor, honour, o, build) == Scan(h2, p, n + 1, honour', o, build);
        ScanMeetsPlainScan(h2, p, n + 1, honour', o, build);
        PlainScanShift(h, p, cursor, o, build, n);
      } else {
        QuietPass(h, p, cursor, honour, o, build, n);
        var a := Attempt(h, p, cursor, honour, o, build);
        assert Scan(h, p, cursor, honour, o, build) == (a.h, a.verdict);
      }
  }

  /** With nothing left to visit the scan stops with no reply and no change. */
  lemma EmptyScan(h: Handler, cursor: nat, mac: Mac, o: Oracles, build: Build)
    requires NextFree(h.free, cursor).None?
    ensures PlainScan(h, cursor, mac, o, build) == (h.free, h.resv, Exhausted)
  {
    assert forall x :: x in h.free && x >= cursor ==> x in Pending(h.free, cursor);
    assert h.free - Pending(h.free, cursor) == h.free;
  }

  /** DISCOVER from a client holding a reservation re-offers the same offset
      and changes nothing. */
  lemma DiscoverReoffers(h: Handler, p: Packet, o: Oracles, build: Build)
    requires p.chaddr in h.resv
    ensures Discover(h, p, o, build) == (h, Offered(h.resv[p.chaddr]))
  {
  }

  /** DISCOVER without option 50 and without a reservation takes the lowest
      free offset whose address does not answer the probe, reserves it for
      the client and takes it out of the pool; with no such offset there is
      no reply. As written, the offsets that answered are left neither free
      nor reserved. */
  lemma DiscoverLowestFree(h: Handler, p: Packet, o: Oracles, build: Build)
    requires p.chaddr !in h.resv
    requires OptionRequestedIPAddress !in p.options
    ensures var (h', v) := Discover(h, p, o, build);
      && SameConfig(h, h')
      && match FirstQuiet(h.free, 0, h.start, o.ping)
         case Some(e) =>
           && v == Offered(e)
           && h'.resv == h.resv[p.chaddr := e]
           && e !in h'.free
           && (forall x :: x in h.free && x < e ==> Loud(h.start, o.ping, x))
           && (build == AsWritten ==> h'.free == Above(h.free, e))
           && (build == Corrected ==> h'.free == h.free - {e})
         case None =>
           && v == Exhausted
           && h'.resv == h.resv
           && (build == AsWritten ==> h'.free == {})
           && (build == Corrected ==> h'.free == h.free)
  {
    ScanMeetsPlainScan(h, p, 0, true, o, build);
    var q := FirstQuiet(h.free, 0, h.start, o.ping);
    if build == AsWritten {
      if q.Some? {
        AboveIsRest(h.free, q.value);
      } else {
        assert h.free - Pending(h.free, 0) == {};
      }
    }
  }

  /** Free offsets above `e`. */
  function Above(free: set<Uint32>, e: Uint32): set<Uint32>
  {
    set x | x in free && x > e
  }

  lemma AboveIsRest(free: set<Uint32>, e: Uint32)
    ensures free - Probed(free, 0, e + 1) - {0} == Above(free, e)
  {
  }

  /** DISCOVER with option 50 and no reservation. An empty pool gives no
      reply, an option shorter than four bytes panics, and the offset is the
      requested address minus the pool start in 32-bit unsigned arithmetic;
      a NAK follows when it is not free. A free, quiet offset is offered and
      reserved, but as written it stays in the pool (offset 0 is taken out
      instead); a free offset that answers the probe hangs the loop as written. */
  lemma DiscoverRequested(h: Handler, p: Packet, o: Oracles, build: Build)
    requires p.chaddr !in h.resv
    requires OptionRequestedIPAddress in p.options
    ensures var (h', v) := Discover(h, p, o, build);
      var raw := p.options[OptionRequestedIPAddress];
      && (h.free == {} ==> v == Exhausted && h' == h)
      && (h.free != {} && |raw| < 4 ==> v == Malformed && h' == h)
      && (h.free != {} && |raw| >= 4 ==>
            var e := Sub(BigEndian(raw), h.start);
            && (e !in h.free ==> v == Refused && h' == h)
            && (e in h.free && !Loud(h.start, o.ping, e) ==>
                  && v == Offered(e)
                  && SameConfig(h, h')
                  && h'.resv == h.resv[p.chaddr := e]
                  && (build == AsWritten ==> h'.free == h.free - {0})
                  && (build == Corrected ==> h'.free == h.free - {e}))
            && (e in h.free && Loud(h.start, o.ping, e) && build == AsWritten ==>
                  && v == Hangs
                  && SameConfig(h, h')
                  && h'.resv == h.resv && h'.free == h.free))
  {
    var raw := p.options[OptionRequestedIPAddress];
    if h.free == {} {
      RequestedEmpty(h, p, o, build);
    } else if |raw| < 4 {
      RequestedAttempt(h, p, o, build);
    } else {
      var e := Sub(BigEndian(raw), h.start);
      if e !in h.free {
        RequestedAttempt(h, p, o, build);
      } else if !Loud(h.start, o.ping, e) {
        RequestedQuietOffered(h, p, o, build);
      } else if build == AsWritten {
        RequestedLoudSpins(h, p, o);
      }
    }
  }

  /** Option 50 on an empty pool: the iterator has nothing, so no reply. */
  lemma RequestedEmpty(h: Handler, p: Packet, o: Oracles, build: Build)
    requires p.chaddr !in h.resv && h.free == {}
    ensures Discover(h, p, o, build) == (h, Exhausted)
  {
    assert Pending(h.free, 0) == {};
  }

  /** The first pass with option 50 on a non-empty pool reads the option:
      shorter than four bytes panics, an offset that is not free is refused,
      and in both cases DISCOVER stops there. */
  lemma RequestedAttempt(h: Handler, p: Packet, o: Oracles, build: Build)
    requires p.chaddr !in h.resv && h.free != {}
    requires OptionRequestedIPAddress in p.options
    ensures var raw := p.options[OptionRequestedIPAddress];
      && (|raw| < 4 ==> Discover(h, p, o, build) == (h, Malformed))
      && (|raw| >= 4 && Sub(BigEndian(raw), h.start) !in h.free ==> Discover(h, p, o, build) == (h, Refused))
  {
    var x :| x in h.free;
    assert x in Pending(h.free, 0);
  }

  /** The quiet case on its own: a free requested offset that does not
      answer is offered and reserved. */
  lemma RequestedQuietOffered(h: Handler, p: Packet, o: Oracles, build: Build)
    requires p.chaddr !in h.resv
    requires OptionRequestedIPAddress in p.options && |p.options[OptionRequestedIPAddress]| >= 4
    requires Sub(BigEndian(p.options[OptionRequestedIPAddress]), h.start) in h.free
    requires !Loud(h.start, o.ping, Sub(BigEndian(p.options[OptionRequestedIPAddress]), h.start))
    ensures var e := Sub(BigEndian(p.options[OptionRequestedIPAddress]), h.start);
      var (h', v) := Discover(h, p, o, build);
      && v == Offered(e)
      && SameConfig(h, h')
      && h'.resv == h.resv[p.chaddr := e]
      && (build == AsWritten ==> h'.free == h.free - {0})
      && (build == Corrected ==> h'.free == h.free - {e})
  {
    var e := Sub(BigEndian(p.options[OptionRequestedIPAddress]), h.start);
    assert e in Pending(h.free, 0);
  }

  /** As written, a free requested offset that answers the probe makes a pass
      that changes nothing but the transaction mark (set to "offered"), so
      the loop spins. */
  lemma RequestedLoudSpins(h: Handler, p: Packet, o: Oracles)
    requires p.chaddr !in h.resv
    requires OptionRequestedIPAddress in p.options && |p.options[OptionRequestedIPAddress]| >= 4
    requires Sub(BigEndian(p.options[OptionRequestedIPAddress]), h.start) in h.free
    requires Loud(h.start, o.ping, Sub(BigEndian(p.options[OptionRequestedIPAddress]), h.start))
    ensures Discover(h, p, o, AsWritten) == (h.(marks := h.marks[o.markKey(p.xid) := 0]), Hangs)
  {
    var e := Sub(BigEndian(p.options[OptionRequestedIPAddress]), h.start);
    assert e in Pending(h.free, 0);
    var a := Attempt(h, p, 0, true, o, AsWritten);
    var held := h.(resv := h.resv[p.chaddr := e], marks := h.marks[o.markKey(p.xid) := 0]);
    assert a == Retry(held.(resv := held.resv - {p.chaddr}), 0, true);
    assert held.resv - {p.chaddr} == h.resv;
    assert !Progress(h, 0, true, a.h, a.cursor, a.honour);
  }

  /** Corrected, a requested address that answers the probe is given up and
      the plain scan runs instead. */
  lemma CorrectedRequestedFallsBack(h: Handler, p: Packet, o: Oracles)
    requires p.chaddr !in h.resv
    requires OptionRequestedIPAddress in p.options
    requires h.free != {} && |p.options[OptionRequestedIPAddress]| >= 4
    requires var e := Sub(BigEndian(p.options[OptionRequestedIPAddress]), h.start);
      e in h.free && Loud(h.start, o.ping, e)
    ensures var (h', v) := Discover(h, p, o, Corrected);
      && SameConfig(h, h')
      && (h'.free, h'.resv, v) == PlainScan(h, 0, p.chaddr, o, Corrected)
  {
    var x :| x in h.free;
    assert x in Pending(h.free, 0);
    var a := Attempt(h, p, 0, true, o, Corrected);
    var e := Sub(BigEndian(p.options[OptionRequestedIPAddress]), h.start);
    var held := h.(resv := h.resv[p.chaddr := e], marks := h.marks[o.markKey(p.xid) := 0]);
    assert held.resv - {p.chaddr} == h.resv;
    assert h.free + {e} == h.free;
    assert a.Retry? && a.cursor == 0 && !a.honour;
    assert a.h.free == h.free && a.h.resv == h.resv && a.h.start == h.start;
    assert Progress(h, 0, true, a.h, a.cursor, a.honour);
    ScanMeetsPlainScan(a.h, p, 0, false, o, Corrected);
  }
}

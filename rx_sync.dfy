/** The receive side of the generic adapter: the capture hook's FIFO policy,
    and rxsync, which imports queued packets into ring slots, takes back the
    slots the user has released and publishes `avail`. */
module RxPath {
  import opened Ring

  /** The capture hook drops a packet once the queue holds more than this many. */
  const RX_QUEUE_DROP_THRESHOLD: nat := 1024

  /** The capture hook's effect on the receive queue: append at the tail,
      unless the queue already holds more than 1024 packets. */
  function RxHook(q: seq<Packet>, p: Packet): (r: seq<Packet>)
    ensures |q| <= |r| <= |q| + 1 && r[..|q|] == q
    ensures |r| == |q| + 1 <==> |q| <= RX_QUEUE_DROP_THRESHOLD
    ensures |r| == |q| + 1 ==> r[|q|] == p
  {
    if |q| > RX_QUEUE_DROP_THRESHOLD then q else q + [p]
  }

  /** The queue after the hook has seen `ps`, one packet after the other. */
  function CaptureAll(q: seq<Packet>, ps: seq<Packet>): (r: seq<Packet>)
    ensures |q| <= |r| <= |q| + |ps| && r[..|q|] == q
    decreases |ps|
  {
    if ps == [] then q else CaptureAll(RxHook(q, ps[0]), ps[1..])
  }

  /** How many more packets the hook accepts into q. */
  function Room(q: seq<Packet>): nat
  {
    if |q| <= RX_QUEUE_DROP_THRESHOLD + 1 then RX_QUEUE_DROP_THRESHOLD + 1 - |q| else 0
  }

  function Min(a: nat, b: nat): nat { if a <= b then a else b }

  /** Captured packets stay in arrival order; once the queue is full the
      newest ones are dropped, and only they. */
  lemma {:induction false} CaptureKeepsOrder(q: seq<Packet>, ps: seq<Packet>)
    ensures CaptureAll(q, ps) == q + ps[..Min(|ps|, Room(q))]
    decreases |ps|
  {
    if ps != [] {
      var q' := RxHook(q, ps[0]);
      CaptureKeepsOrder(q', ps[1..]);
      if |q| > RX_QUEUE_DROP_THRESHOLD {
        assert Room(q) == 0;
      } else {
        assert Room(q') + 1 == Room(q);
        assert ps[1..][..Min(|ps| - 1, Room(q'))] == ps[1..Min(|ps|, Room(q))];
        assert q' + ps[1..Min(|ps|, Room(q))] == q + ps[..Min(|ps|, Room(q))];
      }
    }
  }

  /** The hook never lets the queue grow beyond 1025 packets. */
  lemma {:induction false} CaptureBounded(q: seq<Packet>, ps: seq<Packet>)
    requires |q| <= RX_QUEUE_DROP_THRESHOLD + 1
    ensures |CaptureAll(q, ps)| <= RX_QUEUE_DROP_THRESHOLD + 1
  {
    CaptureKeepsOrder(q, ps);
  }

  /** The receive kring and its ring, as values. */
  datatype RxState = RxState(
    slots: seq<Slot>,
    cur: U32, avail: U32, reserved: U32,   // ring fields, written by the user
    hwcur: nat, hwavail: int, ntc: nat,    // kring fields: nr_hwcur, nr_hwavail, nr_ntc
    pendIntr: bool,                        // NKR_PENDINTR in nr_kflags
    queue: seq<Packet>)                    // rx_queue

  /** The kring's own indices lie on a ring of at least two slots. */
  predicate RxIndexed(st: RxState)
  {
    2 <= |st.slots| < U32_LIMIT && st.hwcur < |st.slots| && st.ntc < |st.slots|
  }

  datatype RxResult = RxResult(status: SyncStatus, st: RxState)

  /** The first of the slots from+i, ..., from+d-1 (mod N) whose buffer is
      invalid, as a step count, or d when there is none. */
  function FirstBadBuffer(slots: seq<Slot>, from: nat, d: nat, i: nat): (r: nat)
    requires from < |slots| && d < |slots| && i <= d
    ensures i <= r <= d
    ensures forall t :: i <= t < r ==> slots[Advance(from, t, |slots|)].bufValid
    ensures r < d ==> !slots[Advance(from, r, |slots|)].bufValid
    decreases d - i
  {
    if i == d then d
    else if !slots[Advance(from, i, |slots|)].bufValid then i
    else FirstBadBuffer(slots, from, d, i + 1)
  }

  /** Copying a packet into a slot: its length, the adapter's slot flags, its bytes. */
  function Fill(s: Slot, p: Packet, flags: bv16): (r: Slot)
    ensures r.bufValid == s.bufValid
  {
    s.(len := p.len, flags := flags, payload := p.payload)
  }

  /** The slots after the first n packets of q went, in order, into the
      slots from `from` on. */
  function ImportSlots(slots: seq<Slot>, from: nat, q: seq<Packet>, n: nat, flags: bv16): (r: seq<Slot>)
    requires from < |slots| && n <= |q| && n <= |slots|
    ensures |r| == |slots|
    decreases n
  {
    if n == 0 then slots
    else
      var j := Advance(from, n - 1, |slots|);
      ImportSlots(slots, from, q, n - 1, flags)[j := Fill(slots[j], q[n - 1], flags)]
  }

  /** Packet t of the queue lands in the slot t steps from `from`; the slots
      beyond the first n are left alone. */
  lemma {:induction false} ImportSlotsAt(slots: seq<Slot>, from: nat, q: seq<Packet>, n: nat, flags: bv16, s: nat)
    requires from < |slots| && n <= |q| && n <= |slots| && s < |slots|
    ensures ImportSlots(slots, from, q, n, flags)[s]
         == if Dist(from, s, |slots|) < n then Fill(slots[s], q[Dist(from, s, |slots|)], flags) else slots[s]
    decreases n
  {
    if n > 0 {
      ImportSlotsAt(slots, from, q, n - 1, flags, s);
      AdvanceDist(from, n - 1, |slots|);
    }
  }

  /** The import phase (lines 226-256): packets go from the queue into the
      slots from nr_ntc on, stopping one slot short of nr_hwcur, at an empty
      queue, or with a reinit at a slot with an invalid buffer (checked before
      the packet is dequeued). */
  function RxImport(st: RxState, slotFlags: bv16): (r: RxResult)
    requires RxIndexed(st)
    ensures RxIndexed(r.st)
  {
    var N := |st.slots|;
    var d := Dist(st.ntc, Prev(st.hwcur, N), N);
    var m := FirstBadBuffer(st.slots, st.ntc, d, 0);
    if m < d && m <= |st.queue| then
      RxResult(Reinit, st.(slots := ImportSlots(st.slots, st.ntc, st.queue, m, slotFlags),
                           queue := st.queue[m..]))
    else
      var n := Min(m, |st.queue|);
      RxResult(Ok, st.(slots := ImportSlots(st.slots, st.ntc, st.queue, n, slotFlags),
                       queue := st.queue[n..],
                       ntc := Advance(st.ntc, n, N),
                       hwavail := st.hwavail + n,
                       pendIntr := false))
  }

  /** The import pass ends in a reinit exactly when it reaches a slot with an
      invalid buffer before the queue runs dry. */
  lemma RxImportStopsAtBadBuffer(st: RxState, slotFlags: bv16, n: nat)
    requires RxIndexed(st)
    requires n < Dist(st.ntc, Prev(st.hwcur, |st.slots|), |st.slots|) && n <= |st.queue|
    requires forall t :: 0 <= t < n ==> st.slots[Advance(st.ntc, t, |st.slots|)].bufValid
    requires !st.slots[Advance(st.ntc, n, |st.slots|)].bufValid
    ensures RxImport(st, slotFlags)
         == RxResult(Reinit, st.(slots := ImportSlots(st.slots, st.ntc, st.queue, n, slotFlags),
                                 queue := st.queue[n..]))
  {
  }

  /** The import pass ends normally after n packets when it reaches the slot
      behind nr_hwcur, or when the queue runs dry at a slot with a valid buffer. */
  lemma RxImportCompletes(st: RxState, slotFlags: bv16, n: nat)
    requires RxIndexed(st)
    requires n <= Dist(st.ntc, Prev(st.hwcur, |st.slots|), |st.slots|) && n <= |st.queue|
    requires forall t :: 0 <= t < n ==> st.slots[Advance(st.ntc, t, |st.slots|)].bufValid
    requires n == Dist(st.ntc, Prev(st.hwcur, |st.slots|), |st.slots|)
          || (n == |st.queue| && st.slots[Advance(st.ntc, n, |st.slots|)].bufValid)
    ensures RxImport(st, slotFlags)
         == RxResult(Ok, st.(slots := ImportSlots(st.slots, st.ntc, st.queue, n, slotFlags),
                             queue := st.queue[n..],
                             ntc := Advance(st.ntc, n, |st.slots|),
                             hwavail := st.hwavail + n,
                             pendIntr := false))
  {
  }

  /** The reserved count the release phase uses: a reserved count that,
      together with avail, covers the whole ring is reset to 0. The sum is
      taken without 32-bit wrap-around (see ClampReservedAsWritten). */
  function ClampReserved(resvd: U32, avail: U32, n: nat): (r: U32)
    requires n >= 1
    ensures r < n
    ensures r == resvd || (r == 0 && resvd + avail >= n)
  {
    if resvd > 0 && resvd + avail >= n then 0 else resvd
  }

  /** The release target: the slot `resvd` steps behind cur. */
  function ReleaseTarget(cur: nat, resvd: nat, n: nat): (r: nat)
    requires cur < n && resvd < n
    ensures r < n && Dist(r, cur, n) == resvd
  {
    if cur >= resvd then cur - resvd else cur + n - resvd
  }

  /** The clamp as written: `resvd + ring->avail` is a sum of two 32-bit
      unsigned values, so it wraps, and a huge reserved count can slip past
      the clamp. It agrees with ClampReserved whenever the sum does not wrap. */
  function ClampReservedAsWritten(resvd: U32, avail: U32, n: nat): (r: U32)
    requires n >= 1
    ensures r == resvd || r == 0
    ensures resvd + avail < U32_LIMIT ==> r == ClampReserved(resvd, avail, n)
  {
    if resvd > 0 && Wrap32(resvd + avail) >= n then 0 else resvd
  }

  /** The release target as written, in 32-bit unsigned arithmetic. For a
      reserved count below the ring size it is ReleaseTarget. */
  function ReleaseTargetAsWritten(cur: nat, resvd: U32, n: nat): (r: U32)
    requires cur < n < U32_LIMIT
    ensures resvd < n ==> r == ReleaseTarget(cur, resvd, n)
  {
    if cur >= resvd then cur - resvd else Wrap32(cur + n - resvd)
  }

  /** reserved = 0xFFFFFFFF with avail = 1 on a 256-slot ring: the 32-bit sum
      wraps to 0, the clamp is skipped, and the release target lands outside
      the ring, where the release loop's index, which always stays below 256,
      never meets it. The corrected clamp resets reserved to 0 instead. */
  lemma ReservedWrapEscapesRing(hwcur: nat)
    requires hwcur < 256
    ensures ClampReservedAsWritten(0xFFFF_FFFF, 1, 256) == 0xFFFF_FFFF
    ensures ReleaseTargetAsWritten(0, 0xFFFF_FFFF, 256) == 257
    ensures forall i :: 0 <= i < 256 ==> Advance(hwcur, i, 256) != 257
    ensures ClampReserved(0xFFFF_FFFF, 1, 256) == 0
  {
    assert Wrap32(0xFFFF_FFFF + 1) == 0;
    assert Wrap32(0 + 256 - 0xFFFF_FFFF) == 257;
  }

  /** The release and publish phase (lines 258-281). */
  function RxRelease(st: RxState): (r: RxState)
    requires RxIndexed(st) && st.cur < |st.slots|
    ensures RxIndexed(r)
  {
    var N := |st.slots|;
    var resvd := ClampReserved(st.reserved, st.avail, N);
    var k := ReleaseTarget(st.cur, resvd, N);
    var released := Dist(st.hwcur, k, N);
    var hwavail := st.hwavail - released;
    st.(slots := ClearFlags(st.slots, st.hwcur, released, NS_BUF_CHANGED),
        reserved := resvd,
        hwcur := k,
        hwavail := hwavail,
        avail := Wrap32(hwavail - resvd))
  }

  /** rxsync: reinit on an out-of-range cur; otherwise import (when interrupts
      are not being deferred or an update is forced), then release and publish. */
  function RxSync(st: RxState, slotFlags: bv16, forceRead: bool, noPendintr: bool): (r: RxResult)
    requires RxIndexed(st)
    ensures RxIndexed(r.st) && |r.st.slots| == |st.slots|
  {
    if st.cur > |st.slots| - 1 then RxResult(Reinit, st)
    else if noPendintr || forceRead || st.pendIntr then
      var imp := RxImport(st, slotFlags);
      if imp.status == Reinit then imp else RxResult(Ok, RxRelease(imp.st))
    else RxResult(Ok, RxRelease(st))
  }

  /** An out-of-range cur makes rxsync reinit before it touches anything. */
  lemma RxSyncRejectsBadCursor(st: RxState, slotFlags: bv16, forceRead: bool, noPendintr: bool)
    requires RxIndexed(st) && st.cur > |st.slots| - 1
    ensures RxSync(st, slotFlags, forceRead, noPendintr) == RxResult(Reinit, st)
  {
  }

  /** The import phase as counts: it moves some n packets, no more than
      the slots from nr_ntc up to the one behind nr_hwcur, and the queue
      loses exactly those. On success nr_ntc moves n slots, nr_hwavail
      grows by n and NKR_PENDINTR is cleared; a reinit leaves the three alone. */
  lemma RxImportCounts(st: RxState, slotFlags: bv16)
    requires RxIndexed(st)
    ensures var r := RxImport(st, slotFlags);
            var N := |st.slots|;
            var n := |st.queue| - |r.st.queue|;
            && 0 <= n <= Dist(st.ntc, Prev(st.hwcur, N), N)
            && r.st.queue == st.queue[n..]
            && r.st.slots == ImportSlots(st.slots, st.ntc, st.queue, n, slotFlags)
            && (r.status == Ok ==> r.st.ntc == Advance(st.ntc, n, N)
                                   && r.st.hwavail == st.hwavail + n && !r.st.pendIntr)
            && (r.status == Reinit ==> r.st.ntc == st.ntc && r.st.hwavail == st.hwavail
                                       && r.st.pendIntr == st.pendIntr)
  {
    AdvanceDist(st.ntc, Dist(st.ntc, Prev(st.hwcur, |st.slots|), |st.slots|), |st.slots|);
  }

  /** Packet t of the queue goes, with its length, its bytes and the given
      flags, into the slot t steps from `from`; every other slot is untouched. */
  lemma ImportSlotsInOrder(slots: seq<Slot>, from: nat, q: seq<Packet>, n: nat, flags: bv16)
    requires from < |slots| && n <= |q| && n <= |slots|
    ensures var r := ImportSlots(slots, from, q, n, flags);
            && (forall t :: 0 <= t < n ==>
                  r[Advance(from, t, |slots|)].len == q[t].len
                  && r[Advance(from, t, |slots|)].payload == q[t].payload
                  && r[Advance(from, t, |slots|)].flags == flags)
            && (forall s :: 0 <= s < |slots| && Dist(from, s, |slots|) >= n ==> r[s] == slots[s])
  {
    var r := ImportSlots(slots, from, q, n, flags);
    forall t | 0 <= t < n
      ensures r[Advance(from, t, |slots|)] == Fill(slots[Advance(from, t, |slots|)], q[t], flags)
    {
      AdvanceDist(from, t, |slots|);
      ImportSlotsAt(slots, from, q, n, flags, Advance(from, t, |slots|));
    }
    forall s | 0 <= s < |slots| && Dist(from, s, |slots|) >= n
      ensures r[s] == slots[s]
    {
      ImportSlotsAt(slots, from, q, n, flags, s);
    }
  }

  /** Importing packets never changes which slots have valid buffers. */
  lemma ImportSlotsKeepBuffers(slots: seq<Slot>, from: nat, q: seq<Packet>, n: nat, flags: bv16)
    requires from < |slots| && n <= |q| && n <= |slots|
    ensures forall s :: 0 <= s < |slots| ==> ImportSlots(slots, from, q, n, flags)[s].bufValid == slots[s].bufValid
  {
    forall s | 0 <= s < |slots|
      ensures ImportSlots(slots, from, q, n, flags)[s].bufValid == slots[s].bufValid
    {
      ImportSlotsAt(slots, from, q, n, flags, s);
    }
  }

  /** Import: the first n queued packets, in order, go into the n slots from
      nr_ntc on, each with the packet's length and bytes and the adapter's slot
      flags; the queue loses exactly those packets; n stays short of the slot
      behind nr_hwcur, which is never written. */
  lemma RxImportInOrder(st: RxState, slotFlags: bv16)
    requires RxIndexed(st)
    ensures var r := RxImport(st, slotFlags);
            var N := |st.slots|;
            var n := |st.queue| - |r.st.queue|;
            && 0 <= n <= Dist(st.ntc, Prev(st.hwcur, N), N)
            && r.st.queue == st.queue[n..]
            && (forall t :: 0 <= t < n ==>
                  r.st.slots[Advance(st.ntc, t, N)].len == st.queue[t].len
                  && r.st.slots[Advance(st.ntc, t, N)].payload == st.queue[t].payload
                  && r.st.slots[Advance(st.ntc, t, N)].flags == slotFlags)
            && (forall s :: 0 <= s < N && Dist(st.ntc, s, N) >= n ==> r.st.slots[s] == st.slots[s])
            && r.st.slots[Prev(st.hwcur, N)] == st.slots[Prev(st.hwcur, N)]
  {
    var r := RxImport(st, slotFlags);
    var n := |st.queue| - |r.st.queue|;
    RxImportCounts(st, slotFlags);
    ImportSlotsInOrder(st.slots, st.ntc, st.queue, n, slotFlags);
  }



  /** A queue that is empty, or that runs dry before the slot behind nr_hwcur,
      is imported completely when every slot on the way has a valid buffer. */
  lemma RxImportDrainsQueue(st: RxState, slotFlags: bv16)
    requires RxIndexed(st)
    requires forall s :: 0 <= s < |st.slots| ==> st.slots[s].bufValid
    ensures var r := RxImport(st, slotFlags);
            var d := Dist(st.ntc, Prev(st.hwcur, |st.slots|), |st.slots|);
            && r.status == Ok
            && r.st.queue == st.queue[Min(d, |st.queue|)..]
            && (|st.queue| <= d ==> r.st.queue == [])
  {
  }

  /** A slot with an invalid buffer at the import cursor makes rxsync reinit
      with nothing changed: the check comes before the dequeue, so no queued
      packet is lost. */
  lemma RxBadBufferKeepsQueue(st: RxState, slotFlags: bv16, forceRead: bool, noPendintr: bool)
    requires RxIndexed(st) && st.cur < |st.slots|
    requires noPendintr || forceRead || st.pendIntr
    requires st.ntc != Prev(st.hwcur, |st.slots|) && !st.slots[st.ntc].bufValid
    ensures RxSync(st, slotFlags, forceRead, noPendintr) == RxResult(Reinit, st)
  {
    assert Advance(st.ntc, 0, |st.slots|) == st.ntc;
  }

  /** Import ends in a reinit exactly when, before the queue runs dry and
      before the slot behind nr_hwcur, it reaches a slot with an invalid buffer. */
  lemma RxImportReinitIff(st: RxState, slotFlags: bv16)
    requires RxIndexed(st)
    ensures var N := |st.slots|;
            (RxImport(st, slotFlags).status == Reinit
             <==> exists m :: 0 <= m < Dist(st.ntc, Prev(st.hwcur, N), N) && m <= |st.queue|
                              && (forall t :: 0 <= t < m ==> st.slots[Advance(st.ntc, t, N)].bufValid)
                              && !st.slots[Advance(st.ntc, m, N)].bufValid)
  {
    var N := |st.slots|;
    var d := Dist(st.ntc, Prev(st.hwcur, N), N);
    var first := FirstBadBuffer(st.slots, st.ntc, d, 0);
    forall m | 0 <= m < d && m <= |st.queue|
               && (forall t :: 0 <= t < m ==> st.slots[Advance(st.ntc, t, N)].bufValid)
               && !st.slots[Advance(st.ntc, m, N)].bufValid
      ensures first == m
    {
    }
  }

  /** rxsync reinits exactly for an out-of-range cur, or, when it imports,
      for a slot with an invalid buffer met before the queue runs dry; an
      inconsistent reserved count is reset, never a reinit. */
  lemma RxSyncReinitCauses(st: RxState, slotFlags: bv16, forceRead: bool, noPendintr: bool)
    requires RxIndexed(st)
    ensures var N := |st.slots|;
            (RxSync(st, slotFlags, forceRead, noPendintr).status == Reinit
             <==> st.cur > N - 1
                  || ((noPendintr || forceRead || st.pendIntr)
                      && exists m :: 0 <= m < Dist(st.ntc, Prev(st.hwcur, N), N) && m <= |st.queue|
                                     && (forall t :: 0 <= t < m ==> st.slots[Advance(st.ntc, t, N)].bufValid)
                                     && !st.slots[Advance(st.ntc, m, N)].bufValid))
  {
    RxImportReinitIff(st, slotFlags);
  }

  /** Without netmap_no_pendintr, a forced read or a pending interrupt,
      rxsync imports nothing: the queue, nr_ntc and NKR_PENDINTR are left
      as they were, and only the release phase runs. */
  lemma RxSyncSkipsImport(st: RxState, slotFlags: bv16, forceRead: bool, noPendintr: bool)
    requires RxIndexed(st) && st.cur < |st.slots|
    requires !noPendintr && !forceRead && !st.pendIntr
    ensures var r := RxSync(st, slotFlags, forceRead, noPendintr);
            && r == RxResult(Ok, RxRelease(st))
            && r.st.queue == st.queue && r.st.ntc == st.ntc && !r.st.pendIntr
  {
  }

  /** Release and publish: a reserved count that with avail covers the ring
      is reset to 0; nr_hwcur moves to the slot `reserved` steps behind cur;
      the slots passed over lose NS_BUF_CHANGED (and only that flag), all other
      slots are untouched; nr_hwavail drops by their number; and avail is
      published as nr_hwavail - reserved. */
  lemma RxReleasePublishes(st: RxState)
    requires RxIndexed(st) && st.cur < |st.slots|
    ensures var r := RxRelease(st);
            var N := |st.slots|;
            var released := Dist(st.hwcur, r.hwcur, N);
            && (r.reserved == if st.reserved > 0 && st.reserved + st.avail >= N then 0 else st.reserved)
            && Dist(r.hwcur, st.cur, N) == r.reserved
            && (forall s :: 0 <= s < N && Dist(st.hwcur, s, N) < released ==>
                  r.slots[s].flags & NS_BUF_CHANGED == 0
                  && r.slots[s].flags | (st.slots[s].flags & NS_BUF_CHANGED) == st.slots[s].flags
                  && r.slots[s].(flags := st.slots[s].flags) == st.slots[s])
            && (forall s :: 0 <= s < N && Dist(st.hwcur, s, N) >= released ==> r.slots[s] == st.slots[s])
            && r.hwavail == st.hwavail - released
            && r.avail == Wrap32(r.hwavail - r.reserved)
            && r.cur == st.cur && r.ntc == st.ntc && r.queue == st.queue && r.pendIntr == st.pendIntr
  {
    var N := |st.slots|;
    var released := Dist(st.hwcur, RxRelease(st).hwcur, N);
    forall s | 0 <= s < N
      ensures RxRelease(st).slots[s]
           == if Dist(st.hwcur, s, N) < released then WithoutFlags(st.slots[s], NS_BUF_CHANGED) else st.slots[s]
    {
      ClearFlagsAt(st.slots, st.hwcur, released, NS_BUF_CHANGED, s);
    }
  }

  /** The ring protocol on the receive side: every slot names a valid buffer,
      nr_hwavail counts the slots from nr_hwcur to nr_ntc that hold imported
      packets, and the user's cur lies within them, `reserved` of them behind it. */
  predicate RxConsistent(st: RxState)
  {
    && RxIndexed(st) && st.cur < |st.slots|
    && (forall s :: 0 <= s < |st.slots| ==> st.slots[s].bufValid)
    && st.hwavail == Dist(st.hwcur, st.ntc, |st.slots|)
    && st.reserved <= Dist(st.hwcur, st.cur, |st.slots|) <= st.hwavail
  }

  /** The state a sync leaves behind: nothing released but not yet taken back. */
  predicate RxAtRest(st: RxState)
  {
    && RxConsistent(st)
    && Dist(st.hwcur, st.cur, |st.slots|) == st.reserved
    && st.avail == st.hwavail - st.reserved
  }

  lemma RxImportKeepsConsistent(st: RxState, slotFlags: bv16)
    requires RxConsistent(st)
    ensures RxImport(st, slotFlags).status == Ok && RxConsistent(RxImport(st, slotFlags).st)
  {
    var N := |st.slots|;
    var d := Dist(st.ntc, Prev(st.hwcur, N), N);
    var n := Min(d, |st.queue|);
    var r := RxImport(st, slotFlags);
    assert r.status == Ok && |st.queue| - |r.st.queue| == n;
    RxImportCounts(st, slotFlags);
    DistSplit(st.hwcur, st.ntc, Prev(st.hwcur, N), N);
    DistAdvance(st.hwcur, st.ntc, n, N);
    ImportSlotsKeepBuffers(st.slots, st.ntc, st.queue, n, slotFlags);
  }

  lemma RxReleaseKeepsConsistent(st: RxState)
    requires RxConsistent(st)
    ensures RxAtRest(RxRelease(st))
  {
    var N := |st.slots|;
    var resvd := ClampReserved(st.reserved, st.avail, N);
    var k := ReleaseTarget(st.cur, resvd, N);
    DistSplitBack(st.hwcur, k, st.cur, N);
    DistSplit(st.hwcur, k, st.ntc, N);
    var r := RxRelease(st);
    forall s | 0 <= s < N
      ensures r.slots[s].bufValid == st.slots[s].bufValid
    {
      ClearFlagsAt(st.slots, st.hwcur, Dist(st.hwcur, k, N), NS_BUF_CHANGED, s);
    }
  }

  /** rxsync keeps the receive ring protocol: from a consistent ring it
      succeeds and leaves the ring at rest. */
  lemma RxSyncKeepsConsistent(st: RxState, slotFlags: bv16, forceRead: bool, noPendintr: bool)
    requires RxConsistent(st)
    ensures var r := RxSync(st, slotFlags, forceRead, noPendintr);
            r.status == Ok && RxAtRest(r.st) && !r.st.pendIntr
  {
    if noPendintr || forceRead || st.pendIntr {
      RxImportKeepsConsistent(st, slotFlags);
      RxReleaseKeepsConsistent(RxImport(st, slotFlags).st);
    } else {
      RxReleaseKeepsConsistent(st);
    }
  }

  /** With nothing queued, rxsync of a ring at rest changes nothing but the
      NKR_PENDINTR bit, which it leaves clear. */
  lemma RxSyncAtRestIsNoop(st: RxState, slotFlags: bv16, forceRead: bool, noPendintr: bool)
    requires RxAtRest(st) && st.queue == []
    ensures RxSync(st, slotFlags, forceRead, noPendintr) == RxResult(Ok, st.(pendIntr := false))
  {
    if noPendintr || forceRead || st.pendIntr {
      RxImportNothing(st, slotFlags);
      RxReleaseAtRest(st.(pendIntr := false));
    } else {
      RxReleaseAtRest(st);
    }
  }

  /** With an empty queue and a valid buffer at nr_ntc, import only clears NKR_PENDINTR. */
  lemma RxImportNothing(st: RxState, slotFlags: bv16)
    requires RxIndexed(st) && st.queue == [] && st.slots[st.ntc].bufValid
    ensures RxImport(st, slotFlags) == RxResult(Ok, st.(pendIntr := false))
  {
    assert Advance(st.ntc, 0, |st.slots|) == st.ntc;
  }

  /** Release and publish leave a ring at rest as it is. */
  lemma RxReleaseAtRest(st: RxState)
    requires RxAtRest(st)
    ensures RxRelease(st) == st
  {
    var N := |st.slots|;
    DistInjective(ReleaseTarget(st.cur, st.reserved, N), st.hwcur, st.cur, N);
  }

  /** A second rxsync with the same cur and nothing newly queued changes nothing. */
  lemma RxSyncTwice(st: RxState, slotFlags: bv16, forceRead: bool, noPendintr: bool)
    requires RxConsistent(st)
    requires RxSync(st, slotFlags, forceRead, noPendintr).st.queue == []
    ensures var r := RxSync(st, slotFlags, forceRead, noPendintr);
            RxSync(r.st, slotFlags, forceRead, noPendintr) == r
  {
    var r := RxSync(st, slotFlags, forceRead, noPendintr);
    RxSyncKeepsConsistent(st, slotFlags, forceRead, noPendintr);
    RxSyncAtRestIsNoop(r.st, slotFlags, forceRead, noPendintr);
    assert r.st.(pendIntr := false) == r.st;
  }

  /** Ring size 8, empty queue, cur 0 and reserved 0: three packets of lengths
      64, 128 and 200 arrive through the hook; a forced rxsync imports them
      into slots 0, 1 and 2, publishes hwavail = avail = 3 and empties the
      queue; a second forced rxsync changes nothing. */
  lemma RxScenarioThreePackets(slots: seq<Slot>, slotFlags: bv16, a: seq<bv8>, b: seq<bv8>, c: seq<bv8>)
    requires |slots| == 8 && forall s :: 0 <= s < 8 ==> slots[s].bufValid
    ensures var ps := [Packet(64, a), Packet(128, b), Packet(200, c)];
            var st := RxState(slots, 0, 0, 0, 0, 0, 0, false, CaptureAll([], ps));
            var r := RxSync(st, slotFlags, true, false);
            && r.status == Ok
            && r.st.slots[0].len == 64 && r.st.slots[1].len == 128 && r.st.slots[2].len == 200
            && r.st.hwavail == 3 && r.st.avail == 3 && r.st.queue == []
            && RxSync(r.st, slotFlags, true, false) == r
  {
    var ps := [Packet(64, a), Packet(128, b), Packet(200, c)];
    CaptureKeepsOrder([], ps);
    assert CaptureAll([], ps) == ps;
    ForcedSyncOfThree(slots, slotFlags, ps);
  }

  /** The forced rxsync of the scenario above, on the queue the hook built. */
  lemma ForcedSyncOfThree(slots: seq<Slot>, slotFlags: bv16, ps: seq<Packet>)
    requires |slots| == 8 && forall s :: 0 <= s < 8 ==> slots[s].bufValid
    requires |ps| == 3 && ps[0].len == 64 && ps[1].len == 128 && ps[2].len == 200
    ensures var r := RxSync(RxState(slots, 0, 0, 0, 0, 0, 0, false, ps), slotFlags, true, false);
            && r.status == Ok
            && r.st.slots[0].len == 64 && r.st.slots[1].len == 128 && r.st.slots[2].len == 200
            && r.st.hwavail == 3 && r.st.avail == 3 && r.st.queue == []
            && RxSync(r.st, slotFlags, true, false) == r
  {
    var st := RxState(slots, 0, 0, 0, 0, 0, 0, false, ps);
    assert Advance(0, 3, 8) == 3;
    RxImportCompletes(st, slotFlags, 3);
    var st1 := RxImport(st, slotFlags).st;
    assert st1.slots[0].len == 64 && st1.slots[1].len == 128 && st1.slots[2].len == 200;
    var st2 := RxRelease(st1);
    assert st2 == st1.(avail := 3);
    RxSyncAtRestIsNoop(st2, slotFlags, true, false);
  }

  /** The receive kring of the adapter, with its ring and its packet queue. */
  class RxKring {
    const ring: NetmapRing
    /** nkr_slot_flags: the flags given to every imported slot. */
    const slotFlags: bv16
    var hwcur: nat
    var hwavail: int
    var ntc: nat
    var pendIntr: bool
    var rxQueue: seq<Packet>

    ghost function State(): RxState
      reads this, ring, ring.slots
    {
      RxState(ring.slots[..], ring.cur, ring.avail, ring.reserved,
              hwcur, hwavail, ntc, pendIntr, rxQueue)
    }

    ghost predicate Valid()
      reads this, ring, ring.slots
    {
      RxIndexed(State())
    }

    constructor (ring: NetmapRing, slotFlags: bv16)
      requires 2 <= ring.slots.Length < U32_LIMIT
      ensures this.ring == ring && this.slotFlags == slotFlags
      ensures Valid()
      ensures hwcur == 0 && hwavail == 0 && ntc == 0 && !pendIntr && rxQueue == []
    {
      this.ring := ring;
      this.slotFlags := slotFlags;
      hwcur, hwavail, ntc, pendIntr, rxQueue := 0, 0, 0, false, [];
    }

    /** generic_netmap_rxsync. */
    method Sync(forceRead: bool, noPendintr: bool) returns (status: SyncStatus)
      requires Valid()
      modifies this, ring`reserved, ring`avail, ring.slots
      ensures Valid()
      ensures var r := RxSync(old(State()), slotFlags, forceRead, noPendintr);
              status == r.status && State() == r.st
    {
      var lim := ring.slots.Length - 1;
      var forceUpdate := forceRead || pendIntr;
      if ring.cur > lim {
        return Reinit;
      }
      if noPendintr || forceUpdate {
        status := Import();
        if status == Reinit {
          return;
        }
      }
      Release();
      status := Ok;
    }

    /** The import phase of rxsync. */
    method Import() returns (status: SyncStatus)
      requires Valid()
      modifies this`ntc, this`hwavail, this`pendIntr, this`rxQueue, ring.slots
      ensures Valid()
      ensures var r := RxImport(old(State()), slotFlags);
              status == r.status && State() == r.st
    {
      ghost var st0 := State();
      var lim := ring.slots.Length - 1;
      var k := if hwcur != 0 then hwcur - 1 else lim;
      var reinit, n, j := ImportPass(ntc, k);
      if reinit {
        RxImportStopsAtBadBuffer(st0, slotFlags, n);
        return Reinit;
      }
      RxImportCompletes(st0, slotFlags, n);
      if n != 0 {
        ntc := j;
        hwavail := hwavail + n;
      }
      pendIntr := false;
      status := Ok;
    }

    /** The import loop: moves packets from the queue into the slots from
        nr_ntc on until the slot behind nr_hwcur, an empty queue, or a slot
        with an invalid buffer. */
    method ImportPass(from: nat, k: nat) returns (reinit: bool, n: nat, j: nat)
      requires 2 <= ring.slots.Length && from < ring.slots.Length && k < ring.slots.Length
      modifies ring.slots, this`rxQueue
      ensures var N := ring.slots.Length;
              var slots0 := old(ring.slots[..]);
              var q0 := old(rxQueue);
              var d := Dist(from, k, N);
              && n <= d && n <= |q0|
              && j == Advance(from, n, N)
              && (forall t :: 0 <= t < n ==> slots0[Advance(from, t, N)].bufValid)
              && ring.slots[..] == ImportSlots(slots0, from, q0, n, slotFlags)
              && rxQueue == q0[n..]
              && (reinit ==> n < d && !slots0[j].bufValid)
              && (!reinit ==> n == d || (n == |q0| && slots0[j].bufValid))
    {
      ghost var slots0 := ring.slots[..];
      ghost var q0 := rxQueue;
      var flags := slotFlags;
      var N := ring.slots.Length;
      n := 0;
      j := from;
      ghost var d := Dist(from, k, N);
      ghost var m := FirstBadBuffer(slots0, from, d, 0);
      reinit := false;
      while j != k
        invariant n <= m && n <= |q0|
        invariant j == Advance(from, n, N)
        invariant ring.slots[..] == ImportSlots(slots0, from, q0, n, flags)
        invariant rxQueue == q0[n..]
        decreases d - n
      {
        AdvanceDist(from, n, N);
        ImportSlotsAt(slots0, from, q0, n, flags, j);
        assert ring.slots[j] == slots0[j];
        var badBuffer, stop := ImportSlot(j);
        if stop {
          reinit := badBuffer;
          break;
        }
        assert rxQueue == q0[n + 1..];
        assert ring.slots[..] == ImportSlots(slots0, from, q0, n, flags)[j := Fill(slots0[j], q0[n], flags)];
        NextAdvance(from, n, N);
        j := Next(j, N);
        n := n + 1;
      }
      AdvanceDist(from, n, N);
    }

    /** One round of the import loop, on slot j: a slot with an invalid
        buffer stops the import with an error, an empty queue stops it
        quietly, and otherwise the packet at the head of the queue is
        dequeued and copied into the slot. */
    method ImportSlot(j: nat) returns (badBuffer: bool, stop: bool)
      requires j < ring.slots.Length
      modifies ring.slots, this`rxQueue
      ensures badBuffer <==> !old(ring.slots[j]).bufValid
      ensures stop <==> badBuffer || old(rxQueue) == []
      ensures stop ==> ring.slots[..] == old(ring.slots[..]) && rxQueue == old(rxQueue)
      ensures !stop ==> && rxQueue == old(rxQueue)[1..]
                        && ring.slots[..] == old(ring.slots[..])[j := Fill(old(ring.slots[j]), old(rxQueue)[0], slotFlags)]
    {
      if !ring.slots[j].bufValid {
        return true, true;
      }
      if rxQueue == [] {
        return false, true;
      }
      var p := rxQueue[0];
      rxQueue := rxQueue[1..];
      ring.slots[j] := Fill(ring.slots[j], p, slotFlags);
      badBuffer, stop := false, false;
    }

    /** The release and publish phase of rxsync. */
    method Release()
      requires Valid() && ring.cur < ring.slots.Length
      modifies this`hwcur, this`hwavail, ring`reserved, ring`avail, ring.slots
      ensures Valid()
      ensures State() == RxRelease(old(State()))
    {
      ghost var st0 := State();
      var resvd, k := ReleaseCursor();
      var j := hwcur;
      ghost var released := Dist(st0.hwcur, k, ring.slots.Length);
      if j != k {
        var n := ReleasePass(j, k);
        hwavail := hwavail - n;
        hwcur := k;
      }
      ring.avail := Wrap32(hwavail - resvd);
      assert State() == st0.(slots := ClearFlags(st0.slots, st0.hwcur, released, NS_BUF_CHANGED),
                             reserved := resvd, hwcur := k, hwavail := st0.hwavail - released,
                             avail := Wrap32(st0.hwavail - released - resvd));
    }

    /** The release target: reserved is reset to 0 when, with avail, it
        covers the whole ring; the target is the slot `reserved` steps behind cur. */
    method ReleaseCursor() returns (resvd: U32, k: nat)
      requires 2 <= ring.slots.Length && ring.cur < ring.slots.Length
      modifies ring`reserved
      ensures resvd == ClampReserved(old(ring.reserved), ring.avail, ring.slots.Length)
      ensures ring.reserved == resvd
      ensures k == ReleaseTarget(ring.cur, resvd, ring.slots.Length)
    {
      var lim := ring.slots.Length - 1;
      resvd := ring.reserved;
      k := ring.cur;
      if resvd > 0 {
        // Unbounded sum: the 32-bit sum of the source can wrap (ClampReservedAsWritten).
        if resvd + ring.avail >= lim + 1 {
          ring.reserved := 0;
          resvd := 0;
        }
        k := if k >= resvd then k - resvd else k + lim + 1 - resvd;
      }
    }

    /** The release loop: clears NS_BUF_CHANGED on the slots from `from`
        (nr_hwcur) up to, not including, k, and counts them. */
    method ReleasePass(from: nat, k: nat) returns (n: nat)
      requires 2 <= ring.slots.Length && from < ring.slots.Length && k < ring.slots.Length
      modifies ring.slots
      ensures n == Dist(from, k, ring.slots.Length)
      ensures ring.slots[..] == ClearFlags(old(ring.slots[..]), from, n, NS_BUF_CHANGED)
    {
      ghost var slots0 := ring.slots[..];
      var N := ring.slots.Length;
      ghost var d := Dist(from, k, N);
      var j := from;
      n := 0;
      while j != k
        invariant n <= d
        invariant j == Advance(from, n, N)
        invariant ring.slots[..] == ClearFlags(slots0, from, n, NS_BUF_CHANGED)
        decreases d - n
      {
        AdvanceDist(from, n, N);
        ClearFlagsAt(slots0, from, n, NS_BUF_CHANGED, j);
        ring.slots[j] := WithoutFlags(ring.slots[j], NS_BUF_CHANGED);
        NextAdvance(from, n, N);
        j := Next(j, N);
        n := n + 1;
      }
      AdvanceDist(from, n, N);
    }
  }
}

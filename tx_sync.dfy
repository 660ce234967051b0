/** The transmit side of the generic adapter: txsync, which turns the slots
    the user has filled into packets for the host stack's transmit path, and
    the completion counter that the transmit destructor feeds. */
module TxPath {
  import opened Ring

  /** The flags txsync clears on every slot it has sent. */
  const TX_DONE_FLAGS: bv16 := NS_REPORT | NS_BUF_CHANGED

  /** What happens to one transmission attempt, decided by the host stack:
      accepted (GNA_TX_OK), dropped (GNA_TX_FAIL, a soft failure), any other
      return code of the transmit call, or no socket buffer to copy into. */
  datatype TxOutcome = Sent | Dropped | HardError | NoMemory

  /** What the transmit loop does with one slot. */
  datatype TxStep = Continue | Stop | Fail

  /** The fate of a slot: a slot with an invalid buffer or a length above the
      buffer size fails before anything is allocated; otherwise the attempt's
      outcome decides. */
  function SlotStep(s: Slot, bufSize: nat, o: TxOutcome): (r: TxStep)
    ensures r == Continue <==> s.bufValid && s.len <= bufSize && o == Sent
    ensures r == Stop <==> s.bufValid && s.len <= bufSize && o == Dropped
  {
    if !s.bufValid || s.len > bufSize then Fail
    else match o
      case Sent => Continue
      case Dropped => Stop
      case HardError => Fail
      case NoMemory => Fail
  }

  /** The transmit kring and its ring, as values. */
  datatype TxState = TxState(
    slots: seq<Slot>,
    cur: U32, avail: U32,              // ring fields: cur written by the user, avail by both
    hwcur: nat, hwavail: int,          // kring fields: nr_hwcur, nr_hwavail
    completed: nat)                    // tx_completed

  predicate TxIndexed(st: TxState)
  {
    2 <= |st.slots| < U32_LIMIT && st.hwcur < |st.slots|
  }

  /** The packets handed to the stack, and what txsync returns. */
  datatype TxResult = TxResult(status: SyncStatus, st: TxState, sent: seq<Packet>)

  /** The number of slots sent, from step i on, before the first slot
      among from+i, ..., from+d-1 (mod N) that does not go through; d when
      all of them do. Attempt t meets the outcome env(t). */
  function TxFirstStop(slots: seq<Slot>, from: nat, d: nat, i: nat, bufSize: nat,
                       env: nat -> TxOutcome): (r: nat)
    requires from < |slots| && d < |slots| && i <= d
    ensures i <= r <= d
    ensures forall t :: i <= t < r ==> SlotStep(slots[Advance(from, t, |slots|)], bufSize, env(t)) == Continue
    ensures r < d ==> SlotStep(slots[Advance(from, r, |slots|)], bufSize, env(r)) != Continue
    decreases d - i
  {
    if i == d then d
    else if SlotStep(slots[Advance(from, i, |slots|)], bufSize, env(i)) != Continue then i
    else TxFirstStop(slots, from, d, i + 1, bufSize, env)
  }

  /** The packet built from a slot: its length and its bytes. */
  function ToPacket(s: Slot): (p: Packet)
    ensures p.len == s.len && p.payload == s.payload
  {
    Packet(s.len, s.payload)
  }

  /** The packets made from the n slots starting at `from`, in ring order. */
  function SentPackets(slots: seq<Slot>, from: nat, n: nat): (r: seq<Packet>)
    requires from < |slots| && n <= |slots|
    ensures |r| == n
    decreases n
  {
    if n == 0 then []
    else SentPackets(slots, from, n - 1) + [ToPacket(slots[Advance(from, n - 1, |slots|)])]
  }

  /** Packet t of what was sent is the slot t steps from `from`. */
  lemma {:induction false} SentPacketsAt(slots: seq<Slot>, from: nat, n: nat, t: nat)
    requires from < |slots| && n <= |slots| && t < n
    ensures SentPackets(slots, from, n)[t] == ToPacket(slots[Advance(from, t, |slots|)])
    decreases n
  {
    if t < n - 1 {
      SentPacketsAt(slots, from, n - 1, t);
    }
  }

  /** txsync: with the carrier down, nothing at all; reinit on an
      out-of-range cur; otherwise send the slots from nr_hwcur towards cur
      until one does not go through, reinit if that one failed, else move
      nr_hwcur and nr_hwavail past the sent slots and credit the completions
      counted since the last sync to nr_hwavail and avail. */
  function TxSync(st: TxState, bufSize: nat, carrierOk: bool, env: nat -> TxOutcome): (r: TxResult)
    requires TxIndexed(st)
    ensures TxIndexed(r.st) && |r.st.slots| == |st.slots|
  {
    if !carrierOk then TxResult(Ok, st, [])
    else if st.cur > |st.slots| - 1 then TxResult(Reinit, st, [])
    else
      var N := |st.slots|;
      var d := Dist(st.hwcur, st.cur, N);
      var m := TxFirstStop(st.slots, st.hwcur, d, 0, bufSize, env);
      var slots := ClearFlags(st.slots, st.hwcur, m, TX_DONE_FLAGS);
      var sent := SentPackets(st.slots, st.hwcur, m);
      if m < d && SlotStep(st.slots[Advance(st.hwcur, m, N)], bufSize, env(m)) == Fail then
        TxResult(Reinit, st.(slots := slots), sent)
      else
        TxResult(Ok, st.(slots := slots,
                         hwcur := Advance(st.hwcur, m, N),
                         hwavail := st.hwavail - m + st.completed,
                         avail := Wrap32(st.avail + st.completed),
                         completed := 0), sent)
  }

  /** The outcome of a txsync whose first n slots from nr_hwcur go through
      and whose loop then reaches cur or a slot the stack drops. */
  lemma TxSyncCompletes(st: TxState, bufSize: nat, env: nat -> TxOutcome, n: nat)
    requires TxIndexed(st) && st.cur < |st.slots|
    requires n <= Dist(st.hwcur, st.cur, |st.slots|)
    requires forall t :: 0 <= t < n ==>
               SlotStep(st.slots[Advance(st.hwcur, t, |st.slots|)], bufSize, env(t)) == Continue
    requires n == Dist(st.hwcur, st.cur, |st.slots|)
             || SlotStep(st.slots[Advance(st.hwcur, n, |st.slots|)], bufSize, env(n)) == Stop
    ensures TxSync(st, bufSize, true, env)
         == TxResult(Ok, st.(slots := ClearFlags(st.slots, st.hwcur, n, TX_DONE_FLAGS),
                             hwcur := Advance(st.hwcur, n, |st.slots|),
                             hwavail := st.hwavail - n + st.completed,
                             avail := Wrap32(st.avail + st.completed),
                             completed := 0),
                     SentPackets(st.slots, st.hwcur, n))
  {
  }

  /** The outcome of a txsync whose first n slots from nr_hwcur go through
      and whose next slot, short of cur, fails. */
  lemma TxSyncFailsAt(st: TxState, bufSize: nat, env: nat -> TxOutcome, n: nat)
    requires TxIndexed(st) && st.cur < |st.slots|
    requires n < Dist(st.hwcur, st.cur, |st.slots|)
    requires forall t :: 0 <= t < n ==>
               SlotStep(st.slots[Advance(st.hwcur, t, |st.slots|)], bufSize, env(t)) == Continue
    requires SlotStep(st.slots[Advance(st.hwcur, n, |st.slots|)], bufSize, env(n)) == Fail
    ensures TxSync(st, bufSize, true, env)
         == TxResult(Reinit, st.(slots := ClearFlags(st.slots, st.hwcur, n, TX_DONE_FLAGS)),
                     SentPackets(st.slots, st.hwcur, n))
  {
  }

  /** With the carrier down txsync returns 0 and changes nothing, not even
      the completion accounting. */
  lemma TxCarrierDownIsNoop(st: TxState, bufSize: nat, env: nat -> TxOutcome)
    requires TxIndexed(st)
    ensures TxSync(st, bufSize, false, env) == TxResult(Ok, st, [])
  {
  }

  /** An out-of-range cur makes txsync reinit before it touches any slot. */
  lemma TxSyncRejectsBadCursor(st: TxState, bufSize: nat, env: nat -> TxOutcome)
    requires TxIndexed(st) && st.cur > |st.slots| - 1
    ensures TxSync(st, bufSize, true, env) == TxResult(Reinit, st, [])
  {
  }

  /** The slots from nr_hwcur on are sent in ring order, never past cur; each
      sent slot becomes the packet with its length and bytes and loses
      NS_REPORT and NS_BUF_CHANGED (and only those flags); every other slot,
      including the one that stopped the loop, is left as it was. */
  lemma TxSentInRingOrder(st: TxState, bufSize: nat, env: nat -> TxOutcome)
    requires TxIndexed(st) && st.cur < |st.slots|
    ensures var r := TxSync(st, bufSize, true, env);
            var N := |st.slots|;
            var n := |r.sent|;
            && n <= Dist(st.hwcur, st.cur, N)
            && (forall t :: 0 <= t < n ==>
                  var s := st.slots[Advance(st.hwcur, t, N)];
                  && r.sent[t] == Packet(s.len, s.payload)
                  && SlotStep(s, bufSize, env(t)) == Continue
                  && r.st.slots[Advance(st.hwcur, t, N)].flags & TX_DONE_FLAGS == 0
                  && r.st.slots[Advance(st.hwcur, t, N)].flags | (s.flags & TX_DONE_FLAGS) == s.flags
                  && r.st.slots[Advance(st.hwcur, t, N)].(flags := s.flags) == s)
            && (forall s :: 0 <= s < N && Dist(st.hwcur, s, N) >= n ==> r.st.slots[s] == st.slots[s])
  {
    var r := TxSync(st, bufSize, true, env);
    var N := |st.slots|;
    var n := |r.sent|;
    forall t | 0 <= t < n
      ensures r.st.slots[Advance(st.hwcur, t, N)]
           == WithoutFlags(st.slots[Advance(st.hwcur, t, N)], TX_DONE_FLAGS)
      ensures r.sent[t] == ToPacket(st.slots[Advance(st.hwcur, t, N)])
    {
      AdvanceDist(st.hwcur, t, N);
      ClearFlagsAt(st.slots, st.hwcur, n, TX_DONE_FLAGS, Advance(st.hwcur, t, N));
      SentPacketsAt(st.slots, st.hwcur, n, t);
    }
    forall s | 0 <= s < N && Dist(st.hwcur, s, N) >= n
      ensures r.st.slots[s] == st.slots[s]
    {
      ClearFlagsAt(st.slots, st.hwcur, n, TX_DONE_FLAGS, s);
    }
  }

  /** A soft failure (GNA_TX_FAIL) ends the loop without error: nr_hwcur stops
      at the dropped slot, which keeps its flags and is tried again by the
      next txsync. */
  lemma TxSoftStop(st: TxState, bufSize: nat, env: nat -> TxOutcome, m: nat)
    requires TxIndexed(st) && st.cur < |st.slots|
    requires m < Dist(st.hwcur, st.cur, |st.slots|)
    requires forall t :: 0 <= t < m ==>
               SlotStep(st.slots[Advance(st.hwcur, t, |st.slots|)], bufSize, env(t)) == Continue
    requires SlotStep(st.slots[Advance(st.hwcur, m, |st.slots|)], bufSize, env(m)) == Stop
    ensures var r := TxSync(st, bufSize, true, env);
            && r.status == Ok && |r.sent| == m
            && r.st.hwcur == Advance(st.hwcur, m, |st.slots|)
            && r.st.slots[r.st.hwcur] == st.slots[r.st.hwcur]
  {
    AdvanceDist(st.hwcur, m, |st.slots|);
    ClearFlagsAt(st.slots, st.hwcur, m, TX_DONE_FLAGS, Advance(st.hwcur, m, |st.slots|));
  }

  /** txsync reinits exactly when the carrier is up and either cur is out of
      range or the first slot that does not go through has an invalid buffer,
      an oversized length, no socket buffer or a hard transmit error. A reinit
      leaves the kring counters, avail and the completion counter alone. */
  lemma TxSyncReinitCauses(st: TxState, bufSize: nat, env: nat -> TxOutcome, carrierOk: bool)
    requires TxIndexed(st)
    ensures var r := TxSync(st, bufSize, carrierOk, env);
            && (r.status == Reinit <==>
                  carrierOk && (st.cur > |st.slots| - 1 ||
                    exists m :: 0 <= m < Dist(st.hwcur, st.cur, |st.slots|)
                      && (forall t :: 0 <= t < m ==>
                            SlotStep(st.slots[Advance(st.hwcur, t, |st.slots|)], bufSize, env(t)) == Continue)
                      && SlotStep(st.slots[Advance(st.hwcur, m, |st.slots|)], bufSize, env(m)) == Fail))
            && (r.status == Reinit ==>
                  r.st.hwcur == st.hwcur && r.st.hwavail == st.hwavail && r.st.avail == st.avail
                  && r.st.completed == st.completed && r.st.cur == st.cur)
  {
    if carrierOk && st.cur <= |st.slots| - 1 {
      var N := |st.slots|;
      var d := Dist(st.hwcur, st.cur, N);
      var m := TxFirstStop(st.slots, st.hwcur, d, 0, bufSize, env);
      if m < d && SlotStep(st.slots[Advance(st.hwcur, m, N)], bufSize, env(m)) == Fail {
        assert TxSync(st, bufSize, carrierOk, env).status == Reinit;
      } else {
        forall m' | 0 <= m' < d
            && (forall t :: 0 <= t < m' ==> SlotStep(st.slots[Advance(st.hwcur, t, N)], bufSize, env(t)) == Continue)
          ensures SlotStep(st.slots[Advance(st.hwcur, m', N)], bufSize, env(m')) != Fail
        {
        }
      }
    }
  }

  /** The accounting of a successful txsync with the carrier up: nr_hwcur moves
      by the number of packets sent, nr_hwavail loses them and gains the
      completions, avail gains the completions (as a 32-bit field), and the
      completion counter is back to 0. */
  lemma TxSyncAccounting(st: TxState, bufSize: nat, env: nat -> TxOutcome)
    requires TxIndexed(st)
    ensures var r := TxSync(st, bufSize, true, env);
            var N := |st.slots|;
            r.status == Ok ==>
              && Dist(st.hwcur, r.st.hwcur, N) == |r.sent|
              && r.st.hwavail == st.hwavail - |r.sent| + st.completed
              && r.st.avail == Wrap32(st.avail + st.completed)
              && r.st.completed == 0
              && r.st.cur == st.cur
  {
    var r := TxSync(st, bufSize, true, env);
    if r.status == Ok {
      AdvanceDist(st.hwcur, |r.sent|, |st.slots|);
    }
  }

  /** The transmit ring protocol: the kring's free count is the user's avail
      plus the slots the user has filled but the kernel has not yet sent. */
  predicate TxConsistent(st: TxState)
  {
    && TxIndexed(st) && st.cur < |st.slots|
    && st.hwavail == st.avail + Dist(st.hwcur, st.cur, |st.slots|)
  }

  /** A successful txsync keeps the ring protocol, as long as avail plus the
      completions fits in 32 bits. */
  lemma TxSyncKeepsConsistent(st: TxState, bufSize: nat, env: nat -> TxOutcome)
    requires TxConsistent(st) && st.avail + st.completed < U32_LIMIT
    ensures var r := TxSync(st, bufSize, true, env);
            r.status == Ok ==> TxConsistent(r.st)
  {
    var N := |st.slots|;
    var d := Dist(st.hwcur, st.cur, N);
    var m := TxFirstStop(st.slots, st.hwcur, d, 0, bufSize, env);
    AdvanceDist(st.hwcur, m, N);
    DistSplit(st.hwcur, Advance(st.hwcur, m, N), st.cur, N);
  }

  /** With nothing to send and no completions, txsync changes nothing. */
  lemma TxSyncIdleIsNoop(st: TxState, bufSize: nat, env: nat -> TxOutcome, carrierOk: bool)
    requires TxIndexed(st) && st.cur == st.hwcur && st.completed == 0
    ensures TxSync(st, bufSize, carrierOk, env) == TxResult(Ok, st, [])
  {
  }

  /** The transmit kring of the adapter, with its ring and the completion
      counter. */
  class TxKring {
    const ring: NetmapRing
    var hwcur: nat
    var hwavail: int
    /** tx_completed: an atomic counter in the source, here a plain field.
        Of its three operations, the increment and the read-and-clear are the
        methods CompletedInc and CompletedReadAndClear; the set to 0 done by
        registration is a direct write in Adapter.Register. */
    var txCompleted: nat

    ghost function State(): TxState
      reads this, ring, ring.slots
    {
      TxState(ring.slots[..], ring.cur, ring.avail, hwcur, hwavail, txCompleted)
    }

    ghost predicate Valid()
      reads this, ring, ring.slots
    {
      TxIndexed(State())
    }

    constructor (ring: NetmapRing)
      requires 2 <= ring.slots.Length < U32_LIMIT
      ensures this.ring == ring && Valid()
      ensures hwcur == 0 && hwavail == 0 && txCompleted == 0
    {
      this.ring := ring;
      hwcur, hwavail, txCompleted := 0, 0, 0;
    }

    /** NM_ATOMIC_INC on tx_completed. */
    method CompletedInc()
      modifies this`txCompleted
      ensures txCompleted == old(txCompleted) + 1
    {
      txCompleted := txCompleted + 1;
    }

    /** NM_ATOMIC_READ_AND_CLEAR on tx_completed. */
    method CompletedReadAndClear() returns (c: nat)
      modifies this`txCompleted
      ensures c == old(txCompleted) && txCompleted == 0
    {
      c := txCompleted;
      txCompleted := 0;
    }

    /** generic_netmap_txsync; `sent` are the packets the stack accepted. */
    method Sync(carrierOk: bool, env: nat -> TxOutcome) returns (status: SyncStatus, sent: seq<Packet>)
      requires Valid()
      modifies this, ring`avail, ring.slots
      ensures Valid()
      ensures var r := TxSync(old(State()), ring.bufSize, carrierOk, env);
              status == r.status && State() == r.st && sent == r.sent
    {
      if !carrierOk {
        return Ok, [];
      }
      // cur is read once: the snapshot k is what the loop runs towards.
      var lim := ring.slots.Length - 1;
      var k := ring.cur;
      if k > lim {
        return Reinit, [];
      }
      status, sent := Transmit(k, env);
    }

    /** The body of txsync once the carrier and the cur snapshot k are known
        to be good: the transmit loop, then the completion credit. */
    method Transmit(k: nat, env: nat -> TxOutcome) returns (status: SyncStatus, sent: seq<Packet>)
      requires Valid() && k == ring.cur && k < ring.slots.Length
      modifies this`hwcur, this`hwavail, this`txCompleted, ring`avail, ring.slots
      ensures Valid()
      ensures var r := TxSync(old(State()), ring.bufSize, true, env);
              status == r.status && State() == r.st && sent == r.sent
    {
      ghost var st0 := State();
      var fail, n;
      fail, n, sent := SendUpTo(k, env);
      if fail {
        TxSyncFailsAt(st0, ring.bufSize, env, n);
        return Reinit, sent;
      }
      TxSyncCompletes(st0, ring.bufSize, env, n);
      Credit();
      status := Ok;
    }

    /** The sending part of txsync: the slots from nr_hwcur towards k are
        sent, and unless a slot failed nr_hwcur and nr_hwavail move past the
        sent ones. */
    method SendUpTo(k: nat, env: nat -> TxOutcome) returns (fail: bool, n: nat, sent: seq<Packet>)
      requires 2 <= ring.slots.Length && hwcur < ring.slots.Length && k < ring.slots.Length
      modifies this`hwcur, this`hwavail, ring.slots
      ensures var N := ring.slots.Length;
              var slots0 := old(ring.slots[..]);
              var d := Dist(old(hwcur), k, N);
              && n == TxFirstStop(slots0, old(hwcur), d, 0, ring.bufSize, env)
              && ring.slots[..] == ClearFlags(slots0, old(hwcur), n, TX_DONE_FLAGS)
              && sent == SentPackets(slots0, old(hwcur), n)
              && (fail <==> n < d && SlotStep(slots0[Advance(old(hwcur), n, N)], ring.bufSize, env(n)) == Fail)
              && (fail ==> hwcur == old(hwcur) && hwavail == old(hwavail))
              && (!fail ==> hwcur == Advance(old(hwcur), n, N) && hwavail == old(hwavail) - n)
    {
      ghost var slots0 := ring.slots[..];
      var N := ring.slots.Length;
      var j := hwcur;
      fail, n, sent := false, 0, [];
      if j != k {
        fail, n, j, sent := SendPass(j, k, env);
        if fail {
          return;
        }
        hwcur := j;
        hwavail := hwavail - n;
      }
    }

    /** The completion credit: the counter is read and cleared, and what it
        held is added to nr_hwavail and to avail. */
    method Credit()
      modifies this`hwavail, this`txCompleted, ring`avail
      ensures hwavail == old(hwavail) + old(txCompleted)
      ensures ring.avail == Wrap32(old(ring.avail) + old(txCompleted))
      ensures txCompleted == 0
      ensures State() == old(State()).(hwavail := old(hwavail) + old(txCompleted),
                                       avail := Wrap32(old(ring.avail) + old(txCompleted)),
                                       completed := 0)
    {
      var c := CompletedReadAndClear();
      if c != 0 {
        hwavail := hwavail + c;
        ring.avail := Wrap32(ring.avail + c);
      }
    }

    /** The transmit loop: sends the slots from nr_hwcur towards k until one
        does not go through; attempt n meets the outcome env(n). */
    method SendPass(from: nat, k: nat, env: nat -> TxOutcome) returns (fail: bool, n: nat, j: nat, sent: seq<Packet>)
      requires 2 <= ring.slots.Length && from < ring.slots.Length && k < ring.slots.Length
      modifies ring.slots
      ensures var N := ring.slots.Length;
              var slots0 := old(ring.slots[..]);
              var d := Dist(from, k, N);
              && n == TxFirstStop(slots0, from, d, 0, ring.bufSize, env)
              && j == Advance(from, n, N)
              && ring.slots[..] == ClearFlags(slots0, from, n, TX_DONE_FLAGS)
              && sent == SentPackets(slots0, from, n)
              && (fail <==> n < d && SlotStep(slots0[j], ring.bufSize, env(n)) == Fail)
    {
      ghost var slots0 := ring.slots[..];
      var bufSize := ring.bufSize;
      var N := ring.slots.Length;
      ghost var d := Dist(from, k, N);
      ghost var m := TxFirstStop(slots0, from, d, 0, bufSize, env);
      j := from;
      n := 0;
      fail := false;
      sent := [];
      while j != k
        invariant n <= m
        invariant j == Advance(from, n, N)
        invariant ring.slots[..] == ClearFlags(slots0, from, n, TX_DONE_FLAGS)
        invariant sent == SentPackets(slots0, from, n)
        decreases d - n
      {
        AdvanceDist(from, n, N);
        ClearFlagsAt(slots0, from, n, TX_DONE_FLAGS, j);
        assert ring.slots[j] == slots0[j];
        var slot := ring.slots[j];
        var step := SendSlot(j, env(n));
        if step != Continue {
          fail := step == Fail;
          break;
        }
        sent := sent + [ToPacket(slot)];
        NextAdvance(from, n, N);
        j := Next(j, N);
        n := n + 1;
      }
      AdvanceDist(from, n, N);
    }

    /** One round of the transmit loop, on slot j: a slot with an invalid
        buffer or an oversized length fails; otherwise its packet is handed
        to the stack, which answers `outcome`; a drop stops the loop, any
        other failure is an error, and a sent slot loses NS_REPORT and
        NS_BUF_CHANGED. */
    method SendSlot(j: nat, outcome: TxOutcome) returns (step: TxStep)
      requires j < ring.slots.Length
      modifies ring.slots
      ensures step == SlotStep(old(ring.slots[j]), ring.bufSize, outcome)
      ensures step == Continue ==>
                ring.slots[..] == old(ring.slots[..])[j := WithoutFlags(old(ring.slots[j]), TX_DONE_FLAGS)]
      ensures step != Continue ==> ring.slots[..] == old(ring.slots[..])
    {
      var slot := ring.slots[j];
      if !slot.bufValid || slot.len > ring.bufSize {
        return Fail;
      }
      if outcome == NoMemory {
        return Fail;
      }
      if outcome != Sent {
        return if outcome == Dropped then Stop else Fail;
      }
      ring.slots[j] := WithoutFlags(slot, TX_DONE_FLAGS);
      step := Continue;
    }
  }
}

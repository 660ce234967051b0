# netmap generic adapter (Linux) — a Dafny model

netmap's generic adapter gives netmap rings to any Linux network interface,
including one whose driver has no netmap support. It does this by
standing between the interface and the host network stack:

- **Capture hook.** A receive handler steals every incoming socket buffer
  from the stack. It queues the buffer on the receive kring, and drops it
  once the queue holds more than 1024 packets.
- **rxsync.** It moves queued packets into the receive ring's slots, from
  `nr_ntc` up to the slot just behind `nr_hwcur`. It then takes back the
  slots the user has released, up to `cur` minus `reserved`, and publishes
  `avail`.
- **txsync.** It turns the slots the user has filled, from `nr_hwcur` up to
  `cur`, into socket buffers for the stack's transmit path. It then credits
  `nr_hwavail` and `avail` with the transmissions completed since the last
  call.
- **Completion destructor.** The driver calls it when it frees a
  transmitted buffer; it counts one completion.
- **Registration.** It switches netmap mode on an interface on and off.

The model has four modules:

- `Ring`: slot indices on a ring of N slots (`Next`, `Prev`, `Advance`,
  `Dist`), 32-bit ring fields, slots and their flag bits.
- `RxPath`: the capture hook's queue policy, and rxsync as a pure function
  `RxSync` on a value state `RxState`. The class `RxKring` runs rxsync in
  place with loops, proved equal to `RxSync`.
- `TxPath`: txsync as a pure function `TxSync`. The class `TxKring` runs it
  in place, proved equal to `TxSync`, and carries the completion counter.
- `Adapter`: the receive handler, the destructor and registration.

The sync methods (`RxKring.Sync`, `Import` and `Release`, and
`TxKring.Sync` and `Transmit`) are proved to leave
`State() == Spec(old(State()))`. The helper methods that run one loop or
one round of it are proved against the step functions they implement. The
properties are lemmas about the spec functions.

The host stack is a set of parameters:

- For txsync: the carrier state, and one outcome per transmission attempt
  (`env`). An attempt can be accepted, dropped softly (GNA_TX_FAIL), fail
  hard, or find no socket buffer.
- For rxsync: `netmap_no_pendintr` and the NAF_FORCE_READ flag.
- For registration: the error returned by installing the receive handler.

Three facts about the code shape the model:

- **Invalid reserved/avail pair.** When `reserved` plus `avail` reaches
  the ring size, the code (LINUX/netmap_linux.c:262-265) resets
  `reserved` to 0 and goes on with the release. It does not reinitialize
  the ring. `RxSyncReinitCauses` states that such a pair never causes a
  reinit.
- **Bound on avail.** Nothing in these functions bounds `avail` by N - 1,
  so the model does not assume such a bound.
- **The clamp's sum.** At LINUX/netmap_linux.c:262 the code adds two u32
  values, and that sum can wrap. Here the model departs from the code.
  `ClampReserved`, `RxRelease` and `RxKring.ReleaseCursor` use the
  unbounded sum, which is the evidently intended check.
  `ClampReservedAsWritten` models the u32 sum. The Findings table gives an
  input on which the two differ.

## Model

| member | source | states |
|---|---|---|
| Ring.Wrap32 | LINUX/netmap_linux.c:281 | storing into a u32 ring field keeps any value below 2^32 unchanged |
| Ring.Wrap32Congruent | LINUX/netmap_linux.c:203 | a stored u32 field differs from the unbounded value by a multiple of 2^32 |
| Ring.Next | LINUX/netmap_linux.c:190-191 | `if (j++ == lim) j = 0` stays on the ring |
| Ring.NextIsMod | LINUX/netmap_linux.c:247-248 | the wraparound step is (j + 1) mod N |
| Ring.Prev | LINUX/netmap_linux.c:233 | `hwcur ? hwcur-1 : lim` is the slot whose successor is nr_hwcur |
| Ring.Advance | LINUX/netmap_linux.c:274-275 | i wraparound steps from a slot stay on the ring |
| Ring.AdvanceIsMod | LINUX/netmap_linux.c:190-191 | i wraparound steps from j land on (j + i) mod N |
| Ring.Dist | LINUX/netmap_linux.c:270-276 | the number of steps a loop `while (j != k)` takes from a to b, which lead exactly to b |
| Ring.AdvanceDist | LINUX/netmap_linux.c:151-193 | after i < N steps from a, the distance back to a is i |
| Ring.NextAdvance | LINUX/netmap_linux.c:247-248 | one more wraparound step is one more step of Advance |
| Ring.DistSplit | LINUX/netmap_linux.c:251-253 | distances add up along the ring when b lies on the way from a to c |
| Ring.DistSplitBack | LINUX/netmap_linux.c:266-278 | the same, when b lies within the stretch behind c |
| Ring.DistInjective | LINUX/netmap_linux.c:266 | two slots the same distance behind c are the same slot |
| Ring.DistAdvance | LINUX/netmap_linux.c:252-253 | moving nr_ntc on by i moves it i further from nr_hwcur, short of a turn |
| Ring.WithoutFlags | LINUX/netmap_linux.c:189 | `flags &= ~mask` clears the mask bits and keeps every other bit and field |
| Ring.ClearFlags | LINUX/netmap_linux.c:189 | clearing a flag over a stretch of slots keeps the number of slots; ClearFlagsAt states what happens to each slot |
| Ring.ClearFlagsAt | LINUX/netmap_linux.c:270-276 | clearing a flag over count slots from `from` changes exactly those slots, each by WithoutFlags |
| RxPath.RxHook | LINUX/netmap_linux.c:51-56 | the hook only appends at the tail, at most one packet: the queue gains exactly the new packet when at most 1024 are queued, and is unchanged otherwise |
| RxPath.CaptureAll | LINUX/netmap_linux.c:46-59 | over many packets the old queue stays a prefix and grows by at most the packets seen; CaptureKeepsOrder states exactly which are kept |
| RxPath.CaptureKeepsOrder | LINUX/netmap_linux.c:46-59 | after the hook sees packets ps, the queue is q followed by the first Room(q) of ps, in arrival order; only the newest are dropped once more than 1024 are queued |
| RxPath.CaptureBounded | LINUX/netmap_linux.c:51-56 | the hook never lets the queue grow beyond 1025 packets |
| RxPath.FirstBadBuffer | LINUX/netmap_linux.c:234-239 | the first slot on the import path with an invalid buffer: all before it are valid, it is invalid, or none is |
| RxPath.Fill | LINUX/netmap_linux.c:243-245 | copying a packet into a slot never changes the slot's buffer |
| RxPath.ImportSlots | LINUX/netmap_linux.c:234-250 | importing keeps the number of slots; ImportSlotsAt, ImportSlotsInOrder and ImportSlotsKeepBuffers state where each packet lands and what it writes |
| RxPath.ImportSlotsAt | LINUX/netmap_linux.c:234-250 | after n packets are imported from `from`, packet t is in the slot t steps from `from`; all other slots are untouched |
| RxPath.ImportSlotsInOrder | LINUX/netmap_linux.c:243-245 | each imported slot takes the packet's length and bytes and the kring's slot flags |
| RxPath.ImportSlotsKeepBuffers | LINUX/netmap_linux.c:243-245 | importing never changes which slots have valid buffers |
| RxPath.RxImport | LINUX/netmap_linux.c:226-256 | import keeps nr_hwcur and nr_ntc on a ring of the same size; RxImportCounts, RxImportInOrder and RxImportReinitIff state what it moves and when it fails |
| RxPath.RxImportReinitIff | LINUX/netmap_linux.c:234-239 | import reinits if and only if, after m slots with valid buffers and with m packets still queued, the slot m steps from nr_ntc, short of the slot behind nr_hwcur, has an invalid buffer |
| RxPath.RxImportStopsAtBadBuffer | LINUX/netmap_linux.c:234-239 | a bad buffer after n good slots ends the import in a reinit; n packets are moved; nr_ntc, nr_hwavail and NKR_PENDINTR are untouched |
| RxPath.RxImportCompletes | LINUX/netmap_linux.c:234-255 | an import that reaches the slot behind nr_hwcur or drains the queue moves n packets, moves nr_ntc by n, adds n to nr_hwavail and clears NKR_PENDINTR |
| RxPath.RxImportCounts | LINUX/netmap_linux.c:230-256 | import moves n packets, never past the slot behind nr_hwcur, and removes exactly those from the queue; the counters change only on success |
| RxPath.RxImportInOrder | LINUX/netmap_linux.c:226-256 | queued packets go in order into the slots from nr_ntc on; the slot behind nr_hwcur is never written |
| RxPath.RxImportDrainsQueue | LINUX/netmap_linux.c:234-250 | with all buffers valid, import succeeds; the queue keeps what did not fit, and is empty if everything fit |
| RxPath.RxBadBufferKeepsQueue | LINUX/netmap_linux.c:235-240 | a bad buffer at nr_ntc makes rxsync reinit with nothing changed: the check comes before the dequeue, so no packet is lost |
| RxPath.RxSyncRejectsBadCursor | LINUX/netmap_linux.c:222-223 | cur > lim makes rxsync reinit before it touches anything |
| RxPath.RxSync | LINUX/netmap_linux.c:212-284 | rxsync keeps the ring size and leaves nr_hwcur and nr_ntc on the ring; RxSyncReinitCauses, RxSyncKeepsConsistent and RxSyncTwice state what it promises |
| RxPath.RxSyncReinitCauses | LINUX/netmap_linux.c:212-284 | rxsync reinits if and only if cur > lim, or the import runs (netmap_no_pendintr, NAF_FORCE_READ or NKR_PENDINTR) and, with m packets queued, finds an invalid buffer after m valid slots short of the slot behind nr_hwcur; a bad reserved count is never a cause |
| RxPath.RxSyncSkipsImport | LINUX/netmap_linux.c:219-226 | without netmap_no_pendintr, NAF_FORCE_READ and NKR_PENDINTR, rxsync only releases: it succeeds, and the queue, nr_ntc and NKR_PENDINTR stay as they were |
| RxPath.ClampReserved | LINUX/netmap_linux.c:261-265 | reserved is kept, or reset to 0 when with avail it covers the ring; the result is always below the ring size |
| RxPath.ReleaseTarget | LINUX/netmap_linux.c:266 | the release target is the slot exactly `reserved` steps behind cur |
| RxPath.ClampReservedAsWritten | LINUX/netmap_linux.c:262-264 | the clamp with the source's 32-bit sum gives reserved or 0, and agrees with ClampReserved whenever the sum does not wrap |
| RxPath.ReleaseTargetAsWritten | LINUX/netmap_linux.c:266 | the target in u32 arithmetic equals ReleaseTarget for any reserved count below the ring size |
| RxPath.ReservedWrapEscapesRing | LINUX/netmap_linux.c:261-276 | reserved 0xFFFFFFFF with avail 1 on 256 slots passes the as-written clamp; its target 257 is a slot the release loop never reaches |
| RxPath.RxRelease | LINUX/netmap_linux.c:258-281 | release keeps nr_hwcur and nr_ntc on the ring; RxReleasePublishes states the new nr_hwcur, flags, nr_hwavail and avail |
| RxPath.RxReleasePublishes | LINUX/netmap_linux.c:258-281 | release moves nr_hwcur to the slot `reserved` behind cur; the passed slots lose only NS_BUF_CHANGED, the rest are untouched; nr_hwavail drops by their number; avail = nr_hwavail - reserved |
| RxPath.RxImportKeepsConsistent | LINUX/netmap_linux.c:226-256 | on a consistent ring, import succeeds and keeps nr_hwavail = distance from nr_hwcur to nr_ntc |
| RxPath.RxReleaseKeepsConsistent | LINUX/netmap_linux.c:258-281 | on a consistent ring, release and publish leave the ring at rest: avail = nr_hwavail - reserved, and cur exactly `reserved` past nr_hwcur |
| RxPath.RxSyncKeepsConsistent | LINUX/netmap_linux.c:212-284 | rxsync on a consistent ring succeeds and leaves it at rest, with NKR_PENDINTR clear |
| RxPath.RxImportNothing | LINUX/netmap_linux.c:240-242 | with an empty queue and a valid buffer at nr_ntc, import changes nothing but NKR_PENDINTR |
| RxPath.RxReleaseAtRest | LINUX/netmap_linux.c:268-281 | release of a ring at rest changes nothing |
| RxPath.RxSyncAtRestIsNoop | LINUX/netmap_linux.c:212-284 | with nothing queued, rxsync of a ring at rest only clears NKR_PENDINTR |
| RxPath.RxSyncTwice | LINUX/netmap_linux.c:212-284 | on a consistent ring whose queue the first rxsync empties, a second rxsync with nothing newly queued changes nothing |
| RxPath.RxScenarioThreePackets | LINUX/netmap_linux.c:46-59 | three packets through the hook, then a forced rxsync on 8 slots: slots 0-2 hold 64, 128, 200 bytes; hwavail = avail = 3; queue empty; a second sync is identical |
| RxPath.RxKring.Sync | LINUX/netmap_linux.c:212-284 | the in-place rxsync returns the status and leaves the state that RxSync gives; of the ring it may change only reserved, avail and the slots, never cur |
| RxPath.RxKring.Import | LINUX/netmap_linux.c:225-256 | the in-place import phase equals RxImport |
| RxPath.RxKring.ImportPass | LINUX/netmap_linux.c:230-250 | the import loop moves n packets in order up to the stop slot; a reinit exactly at a bad buffer; otherwise it stops at the stop slot or at an empty queue with a valid buffer |
| RxPath.RxKring.ImportSlot | LINUX/netmap_linux.c:235-249 | one loop round: a bad buffer stops with an error and an empty queue stops quietly, both with nothing changed; otherwise the head packet is dequeued into the slot |
| RxPath.RxKring.Release | LINUX/netmap_linux.c:258-281 | the in-place release and publish phase equals RxRelease |
| RxPath.RxKring.ReleaseCursor | LINUX/netmap_linux.c:259-267 | the stored reserved count is ClampReserved, and the target is ReleaseTarget |
| RxPath.RxKring.ReleasePass | LINUX/netmap_linux.c:268-276 | the release loop clears NS_BUF_CHANGED on the Dist(from, k) slots from `from` and counts them |
| TxPath.SlotStep | LINUX/netmap_linux.c:158-188 | a slot is sent if and only if its buffer is valid, its length fits and the stack accepts it; it is a soft stop if and only if it is valid and the stack drops it; anything else fails |
| TxPath.TxFirstStop | LINUX/netmap_linux.c:151-193 | the loop sends every slot before the first one that does not go through, and stops there or at cur |
| TxPath.ToPacket | LINUX/netmap_linux.c:162-169 | the socket buffer carries the slot's length and bytes |
| TxPath.SentPackets | LINUX/netmap_linux.c:151-193 | n slots sent make n packets |
| TxPath.SentPacketsAt | LINUX/netmap_linux.c:151-193 | packet t handed to the stack is the slot t steps past nr_hwcur |
| TxPath.TxSync | LINUX/netmap_linux.c:127-208 | txsync keeps the ring size and leaves nr_hwcur on the ring; TxSyncReinitCauses, TxSentInRingOrder and TxSyncAccounting state what it promises |
| TxPath.TxSyncCompletes | LINUX/netmap_linux.c:148-205 | when the first n slots from nr_hwcur go through and the loop then reaches cur or a slot the stack drops, txsync succeeds: it clears those slots' flags, moves nr_hwcur by n, sets nr_hwavail to hwavail - n + completions, adds the completions to avail and zeroes the counter |
| TxPath.TxSyncFailsAt | LINUX/netmap_linux.c:158-188 | when the first n slots from nr_hwcur go through and the next one, short of cur, fails, txsync reinits; the n slots keep their cleared flags and are handed to the stack; the counters are untouched |
| TxPath.TxCarrierDownIsNoop | LINUX/netmap_linux.c:138-140 | with the carrier down, txsync returns 0 and changes nothing, not even the completion credit |
| TxPath.TxSyncRejectsBadCursor | LINUX/netmap_linux.c:143-145 | cur > lim makes txsync reinit before any slot is touched |
| TxPath.TxSentInRingOrder | LINUX/netmap_linux.c:148-193 | slots are sent in ring order from nr_hwcur and never past cur; each sent slot loses exactly NS_REPORT and NS_BUF_CHANGED; all other slots are untouched |
| TxPath.TxSoftStop | LINUX/netmap_linux.c:179-195 | a dropped packet ends the loop without error; nr_hwcur stops at the dropped slot, which keeps its flags |
| TxPath.TxSyncReinitCauses | LINUX/netmap_linux.c:127-208 | txsync reinits if and only if the carrier is up and either cur is out of range or the first slot that does not go through fails; a reinit leaves the counters, avail and the completions alone |
| TxPath.TxSyncAccounting | LINUX/netmap_linux.c:194-205 | on success nr_hwcur moves by the packets sent; nr_hwavail loses them and gains the completions; avail gains the completions as a u32; the counter is 0 |
| TxPath.TxSyncKeepsConsistent | LINUX/netmap_linux.c:127-208 | a successful txsync keeps nr_hwavail = avail + distance from nr_hwcur to cur |
| TxPath.TxSyncIdleIsNoop | LINUX/netmap_linux.c:147-205 | with nothing to send and no completions, txsync changes nothing |
| TxPath.TxKring.CompletedInc | LINUX/netmap_linux.c:120 | NM_ATOMIC_INC adds one to tx_completed |
| TxPath.TxKring.CompletedReadAndClear | LINUX/netmap_linux.c:200 | read-and-clear returns the count and leaves 0 |
| TxPath.TxKring.Sync | LINUX/netmap_linux.c:127-208 | the in-place txsync returns the status and the sent packets, and leaves the state that TxSync gives; of the ring it may change only avail and the slots, never cur or reserved |
| TxPath.TxKring.Transmit | LINUX/netmap_linux.c:147-207 | once carrier and cur are good, the send loop and then the credit equal TxSync |
| TxPath.TxKring.SendUpTo | LINUX/netmap_linux.c:147-197 | sends TxFirstStop slots and clears their flags; on failure nr_hwcur and nr_hwavail are kept, else both move past the sent slots |
| TxPath.TxKring.Credit | LINUX/netmap_linux.c:199-205 | the completions are read and cleared and added to nr_hwavail and to avail (u32); nothing else changes |
| TxPath.TxKring.SendPass | LINUX/netmap_linux.c:151-193 | the transmit loop sends TxFirstStop slots in ring order; it fails if and only if the stopping slot fails |
| TxPath.TxKring.SendSlot | LINUX/netmap_linux.c:152-191 | one loop round: the step is SlotStep; a sent slot loses NS_REPORT and NS_BUF_CHANGED; otherwise nothing changes |
| Adapter.GenericAdapter.RxHandler | LINUX/netmap_linux.c:46-59 | always "consumed"; the packet is queued and the core notified when at most 1024 are queued; otherwise it is freed and nothing changes |
| Adapter.GenericAdapter.MbufDestructor | LINUX/netmap_linux.c:115-122 | one more completion is counted, and the core is notified |
| Adapter.Register | LINUX/netmap_linux.c:62-110 | no adapter: EINVAL, nothing changed. Enable: the netmap bit set, the queue emptied, nr_ntc = 0 and tx_completed = 0 before the hook; a hook error is returned with the bit left set. Disable: the bit cleared, the hook removed, the queue purged |

## Left out

- Attaching the adapter, the netmap device front end and every other
  function of the file: only the functions above are modelled.
- The GNA_RAW_XMIT build variant (ndo_stop/ndo_open, the raw
  ndo_start_xmit path): the model follows the default build, which uses
  dev_queue_xmit.
- Concurrency: rtnl_lock, rmb, and the hook running concurrently with
  rxsync. tx_completed is atomic in the source and a plain field here.
  Two of its three operations are methods: NM_ATOMIC_INC is
  `CompletedInc` and NM_ATOMIC_READ_AND_CLEAR is `CompletedReadAndClear`.
  The third, NM_ATOMIC_SET to 0 at LINUX/netmap_linux.c:88, is a direct
  write in `Register`.
- netmap_ring_reinit: only its status is modelled (`Reinit`), not what it
  does to the ring.
- netmap_rx_irq and netmap_tx_irq: only counted, in the ghost fields
  `rxIrqs` and `txIrqs`.
- Byte copies into and out of socket buffers: a packet carries its bytes as
  one value, with no buffer addresses and no NS_FRAG/NS_INDIRECT handling.
- Integer widths other than the u32 ring fields: the u16 slot length, the
  width of nr_hwavail and of the atomic counter (netmap_kern.h is not part
  of this model), and the NETMAP_BUF_SIZE value, which is a parameter.
- The value of IFCAP_NETMAP and the other if_capenable bits: the interface
  has a single netmap-enabled flag (bsd_glue.h is not part of this model).
- The receive side copying a packet longer than the slot buffer: the source
  does not check it, and the model copies without a size.
- The D/ND debug messages.
- RxPath.RxKring.ReleaseCursor: does not model the u32 wrap of the sum at
  LINUX/netmap_linux.c:262. Like `ClampReserved` and `RxRelease`, it uses
  the unbounded sum. So on the wrapping input in the Findings table, the
  model's release ends while the source's loop never reaches its target.
  `ClampReservedAsWritten` and `ReservedWrapEscapesRing` model the code as
  written.
- TxPath.TxSyncKeepsConsistent: assumes avail plus the completions does not
  wrap at 2^32. The source stores that sum into a u32.
- Installing and removing the receive handler: only the result is
  modelled. The installation's error code is a parameter of Register.

## Findings

| source | as written | input that shows it | evidently intended | confidence | as-written member | corrected member |
|---|---|---|---|---|---|---|
| LINUX/netmap_linux.c:262 | `resvd + ring->avail >= lim + 1` adds two u32 values, so the sum can wrap and an invalid reserved count passes the clamp; line 266 then computes a target outside the ring, and the release loop at line 270 never meets it | ring of 256 slots, cur = 0, reserved = 0xFFFFFFFF, avail = 1: the sum wraps to 0, no reset, k = 257 | reset reserved to 0 whenever reserved + avail covers the ring, so the target stays on the ring | medium, not executed | RxPath.ReservedWrapEscapesRing | RxPath.ClampReserved |

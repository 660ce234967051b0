/** The generic adapter itself: the receive hook the host stack calls for every
    packet, the destructor the driver calls when a transmitted packet is freed,
    and switching netmap mode on and off for an interface. */
module Adapter {
  import opened Ring
  import opened RxPath
  import opened TxPath

  /** The error code for an interface without a netmap adapter. */
  const EINVAL: int := 22

  /** What a Linux receive handler tells the stack to do with the packet. */
  datatype RxHandlerResult = Consumed | Another | Exact | Pass

  /** The adapter of one interface: one receive and one transmit kring. */
  class GenericAdapter {
    const rx: RxKring
    const tx: TxKring
    /** How often the netmap core was notified (netmap_rx_irq / netmap_tx_irq). */
    ghost var rxIrqs: nat
    ghost var txIrqs: nat

    constructor (rx: RxKring, tx: TxKring)
      ensures this.rx == rx && this.tx == tx && rxIrqs == 0 && txIrqs == 0
    {
      this.rx := rx;
      this.tx := tx;
      rxIrqs, txIrqs := 0, 0;
    }

    /** generic_netmap_rx_handler: the packet is always taken from the stack;
        it is appended to the receive queue, and the core notified, unless the
        queue already holds more than 1024 packets, in which case it is freed
        and the queue is unchanged. */
    method RxHandler(p: Packet) returns (res: RxHandlerResult)
      modifies rx`rxQueue, this`rxIrqs
      ensures res == Consumed
      ensures rx.rxQueue == RxHook(old(rx.rxQueue), p)
      ensures |old(rx.rxQueue)| > RX_QUEUE_DROP_THRESHOLD ==> rx.rxQueue == old(rx.rxQueue) && rxIrqs == old(rxIrqs)
      ensures |old(rx.rxQueue)| <= RX_QUEUE_DROP_THRESHOLD ==> rx.rxQueue == old(rx.rxQueue) + [p] && rxIrqs == old(rxIrqs) + 1
    {
      if |rx.rxQueue| > RX_QUEUE_DROP_THRESHOLD {
        // the packet is freed
      } else {
        rx.rxQueue := rx.rxQueue + [p];
        rxIrqs := rxIrqs + 1;
      }
      res := Consumed;
    }

    /** generic_mbuf_destructor: one more completed transmission, and a
        notification of the core. */
    method MbufDestructor()
      modifies tx`txCompleted, this`txIrqs
      ensures tx.txCompleted == old(tx.txCompleted) + 1
      ensures txIrqs == old(txIrqs) + 1
    {
      tx.CompletedInc();
      txIrqs := txIrqs + 1;
    }
  }

  /** The parts of a network interface that registration touches. */
  class Ifnet {
    /** The IFCAP_NETMAP bit of if_capenable. */
    var netmapEnabled: bool
    /** Whether generic_netmap_rx_handler is installed as the receive handler. */
    var rxHandlerInstalled: bool
    /** NA(ifp): the netmap adapter attached to the interface, if any. */
    const na: GenericAdapter?

    constructor (na: GenericAdapter?)
      ensures this.na == na && !netmapEnabled && !rxHandlerInstalled
    {
      this.na := na;
      netmapEnabled, rxHandlerInstalled := false, false;
    }
  }

  /** generic_netmap_register. `hookError` is what installing the receive
      handler returns (0 on success). */
  method Register(ifp: Ifnet, enable: bool, hookError: int) returns (error: int)
    requires ifp.na != null ==> ifp.na.rx.Valid()
    modifies ifp, if ifp.na != null then {ifp.na.rx as object, ifp.na.tx} else {}
    ensures ifp.na == null ==>
      && error == EINVAL
      && ifp.netmapEnabled == old(ifp.netmapEnabled) && ifp.rxHandlerInstalled == old(ifp.rxHandlerInstalled)
    ensures ifp.na != null ==> ifp.na.rx.Valid()
    ensures ifp.na != null && enable ==>
      && ifp.netmapEnabled && error == hookError
      && ifp.na.rx.rxQueue == [] && ifp.na.rx.ntc == 0 && ifp.na.tx.txCompleted == 0
      && ifp.rxHandlerInstalled == (hookError == 0 || old(ifp.rxHandlerInstalled))
    ensures ifp.na != null && !enable ==>
      && !ifp.netmapEnabled && error == 0
      && !ifp.rxHandlerInstalled && ifp.na.rx.rxQueue == []
      && ifp.na.rx.ntc == old(ifp.na.rx.ntc) && ifp.na.tx.txCompleted == old(ifp.na.tx.txCompleted)
    ensures ifp.na != null ==>
      && ifp.na.rx.hwcur == old(ifp.na.rx.hwcur) && ifp.na.rx.hwavail == old(ifp.na.rx.hwavail)
      && ifp.na.rx.pendIntr == old(ifp.na.rx.pendIntr)
      && ifp.na.tx.hwcur == old(ifp.na.tx.hwcur) && ifp.na.tx.hwavail == old(ifp.na.tx.hwavail)
  {
    var na := ifp.na;
    if na == null {
      return EINVAL;
    }
    error := 0;
    if enable {
      ifp.netmapEnabled := true;
      // The queue is ready before the hook is installed: the hook may run at once.
      na.rx.rxQueue := [];
      na.rx.ntc := 0;
      na.tx.txCompleted := 0;
      if hookError != 0 {
        return hookError;
      }
      ifp.rxHandlerInstalled := true;
    } else {
      ifp.netmapEnabled := false;
      ifp.rxHandlerInstalled := false;
      na.rx.rxQueue := [];
    }
  }
}

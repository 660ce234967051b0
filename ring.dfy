/** The netmap ring as the generic adapter sees it: slot indices that wrap
    around a ring of N slots, the slots themselves, and the ring fields that
    the user side publishes (cur, avail, reserved). */
module Ring {

  /** The ring's cursor and counter fields are 32-bit unsigned. */
  const U32_LIMIT: int := 0x1_0000_0000
  type U32 = x: int | 0 <= x < 0x1_0000_0000

  /** Storing an integer into a 32-bit unsigned field. */
  function Wrap32(x: int): (r: U32)
    ensures 0 <= x < U32_LIMIT ==> r == x
  {
    x % U32_LIMIT
  }

  /** Wrap32 keeps the value modulo 2^32. */
  lemma Wrap32Congruent(x: int)
    ensures (x - Wrap32(x)) % U32_LIMIT == 0
  {
  }

  /** The source's `if (j++ == lim) j = 0`: one step forward on a ring of n slots. */
  function Next(j: nat, n: nat): (r: nat)
    requires j < n
    ensures r < n
  {
    if j == n - 1 then 0 else j + 1
  }

  /** `hwcur ? hwcur - 1 : lim`: the slot just behind h. */
  function Prev(h: nat, n: nat): (r: nat)
    requires h < n
    ensures r < n && Next(r, n) == h
  {
    if h != 0 then h - 1 else n - 1
  }

  /** The slot i steps ahead of j (i is less than a full turn). */
  function Advance(j: nat, i: nat, n: nat): (r: nat)
    requires j < n && i < n
    ensures r < n
  {
    if j + i < n then j + i else j + i - n
  }

  /** The number of forward steps that lead from slot a to slot b. */
  function Dist(a: nat, b: nat, n: nat): (r: nat)
    requires a < n && b < n
    ensures r < n && Advance(a, r, n) == b
  {
    if a <= b then b - a else b + n - a
  }

  /** Next and Advance are addition modulo the ring size. */
  lemma NextIsMod(j: nat, n: nat)
    requires j < n
    ensures Next(j, n) == (j + 1) % n
  {
  }

  lemma AdvanceIsMod(j: nat, i: nat, n: nat)
    requires j < n && i < n
    ensures Advance(j, i, n) == (j + i) % n
  {
  }

  lemma AdvanceDist(a: nat, i: nat, n: nat)
    requires a < n && i < n
    ensures Dist(a, Advance(a, i, n), n) == i
  {
  }

  lemma NextAdvance(a: nat, i: nat, n: nat)
    requires a < n && i + 1 < n
    ensures Next(Advance(a, i, n), n) == Advance(a, i + 1, n)
  {
  }

  /** Distances add up along the ring when b lies on the way from a to c. */
  lemma DistSplit(a: nat, b: nat, c: nat, n: nat)
    requires a < n && b < n && c < n
    requires Dist(a, b, n) <= Dist(a, c, n)
    ensures Dist(a, b, n) + Dist(b, c, n) == Dist(a, c, n)
  {
  }

  /** The same split, for b lying within Dist(b, c) steps behind c. */
  lemma DistSplitBack(a: nat, b: nat, c: nat, n: nat)
    requires a < n && b < n && c < n
    requires Dist(b, c, n) <= Dist(a, c, n)
    ensures Dist(a, b, n) + Dist(b, c, n) == Dist(a, c, n)
  {
  }

  /** Two slots the same distance behind c are the same slot. */
  lemma DistInjective(a: nat, b: nat, c: nat, n: nat)
    requires a < n && b < n && c < n
    requires Dist(a, c, n) == Dist(b, c, n)
    ensures a == b
  {
  }

  /** Going i further from b moves i further away from a, short of a full turn. */
  lemma DistAdvance(a: nat, b: nat, i: nat, n: nat)
    requires a < n && b < n && i < n
    requires Dist(a, b, n) + i < n
    ensures Dist(a, Advance(b, i, n), n) == Dist(a, b, n) + i
  {
  }

  /** Slot flag bits (net/netmap.h, which is not part of this model). */
  const NS_BUF_CHANGED: bv16 := 0x0001
  const NS_REPORT: bv16 := 0x0002

  /** A packet of the host stack: its length and its bytes, carried as one value. */
  datatype Packet = Packet(len: nat, payload: seq<bv8>)

  /** A ring slot. `bufValid` is false when the slot's buffer index resolves
      to the invalid buffer base (NMB(slot) == netmap_buffer_base). */
  datatype Slot = Slot(bufValid: bool, len: nat, flags: bv16, payload: seq<bv8>)

  /** What a sync returns: 0, or the status of netmap_ring_reinit(). */
  datatype SyncStatus = Ok | Reinit

  /** `slot->flags &= ~mask`. */
  function WithoutFlags(s: Slot, mask: bv16): (r: Slot)
    ensures r.flags & mask == 0
    ensures r.flags | (s.flags & mask) == s.flags
    ensures r.(flags := s.flags) == s
  {
    s.(flags := s.flags & !mask)
  }

  /** The slots after clearing `mask` on the `count` slots starting at
      `from`, one slot after the other in ring order. */
  function ClearFlags(slots: seq<Slot>, from: nat, count: nat, mask: bv16): (r: seq<Slot>)
    requires from < |slots| && count <= |slots|
    ensures |r| == |slots|
    decreases count
  {
    if count == 0 then slots
    else
      var j := Advance(from, count - 1, |slots|);
      ClearFlags(slots, from, count - 1, mask)[j := WithoutFlags(slots[j], mask)]
  }

  /** Clearing touches exactly the `count` slots from `from` on, each of
      them losing the bits of `mask` and nothing else. */
  lemma {:induction false} ClearFlagsAt(slots: seq<Slot>, from: nat, count: nat, mask: bv16, s: nat)
    requires from < |slots| && count <= |slots| && s < |slots|
    ensures ClearFlags(slots, from, count, mask)[s]
         == if Dist(from, s, |slots|) < count then WithoutFlags(slots[s], mask) else slots[s]
    decreases count
  {
    if count > 0 {
      ClearFlagsAt(slots, from, count - 1, mask, s);
      AdvanceDist(from, count - 1, |slots|);
    }
  }

  /** The shared netmap ring of one queue: its slots and the user-published fields. */
  class NetmapRing {
    const slots: array<Slot>
    /** NETMAP_BUF_SIZE: the size of every slot buffer. */
    const bufSize: nat
    var cur: U32
    var avail: U32
    var reserved: U32

    constructor (slots: array<Slot>, bufSize: nat)
      ensures this.slots == slots && this.bufSize == bufSize
      ensures cur == 0 && avail == 0 && reserved == 0
    {
      this.slots := slots;
      this.bufSize := bufSize;
      cur, avail, reserved := 0, 0, 0;
    }
  }
}

/** How the shared memory is divided: two halves, one per sender, each holding a descriptor
    table, an available ring, a used ring and a data area. */
module Layout {
  import opened Words

  /** IVSHM_VQ_ALIGN */
  const VQ_ALIGN: nat := 128

  const DESC_SIZE: nat := 16
  const USED_ELEM_SIZE: nat := 8

  /** vring_size with align = VQ_ALIGN. */
  function VringSize(num: nat): nat {
    Align(DESC_SIZE * num + 2 * (3 + num), VQ_ALIGN) + 2 * 3 + USED_ELEM_SIZE * num
  }

  function VrSize(qlen: nat): nat {
    Align(VringSize(qlen), VQ_ALIGN)
  }

  /** The shift of `qlen` stops at the first length whose ring takes less than a sixteenth of
      the memory; when none does down to 64, it falls through with 32 descriptors and the
      size of a 64-entry ring. */
  predicate RingFits(qlen: nat, shmlen: nat) {
    VrSize(qlen) < shmlen / 16
  }

  datatype Sizes = Refused | Sizes(vrsize: nat, qlen: nat, qsize: nat)

  /** What ivshm_calc_qsize settles on: the longest ring of 64 to 4096 entries that fits, or
      else 32 entries in the room of 64, unless even that exceeds half the memory. */
  ghost predicate Chosen(shmlen: nat, r: Sizes) {
    if RingFits(64, shmlen) then
      && r.Sizes? && r.vrsize + r.qsize == shmlen / 2
      && PowerOfTwo(r.qlen) && 64 <= r.qlen <= 4096 && r.vrsize == VrSize(r.qlen)
      && RingFits(r.qlen, shmlen)
      && forall q | 64 <= q <= 4096 && PowerOfTwo(q) && RingFits(q, shmlen) :: q <= r.qlen
    else if VrSize(64) <= shmlen / 2 then r == Sizes(VrSize(64), 32, shmlen / 2 - VrSize(64))
    else r == Refused
  }

  /** ivshm_calc_qsize */
  method CalcQsize(shmlen: nat) returns (r: Sizes)
    ensures Chosen(shmlen, r)
  {
    var qlen := 4096;
    var vrsize := 0;
    SmallPowers();
    while qlen > 32
      invariant 32 <= qlen <= 4096 && PowerOfTwo(qlen)
      invariant qlen < 4096 ==> vrsize == VrSize(2 * qlen) && !RingFits(2 * qlen, shmlen)
    {
      Halved(qlen);
      vrsize := VrSize(qlen);
      if vrsize < shmlen / 16 {
        break;
      }
      qlen := qlen / 2;
    }
    Settled(shmlen, qlen, vrsize);
    if vrsize > shmlen / 2 {
      return Refused;
    }
    r := Sizes(vrsize, qlen, shmlen / 2 - vrsize);
  }

  lemma Halved(qlen: nat)
    requires 32 < qlen && PowerOfTwo(qlen)
    ensures qlen / 2 >= 32 && PowerOfTwo(qlen / 2) && 2 * (qlen / 2) == qlen
  {
    SmallPowers();
    PowerOfTwoGap(32, qlen);
  }

  /** The loop ends with a ring that fits, or at 32 with the size of a rejected 64-entry ring. */
  lemma Settled(shmlen: nat, qlen: nat, vrsize: nat)
    requires 32 <= qlen <= 4096 && PowerOfTwo(qlen)
    requires qlen < 4096 ==> !RingFits(2 * qlen, shmlen)
    requires if qlen > 32 then vrsize == VrSize(qlen) && RingFits(qlen, shmlen) else vrsize == VrSize(64)
    ensures Chosen(shmlen, if vrsize > shmlen / 2 then Refused else Sizes(vrsize, qlen, shmlen / 2 - vrsize))
  {
    LongestFits(shmlen, qlen);
    if qlen > 32 { Halved(qlen); }
  }

  /** The rings of 64 entries and more take less than a sixteenth of the memory, which leaves
      the data area of a half more than seven sixteenths. */
  lemma RingsTakeLittle(shmlen: nat, sz: Sizes)
    requires Chosen(shmlen, sz) && sz.Sizes? && sz.qlen >= 64
    ensures 16 * sz.vrsize < shmlen && 16 * sz.qsize > 7 * shmlen - 8
  {
  }

  /** Every longer ring would take that much or more. */
  lemma LongerTakesMore(shmlen: nat, sz: Sizes, q: nat)
    requires Chosen(shmlen, sz) && sz.Sizes? && PowerOfTwo(q) && sz.qlen < q <= 4096
    ensures 16 * VrSize(q) > shmlen - 16
  {
    if sz.qlen >= 64 {
      assert !RingFits(q, shmlen);
    } else {
      SmallPowers();
      PowerOfTwoGap(32, q);
      VrSizeGrows(64, q);
    }
  }

  /** Memory is refused exactly when even a 64-entry ring would not fit its half. */
  lemma RefusedIff(shmlen: nat, sz: Sizes)
    requires Chosen(shmlen, sz)
    ensures sz.Refused? <==> shmlen / 2 < 1920
  {
    Literals();
  }

  lemma Literals()
    ensures VrSize(64) == 1920 && VrSize(2048) == 53504 && VrSize(4096) == 106752
  {
    assert VringSize(64) == 1798 by { DivModUnique(1158 + 127, 128, 10, 5); }
    assert VrSize(64) == 1920 by { DivModUnique(1798 + 127, 128, 15, 5); }
    assert VringSize(2048) == 53382 by { DivModUnique(36870 + 127, 128, 289, 5); }
    assert VrSize(2048) == 53504 by { DivModUnique(53382 + 127, 128, 418, 5); }
    assert VringSize(4096) == 106630 by { DivModUnique(73734 + 127, 128, 577, 5); }
    assert VrSize(4096) == 106752 by { DivModUnique(106630 + 127, 128, 834, 5); }
  }

  /** 1 MiB of shared memory gives 2048 entries and 470784 bytes of data in each half. */
  lemma OneMegabyte(sz: Sizes)
    requires Chosen(0x10_0000, sz)
    ensures sz == Sizes(53504, 2048, 470784)
  {
    Literals();
    VrSizeGrows(64, 2048);
    assert PowerOfTwo(2048) by { SmallPowers(); }
    assert RingFits(2048, 0x10_0000) && !RingFits(4096, 0x10_0000);
    if sz.qlen > 2048 { PowerOfTwoGap(2048, sz.qlen); }
  }

  lemma SmallPowers()
    ensures PowerOfTwo(16) && PowerOfTwo(32) && PowerOfTwo(4096)
  {
    assert PowerOfTwo(4);
    assert PowerOfTwo(16);
    assert PowerOfTwo(64);
    assert PowerOfTwo(256);
    assert PowerOfTwo(1024);
  }

  /** Every power of two beyond a rejected one is rejected too. */
  lemma LongestFits(shmlen: nat, qlen: nat)
    requires 32 <= qlen <= 4096 && PowerOfTwo(qlen)
    requires qlen < 4096 ==> !RingFits(2 * qlen, shmlen)
    ensures forall q | qlen < q <= 4096 && PowerOfTwo(q) :: !RingFits(q, shmlen)
    ensures qlen >= 64 && RingFits(qlen, shmlen) ==> RingFits(64, shmlen)
  {
    forall q | qlen < q <= 4096 && PowerOfTwo(q) ensures !RingFits(q, shmlen) {
      PowerOfTwoGap(qlen, q);
      if RingFits(q, shmlen) { RingFitsLess(2 * qlen, q, shmlen); }
    }
    if qlen >= 64 && RingFits(qlen, shmlen) { RingFitsLess(64, qlen, shmlen); }
  }

  lemma RingFitsLess(a: nat, b: nat, shmlen: nat)
    requires a <= b && RingFits(b, shmlen)
    ensures RingFits(a, shmlen)
  {
    VrSizeGrows(a, b);
  }

  lemma VrSizeGrows(a: nat, b: nat)
    requires a <= b
    ensures VrSize(a) <= VrSize(b)
  {
    AlignGrows(DESC_SIZE * a + 2 * (3 + a), DESC_SIZE * b + 2 * (3 + b), VQ_ALIGN);
    AlignGrows(VringSize(a), VringSize(b), VQ_ALIGN);
  }

  lemma AlignGrows(x: nat, y: nat, a: nat)
    requires a > 0 && x <= y
    ensures Align(x, a) <= Align(y, a)
  {
    QuotientGrows(x + a - 1, y + a - 1, a);
    MulMono(a, (x + a - 1) / a, (y + a - 1) / a);
  }

  lemma QuotientGrows(x: nat, y: nat, a: nat)
    requires a > 0 && x <= y
    ensures x / a <= y / a
  {
    var u, v := x / a, y / a;
    assert x == a * u + x % a && y == a * v + y % a;
    assert a * (u - v) == a * u - a * v;
    MulBound(a, u - v);
  }

  lemma AlignShift(mem: nat, x: nat, a: nat)
    requires a > 0 && mem % a == 0
    ensures Align(mem + x, a) == mem + Align(x, a)
  {
    var y := x + a - 1;
    assert mem + y == a * (mem / a + y / a) + y % a by {
      assert mem == a * (mem / a) && y == a * (y / a) + y % a;
      assert a * (mem / a + y / a) == a * (mem / a) + a * (y / a);
    }
    DivModUnique(mem + y, a, mem / a + y / a, y % a);
    assert (mem / a + y / a) * a == (mem / a) * a + (y / a) * a;
    assert mem == (mem / a) * a;
  }

  // ---------------------------------------------------------------- queues

  /** struct ivshm_queue as offsets in shared memory: where the three rings and the data area
      begin and where the data area ends. */
  datatype Queue = Queue(num: nat, desc: nat, avail: nat, used: nat, data: nat, end: nat)

  /** vring_init and the rest of ivshm_init_queue at offset `mem`. */
  function InitQueue(sz: Sizes, mem: nat): Queue
    requires sz.Sizes?
  {
    var desc := mem;
    var avail := mem + sz.qlen * DESC_SIZE;
    var used := Align(avail + 4 + 2 * sz.qlen + 2, VQ_ALIGN);
    Queue(sz.qlen, desc, avail, used, mem + sz.vrsize, mem + sz.vrsize + sz.qsize)
  }

  /** The end of the available ring: flags, idx, the ring and the 16-bit used_event. */
  function AvailEnd(q: Queue): nat { q.avail + 4 + 2 * q.num + 2 }

  /** The end of the used ring: flags, idx, the ring and the avail_event that the code writes
      with 32 bits. */
  function UsedEnd(q: Queue): nat { q.used + 4 + USED_ELEM_SIZE * q.num + 4 }

  /** For every accepted size the parts of a half follow each other without overlap, the
      32-bit event index included, and fill the half exactly. */
  lemma PartsDisjoint(shmlen: nat, sz: Sizes, mem: nat)
    requires Chosen(shmlen, sz) && sz.Sizes? && mem % VQ_ALIGN == 0
    ensures var q := InitQueue(sz, mem);
            && q.desc == mem && q.desc + DESC_SIZE * q.num <= q.avail
            && AvailEnd(q) <= q.used && UsedEnd(q) <= q.data <= q.end == mem + shmlen / 2
            && q.used % VQ_ALIGN == 0 && q.data % VQ_ALIGN == 0
            && q.avail == q.desc + 16 * q.num && q.used < AvailEnd(q) + VQ_ALIGN
            && (q.num >= 64 ==> q.data < UsedEnd(q) + VQ_ALIGN)
  {
    var n := sz.qlen;
    ChosenLength(shmlen, sz);
    EventFits(n, sz.vrsize);
    AlignShift(mem, DESC_SIZE * n + 2 * (3 + n), VQ_ALIGN);
    assert InitQueue(sz, mem).used == mem + Align(DESC_SIZE * n + 2 * (3 + n), VQ_ALIGN);
    SumAligned(mem, sz.vrsize);
    SumAligned(mem, Align(DESC_SIZE * n + 2 * (3 + n), VQ_ALIGN));
  }

  lemma SumAligned(a: nat, b: nat)
    requires a % VQ_ALIGN == 0 && b % VQ_ALIGN == 0
    ensures (a + b) % VQ_ALIGN == 0
  {
    DivModUnique(a + b, VQ_ALIGN, a / VQ_ALIGN + b / VQ_ALIGN, 0);
  }

  lemma ChosenLength(shmlen: nat, sz: Sizes)
    requires Chosen(shmlen, sz) && sz.Sizes?
    ensures sz.qlen % 16 == 0 && sz.vrsize >= VrSize(sz.qlen) && sz.vrsize % VQ_ALIGN == 0
    ensures sz.vrsize + sz.qsize == shmlen / 2
  {
    SmallPowers();
    PowerOfTwoDivides(16, sz.qlen);
    VrSizeGrows(32, 64);
  }

  /** vring_size counts 16 bits for avail_event; the rounding up leaves room for 32. */
  lemma EventFits(n: nat, vrsize: nat)
    requires n % 16 == 0 && vrsize >= VrSize(n)
    ensures var used := Align(DESC_SIZE * n + 2 * (3 + n), VQ_ALIGN);
            used + 4 + USED_ELEM_SIZE * n + 4 <= vrsize
  {
    var used := Align(DESC_SIZE * n + 2 * (3 + n), VQ_ALIGN);
    RoundedUp(used + USED_ELEM_SIZE * n, used / 128 + n / 16);
  }

  lemma RoundedUp(x: nat, k: nat)
    requires x == VQ_ALIGN * k
    ensures Align(x + 6, VQ_ALIGN) == x + VQ_ALIGN
  {
    DivModUnique(x + 6 + VQ_ALIGN - 1, VQ_ALIGN, k + 1, 5);
  }

  // ---------------------------------------------------------------- two peers

  datatype Views = Views(tx: Queue, rx: Queue)

  /** The transmit and receive queues of peer `id` after ivshm_init_queues: each queue keeps
      its own descriptor table, available ring and data, and its used ring lies in the
      other half. */
  function PeerViews(shmlen: nat, sz: Sizes, id: nat): Views
    requires sz.Sizes? && id < 2
  {
    var own, other := InitQueue(sz, id * (shmlen / 2)), InitQueue(sz, (1 - id) * (shmlen / 2));
    Views(own.(used := other.used), other.(used := own.used))
  }

  /** `[lo, hi)` lies in the half of peer `id`. */
  predicate InHalf(shmlen: nat, id: nat, lo: nat, hi: nat) {
    id * (shmlen / 2) <= lo && hi <= (id + 1) * (shmlen / 2)
  }

  /** Each peer's transmit queue is the other's receive queue, and all that a peer writes
      through its queues (its descriptors, its available ring, its data, and the used ring
      and event index of its receive queue) lies in its own half. */
  lemma ViewsMirrored(shmlen: nat, sz: Sizes, id: nat)
    requires Chosen(shmlen, sz) && sz.Sizes? && id < 2 && (shmlen / 2) % VQ_ALIGN == 0
    ensures PeerViews(shmlen, sz, id).tx == PeerViews(shmlen, sz, 1 - id).rx
    ensures PeerViews(shmlen, sz, id).rx == PeerViews(shmlen, sz, 1 - id).tx
    ensures var v := PeerViews(shmlen, sz, id);
            && InHalf(shmlen, id, v.tx.desc, v.tx.desc + DESC_SIZE * v.tx.num)
            && InHalf(shmlen, id, v.tx.avail, AvailEnd(v.tx))
            && InHalf(shmlen, id, v.tx.data, v.tx.end)
            && InHalf(shmlen, id, v.rx.used, UsedEnd(v.rx))
            && AvailEnd(v.tx) <= v.rx.used && UsedEnd(v.rx) <= v.tx.data
  {
    var base := id * (shmlen / 2);
    SideAligned(shmlen, id);
    PartsDisjoint(shmlen, sz, base);
    PartsInHalf(shmlen, id, base, InitQueue(sz, base));
    assert 1 - (1 - id) == id;
  }

  lemma PartsInHalf(shmlen: nat, id: nat, base: nat, q: Queue)
    requires base == id * (shmlen / 2)
    requires base <= q.desc && q.desc + DESC_SIZE * q.num <= q.avail && AvailEnd(q) <= q.used
    requires UsedEnd(q) <= q.data <= q.end == base + shmlen / 2
    ensures InHalf(shmlen, id, q.desc, q.desc + DESC_SIZE * q.num) && InHalf(shmlen, id, q.avail, AvailEnd(q))
    ensures InHalf(shmlen, id, q.used, UsedEnd(q)) && InHalf(shmlen, id, q.data, q.end)
  {
    assert (id + 1) * (shmlen / 2) == base + shmlen / 2;
  }

  lemma SideAligned(shmlen: nat, id: nat)
    requires (shmlen / 2) % VQ_ALIGN == 0 && id < 2
    ensures id * (shmlen / 2) % VQ_ALIGN == 0
  {
    assert id == 0 || id == 1;
  }

  /** The part of struct ivshm_info that ivshm_init_queues works on. */
  class Info {
    const shm: array<byte>
    const sz: Sizes
    const id: nat
    var tx: Queue
    var rx: Queue

    constructor (shm: array<byte>, sz: Sizes, id: nat)
      requires sz.Sizes? && id < 2
      ensures this.shm == shm && this.sz == sz && this.id == id
    {
      this.shm, this.sz, this.id := shm, sz, id;
      tx, rx := Queue(0, 0, 0, 0, 0, 0), Queue(0, 0, 0, 0, 0, 0);
    }

    /** ivshm_init_queues: zeroes the peer's own half and sets up both queues, exchanging
        their used rings. */
    method InitQueues()
      requires sz.Sizes? && id < 2
      modifies this, shm
      ensures Views(tx, rx) == PeerViews(shm.Length, sz, id)
      ensures forall k | 0 <= k < shm.Length ::
        shm[k] == if InHalf(shm.Length, id, k, k + 1) then 0 else old(shm[k])
    {
      var half := shm.Length / 2;
      var own, other := id * half, (1 - id) * half;
      for i := 0 to half
        invariant forall k | 0 <= k < shm.Length :: shm[k] == if own <= k < own + i then 0 else old(shm[k])
      {
        shm[own + i] := 0;
      }
      rx := InitQueue(sz, other);
      tx := InitQueue(sz, own);
      var used := rx.used;
      rx := rx.(used := tx.used);
      tx := tx.(used := used);
    }
  }
}

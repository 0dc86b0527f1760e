/** One direction of the pipe as values: the split virtqueue in shared memory, the sender's
    and the receiver's private counters, and what each critical section does to them. */
module Vring {
  import opened Basics
  import opened Words
  import opened ByteRing

  /** struct vring_desc */
  datatype Desc = Desc(addr: nat, len: nat, flags: nat, next: nat)
  /** struct vring_used_elem */
  datatype UsedElem = UsedElem(id: nat, len: nat)

  /** What both peers see of one direction: descriptor table, available ring, used ring with
      the event index behind it, and the data area. */
  datatype Shm = Shm(desc: seq<Desc>, avail: seq<nat>, availIdx: nat,
                     used: seq<UsedElem>, usedIdx: nat, availEvent: nat, data: seq<byte>)

  /** The sender's struct ivshm_queue. */
  datatype Tx = Tx(freeHead: nat, numFree: nat, numAdded: nat, lastAvail: nat, lastUsed: nat,
                   head: nat, tail: nat)

  /** The receiver's struct ivshm_queue. */
  datatype Rx = Rx(lastAvail: nat, lastUsed: nat)

  /** Descriptors reclaimed under the clean lock and not yet spliced into the free list:
      `fdesc` is the first one reclaimed, `fhead` the last one, `num` their number. */
  datatype Batch = Batch(fdesc: nat, fhead: nat, num: nat)

  predicate Shaped(c: Config, m: Shm) {
    && |m.desc| == c.num && |m.avail| == c.num && |m.used| == c.num && |m.data| == c.size
  }

  /** `idx & (num - 1)` */
  function Slot(c: Config, idx: nat): (r: nat)
    requires ValidConfig(c)
    ensures r == idx % c.num < c.num
  {
    MaskIsMod(idx, c.num);
    BitAnd(idx, c.num - 1)
  }

  /** ivshm_desc_data: the span of the data area a descriptor names, if it is acceptable. */
  function DescData(c: Config, d: Desc): (r: Option<(nat, nat)>)
    ensures r.Some? ==> r.value.0 < c.size && r.value.0 + r.value.1 <= c.size
  {
    if d.flags != 0 then None
    else if d.addr >= c.shmlen then None
    else if d.addr < c.base || d.addr >= c.base + c.size then None
    else if d.len > c.base + c.size - d.addr then None
    else Some((d.addr - c.base, d.len))
  }

  // ---------------------------------------------------------------- sender

  /** The data area after `bytes` were copied to offset `off`. */
  function Blit(data: seq<byte>, off: nat, bytes: seq<byte>): (r: seq<byte>)
    requires off + |bytes| <= |data|
    ensures |r| == |data|
  {
    data[..off] + bytes + data[off + |bytes|..]
  }

  /** ivshm_tx_frame up to the store of avail->idx. */
  function TxFrame(c: Config, m: Shm, t: Tx, bytes: seq<byte>): (Shm, Tx)
    requires ValidConfig(c) && Shaped(c, m)
    requires t.numFree >= 1 && t.freeHead < c.num
    requires t.head <= c.size && FrameSize(c, |bytes|) <= c.size
  {
    var id := t.freeHead;
    var (off, head) := Advance(c, t.head, FrameSize(c, |bytes|));
    var d := Desc(c.base + off, |bytes|, 0, m.desc[id].next);
    var t' := t.(freeHead := m.desc[id].next, numFree := t.numFree - 1, numAdded := t.numAdded + 1,
                 lastAvail := Inc16(t.lastAvail), head := head);
    (m.(desc := m.desc[id := d], avail := m.avail[Slot(c, t.lastAvail) := id],
        availIdx := t'.lastAvail, data := Blit(m.data, off, bytes)), t')
  }

  /** vring_need_event on u16 arguments. */
  predicate NeedEvent(event: nat, new_: nat, old_: nat) {
    Trunc16(new_ - event - 1) < Trunc16(new_ - old_)
  }

  /** ivshm_notify_tx: whether the sender rings the doorbell. */
  predicate RingsDoorbell(m: Shm, t: Tx) {
    NeedEvent(Trunc16(m.availEvent), t.lastAvail, Trunc16(t.lastAvail - t.numAdded))
  }

  /** The state of the loop of ivshm_tx_clean. */
  datatype Sweep = Sweep(desc: seq<Desc>, tail: nat, last: nat, batch: Batch)

  /** One iteration of the loop of ivshm_tx_clean; None where the code breaks out. */
  function SweepOne(c: Config, used: seq<UsedElem>, w: Sweep): (r: Option<Sweep>)
    requires ValidConfig(c) && |used| == c.num && |w.desc| == c.num
    requires w.batch.num == 0 || (w.batch.fdesc < c.num && w.batch.fhead < c.num)
    ensures r.Some? ==> |r.value.desc| == c.num && r.value.batch.num == w.batch.num + 1
    ensures r.Some? ==> r.value.batch.fdesc < c.num && r.value.batch.fhead < c.num
    ensures r.Some? ==> r.value.last == Inc16(w.last)
  {
    var u := used[w.last % c.num];
    if u.id >= c.num || u.len != 1 then None
    else
      match DescData(c, w.desc[u.id])
      case None => None
      case Some((off, len)) =>
        var (p, pos) := Advance(c, w.tail, FrameSize(c, len));
        if off != p then None
        else if w.batch.num == 0 then Some(Sweep(w.desc, pos, Inc16(w.last), Batch(u.id, u.id, 1)))
        else Some(Sweep(w.desc[u.id := w.desc[u.id].(next := w.batch.fhead)], pos, Inc16(w.last),
                        Batch(w.batch.fdesc, u.id, w.batch.num + 1)))
  }

  lemma CloserByOne(target: nat, last: nat)
    requires target < U16 && last < U16 && target != last
    ensures Trunc16(target - Inc16(last)) == Trunc16(target - last) - 1
  {
    Trunc16Range(last + 1);
    Trunc16Range(target - last);
    Trunc16Range(target - Inc16(last));
  }

  lemma Trunc16Range(x: int)
    requires 0 <= x + U16 && x < 2 * U16
    ensures Trunc16(x) == if x < 0 then x + U16 else if x < U16 then x else x - U16
  {
  }

  /** The loop of ivshm_tx_clean from state `w` until `last == usedIdx` or a break. */
  function SweepAll(c: Config, used: seq<UsedElem>, usedIdx: nat, w: Sweep): (r: Sweep)
    requires ValidConfig(c) && |used| == c.num && |w.desc| == c.num
    requires w.batch.num == 0 || (w.batch.fdesc < c.num && w.batch.fhead < c.num)
    requires usedIdx < U16 && w.last < U16
    ensures |r.desc| == c.num && r.last < U16
    ensures r.batch.num == 0 || (r.batch.fdesc < c.num && r.batch.fhead < c.num)
    decreases Trunc16(usedIdx - w.last)
  {
    if w.last == usedIdx then w
    else
      match SweepOne(c, used, w)
      case None => w
      case Some(w') =>
        CloserByOne(usedIdx, w.last);
        SweepAll(c, used, usedIdx, w')
  }

  const EmptyBatch := Batch(0, 0, 0)

  /** The part of ivshm_tx_clean under the clean lock. */
  function TxClean(c: Config, m: Shm, t: Tx): (Shm, Tx, Batch)
    requires ValidConfig(c) && Shaped(c, m) && m.usedIdx < U16 && t.lastUsed < U16
  {
    var w := SweepAll(c, m.used, m.usedIdx, Sweep(m.desc, t.tail, t.lastUsed, EmptyBatch));
    (m.(desc := w.desc), t.(tail := w.tail, lastUsed := w.last), w.batch)
  }

  /** The part of ivshm_tx_clean under the free lock. */
  function TxSplice(c: Config, m: Shm, t: Tx, b: Batch): (Shm, Tx)
    requires Shaped(c, m) && b.fdesc < c.num
  {
    (m.(desc := m.desc[b.fdesc := m.desc[b.fdesc].(next := t.freeHead)]),
     t.(freeHead := b.fhead, numFree := t.numFree + b.num))
  }

  // ---------------------------------------------------------------- receiver

  /** ivshm_rx_desc: the id of the next available descriptor. */
  function RxDesc(c: Config, m: Shm, r: Rx): (Rx, Option<nat>)
    requires ValidConfig(c) && Shaped(c, m)
  {
    if m.availIdx == r.lastAvail then (r, None)
    else
      var id := m.avail[Slot(c, r.lastAvail)];
      (r.(lastAvail := Inc16(r.lastAvail)), if id >= c.num then None else Some(id))
  }

  /** ivshm_rx_finish */
  function RxFinish(c: Config, m: Shm, r: Rx, id: nat): (Shm, Rx)
    requires ValidConfig(c) && Shaped(c, m)
  {
    var r' := r.(lastUsed := Inc16(r.lastUsed));
    (m.(used := m.used[Slot(c, r.lastUsed) := UsedElem(id, 1)], usedIdx := r'.lastUsed), r')
  }

  // ---------------------------------------------------------------- what is refused

  /** A descriptor is accepted exactly when it is the one that names a span beginning and ending
      in the data area, without flags. */
  lemma DescDataIff(c: Config, d: Desc, off: nat, len: nat)
    requires c.base + c.size <= c.shmlen
    ensures DescData(c, d) == Some((off, len))
       <==> d.addr == c.base + off && d.len == len && d.flags == 0 && off < c.size && off + len <= c.size
  {
  }

  /** The cleaning loop goes on exactly when the used entry names one descriptor, used once,
      whose data lie where the tail expects the next frame. */
  lemma SweepGoesOnIff(c: Config, used: seq<UsedElem>, w: Sweep)
    requires ValidConfig(c) && |used| == c.num && |w.desc| == c.num
    requires w.batch.num == 0 || (w.batch.fdesc < c.num && w.batch.fhead < c.num)
    ensures SweepOne(c, used, w).Some?
       <==> exists id: nat, off: nat, len: nat ::
              && used[w.last % c.num] == UsedElem(id, 1) && id < c.num
              && DescData(c, w.desc[id]) == Some((off, len))
              && off == (if c.size - w.tail < FrameSize(c, len) then 0 else w.tail)
  {
    var u := used[w.last % c.num];
    if SweepOne(c, used, w).Some? {
      var (off, len) := DescData(c, w.desc[u.id]).value;
      assert used[w.last % c.num] == UsedElem(u.id, 1) && DescData(c, w.desc[u.id]) == Some((off, len));
    }
  }

  /** A new available entry is consumed whether or not it names a descriptor. */
  lemma RxDescConsumes(c: Config, m: Shm, r: Rx)
    requires ValidConfig(c) && Shaped(c, m)
    ensures var (r', id) := RxDesc(c, m, r);
            && r'.lastUsed == r.lastUsed
            && r'.lastAvail == (if m.availIdx == r.lastAvail then r.lastAvail else Trunc16(r.lastAvail + 1))
            && (id.Some? <==> m.availIdx != r.lastAvail && m.avail[r.lastAvail % c.num] < c.num)
            && (id.Some? ==> id.value == m.avail[r.lastAvail % c.num])
  {
  }

  // ---------------------------------------------------------------- event suppression

  /** The u16 reached from `old_` after `d` increments. */
  function After(old_: nat, d: nat): nat {
    Trunc16(old_ + d)
  }

  /** An event index asks for a notification exactly when it lies in the cyclic half-open
      interval that leads from the old index to the new one. */
  lemma NeedEventCyclic(event: nat, new_: nat, old_: nat, n: nat)
    requires event < U16 && old_ < U16 && n < U16 && new_ == After(old_, n)
    ensures NeedEvent(event, new_, old_) <==> exists d: nat :: d < n && event == After(old_, d)
  {
    Trunc16Range(old_ + n);
    Trunc16Range(new_ - old_);
    Trunc16Range(new_ - event - 1);
    var d := if event >= old_ then event - old_ else event - old_ + U16;
    Trunc16Range(old_ + d);
    assert event == After(old_, d);
    forall e: nat | e < n && event == After(old_, e)
      ensures e == d
    {
      Trunc16Range(old_ + e);
    }
  }

  /** A value congruent to `y` truncates to `y`, or to `y + 65536` when `y` is negative. */
  lemma TruncOffset(x: int, y: int)
    requires (x - y) % U16 == 0 && 0 <= y + U16 && y < U16
    ensures Trunc16(x) == if y >= 0 then y else y + U16
  {
    var k := (x - y) / U16;
    assert x == U16 * k + y;
    if y >= 0 { DivModUnique(x, U16, k, y); } else { DivModUnique(x, U16, k - 1, y + U16); }
  }

  /** The same over unbounded counters: with `published` entries, all but `before` of them
      new, and the receiver waiting for entry `waiting`, the sender notifies exactly when
      the awaited entry is among the new ones. */
  lemma NeedEventCounters(waiting: nat, published: nat, before: nat)
    requires before <= published < before + U16
    requires waiting <= published < waiting + U16
    ensures NeedEvent(Trunc16(waiting), Trunc16(published), Trunc16(before)) <==> before <= waiting < published
  {
    var w, p, b := waiting / U16, published / U16, before / U16;
    assert Trunc16(waiting) == waiting - U16 * w && Trunc16(published) == published - U16 * p
        && Trunc16(before) == before - U16 * b;
    DivModUnique(U16 * (w - p), U16, w - p, 0);
    DivModUnique(U16 * (b - p), U16, b - p, 0);
    TruncOffset(Trunc16(published) - Trunc16(waiting) - 1, published - waiting - 1);
    TruncOffset(Trunc16(published) - Trunc16(before), published - before);
  }
}

/** The queues of ivshmem-pipe.c as objects over shared arrays. Every method is proved equal
    to the function of the same critical section in `Vring`, which `Pipe.Step` is made of. */
module PipeQueue {
  import opened Basics
  import opened Words
  import opened ByteRing
  import opened Vring
  import opened Pipe

  /** The shared half that carries one direction, with the used ring the receiver writes. */
  class SharedRing {
    const c: Config
    const desc: array<Desc>
    const avail: array<nat>
    const used: array<UsedElem>
    const data: array<byte>
    var availIdx: nat
    var usedIdx: nat
    var availEvent: nat

    ghost predicate Valid()
      reads this
    {
      && ValidConfig(c)
      && desc.Length == avail.Length == used.Length == c.num && data.Length == c.size
      && (avail as object) != (data as object)
      && availIdx < U16 && usedIdx < U16
    }

    ghost function View(): (m: Shm)
      reads this, desc, avail, used, data
      requires Valid()
      ensures Shaped(c, m)
    {
      Shm(desc[..], avail[..], availIdx, used[..], usedIdx, availEvent, data[..])
    }

    /** A zeroed half. */
    constructor (c: Config)
      requires ValidConfig(c)
      ensures Valid() && this.c == c && fresh(desc) && fresh(avail) && fresh(used) && fresh(data)
      ensures View() == Shm(seq(c.num, i => Desc(0, 0, 0, 0)), seq(c.num, i => 0), 0,
                            seq(c.num, i => UsedElem(0, 0)), 0, 0, seq(c.size, i => 0))
    {
      this.c := c;
      desc := new Desc[c.num](i => Desc(0, 0, 0, 0));
      avail := new nat[c.num](i => 0);
      used := new UsedElem[c.num](i => UsedElem(0, 0));
      data := new byte[c.size](i => 0);
      availIdx, usedIdx, availEvent := 0, 0, 0;
    }
  }

  /** iovec_to_membuf: copies a gathered frame into the data area. */
  method CopyTo(data: array<byte>, off: nat, bytes: seq<byte>)
    requires off + |bytes| <= data.Length
    modifies data
    ensures data[..] == Blit(old(data[..]), off, bytes)
  {
    for i := 0 to |bytes|
      invariant forall k | 0 <= k < i :: data[off + k] == bytes[k]
      invariant forall k | 0 <= k < data.Length && !(off <= k < off + i) :: data[k] == old(data[k])
    {
      data[off + i] := bytes[i];
    }
    ghost var want := Blit(old(data[..]), off, bytes);
    assert forall k | off <= k < off + |bytes| :: want[k] == bytes[k - off];
    assert data[..] == want;
  }

  /** The sender's struct ivshm_queue. */
  class TxQueue {
    const vr: SharedRing
    var freeHead: nat
    var numFree: nat
    var numAdded: nat
    var lastAvailIdx: nat
    var lastUsedIdx: nat
    var head: nat
    var tail: nat

    ghost function View(): Tx
      reads this
    {
      Tx(freeHead, numFree, numAdded, lastAvailIdx, lastUsedIdx, head, tail)
    }

    /** ivshm_init_queue for the transmit side: the free list runs through all descriptors. */
    constructor (vr: SharedRing)
      requires vr.Valid() && vr.desc.Length > 0
      modifies vr.desc
      ensures this.vr == vr && View() == Tx(0, vr.c.num, 0, 0, 0, 0, 0)
      ensures vr.Valid() && vr.View() == old(vr.View()).(desc := vr.desc[..])
      ensures forall i | 0 <= i < vr.c.num - 1 :: vr.desc[i] == old(vr.desc[i]).(next := i + 1)
    {
      this.vr := vr;
      freeHead, numFree, numAdded, lastAvailIdx, lastUsedIdx, head, tail := 0, vr.c.num, 0, 0, 0, 0, 0;
      new;
      for i := 0 to vr.desc.Length - 1
        invariant View() == Tx(0, vr.c.num, 0, 0, 0, 0, 0)
        invariant forall k | 0 <= k < i :: vr.desc[k] == old(vr.desc[k]).(next := k + 1)
        invariant forall k | i <= k < vr.desc.Length :: vr.desc[k] == old(vr.desc[k])
      {
        vr.desc[i] := vr.desc[i].(next := i + 1);
      }
    }

    /** ivshm_tx_advance on the sender's head. */
    method AdvanceHead(len: nat) returns (p: nat)
      requires vr.Valid()
      modifies this`head
      ensures (p, head) == Advance(vr.c, old(head), FrameSize(vr.c, len))
    {
      var room := FrameSize(vr.c, len);
      p := head;
      if vr.c.size - p < room {
        p := 0;
      }
      head := p + room;
    }

    /** ivshm_tx_frame up to the doorbell. */
    method Frame(bytes: seq<byte>)
      requires vr.Valid() && numFree >= 1 && freeHead < vr.c.num
      requires head <= vr.c.size && FrameSize(vr.c, |bytes|) <= vr.c.size
      modifies this, vr`availIdx, vr.desc, vr.avail, vr.data
      ensures vr.Valid() && (vr.View(), View()) == TxFrame(vr.c, old(vr.View()), old(View()), bytes)
    {
      ghost var m, t := vr.View(), View();
      var id := freeHead;
      freeHead := vr.desc[id].next;
      numFree := numFree - 1;
      var off := AdvanceHead(|bytes|);
      CopyTo(vr.data, off, bytes);
      vr.desc[id] := Desc(vr.c.base + off, |bytes|, 0, vr.desc[id].next);
      assert vr.desc[..] == m.desc[id := Desc(vr.c.base + off, |bytes|, 0, m.desc[id].next)];
      vr.avail[Slot(vr.c, lastAvailIdx)] := id;
      assert vr.avail[..] == m.avail[Slot(vr.c, t.lastAvail) := id];
      lastAvailIdx := Inc16(lastAvailIdx);
      numAdded := numAdded + 1;
      vr.availIdx := lastAvailIdx;
      FrameParts(vr.c, m, t, bytes, vr.View(), View(), off);
    }

    /** ivshm_notify_tx and the reset of num_added that follows it. */
    method Notify() returns (ring: bool)
      requires vr.Valid()
      modifies this`numAdded
      ensures ring == RingsDoorbell(vr.View(), old(View())) && View() == old(View()).(numAdded := 0)
    {
      ring := NeedEvent(Trunc16(vr.availEvent), lastAvailIdx, Trunc16(lastAvailIdx - numAdded));
      numAdded := 0;
    }

    /** The body of the loop of ivshm_tx_clean; false where the code breaks out. */
    method Reclaim(last: nat, b: Batch) returns (ok: bool, b': Batch)
      requires vr.Valid() && (b.num == 0 || (b.fdesc < vr.c.num && b.fhead < vr.c.num))
      modifies this`tail, vr.desc
      ensures vr.Valid() && vr.View() == old(vr.View()).(desc := vr.desc[..])
      ensures var r := SweepOne(vr.c, old(vr.used[..]), Sweep(old(vr.desc[..]), old(tail), last, b));
              if r.Some? then ok && r.value == Sweep(vr.desc[..], tail, Inc16(last), b')
              else !ok && vr.desc[..] == old(vr.desc[..]) && tail == old(tail) && b' == b
    {
      b' := b;
      var u := vr.used[last % vr.c.num];
      if u.id >= vr.c.num || u.len != 1 {
        return false, b;
      }
      var data := DescData(vr.c, vr.desc[u.id]);
      if data.None? {
        return false, b;
      }
      var (p, pos) := Advance(vr.c, tail, FrameSize(vr.c, data.value.1));
      if data.value.0 != p {
        return false, b;
      }
      tail := pos;
      if b.num == 0 {
        b' := Batch(u.id, u.id, 1);
      } else {
        vr.desc[u.id] := vr.desc[u.id].(next := b.fhead);
        b' := Batch(b.fdesc, u.id, b.num + 1);
      }
      ok := true;
    }

    /** The part of ivshm_tx_clean under the clean lock. */
    method Clean() returns (b: Batch)
      requires vr.Valid() && lastUsedIdx < U16
      modifies this`tail, this`lastUsedIdx, vr.desc
      ensures vr.Valid() && (vr.View(), View(), b) == TxClean(vr.c, old(vr.View()), old(View()))
      ensures b.num == 0 || (b.fdesc < vr.c.num && b.fhead < vr.c.num)
    {
      var usedIdx := vr.usedIdx;
      var last: nat := lastUsedIdx;
      ghost var m, t := vr.View(), View();
      ghost var all := SweepAll(vr.c, m.used, usedIdx, Sweep(m.desc, t.tail, last, EmptyBatch));
      b := EmptyBatch;
      while last != usedIdx
        invariant vr.Valid() && last < U16 && vr.View() == m.(desc := vr.desc[..])
        invariant View() == t.(tail := tail)
        invariant b.num == 0 || (b.fdesc < vr.c.num && b.fhead < vr.c.num)
        invariant SweepAll(vr.c, m.used, usedIdx, Sweep(vr.desc[..], tail, last, b)) == all
        decreases Trunc16(usedIdx - last)
      {
        var ok;
        ok, b := Reclaim(last, b);
        if !ok {
          break;
        }
        assert Trunc16(usedIdx - Inc16(last)) < Trunc16(usedIdx - last) by { CloserByOne(usedIdx, last); }
        last := Inc16(last);
      }
      assert all == Sweep(vr.desc[..], tail, last, b);
      lastUsedIdx := last;
    }

    /** The part of ivshm_tx_clean under the free lock. */
    method Splice(b: Batch)
      requires vr.Valid() && b.fdesc < vr.c.num
      modifies this`freeHead, this`numFree, vr.desc
      ensures vr.Valid() && (vr.View(), View()) == TxSplice(vr.c, old(vr.View()), old(View()), b)
    {
      vr.desc[b.fdesc] := vr.desc[b.fdesc].(next := freeHead);
      freeHead := b.fhead;
      numFree := numFree + b.num;
    }

    /** ivshm_write; `sent` is false where the code stops for want of a descriptor. */
    method Write(bytes: seq<byte>) returns (sent: bool, ring: bool)
      requires vr.Valid() && lastUsedIdx < U16 && head <= vr.c.size
      requires FrameSize(vr.c, |bytes|) <= vr.c.size && (numFree >= 1 ==> freeHead < vr.c.num)
      modifies this, vr`availIdx, vr.desc, vr.avail, vr.data
      ensures vr.Valid()
      ensures (vr.View(), View(), sent, ring) == Written(vr.c, old(vr.View()), old(View()), bytes)
    {
      var b := Clean();
      if b.num != 0 {
        Splice(b);
      }
      if numFree == 0 {
        return false, false;
      }
      Frame(bytes);
      ring := Notify();
      sent := true;
    }
  }

  lemma FrameParts(c: Config, m: Shm, t: Tx, bytes: seq<byte>, m': Shm, t': Tx, off: nat)
    requires ValidConfig(c) && Shaped(c, m) && t.numFree >= 1 && t.freeHead < c.num
    requires t.head <= c.size && FrameSize(c, |bytes|) <= c.size
    requires (off, t'.head) == Advance(c, t.head, FrameSize(c, |bytes|))
    requires m'.desc == m.desc[t.freeHead := Desc(c.base + off, |bytes|, 0, m.desc[t.freeHead].next)]
    requires m'.avail == m.avail[Slot(c, t.lastAvail) := t.freeHead] && m'.data == Blit(m.data, off, bytes)
    requires m' == m.(desc := m'.desc, avail := m'.avail, data := m'.data, availIdx := Inc16(t.lastAvail))
    requires t' == t.(freeHead := m.desc[t.freeHead].next, numFree := t.numFree - 1, numAdded := t.numAdded + 1,
                      lastAvail := Inc16(t.lastAvail), head := t'.head)
    ensures (m', t') == TxFrame(c, m, t, bytes)
  {
  }

  /** What ivshm_tx_clean makes of a queue when nobody else runs. */
  ghost function Cleaned(c: Config, m: Shm, t: Tx): (r: (Shm, Tx))
    requires ValidConfig(c) && Shaped(c, m) && m.usedIdx < U16 && t.lastUsed < U16
    ensures Shaped(c, r.0) && r.1.head == t.head
    ensures r.1.numFree >= 1 && (t.numFree >= 1 ==> t.freeHead < c.num) ==> r.1.freeHead < c.num
  {
    var (m1, t1, b) := TxClean(c, m, t);
    if b.num == 0 then (m1, t1) else TxSplice(c, m1, t1, b)
  }

  /** What ivshm_write makes of a queue when nobody else runs: clean, place the frame, decide
      on the doorbell. Without a free descriptor the code stops (BUG_ON). */
  ghost function Written(c: Config, m: Shm, t: Tx, bytes: seq<byte>): (Shm, Tx, bool, bool)
    requires ValidConfig(c) && Shaped(c, m) && m.usedIdx < U16 && t.lastUsed < U16
    requires t.head <= c.size && FrameSize(c, |bytes|) <= c.size
    requires t.numFree >= 1 ==> t.freeHead < c.num
  {
    var (m2, t2) := Cleaned(c, m, t);
    if t2.numFree == 0 then (m2, t2, false, false)
    else
      var (m3, t3) := TxFrame(c, m2, t2, bytes);
      (m3, t3.(numAdded := 0), true, RingsDoorbell(m3, t3))
  }

  // ---------------------------------------------------------------- one uninterrupted poll

  /** What the receive loop does to shared memory and to the receiver, and the frames it
      hands on. */
  datatype Polled = Polled(m: Shm, r: Rx, frames: seq<seq<byte>>)

  /** One round of the loop of ivshm_pipe_poll, without the final look; it returns no frame
      where the code breaks out. */
  ghost function PollOne(c: Config, m: Shm, r: Rx): (p: Polled)
    requires ValidConfig(c) && Shaped(c, m)
    ensures Shaped(c, p.m) && p.m.availIdx == m.availIdx
    ensures p.frames != [] ==> m.availIdx != r.lastAvail && p.r.lastAvail == Inc16(r.lastAvail)
  {
    var (r', id) := RxDesc(c, m, r);
    if id.None? then Polled(m, r', [])
    else
      match DescData(c, m.desc[id.value])
      case None => Polled(m, r', [])
      case Some((off, len)) =>
        var (m'', r'') := RxFinish(c, m, r', id.value);
        Polled(m''.(availEvent := r''.lastAvail), r'', [m.data[off..off + len]])
  }

  /** A round that hands on a frame gives its descriptor back with length 1 and waits for the
      next entry; any other round leaves shared memory alone. */
  lemma PollArms(c: Config, m: Shm, r: Rx)
    requires ValidConfig(c) && Shaped(c, m)
    ensures var p := PollOne(c, m, r);
            if p.frames == [] then p.m == m && p.r.lastUsed == r.lastUsed
            else
              && p.m.availEvent == Trunc16(r.lastAvail + 1) == p.r.lastAvail
              && p.m.usedIdx == Trunc16(r.lastUsed + 1) == p.r.lastUsed
              && p.m.used == m.used[r.lastUsed % c.num := UsedElem(m.avail[r.lastAvail % c.num], 1)]
              && p.m == m.(used := p.m.used, usedIdx := p.m.usedIdx, availEvent := p.m.availEvent)
  {
  }

  /** The whole loop when nobody else runs. */
  ghost function PollAll(c: Config, m: Shm, r: Rx): (p: Polled)
    requires ValidConfig(c) && Shaped(c, m) && m.availIdx < U16 && r.lastAvail < U16
    ensures Shaped(c, p.m)
    decreases Trunc16(m.availIdx - r.lastAvail)
  {
    var p := PollOne(c, m, r);
    if p.frames == [] then p
    else
      CloserByOne(m.availIdx, r.lastAvail);
      var rest := PollAll(c, p.m, p.r);
      Polled(rest.m, rest.r, p.frames + rest.frames)
  }

  /** The receiver's struct ivshm_queue; `delivered` records the calls of
      ivshm_endpoint_push. */
  class RxQueue {
    const vr: SharedRing
    var lastAvailIdx: nat
    var lastUsedIdx: nat
    var delivered: seq<seq<byte>>

    ghost function View(): Rx
      reads this
    {
      Rx(lastAvailIdx, lastUsedIdx)
    }

    constructor (vr: SharedRing)
      ensures this.vr == vr && View() == Rx(0, 0) && delivered == []
    {
      this.vr := vr;
      lastAvailIdx, lastUsedIdx, delivered := 0, 0, [];
    }

    /** ivshm_rx_desc */
    method NextDesc() returns (id: Option<nat>)
      requires vr.Valid()
      modifies this`lastAvailIdx
      ensures (View(), id) == RxDesc(vr.c, vr.View(), old(View()))
    {
      if vr.availIdx == lastAvailIdx {
        return None;
      }
      var avail := vr.avail[Slot(vr.c, lastAvailIdx)];
      lastAvailIdx := Inc16(lastAvailIdx);
      id := if avail >= vr.c.num then None else Some(avail);
    }

    /** ivshm_rx_finish */
    method Finish(id: nat)
      requires vr.Valid()
      modifies this`lastUsedIdx, vr`usedIdx, vr.used
      ensures vr.Valid() && (vr.View(), View()) == RxFinish(vr.c, old(vr.View()), old(View()), id)
    {
      vr.used[Slot(vr.c, lastUsedIdx)] := UsedElem(id, 1);
      lastUsedIdx := Inc16(lastUsedIdx);
      vr.usedIdx := lastUsedIdx;
    }

    /** The body of the receive loop of ivshm_pipe_poll, up to the look at avail->idx. */
    method Receive() returns (received: bool)
      requires vr.Valid() && lastAvailIdx < U16
      modifies this, vr`usedIdx, vr`availEvent, vr.used
      ensures vr.Valid() && vr.availIdx == old(vr.availIdx) && lastAvailIdx < U16
      ensures received ==> Trunc16(vr.availIdx - lastAvailIdx) < old(Trunc16(vr.availIdx - lastAvailIdx))
      ensures var p := PollOne(vr.c, old(vr.View()), old(View()));
              vr.View() == p.m && View() == p.r && delivered == old(delivered) + p.frames
              && received == (p.frames != [])
    {
      var id := NextDesc();
      if id.None? {
        return false;
      }
      var data := DescData(vr.c, vr.desc[id.value]);
      if data.None? {
        return false;
      }
      var (off, len) := data.value;
      delivered := delivered + [vr.data[off..off + len]];
      Finish(id.value);
      vr.availEvent := lastAvailIdx;
      CloserByOne(vr.availIdx, old(lastAvailIdx));
      return true;
    }

    /** One round with the final look; `got` is the frame it handed on, if any. */
    method Round() returns (received: bool, more: bool, ghost got: seq<seq<byte>>)
      requires vr.Valid() && lastAvailIdx < U16
      modifies this, vr`usedIdx, vr`availEvent, vr.used
      ensures vr.Valid() && lastAvailIdx < U16
      ensures more ==> Trunc16(vr.availIdx - lastAvailIdx) < old(Trunc16(vr.availIdx - lastAvailIdx))
      ensures delivered == old(delivered) + got && |got| == if received then 1 else 0
      ensures var left := if more then PollAll(vr.c, vr.View(), View()) else Polled(vr.View(), View(), []);
              PollAll(vr.c, old(vr.View()), old(View())) == left.(frames := got + left.frames)
    {
      ghost var m, r := vr.View(), View();
      received := Receive();
      got := PollOne(vr.c, m, r).frames;
      more := received && vr.availIdx != lastAvailIdx;
      PollUnfolds(vr.c, m, r);
    }

    /** The receive loop of ivshm_pipe_poll. */
    method Poll() returns (received: nat)
      requires vr.Valid() && lastAvailIdx < U16
      modifies this, vr`usedIdx, vr`availEvent, vr.used
      ensures vr.Valid()
      ensures var p := PollAll(vr.c, old(vr.View()), old(View()));
              vr.View() == p.m && View() == p.r
              && delivered == old(delivered) + p.frames && received == |p.frames|
    {
      received := 0;
      ghost var all := PollAll(vr.c, vr.View(), View());
      ghost var left := all;
      var more := true;
      while more
        invariant vr.Valid() && lastAvailIdx < U16
        invariant Left(left, old(delivered), delivered, received, all)
        invariant left == if more then PollAll(vr.c, vr.View(), View()) else Polled(vr.View(), View(), [])
        decreases more, Trunc16(vr.availIdx - lastAvailIdx)
      {
        ghost var so := delivered;
        var one;
        ghost var got;
        one, more, got := Round();
        left := if more then PollAll(vr.c, vr.View(), View()) else Polled(vr.View(), View(), []);
        LeftStep(left, got, old(delivered), so, received, all);
        received := received + if one then 1 else 0;
      }
    }
  }

  /** What is left to poll completes what has been delivered to the whole. */
  ghost predicate Left(left: Polled, before: seq<seq<byte>>, delivered: seq<seq<byte>>, received: nat, all: Polled) {
    && left.m == all.m && left.r == all.r
    && delivered + left.frames == before + all.frames && received + |left.frames| == |all.frames|
  }

  lemma LeftStep(left: Polled, frames: seq<seq<byte>>, before: seq<seq<byte>>, delivered: seq<seq<byte>>,
                 received: nat, all: Polled)
    requires Left(left.(frames := frames + left.frames), before, delivered, received, all)
    ensures Left(left, before, delivered + frames, received + |frames|, all)
  {
    assert delivered + (frames + left.frames) == (delivered + frames) + left.frames;
  }

  lemma PollUnfolds(c: Config, m: Shm, r: Rx)
    requires ValidConfig(c) && Shaped(c, m) && m.availIdx < U16 && r.lastAvail < U16
    ensures var p := PollOne(c, m, r);
            if p.frames == [] then PollAll(c, m, r) == p
            else
              && |p.frames| == 1 && p.r.lastAvail < U16
              && PollAll(c, m, r) == PollAll(c, p.m, p.r).(frames := p.frames + PollAll(c, p.m, p.r).frames)
              && (p.m.availIdx == p.r.lastAvail ==> PollAll(c, p.m, p.r) == Polled(p.m, p.r, []))
  {
  }
}

/** Every step of the pipe keeps the invariant. */
module PipeSteps {
  import opened Basics
  import opened Words
  import opened ByteRing
  import opened Vring
  import opened Pipe

  // ---------------------------------------------------------------- frames and slots

  lemma LinkedKept(c: Config, desc: seq<Desc>, desc': seq<Desc>, ids: seq<nat>)
    requires |desc| == |desc'| == c.num && Linked(c, desc, ids)
    requires forall i | 0 <= i < |ids| - 1 :: desc'[ids[i]].next == desc[ids[i]].next
    ensures Linked(c, desc', ids)
  {
  }

  /** Updating the `next` of a descriptor that no list owns leaves every list linked. */
  lemma ListsKept(c: Config, desc: seq<Desc>, desc': seq<Desc>, t: Tx, batches: seq<Batch>, g: Aux, x: nat)
    requires |desc| == |desc'| == c.num && Lists(c, desc, t, batches, g)
    requires forall k | 0 <= k < c.num && k != x :: desc'[k].next == desc[k].next
    requires (x < c.num && desc'[x].next == desc[x].next) || (x !in g.free && Pool(g.chains)[x] == 0)
    ensures Lists(c, desc', t, batches, g)
  {
    forall j | 0 <= j < |batches| ensures IsBatch(c, desc', batches[j], g.chains[j]) {
      assert IsBatch(c, desc, batches[j], g.chains[j]);
      ChainInPool(g.chains, j);
      if x in g.chains[j] {
        assert multiset(g.chains[j])[x] > 0;
      }
      LinkedKept(c, desc, desc', g.chains[j]);
    }
    LinkedKept(c, desc, desc', g.free);
  }

  lemma SliceApart(data: seq<byte>, off: nat, bytes: seq<byte>, a: nat, b: nat)
    requires off + |bytes| <= |data| && a <= b <= |data|
    requires b <= off || off + |bytes| <= a
    ensures Blit(data, off, bytes)[a..b] == data[a..b]
  {
  }

  // ---------------------------------------------------------------- sending

  /** Writing another frame elsewhere leaves a frame in flight as it was. */
  lemma DescribedKept(c: Config, desc: seq<Desc>, data: seq<byte>, h: Frame, x: nat, d: Desc,
                      off: nat, bytes: seq<byte>)
    requires |desc| == c.num && |data| == c.size && x < c.num && off + |bytes| <= c.size
    requires Described(c, desc, data, h) && h.id != x
    requires h.off + |h.bytes| <= off || off + |bytes| <= h.off
    ensures Described(c, desc[x := d], Blit(data, off, bytes), h)
  {
    SliceApart(data, off, bytes, h.off, h.off + |h.bytes|);
  }

  lemma FreeNotInFlight(c: Config, g: Aux, i: nat)
    requires Owned(c, g) && g.free != [] && i < |g.flight|
    ensures g.flight[i].id != g.free[0]
  {
    OwnedOnce(c, g, g.free[0]);
    assert g.free[0] in multiset(g.free);
    assert Ids(g.flight)[i] in multiset(Ids(g.flight));
  }

  function Sent(g: Aux, f: Frame): Aux
    requires g.free != []
  {
    g.(sent := g.sent + [f.bytes], flight := g.flight + [f], free := g.free[1..])
  }

  lemma SentOld(c: Config, m: Shm, t: Tx, g: Aux, f: Frame, i: nat)
    requires ValidConfig(c) && Shaped(c, m) && 0 <= g.Cleaned() && |g.flight| < c.num
    requires InFlight(c, m, g) && i < |g.flight| && Owned(c, g) && g.free != []
    requires t.numFree >= 1 && t.freeHead == g.free[0] == f.id < c.num && t.lastAvail == Trunc16(|g.sent|)
    requires t.head <= c.size && FrameSize(c, |f.bytes|) <= c.size
    requires f.off == Advance(c, t.head, FrameSize(c, |f.bytes|)).0
    requires Apart(c, g.flight[i], f)
    ensures var m' := TxFrame(c, m, t, f.bytes).0;
            && Described(c, m'.desc, m'.data, g.flight[i])
            && m'.avail[(g.Cleaned() + i) % c.num] == g.flight[i].id
  {
    FreeNotInFlight(c, g, i);
    SlotOf(|g.sent|, c.num);
    SlotsDiffer(g.Cleaned() + i, |g.sent|, c.num);
    DescribedKept(c, m.desc, m.data, g.flight[i], f.id,
                  Desc(c.base + f.off, |f.bytes|, 0, m.desc[f.id].next), f.off, f.bytes);
  }

  lemma SentNew(c: Config, m: Shm, t: Tx, g: Aux, f: Frame)
    requires ValidConfig(c) && Shaped(c, m)
    requires t.numFree >= 1 && t.freeHead == f.id < c.num && t.lastAvail == Trunc16(|g.sent|)
    requires t.head <= c.size && FrameSize(c, |f.bytes|) <= c.size && f.bytes != []
    requires f.off == Advance(c, t.head, FrameSize(c, |f.bytes|)).0
    ensures var m' := TxFrame(c, m, t, f.bytes).0;
            && Described(c, m'.desc, m'.data, f)
            && m'.avail[|g.sent| % c.num] == f.id
  {
    SlotOf(|g.sent|, c.num);
  }

  lemma SendFlight(c: Config, m: Shm, t: Tx, g: Aux, f: Frame)
    requires ValidConfig(c) && Shaped(c, m) && 0 <= g.Cleaned() <= g.returned <= |g.sent| && |g.flight| < c.num
    requires InFlight(c, m, g) && Owned(c, g) && g.free != []
    requires t.numFree >= 1 && t.freeHead == g.free[0] == f.id < c.num && t.lastAvail == Trunc16(|g.sent|)
    requires t.head <= c.size && FrameSize(c, |f.bytes|) <= c.size && f.bytes != []
    requires f.off == Advance(c, t.head, FrameSize(c, |f.bytes|)).0
    requires forall i | 0 <= i < |g.flight| :: Apart(c, g.flight[i], f)
    ensures InFlight(c, TxFrame(c, m, t, f.bytes).0, Sent(g, f))
  {
    var g' := Sent(g, f);
    var m' := TxFrame(c, m, t, f.bytes).0;
    forall i | 0 <= i < |g'.flight| ensures FlightAt(c, m', g', i) {
      if i < |g.flight| {
        assert g'.flight[i] == g.flight[i] && Apart(c, g.flight[i], f);
        SentOld(c, m, t, g, f, i);
        assert FlightAt(c, m, g, i);
      } else {
        SentNew(c, m, t, g, f);
      }
    }
  }

  lemma LastApart(c: Config, tail: nat, fs: seq<Frame>, f: Frame, head: nat)
    requires c.line > 0 && LaidOut(c, tail, fs + [f], head)
    ensures forall i | 0 <= i < |fs| :: Apart(c, fs[i], f)
  {
    SpansDisjoint(c, tail, fs + [f], head);
    assert forall i | 0 <= i < |fs| :: (fs + [f])[i] == fs[i] && (fs + [f])[|fs|] == f;
  }

  lemma SendLists(c: Config, m: Shm, t: Tx, batches: seq<Batch>, g: Aux, f: Frame)
    requires ValidConfig(c) && Shaped(c, m) && Lists(c, m.desc, t, batches, g)
    requires t.numFree >= 1 && t.freeHead == f.id < c.num
    requires t.head <= c.size && FrameSize(c, |f.bytes|) <= c.size
    ensures var (m', t') := TxFrame(c, m, t, f.bytes); Lists(c, m'.desc, t', batches, Sent(g, f))
  {
    var (m', t') := TxFrame(c, m, t, f.bytes);
    ListsKept(c, m.desc, m'.desc, t, batches, g, f.id);
    assert g.free[1..] != [] ==> g.free[1..][0] == g.free[1];
  }

  lemma SendOwned(c: Config, g: Aux, f: Frame)
    requires Owned(c, g) && g.free != [] && f.id == g.free[0]
    ensures Owned(c, Sent(g, f))
  {
    assert Ids(g.flight + [f]) == Ids(g.flight) + [f.id];
    assert g.free == [f.id] + g.free[1..];
  }

  lemma SentCounts(c: Config, s: Link, s': Link, g: Aux, f: Frame)
    requires Counted(c, s, g) && Receiving(s, g) && Awake(s, g) && g.free != [] && |g.flight| < c.num
    requires !s.announcing && s'.announcing
    requires s' == s.(m := s'.m, t := s'.t, announcing := true)
    requires s'.m.usedIdx == s.m.usedIdx && s'.m.availEvent == s.m.availEvent
    requires s'.m.availIdx == s'.t.lastAvail == Inc16(s.t.lastAvail)
    requires s'.t.lastUsed == s.t.lastUsed && s'.t.numAdded == s.t.numAdded + 1
    ensures Counted(c, s', Sent(g, f)) && Receiving(s', Sent(g, f)) && Awake(s', Sent(g, f))
  {
    Inc16Trunc(|g.sent|);
  }

  lemma SendKeeps(c: Config, s: Link, g: Aux, bytes: seq<byte>) returns (g': Aux)
    requires Inv(c, s, g) && Formed(c, s) && Enabled(c, s, Send(bytes))
    ensures Inv(c, Step(c, s, Send(bytes)), g') && g'.sent == g.sent + [bytes] && g'.missed == g.missed
  {
    var f := Frame(s.t.freeHead, Advance(c, s.t.head, FrameSize(c, |bytes|)).0, bytes);
    g' := Sent(g, f);
    var s' := Step(c, s, Send(bytes));
    OwnedCount(c, g);
    PlaceIffFits(c, s.t.tail, g.flight, s.t.head, f);
    LastApart(c, s.t.tail, g.flight, f, s'.t.head);
    SendFlight(c, s.m, s.t, g, f);
    SendOwned(c, g, f);
    SendLists(c, s.m, s.t, s.batches, g, f);
    SentCounts(c, s, s', g, f);
  }

  /** A receiver that armed the event index for exactly the frame just published is rung. */
  lemma RingsForAwaited(m: Shm, t: Tx, n: nat)
    requires t.lastAvail == Trunc16(n + 1) && t.numAdded == 1 && m.availEvent == Trunc16(n)
    ensures RingsDoorbell(m, t)
  {
    var e := Trunc16(n);
    assert t.lastAvail == Trunc16(e + 1);
    Trunc16Range(e + 1);
    Trunc16Range(t.lastAvail - 1);
    Trunc16Range(t.lastAvail - e - 1);
    Trunc16Range(t.lastAvail - e);
  }

  /** The receiver waits for the first frame of several: the latest one does not ring. */
  lemma QuietForLater(m: Shm, t: Tx, waiting: nat, n: nat)
    requires waiting < n < waiting + U16 && m.availEvent == Trunc16(waiting)
    requires t.lastAvail == Trunc16(n + 1) && t.numAdded == 1
    ensures n + 1 < waiting + U16 ==> !RingsDoorbell(m, t)
  {
    if n + 1 < waiting + U16 {
      assert Trunc16(t.lastAvail - t.numAdded) == Trunc16(n) by { Trunc16Range(t.lastAvail - 1); }
      NeedEventCounters(waiting, n + 1, n);
    }
  }

  lemma AnnounceKeeps(c: Config, s: Link, g: Aux)
    requires Inv(c, s, g) && Formed(c, s) && Enabled(c, s, Announce)
    ensures Inv(c, Step(c, s, Announce), g)
  {
    if s.pc.Idle? && |g.sent| == g.taken + 1 {
      RingsForAwaited(s.m, s.t, g.taken);
    }
    if g.missed {
      QuietForLater(s.m, s.t, g.taken, |g.sent| - 1);
    }
    var s' := Step(c, s, Announce);
    assert Lists(c, s'.m.desc, s'.t, s'.batches, g);
    assert Counted(c, s', g) && Receiving(s', g) && Awake(s', g);
  }

  // ---------------------------------------------------------------- cleaning

  /** A link whose cleaner has swept as far as `w`, with the reclaimed descriptors as the
      last batch. */
  function Swept(s: Link, w: Sweep): Link {
    s.(m := s.m.(desc := w.desc), t := s.t.(tail := w.tail, lastUsed := w.last),
       batches := if w.batch.num == 0 then s.batches else s.batches + [w.batch])
  }

  /** The oldest frame in flight, given back by the receiver, joins the front of the batch. */
  function Reclaimed(g: Aux, first: bool): Aux
    requires g.flight != [] && (first || g.chains != [])
  {
    var id := g.flight[0].id;
    g.(flight := g.flight[1..],
       chains := if first then g.chains + [[id]]
                 else g.chains[..|g.chains| - 1] + [[id] + g.chains[|g.chains| - 1]])
  }

  /** With an in-order receiver none of the breaks in the loop of ivshm_tx_clean fires. */
  lemma SweepAdvances(c: Config, s: Link, g: Aux, w: Sweep)
    requires Inv(c, Swept(s, w), g) && g.Cleaned() < g.returned
    requires w.batch.num == 0 || (w.batch.fdesc < c.num && w.batch.fhead < c.num)
    requires |w.desc| == c.num
    ensures g.flight != []
    ensures var room := Room(c, g.flight[0]);
            SweepOne(c, s.m.used, w) == Some(
              if w.batch.num == 0
              then Sweep(w.desc, Advance(c, w.tail, room).1, Inc16(w.last), Batch(g.flight[0].id, g.flight[0].id, 1))
              else Sweep(w.desc[g.flight[0].id := w.desc[g.flight[0].id].(next := w.batch.fhead)],
                         Advance(c, w.tail, room).1, Inc16(w.last),
                         Batch(w.batch.fdesc, g.flight[0].id, w.batch.num + 1)))
  {
    var f := g.flight[0];
    assert Described(c, w.desc, s.m.data, g.flight[0]);
    assert s.m.used[(g.Cleaned() + 0) % c.num] == UsedElem(g.flight[0].id, 1);
    SlotOf(g.Cleaned(), c.num);
    TailReplaysHead(c, w.tail, g.flight, s.t.head);
    SpansDisjoint(c, w.tail, g.flight, s.t.head);
  }

  lemma PoolReplaceLast(chains: seq<seq<nat>>, id: nat)
    requires chains != []
    ensures Pool(chains[..|chains| - 1] + [[id] + chains[|chains| - 1]]) == Pool(chains) + multiset{id}
  {
    var front, last := chains[..|chains| - 1], chains[|chains| - 1];
    PoolAppend(front, [id] + last);
    assert multiset([id] + last) == multiset(last) + multiset{id};
  }

  lemma ReclaimOwned(c: Config, g: Aux, first: bool)
    requires Owned(c, g) && g.flight != [] && (first || g.chains != [])
    ensures Owned(c, Reclaimed(g, first))
  {
    var id := g.flight[0].id;
    assert multiset(Ids(g.flight)) == multiset{id} + multiset(Ids(g.flight[1..])) by {
      assert Ids(g.flight) == [id] + Ids(g.flight[1..]);
    }
    assert Pool(Reclaimed(g, first).chains) == Pool(g.chains) + multiset{id} by {
      if first { PoolAppend(g.chains, [id]); } else { PoolReplaceLast(g.chains, id); }
    }
  }

  lemma FlightNotListed(c: Config, g: Aux, i: nat)
    requires Owned(c, g) && i < |g.flight|
    ensures g.flight[i].id !in g.free && Pool(g.chains)[g.flight[i].id] == 0
    ensures forall j | 0 <= j < |g.flight| && j != i :: g.flight[j].id != g.flight[i].id
  {
    var id := g.flight[i].id;
    var ids := Ids(g.flight);
    OwnedOnce(c, g, id);
    assert ids[i] in multiset(ids);
    assert id in g.free ==> id in multiset(g.free);
    assert ids == ids[..i] + [id] + ids[i + 1..];
    forall j | 0 <= j < |g.flight| && j != i ensures g.flight[j].id != id {
      assert g.flight[j].id == ids[j] && ids[j] in multiset(if j < i then ids[..i] else ids[i + 1..]) by {
        if j < i { assert ids[j] == ids[..i][j]; } else { assert ids[j] == ids[i + 1..][j - i - 1]; }
      }
    }
  }

  lemma ReclaimFirst(c: Config, desc: seq<Desc>, t: Tx, batches: seq<Batch>, g: Aux)
    requires g.flight != [] && g.flight[0].id < c.num && |desc| == c.num
    requires Lists(c, desc, t, batches, g)
    ensures Lists(c, desc, t, batches + [Batch(g.flight[0].id, g.flight[0].id, 1)], Reclaimed(g, true))
  {
    forall j | 0 <= j < |batches| ensures IsBatch(c, desc, batches[j], Reclaimed(g, true).chains[j]) {
      assert IsBatch(c, desc, batches[j], g.chains[j]);
    }
  }

  lemma ChainGrows(c: Config, desc: seq<Desc>, b: Batch, ids: seq<nat>, id: nat)
    requires |desc| == c.num && id < c.num && IsBatch(c, desc, b, ids)
    requires desc[id].next == b.fhead
    ensures IsBatch(c, desc, Batch(b.fdesc, id, b.num + 1), [id] + ids)
  {
    var all := [id] + ids;
    forall i | 0 < i < |all| ensures desc[all[i - 1]].next == all[i] {
      if i > 1 { assert desc[ids[i - 2]].next == ids[i - 1]; }
    }
  }

  lemma BatchesSwapLast(c: Config, desc: seq<Desc>, t: Tx, batches: seq<Batch>, g: Aux,
                        b: Batch, b': Batch, ids: seq<nat>)
    requires |desc| == c.num && Lists(c, desc, t, batches + [b], g) && IsBatch(c, desc, b', ids)
    ensures Lists(c, desc, t, batches + [b'], g.(chains := g.chains[..|g.chains| - 1] + [ids]))
  {
    forall j | 0 <= j < |batches| ensures IsBatch(c, desc, batches[j], g.chains[j]) {
      assert IsBatch(c, desc, (batches + [b])[j], g.chains[j]);
    }
  }

  lemma ReclaimNext(c: Config, desc: seq<Desc>, t: Tx, batches: seq<Batch>, g: Aux, b: Batch)
    requires Owned(c, g) && g.flight != [] && g.flight[0].id < c.num && |desc| == c.num
    requires Lists(c, desc, t, batches + [b], g)
    ensures Lists(c, desc[g.flight[0].id := desc[g.flight[0].id].(next := b.fhead)], t,
                  batches + [Batch(b.fdesc, g.flight[0].id, b.num + 1)], Reclaimed(g, false))
  {
    var id, n := g.flight[0].id, |batches|;
    var desc' := desc[id := desc[id].(next := b.fhead)];
    FlightNotListed(c, g, 0);
    ListsKept(c, desc, desc', t, batches + [b], g, id);
    assert IsBatch(c, desc', (batches + [b])[n], g.chains[n]);
    ChainGrows(c, desc', b, g.chains[n], id);
    var g' := g.(chains := g.chains[..n] + [[id] + g.chains[n]]);
    BatchesSwapLast(c, desc', t, batches, g, b, Batch(b.fdesc, id, b.num + 1), [id] + g.chains[n]);
    assert Lists(c, desc', t, batches + [Batch(b.fdesc, id, b.num + 1)], g');
  }

  lemma ReclaimFlight(c: Config, m: Shm, desc': seq<Desc>, g: Aux, first: bool)
    requires ValidConfig(c) && Shaped(c, m) && 0 <= g.Cleaned() < g.returned
    requires g.flight != [] && (first || g.chains != []) && g.flight[0].id < c.num
    requires |desc'| == c.num && Owned(c, g) && InFlight(c, m, g)
    requires forall k | 0 <= k < c.num && k != g.flight[0].id :: desc'[k] == m.desc[k]
    ensures InFlight(c, m.(desc := desc'), Reclaimed(g, first))
  {
    forall i | 0 <= i < |g.flight| - 1 ensures FlightAt(c, m.(desc := desc'), Reclaimed(g, first), i) {
      LaterDescribed(c, m, desc', g, i + 1);
      assert FlightAt(c, m, g, i + 1);
      FlightShifts(c, m, desc', g, first, i);
    }
    assert |Reclaimed(g, first).flight| == |g.flight| - 1;
  }

  /** What is said of a frame in flight stays true when an older frame leaves. */
  lemma FlightShifts(c: Config, m: Shm, desc': seq<Desc>, g: Aux, first: bool, i: nat)
    requires c.num > 0 && Shaped(c, m) && 0 <= g.Cleaned() && i + 1 < |g.flight| && (first || g.chains != [])
    requires FlightAt(c, m, g, i + 1) && |desc'| == c.num && Described(c, desc', m.data, g.flight[i + 1])
    ensures FlightAt(c, m.(desc := desc'), Reclaimed(g, first), i)
  {
    assert Reclaimed(g, first).Cleaned() + i == g.Cleaned() + (i + 1);
  }

  lemma LaterDescribed(c: Config, m: Shm, desc': seq<Desc>, g: Aux, i: nat)
    requires c.num > 0 && Shaped(c, m) && g.Cleaned() >= 0 && InFlight(c, m, g) && Owned(c, g)
    requires 0 < i < |g.flight| && |desc'| == c.num
    requires forall k | 0 <= k < c.num && k != g.flight[0].id :: desc'[k] == m.desc[k]
    ensures Described(c, desc', m.data, g.flight[i])
  {
    FlightNotListed(c, g, 0);
    assert Described(c, m.desc, m.data, g.flight[i]);
    DescribedElsewhere(c, m.desc, desc', m.data, g.flight[i]);
  }

  lemma DescribedElsewhere(c: Config, desc: seq<Desc>, desc': seq<Desc>, data: seq<byte>, f: Frame)
    requires |desc| == |desc'| == c.num && |data| == c.size && Described(c, desc, data, f) && desc'[f.id] == desc[f.id]
    ensures Described(c, desc', data, f)
  {
  }

  lemma SweepLists(c: Config, desc: seq<Desc>, t: Tx, t': Tx, batches: seq<Batch>, g: Aux, b: Batch, id: nat)
    requires Owned(c, g) && g.flight != [] && g.flight[0].id == id < c.num && |desc| == c.num
    requires Lists(c, desc, t, if b.num == 0 then batches else batches + [b], g)
    requires t'.freeHead == t.freeHead && t'.numFree == t.numFree
    ensures Lists(c, if b.num == 0 then desc else desc[id := desc[id].(next := b.fhead)], t',
                  batches + [if b.num == 0 then Batch(id, id, 1) else Batch(b.fdesc, id, b.num + 1)],
                  Reclaimed(g, b.num == 0))
  {
    if b.num == 0 {
      ReclaimFirst(c, desc, t, batches, g);
    } else {
      ReclaimNext(c, desc, t, batches, g, b);
    }
  }

  lemma SweptCounts(c: Config, before: Link, after: Link, g: Aux, first: bool)
    requires g.flight != [] && (first || g.chains != []) && g.Cleaned() < g.returned
    requires Counted(c, before, g) && Receiving(before, g) && Awake(before, g)
    requires after == before.(m := before.m.(desc := after.m.desc), t := after.t, batches := after.batches)
    requires after.t == before.t.(tail := after.t.tail, lastUsed := Inc16(before.t.lastUsed))
    ensures var g' := Reclaimed(g, first); Counted(c, after, g') && Receiving(after, g') && Awake(after, g')
  {
    Inc16Trunc(g.Cleaned());
  }

  lemma SweepMemory(c: Config, s: Link, g: Aux, w: Sweep)
    requires Inv(c, Swept(s, w), g) && g.Cleaned() < g.returned && |w.desc| == c.num
    requires w.batch.num == 0 || (w.batch.fdesc < c.num && w.batch.fhead < c.num)
    ensures SweepOne(c, s.m.used, w).Some? && g.flight != [] && (w.batch.num == 0 || g.chains != [])
    ensures var g', after := Reclaimed(g, w.batch.num == 0), Swept(s, SweepOne(c, s.m.used, w).value);
            InFlight(c, after.m, g') && LaidOut(c, after.t.tail, g'.flight, s.t.head)
  {
    SweepAdvances(c, s, g, w);
    var w' := SweepOne(c, s.m.used, w).value;
    assert Described(c, w.desc, s.m.data, g.flight[0]);
    ReclaimFlight(c, Swept(s, w).m, w'.desc, g, w.batch.num == 0);
    TailReplaysHead(c, w.tail, g.flight, s.t.head);
  }

  lemma SweepOwners(c: Config, s: Link, g: Aux, w: Sweep)
    requires Inv(c, Swept(s, w), g) && g.Cleaned() < g.returned && |w.desc| == c.num
    requires w.batch.num == 0 || (w.batch.fdesc < c.num && w.batch.fhead < c.num)
    ensures SweepOne(c, s.m.used, w).Some? && g.flight != [] && (w.batch.num == 0 || g.chains != [])
    ensures var g', after := Reclaimed(g, w.batch.num == 0), Swept(s, SweepOne(c, s.m.used, w).value);
            Owned(c, g') && Lists(c, after.m.desc, after.t, after.batches, g')
  {
    SweepAdvances(c, s, g, w);
    var after := Swept(s, SweepOne(c, s.m.used, w).value);
    assert Described(c, w.desc, s.m.data, g.flight[0]);
    ReclaimOwned(c, g, w.batch.num == 0);
    SweepLists(c, w.desc, Swept(s, w).t, after.t, s.batches, g, w.batch, g.flight[0].id);
  }

  lemma SweepOneKeeps(c: Config, s: Link, g: Aux, w: Sweep) returns (g': Aux)
    requires Inv(c, Swept(s, w), g) && g.Cleaned() < g.returned && |w.desc| == c.num
    requires w.batch.num == 0 || (w.batch.fdesc < c.num && w.batch.fhead < c.num)
    ensures SweepOne(c, s.m.used, w).Some?
    ensures Inv(c, Swept(s, SweepOne(c, s.m.used, w).value), g')
    ensures g' == g.(flight := g'.flight, chains := g'.chains) && g'.Cleaned() == g.Cleaned() + 1
  {
    SweepMemory(c, s, g, w);
    SweepOwners(c, s, g, w);
    g' := Reclaimed(g, w.batch.num == 0);
    SweptCounts(c, Swept(s, w), Swept(s, SweepOne(c, s.m.used, w).value), g, w.batch.num == 0);
  }

  lemma SweepUnfolds(c: Config, used: seq<UsedElem>, usedIdx: nat, w: Sweep)
    requires ValidConfig(c) && |used| == c.num && |w.desc| == c.num
    requires w.batch.num == 0 || (w.batch.fdesc < c.num && w.batch.fhead < c.num)
    requires usedIdx < U16 && w.last < U16 && w.last != usedIdx && SweepOne(c, used, w).Some?
    ensures SweepAll(c, used, usedIdx, w) == SweepAll(c, used, usedIdx, SweepOne(c, used, w).value)
  {
  }

  /** ivshm_tx_clean always reaches the used index it read. */
  lemma {:induction false} SweepKeeps(c: Config, s: Link, g: Aux, w: Sweep) returns (g': Aux)
    requires Inv(c, Swept(s, w), g) && |w.desc| == c.num && w.last < U16 && s.m.usedIdx < U16
    requires w.batch.num == 0 || (w.batch.fdesc < c.num && w.batch.fhead < c.num)
    ensures Inv(c, Swept(s, SweepAll(c, s.m.used, s.m.usedIdx, w)), g')
    ensures SweepAll(c, s.m.used, s.m.usedIdx, w).last == s.m.usedIdx
    ensures g' == g.(flight := g'.flight, chains := g'.chains) && g'.Cleaned() == g.returned
    decreases g.returned - g.Cleaned()
  {
    Trunc16Injective(g.Cleaned(), g.returned);
    if w.last == s.m.usedIdx {
      g' := g;
    } else {
      var h := SweepOneKeeps(c, s, g, w);
      SweepUnfolds(c, s.m.used, s.m.usedIdx, w);
      g' := SweepKeeps(c, s, h, SweepOne(c, s.m.used, w).value);
    }
  }

  lemma CleanKeeps(c: Config, s: Link, g: Aux) returns (g': Aux)
    requires Inv(c, s, g) && Formed(c, s)
    ensures Inv(c, Step(c, s, Clean), g') && g'.sent == g.sent && g'.missed == g.missed
    ensures g'.Cleaned() == g'.returned
  {
    var w := Sweep(s.m.desc, s.t.tail, s.t.lastUsed, EmptyBatch);
    assert Swept(s, w) == s;
    g' := SweepKeeps(c, s, g, w);
    assert Step(c, s, Clean) == Swept(s, SweepAll(c, s.m.used, s.m.usedIdx, w));
  }

  // ---------------------------------------------------------------- splicing

  function Without<T>(xs: seq<T>, i: nat): seq<T>
    requires i < |xs|
  {
    xs[..i] + xs[i + 1..]
  }

  function Spliced(g: Aux, i: nat): Aux
    requires i < |g.chains|
  {
    g.(free := g.chains[i] + g.free, chains := Without(g.chains, i))
  }

  lemma BatchEnd(c: Config, desc: seq<Desc>, b: Batch, g: Aux, i: nat)
    requires Owned(c, g) && i < |g.chains| && |desc| == c.num && IsBatch(c, desc, b, g.chains[i])
    ensures b.fdesc !in g.free && Pool(Without(g.chains, i))[b.fdesc] == 0
    ensures forall k | 0 <= k < |g.chains[i]| - 1 :: g.chains[i][k] != b.fdesc
  {
    var ids := g.chains[i];
    var n := |ids| - 1;
    PoolRemove(g.chains, i);
    OwnedOnce(c, g, b.fdesc);
    assert ids == ids[..n] + [b.fdesc];
    assert b.fdesc in g.free ==> b.fdesc in multiset(g.free);
    assert forall k | 0 <= k < n :: ids[k] in multiset(ids[..n]);
  }

  lemma LinkedJoin(c: Config, desc: seq<Desc>, xs: seq<nat>, ys: seq<nat>)
    requires |desc| == c.num && Linked(c, desc, xs) && Linked(c, desc, ys) && xs != []
    requires ys != [] ==> desc[xs[|xs| - 1]].next == ys[0]
    ensures Linked(c, desc, xs + ys)
  {
    var all := xs + ys;
    forall k | 0 < k < |all| ensures desc[all[k - 1]].next == all[k] {
      if k > |xs| { assert desc[ys[k - |xs| - 1]].next == ys[k - |xs|]; }
    }
  }

  lemma WithoutLists(c: Config, desc: seq<Desc>, t: Tx, batches: seq<Batch>, g: Aux, i: nat)
    requires |desc| == c.num && Lists(c, desc, t, batches, g) && i < |batches|
    ensures Lists(c, desc, t, Without(batches, i), g.(chains := Without(g.chains, i)))
  {
    forall j | 0 <= j < |batches| - 1 ensures IsBatch(c, desc, Without(batches, i)[j], Without(g.chains, i)[j]) {
      var k := if j < i then j else j + 1;
      assert IsBatch(c, desc, batches[k], g.chains[k]);
    }
  }

  lemma SpliceLists(c: Config, desc: seq<Desc>, t: Tx, batches: seq<Batch>, g: Aux, i: nat)
    requires |desc| == c.num && Owned(c, g) && Lists(c, desc, t, batches, g) && i < |batches|
    requires batches[i].fdesc < c.num
    ensures var b := batches[i];
            Lists(c, desc[b.fdesc := desc[b.fdesc].(next := t.freeHead)],
                  t.(freeHead := b.fhead, numFree := t.numFree + b.num), Without(batches, i), Spliced(g, i))
  {
    var b, ids := batches[i], g.chains[i];
    var desc' := desc[b.fdesc := desc[b.fdesc].(next := t.freeHead)];
    var rest := g.(chains := Without(g.chains, i));
    assert IsBatch(c, desc, b, ids);
    assert Lists(c, desc', t, Without(batches, i), rest) by {
      BatchEnd(c, desc, b, g, i);
      WithoutLists(c, desc, t, batches, g, i);
      ListsKept(c, desc, desc', t, Without(batches, i), rest, b.fdesc);
    }
    assert Linked(c, desc', ids) by {
      BatchEnd(c, desc, b, g, i);
      LinkedKept(c, desc, desc', ids);
    }
    JoinLists(c, desc', t, Without(batches, i), rest, b, ids);
  }

  lemma JoinLists(c: Config, desc: seq<Desc>, t: Tx, batches: seq<Batch>, g: Aux, b: Batch, ids: seq<nat>)
    requires |desc| == c.num && Lists(c, desc, t, batches, g) && IsBatch(c, desc, b, ids)
    requires desc[b.fdesc].next == t.freeHead
    ensures Lists(c, desc, t.(freeHead := b.fhead, numFree := t.numFree + b.num), batches, g.(free := ids + g.free))
  {
    LinkedJoin(c, desc, ids, g.free);
  }

  /** Frames in flight do not depend on the `next` links. */
  lemma FlightIgnoresLinks(c: Config, m: Shm, x: nat, next: nat, g: Aux)
    requires Shaped(c, m) && c.num > 0 && g.Cleaned() >= 0 && InFlight(c, m, g) && x < c.num
    ensures InFlight(c, m.(desc := m.desc[x := m.desc[x].(next := next)]), g)
  {
    var m' := m.(desc := m.desc[x := m.desc[x].(next := next)]);
    forall k | 0 <= k < |g.flight| ensures FlightAt(c, m', g, k) {
      var f := g.flight[k];
      assert FlightAt(c, m, g, k);
    }
  }

  lemma FlightSame(c: Config, m: Shm, g: Aux, g': Aux)
    requires Shaped(c, m) && c.num > 0 && g.Cleaned() >= 0 && InFlight(c, m, g)
    requires g'.sent == g.sent && g'.flight == g.flight && g'.returned == g.returned
    ensures InFlight(c, m, g')
  {
    forall k | 0 <= k < |g.flight| ensures FlightAt(c, m, g', k) {
      var f := g.flight[k];
      assert FlightAt(c, m, g, k);
    }
  }

  lemma SplicedCounts(c: Config, s: Link, s': Link, g: Aux, g': Aux)
    requires Counted(c, s, g) && Receiving(s, g) && Awake(s, g)
    requires g' == g.(free := g'.free, chains := g'.chains)
    requires s' == s.(m := s.m.(desc := s'.m.desc), t := s.t.(freeHead := s'.t.freeHead, numFree := s'.t.numFree),
                      batches := s'.batches)
    ensures Counted(c, s', g') && Receiving(s', g') && Awake(s', g')
  {
  }

  lemma SpliceMemory(c: Config, s: Link, g: Aux, i: nat)
    requires Inv(c, s, g) && Formed(c, s) && Enabled(c, s, Splice(i))
    ensures i < |g.chains| && InFlight(c, Step(c, s, Splice(i)).m, Spliced(g, i))
  {
    FlightIgnoresLinks(c, s.m, s.batches[i].fdesc, s.t.freeHead, g);
    FlightSame(c, Step(c, s, Splice(i)).m, g, Spliced(g, i));
  }

  lemma SplicedOwned(c: Config, g: Aux, i: nat)
    requires Owned(c, g) && i < |g.chains|
    ensures Owned(c, Spliced(g, i))
  {
    PoolRemove(g.chains, i);
  }

  lemma SpliceStep(c: Config, s: Link, i: nat)
    requires Formed(c, s) && Enabled(c, s, Splice(i))
    ensures var s', b := Step(c, s, Splice(i)), s.batches[i];
            && b.fdesc < c.num
            && s'.m.desc == s.m.desc[b.fdesc := s.m.desc[b.fdesc].(next := s.t.freeHead)]
            && s'.t == s.t.(freeHead := b.fhead, numFree := s.t.numFree + b.num)
            && s'.batches == Without(s.batches, i)
  {
  }

  lemma SpliceOwners(c: Config, s: Link, g: Aux, i: nat)
    requires Inv(c, s, g) && Formed(c, s) && Enabled(c, s, Splice(i))
    ensures i < |g.chains| && Owned(c, Spliced(g, i))
    ensures var s' := Step(c, s, Splice(i));
            |s'.m.desc| == c.num && Lists(c, s'.m.desc, s'.t, s'.batches, Spliced(g, i))
  {
    SpliceStep(c, s, i);
    SplicedOwned(c, g, i);
    SpliceLists(c, s.m.desc, s.t, s.batches, g, i);
  }

  lemma SpliceKeeps(c: Config, s: Link, g: Aux, i: nat) returns (g': Aux)
    requires Inv(c, s, g) && Formed(c, s) && Enabled(c, s, Splice(i))
    ensures Inv(c, Step(c, s, Splice(i)), g') && g'.sent == g.sent && g'.missed == g.missed
  {
    SpliceMemory(c, s, g, i);
    SpliceOwners(c, s, g, i);
    g' := Spliced(g, i);
    SplicedCounts(c, s, Step(c, s, Splice(i)), g, g');
  }

  // ---------------------------------------------------------------- receiving

  /** The descriptor of a frame in flight passes the checks of ivshm_desc_data. */
  lemma DescribedAccepted(c: Config, m: Shm, f: Frame)
    requires ValidConfig(c) && Shaped(c, m) && Described(c, m.desc, m.data, f)
    ensures DescData(c, m.desc[f.id]) == Some((f.off, |f.bytes|))
  {
  }

  /** ivshm_rx_desc yields the oldest frame the receiver has not taken, if there is one. */
  lemma TakesOldest(c: Config, s: Link, g: Aux)
    requires Inv(c, s, g) && s.pc.Polling?
    ensures g.taken == |g.sent| ==> RxDesc(c, s.m, s.r) == (s.r, None)
    ensures g.taken < |g.sent| ==>
      var i := g.taken - g.Cleaned();
      && i < |g.flight|
      && RxDesc(c, s.m, s.r) == (Rx(Trunc16(g.taken + 1), s.r.lastUsed), Some(g.flight[i].id))
      && g.flight[i].id < c.num
      && DescData(c, s.m.desc[g.flight[i].id]).Some?
  {
    Trunc16Injective(g.taken, |g.sent|);
    if g.taken < |g.sent| {
      var i := g.taken - g.Cleaned();
      assert Described(c, s.m.desc, s.m.data, g.flight[i]);
      assert s.m.avail[(g.Cleaned() + i) % c.num] == g.flight[i].id;
      SlotOf(g.taken, c.num);
      DescribedAccepted(c, s.m, g.flight[i]);
      Inc16Trunc(g.taken);
    }
  }

  lemma TakenCounts(c: Config, s: Link, s': Link, g: Aux, id: nat)
    requires Counted(c, s, g) && Receiving(s, g) && Awake(s, g) && s.pc.Polling?
    requires g.taken < |g.sent| && id == g.flight[g.taken - g.Cleaned()].id
    requires s' == s.(r := Rx(Trunc16(g.taken + 1), s.r.lastUsed), pc := Holding(id))
    ensures var g' := g.(taken := g.taken + 1, missed := false);
            Counted(c, s', g') && Receiving(s', g') && Awake(s', g')
  {
  }

  /** A step of the receiver that leaves shared memory and the sender alone. */
  lemma ReceiverMoves(c: Config, s: Link, s': Link, g: Aux, g': Aux)
    requires Inv(c, s, g) && g' == g.(taken := g'.taken, missed := g'.missed)
    requires s'.m == s.m && s'.t == s.t && s'.batches == s.batches
    requires Counted(c, s', g') && Receiving(s', g') && Awake(s', g')
    ensures Inv(c, s', g')
  {
    FlightSame(c, s.m, g, g');
  }

  lemma TakeKeeps(c: Config, s: Link, g: Aux) returns (g': Aux)
    requires Inv(c, s, g) && Formed(c, s) && Enabled(c, s, Take)
    ensures Inv(c, Step(c, s, Take), g') && g'.sent == g.sent && !g'.missed
    ensures g'.taken == if g.taken < |g.sent| then g.taken + 1 else g.taken
  {
    TakesOldest(c, s, g);
    if g.taken == |g.sent| {
      g' := g;
    } else {
      g' := g.(taken := g.taken + 1, missed := false);
      var id := g.flight[g.taken - g.Cleaned()].id;
      var s' := Step(c, s, Take);
      assert s' == s.(r := Rx(Trunc16(g.taken + 1), s.r.lastUsed), pc := Holding(id));
      TakenCounts(c, s, s', g, id);
      ReceiverMoves(c, s, s', g, g');
    }
  }

  lemma PushDelivers(c: Config, s: Link, g: Aux)
    requires Inv(c, s, g) && s.pc.Holding?
    ensures s.pc.id < c.num && g.returned < |g.sent|
    ensures DescData(c, s.m.desc[s.pc.id]).Some?
    ensures var (off, len) := DescData(c, s.m.desc[s.pc.id]).value; s.m.data[off..off + len] == g.sent[g.returned]
  {
    var i := g.returned - g.Cleaned();
    assert Described(c, s.m.desc, s.m.data, g.flight[i]);
    DescribedAccepted(c, s.m, g.flight[i]);
    assert g.sent[g.Cleaned() + i] == g.flight[i].bytes;
  }

  lemma PushedCounts(c: Config, s: Link, s': Link, g: Aux)
    requires Counted(c, s, g) && Receiving(s, g) && Awake(s, g) && s.pc.Holding?
    requires s' == s.(pc := Pushed(s.pc.id), delivered := s.delivered + [g.sent[g.returned]])
    ensures Counted(c, s', g) && Receiving(s', g) && Awake(s', g)
  {
    assert g.sent[..g.taken] == g.sent[..g.returned] + [g.sent[g.returned]];
  }

  lemma PushKeeps(c: Config, s: Link, g: Aux)
    requires Inv(c, s, g) && Formed(c, s) && Enabled(c, s, Push)
    ensures Inv(c, Step(c, s, Push), g)
    ensures Step(c, s, Push).pc.Pushed?
  {
    PushDelivers(c, s, g);
    var s' := Step(c, s, Push);
    PushedCounts(c, s, s', g);
    ReceiverMoves(c, s, s', g, g);
  }

  lemma FinishFlight(c: Config, m: Shm, r: Rx, g: Aux, id: nat)
    requires ValidConfig(c) && Shaped(c, m) && 0 <= g.Cleaned() <= g.returned < |g.sent| && |g.flight| <= c.num
    requires InFlight(c, m, g) && r.lastUsed == Trunc16(g.returned)
    requires id == g.flight[g.returned - g.Cleaned()].id
    ensures InFlight(c, RxFinish(c, m, r, id).0, g.(returned := g.returned + 1))
  {
    var g' := g.(returned := g.returned + 1);
    var m' := m.(used := m.used[g.returned % c.num := UsedElem(id, 1)], usedIdx := Inc16(r.lastUsed));
    assert RxFinish(c, m, r, id).0 == m' by { SlotOf(g.returned, c.num); }
    forall i | 0 <= i < |g.flight| ensures FlightAt(c, m', g', i) {
      var f := g.flight[i];
      assert FlightAt(c, m, g, i);
      if g.Cleaned() + i < g.returned {
        SlotsDiffer(g.Cleaned() + i, g.returned, c.num);
      }
    }
  }

  lemma FinishedCounts(c: Config, s: Link, s': Link, g: Aux)
    requires Counted(c, s, g) && Receiving(s, g) && Awake(s, g) && s.pc.Pushed?
    requires s' == s.(m := s'.m, r := s'.r, pc := Finished)
    requires s'.m.availIdx == s.m.availIdx && s'.r == s.r.(lastUsed := Inc16(s.r.lastUsed))
    requires s'.m.usedIdx == s'.r.lastUsed
    ensures var g' := g.(returned := g.returned + 1); Counted(c, s', g') && Receiving(s', g') && Awake(s', g')
  {
    Inc16Trunc(g.returned);
  }

  lemma FinishKeeps(c: Config, s: Link, g: Aux) returns (g': Aux)
    requires Inv(c, s, g) && Formed(c, s) && Enabled(c, s, Finish)
    ensures Inv(c, Step(c, s, Finish), g') && g'.sent == g.sent && g'.taken == g.taken && g'.missed == g.missed
  {
    g' := g.(returned := g.returned + 1);
    var s' := Step(c, s, Finish);
    FinishFlight(c, s.m, s.r, g, s.pc.id);
    FinishedCounts(c, s, s', g);
  }

  /** Interrupts, wake-ups and time-outs leave everything but the waiting alone. */
  lemma WaitingKeeps(c: Config, s: Link, g: Aux, e: Event) returns (g': Aux)
    requires Inv(c, s, g) && Formed(c, s) && Enabled(c, s, e)
    requires e.Interrupt? || e.Wake? || e.Timeout?
    ensures Inv(c, Step(c, s, e), g') && g' == g.(missed := MissedAfter(s, e, g.missed))
  {
    g' := g.(missed := MissedAfter(s, e, g.missed));
    WaitingCounts(c, s, g, e);
    ReceiverMoves(c, s, Step(c, s, e), g, g');
  }

  lemma WaitingCounts(c: Config, s: Link, g: Aux, e: Event)
    requires c.num <= 4096 && Counted(c, s, g) && Receiving(s, g) && Awake(s, g) && Formed(c, s) && Enabled(c, s, e)
    requires e.Interrupt? || e.Wake? || e.Timeout?
    ensures var s', g' := Step(c, s, e), g.(missed := MissedAfter(s, e, g.missed));
            && s'.m == s.m && s'.t == s.t && s'.batches == s.batches
            && Counted(c, s', g') && Receiving(s', g') && Awake(s', g')
  {
    Trunc16Injective(g.taken, |g.sent|);
  }

  lemma LookingKeeps(c: Config, s: Link, g: Aux, e: Event)
    requires Inv(c, s, g) && Formed(c, s) && Enabled(c, s, e) && (e.Arm? || e.Look?)
    ensures Inv(c, Step(c, s, e), g) && !g.missed
  {
    Trunc16Injective(g.taken, |g.sent|);
    if e.Arm? {
      ArmedFlight(c, s.m, g, s.r.lastAvail);
    }
  }

  lemma ArmedFlight(c: Config, m: Shm, g: Aux, event: nat)
    requires Shaped(c, m) && c.num > 0 && g.Cleaned() >= 0 && InFlight(c, m, g)
    ensures InFlight(c, m.(availEvent := event), g)
  {
    forall i | 0 <= i < |g.flight| ensures FlightAt(c, m.(availEvent := event), g, i) {
      var f := g.flight[i];
      assert FlightAt(c, m, g, i);
    }
  }

  // ---------------------------------------------------------------- every step

  lemma StepKeeps(c: Config, s: Link, g: Aux, e: Event) returns (g': Aux)
    requires Inv(c, s, g) && Formed(c, s) && Enabled(c, s, e)
    ensures Inv(c, Step(c, s, e), g')
    ensures g'.sent == if e.Send? then g.sent + [e.bytes] else g.sent
    ensures g'.missed == MissedAfter(s, e, g.missed)
  {
    match e
    case Send(bytes) => g' := SendKeeps(c, s, g, bytes);
    case Announce => AnnounceKeeps(c, s, g); g' := g;
    case Clean => g' := CleanKeeps(c, s, g);
    case Splice(i) => g' := SpliceKeeps(c, s, g, i);
    case Take => g' := TakeKeeps(c, s, g);
    case Push => PushKeeps(c, s, g); g' := g;
    case Finish => g' := FinishKeeps(c, s, g);
    case Arm => LookingKeeps(c, s, g, e); g' := g;
    case Look => LookingKeeps(c, s, g, e); g' := g;
    case _ => g' := WaitingKeeps(c, s, g, e);
  }
}

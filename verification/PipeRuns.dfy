/** What holds of one direction of the pipe over every run from bring-up: it is a FIFO of
    frames, no wake-up is lost, descriptors and data space are never owned twice. */
module PipeRuns {
  import opened Words
  import opened ByteRing
  import opened Vring
  import opened Pipe
  import opened PipeSteps

  /** The state ivshm_init_queues leaves behind: zeroed memory, the free list threaded
      through all descriptors in order, and a receiver that has yet to reach RUN. */
  ghost predicate Fresh(c: Config, s: Link) {
    && ValidConfig(c) && Shaped(c, s.m)
    && s.m.availIdx == 0 && s.m.usedIdx == 0 && s.m.availEvent == 0
    && (forall i | 0 <= i < c.num - 1 :: s.m.desc[i].next == i + 1)
    && s.t == Tx(0, c.num, 0, 0, 0, 0, 0) && s.r == Rx(0, 0)
    && s.batches == [] && !s.announcing && s.pc.Idle? && s.delivered == [] && !s.irq && s.ready == 0
    && !s.running
  }

  /** `s'` is reached from `s` by the steps `es`, each enabled when it is taken. */
  ghost predicate Runs(c: Config, s: Link, es: seq<Event>, s': Link)
    requires c.line > 0
    decreases |es|
  {
    if es == [] then s == s'
    else Formed(c, s) && Enabled(c, s, es[0]) && Runs(c, Step(c, s, es[0]), es[1..], s')
  }

  /** In the run `es` from `s` a doorbell for an undelivered frame was handled before RUN, and
      no look at the ring has followed; `missed` tells so of what came before. */
  ghost predicate MissedIn(c: Config, s: Link, es: seq<Event>, missed: bool)
    requires c.line > 0
    decreases |es|
  {
    if es == [] then missed
    else
      && Formed(c, s) && Enabled(c, s, es[0])
      && MissedIn(c, Step(c, s, es[0]), es[1..], MissedAfter(s, es[0], missed))
  }

  /** The frames sent in a run, in order. */
  function SentIn(es: seq<Event>): seq<seq<byte>> {
    if es == [] then []
    else if es[0].Send? then [es[0].bytes] + SentIn(es[1..])
    else SentIn(es[1..])
  }

  lemma FreshInv(c: Config, s: Link) returns (g: Aux)
    requires Fresh(c, s)
    ensures Inv(c, s, g) && g.sent == [] && !g.missed
  {
    g := Aux([], [], Range(c.num), [], 0, 0, false);
    assert Ids([]) == [];
    assert Linked(c, s.m.desc, g.free);
  }

  lemma SentSplit(es: seq<Event>, sent: seq<seq<byte>>)
    requires es != []
    ensures (if es[0].Send? then sent + [es[0].bytes] else sent) + SentIn(es[1..]) == sent + SentIn(es)
  {
    if es[0].Send? {
      SeqAssoc(sent, [es[0].bytes], SentIn(es[1..]));
    }
  }

  lemma SeqAssoc<T>(a: seq<T>, b: seq<T>, c: seq<T>)
    ensures a + b + c == a + (b + c)
  {
  }

  lemma {:induction false} RunKeeps(c: Config, s: Link, g: Aux, es: seq<Event>, s': Link) returns (g': Aux)
    requires c.line > 0 && Inv(c, s, g) && Runs(c, s, es, s')
    ensures Inv(c, s', g') && g'.sent == g.sent + SentIn(es)
    ensures g'.missed <==> MissedIn(c, s, es, g.missed)
    decreases |es|
  {
    if es == [] {
      g' := g;
      assert g.sent + [] == g.sent;
    } else {
      SentSplit(es, g.sent);
      var h := StepKeeps(c, s, g, es[0]);
      g' := RunKeeps(c, Step(c, s, es[0]), h, es[1..], s');
    }
  }

  lemma Reached(c: Config, s0: Link, es: seq<Event>, s: Link) returns (g: Aux)
    requires Fresh(c, s0) && Runs(c, s0, es, s)
    ensures Inv(c, s, g) && g.sent == SentIn(es) && (g.missed <==> MissedIn(c, s0, es, false))
  {
    var g0 := FreshInv(c, s0);
    g := RunKeeps(c, s0, g0, es, s);
    assert [] + SentIn(es) == SentIn(es);
  }

  // ---------------------------------------------------------------- the pipe is a FIFO

  /** In every interleaving of senders, cleaners and the receiver, the frames handed to the
      endpoint layer are a prefix of the frames sent: same bytes, same order, none twice. */
  lemma PipeIsFifo(c: Config, s0: Link, es: seq<Event>, s: Link)
    requires Fresh(c, s0) && Runs(c, s0, es, s)
    ensures s.delivered <= SentIn(es)
  {
    var g := Reached(c, s0, es, s);
  }

  /** No lost wake-up: a receiver that waits with no doorbell pending, no semaphore post left
      and no sender about to ring has delivered everything that was sent, if and only if it has
      not missed a doorbell before RUN. */
  lemma NoLostWakeup(c: Config, s0: Link, es: seq<Event>, s: Link)
    requires Fresh(c, s0) && Runs(c, s0, es, s)
    requires s.pc.Idle? && !s.irq && s.posts == 0 && !s.announcing
    ensures s.delivered == SentIn(es) <==> !MissedIn(c, s0, es, false)
  {
    var g := Reached(c, s0, es, s);
    assert g.sent[..|g.sent|] == g.sent;
  }

  /** The receiver never meets a descriptor that the code would reject: it goes idle only
      when it has delivered everything, and otherwise holds an acceptable descriptor. */
  lemma TakeNeverRejects(c: Config, s0: Link, es: seq<Event>, s: Link)
    requires Fresh(c, s0) && Runs(c, s0, es, s) && s.pc.Polling?
    ensures Formed(c, s)
    ensures Step(c, s, Take).pc == Idle <==> s.delivered == SentIn(es)
    ensures Step(c, s, Take).pc != Idle ==>
      exists id | 0 <= id < c.num :: Step(c, s, Take).pc == Holding(id) && DescData(c, s.m.desc[id]).Some?
  {
    var g := Reached(c, s0, es, s);
    TakeOutcome(c, s, g);
  }

  lemma TakeOutcome(c: Config, s: Link, g: Aux)
    requires Inv(c, s, g) && s.pc.Polling?
    ensures Formed(c, s)
    ensures Step(c, s, Take).pc == Idle <==> s.delivered == g.sent
    ensures Step(c, s, Take).pc != Idle ==>
      exists id | 0 <= id < c.num :: Step(c, s, Take).pc == Holding(id) && DescData(c, s.m.desc[id]).Some?
  {
    InvFormed(c, s, g);
    TakesOldest(c, s, g);
    assert g.sent[..|g.sent|] == g.sent;
  }

  // ---------------------------------------------------------------- descriptors and space

  /** The distance of two counters, recovered from their u16 images. */
  lemma Distance(a: nat, b: nat)
    requires b <= a < b + U16
    ensures Trunc16(Trunc16(a) - Trunc16(b)) == a - b
  {
    DivModUnique(Trunc16(a) - Trunc16(b) - (a - b), U16, b / U16 - a / U16, 0);
    TruncOffset(Trunc16(a) - Trunc16(b), a - b);
  }

  lemma Shifted(a: nat, i: nat)
    ensures Trunc16(Trunc16(a) + i) == Trunc16(a + i)
  {
  }

  /** How many frames are published and not yet cleaned, from the u16 counters alone. */
  function InFlightCount(t: Tx): nat {
    Trunc16(t.lastAvail - t.lastUsed)
  }

  /** The descriptor of the `i`-th oldest frame in flight, read from the available ring. */
  function FlightId(c: Config, s: Link, i: nat): nat
    requires c.num > 0 && |s.m.avail| == c.num
  {
    s.m.avail[Trunc16(s.t.lastUsed + i) % c.num]
  }

  /** The ids met when following `next` from `head` for `n` hops. */
  ghost function Walk(desc: seq<Desc>, head: nat, n: nat): seq<nat>
    decreases n
  {
    if n == 0 then []
    else if head >= |desc| then [head]
    else [head] + Walk(desc, desc[head].next, n - 1)
  }

  ghost function WalkAll(desc: seq<Desc>, batches: seq<Batch>): multiset<nat> {
    if batches == [] then multiset{}
    else
      var n := |batches| - 1;
      WalkAll(desc, batches[..n]) + multiset(Walk(desc, batches[n].fhead, batches[n].num))
  }

  lemma {:induction false} LinkedWalk(c: Config, desc: seq<Desc>, ids: seq<nat>)
    requires |desc| == c.num && Linked(c, desc, ids) && ids != []
    ensures Walk(desc, ids[0], |ids|) == ids
  {
    if |ids| == 1 {
      assert Walk(desc, desc[ids[0]].next, 0) == [];
    } else {
      assert desc[ids[0]].next == ids[1];
      forall i | 0 < i < |ids[1..]| ensures desc[ids[1..][i - 1]].next == ids[1..][i] {
        assert desc[ids[i]].next == ids[i + 1];
      }
      LinkedWalk(c, desc, ids[1..]);
    }
  }

  lemma {:induction false} WalkAllPool(c: Config, desc: seq<Desc>, batches: seq<Batch>, chains: seq<seq<nat>>)
    requires |desc| == c.num && |batches| == |chains|
    requires forall j | 0 <= j < |batches| :: IsBatch(c, desc, batches[j], chains[j])
    ensures WalkAll(desc, batches) == Pool(chains)
  {
    if batches != [] {
      var n := |batches| - 1;
      assert IsBatch(c, desc, batches[n], chains[n]);
      LinkedWalk(c, desc, chains[n]);
      WalkAllPool(c, desc, batches[..n], chains[..n]);
    }
  }

  lemma FlightRead(c: Config, s: Link, g: Aux)
    requires ValidConfig(c) && Shaped(c, s.m) && Counted(c, s, g) && InFlight(c, s.m, g)
    ensures InFlightCount(s.t) == |g.flight|
    ensures forall i | 0 <= i < |g.flight| ::
      FlightId(c, s, i) == g.flight[i].id && Described(c, s.m.desc, s.m.data, g.flight[i])
  {
    var u := g.Cleaned();
    Distance(|g.sent|, u);
    forall i | 0 <= i < |g.flight|
      ensures FlightId(c, s, i) == g.flight[i].id && Described(c, s.m.desc, s.m.data, g.flight[i])
    {
      assert FlightAt(c, s.m, g, i);
      FlightSlot(c, s, u, i);
    }
  }

  lemma FlightSlot(c: Config, s: Link, u: nat, i: nat)
    requires ValidConfig(c) && Shaped(c, s.m) && s.t.lastUsed == Trunc16(u)
    ensures FlightId(c, s, i) == s.m.avail[(u + i) % c.num]
  {
    SlotOf(u + i, c.num);
    Shifted(u, i);
  }

  /** Conservation of descriptors: following the free list for num_free hops, reading the
      available ring over the frames in flight and following every pending batch meets each
      descriptor exactly once. */
  lemma DescriptorsConserved(c: Config, s0: Link, es: seq<Event>, s: Link)
    requires Fresh(c, s0) && Runs(c, s0, es, s)
    ensures Shaped(c, s.m) && InFlightCount(s.t) <= c.num && s.t.numFree <= c.num
    ensures multiset(Walk(s.m.desc, s.t.freeHead, s.t.numFree))
          + multiset(seq(InFlightCount(s.t), i requires 0 <= i => FlightId(c, s, i)))
          + WalkAll(s.m.desc, s.batches)
         == multiset(Range(c.num))
  {
    var g := Reached(c, s0, es, s);
    FlightRead(c, s, g);
    if g.free != [] { LinkedWalk(c, s.m.desc, g.free); }
    assert Walk(s.m.desc, s.t.freeHead, s.t.numFree) == g.free;
    WalkAllPool(c, s.m.desc, s.batches, g.chains);
    assert seq(InFlightCount(s.t), i requires 0 <= i => FlightId(c, s, i)) == Ids(g.flight);
    OwnedCount(c, g);
  }

  /** Two descriptors name cache-line aligned spans that do not overlap. */
  predicate SpansApart(c: Config, d: Desc, e: Desc)
    requires c.line > 0
  {
    d.addr + FrameSize(c, d.len) <= e.addr || e.addr + FrameSize(c, e.len) <= d.addr
  }

  /** Frames in flight occupy pairwise disjoint spans of the data area, and head meets tail
      exactly when nothing is in flight. */
  lemma FlightSpansDisjoint(c: Config, s0: Link, es: seq<Event>, s: Link)
    requires Fresh(c, s0) && Runs(c, s0, es, s)
    ensures Shaped(c, s.m)
    ensures s.t.head == s.t.tail <==> InFlightCount(s.t) == 0
    ensures forall i | 0 <= i < InFlightCount(s.t) ::
      && FlightId(c, s, i) < c.num
      && c.base <= s.m.desc[FlightId(c, s, i)].addr
      && s.m.desc[FlightId(c, s, i)].addr + FrameSize(c, s.m.desc[FlightId(c, s, i)].len) <= c.base + c.size
    ensures forall i, j | 0 <= i < j < InFlightCount(s.t) ::
      && FlightId(c, s, i) < c.num && FlightId(c, s, j) < c.num
      && SpansApart(c, s.m.desc[FlightId(c, s, i)], s.m.desc[FlightId(c, s, j)])
  {
    var g := Reached(c, s0, es, s);
    FlightRead(c, s, g);
    SpansDisjoint(c, s.t.tail, g.flight, s.t.head);
    forall i | 0 <= i < |g.flight|
      ensures s.m.desc[FlightId(c, s, i)].addr == c.base + g.flight[i].off
      ensures s.m.desc[FlightId(c, s, i)].len == |g.flight[i].bytes|
    {
      assert Described(c, s.m.desc, s.m.data, g.flight[i]);
    }
    forall i, j | 0 <= i < j < InFlightCount(s.t)
      ensures SpansApart(c, s.m.desc[FlightId(c, s, i)], s.m.desc[FlightId(c, s, j)])
    {
      assert Apart(c, g.flight[i], g.flight[j]);
    }
  }

  /** The cleaner's tail replays the sender's head: no "bad tx descriptor" break fires and
      ivshm_tx_clean always reaches the used index, reclaiming all that was given back. */
  lemma CleanReachesUsed(c: Config, s0: Link, es: seq<Event>, s: Link, s': Link)
    requires Fresh(c, s0) && Runs(c, s0, es, s)
    requires Formed(c, s) ==> s' == Step(c, s, Clean)
    ensures Formed(c, s)
    ensures s'.t.lastUsed == s.m.usedIdx
    ensures InFlightCount(s'.t) == Trunc16(s.m.availIdx - s.m.usedIdx)
    ensures s.pc.Idle? && s.delivered == SentIn(es) ==> s'.t.head == s'.t.tail
  {
    var g := Reached(c, s0, es, s);
    CleanOutcome(c, s, g, s');
  }

  lemma CleanOutcome(c: Config, s: Link, g: Aux, s': Link)
    requires Inv(c, s, g)
    requires Formed(c, s) ==> s' == Step(c, s, Clean)
    ensures Formed(c, s)
    ensures s'.t.lastUsed == s.m.usedIdx
    ensures InFlightCount(s'.t) == Trunc16(s.m.availIdx - s.m.usedIdx)
    ensures s.pc.Idle? && s.delivered == g.sent ==> s'.t.head == s'.t.tail
  {
    InvFormed(c, s, g);
    CleanReclaims(c, s, g, s');
  }

  lemma CleanReclaims(c: Config, s: Link, g: Aux, s': Link)
    requires Inv(c, s, g) && Formed(c, s) && s' == Step(c, s, Clean)
    ensures s'.t.lastUsed == s.m.usedIdx
    ensures InFlightCount(s'.t) == Trunc16(s.m.availIdx - s.m.usedIdx)
    ensures s.pc.Idle? && s.delivered == g.sent ==> s'.t.head == s'.t.tail
  {
    CleanFrame(c, s, s');
    var h := CleanParts(c, s, g, s');
    AllReclaimed(c, s', h);
  }

  lemma CleanParts(c: Config, s: Link, g: Aux, s': Link) returns (h: Aux)
    requires Inv(c, s, g) && Formed(c, s) && s' == Step(c, s, Clean)
    ensures c.line > 0 && c.num <= 4096 && Counted(c, s', h) && Receiving(s', h)
    ensures LaidOut(c, s'.t.tail, h.flight, s'.t.head) && h.Cleaned() == h.returned && h.sent == g.sent
  {
    h := CleanKeeps(c, s, g);
  }

  lemma CleanFrame(c: Config, s: Link, s': Link)
    requires Formed(c, s) && s' == Step(c, s, Clean)
    ensures s'.m.availIdx == s.m.availIdx && s'.m.usedIdx == s.m.usedIdx && s'.pc == s.pc && s'.delivered == s.delivered
  {
  }

  lemma AllReclaimed(c: Config, s: Link, g: Aux)
    requires c.line > 0 && c.num <= 4096 && Counted(c, s, g) && Receiving(s, g)
    requires LaidOut(c, s.t.tail, g.flight, s.t.head)
    requires g.Cleaned() == g.returned
    ensures s.t.lastUsed == s.m.usedIdx
    ensures InFlightCount(s.t) == Trunc16(s.m.availIdx - s.m.usedIdx)
    ensures s.pc.Idle? && s.delivered == g.sent ==> s.t.head == s.t.tail
  {
    Distance(|g.sent|, g.returned);
    SpansDisjoint(c, s.t.tail, g.flight, s.t.head);
  }

  /** The u16 counters stay faithful over any number of wraps: what the receiver has not
      taken and what the cleaner has not seen never exceed the ring, and together with the
      delivered frames they account for every frame sent. */
  lemma CountersFaithful(c: Config, s0: Link, es: seq<Event>, s: Link)
    requires Fresh(c, s0) && Runs(c, s0, es, s)
    ensures Trunc16(s.m.availIdx - s.r.lastAvail) <= c.num
    ensures Trunc16(s.m.usedIdx - s.t.lastUsed) <= c.num
    ensures Trunc16(s.m.availIdx - s.r.lastAvail) + |s.delivered| + (if s.pc.Holding? then 1 else 0) == |SentIn(es)|
  {
    var g := Reached(c, s0, es, s);
    CountedFaithful(c, s, g);
  }

  lemma CountedFaithful(c: Config, s: Link, g: Aux)
    requires c.num <= 4096 && Counted(c, s, g) && Receiving(s, g)
    ensures Trunc16(s.m.availIdx - s.r.lastAvail) <= c.num
    ensures Trunc16(s.m.usedIdx - s.t.lastUsed) <= c.num
    ensures Trunc16(s.m.availIdx - s.r.lastAvail) + |s.delivered| + (if s.pc.Holding? then 1 else 0) == |g.sent|
  {
    Distance(|g.sent|, g.taken);
    Distance(g.returned, g.Cleaned());
  }
}

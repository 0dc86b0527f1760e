/** One direction of the pipe as a protocol: sender threads and the receiver thread take
    steps in any order, each step being what the code does under one lock or between two
    accesses to shared memory. */
module Pipe {
  import opened Basics
  import opened Words
  import opened ByteRing
  import opened Vring

  /** Where the receiver thread stands in ivshm_pipe_poll. */
  datatype RxPc =
    | Idle                // waiting on the semaphore
    | Polling             // about to call ivshm_rx_desc
    | Holding(id: nat)    // took a descriptor, its frame not yet pushed
    | Pushed(id: nat)     // frame handed to the endpoint layer
    | Finished            // descriptor returned, event index not yet written
    | Armed               // event index written, about to look again

  /** `batches` belong to cleaners between their two locks; `announcing` says that a sender
      holds the free lock between its store of avail->idx and its read of the event index;
      `irq` is a pending doorbell, `posts` the semaphore the receiver waits on, `ready` and
      `changes` the counters data_available and state_change, `running` whether the receiver's
      side has reached RUN. `delivered` lists the frames handed to ivshm_endpoint_push. */
  datatype Link = Link(m: Shm, t: Tx, r: Rx, batches: seq<Batch>, announcing: bool,
                       pc: RxPc, delivered: seq<seq<byte>>, irq: bool, posts: nat, ready: nat,
                       changes: nat, running: bool)

  datatype Event =
    | Send(bytes: seq<byte>) | Announce | Clean | Splice(i: nat)
    | Interrupt(stateChange: bool) | Wake(up: bool) | Timeout(up: bool) | Take | Push | Finish | Arm | Look

  ghost predicate Formed(c: Config, s: Link) {
    && ValidConfig(c) && Shaped(c, s.m)
    && s.m.usedIdx < U16 && s.t.lastUsed < U16 && s.t.head <= c.size && s.t.tail <= c.size
    && (s.t.numFree >= 1 ==> s.t.freeHead < c.num)
    && (forall b | b in s.batches :: b.fdesc < c.num)
    && (s.pc.Holding? ==> s.pc.id < c.num)
  }

  /** Where the threads stand when they take a step. A send needs a free descriptor and a
      frame no larger than the ring. */
  ghost predicate Ready(c: Config, s: Link, e: Event)
    requires c.line > 0
  {
    match e
    case Send(bytes) =>
      !s.announcing && bytes != [] && s.t.numFree >= 1 && FrameSize(c, |bytes|) <= c.size
    case Announce => s.announcing
    case Clean => true
    case Splice(i) => !s.announcing && i < |s.batches|
    case Interrupt(stateChange) => s.irq || stateChange
    // a pass of the thread runs the state machine only when a change of state is counted
    case Wake(up) => s.pc.Idle? && s.posts > 0 && (up ==> !s.running && s.changes > 0)
    case Timeout(up) => s.pc.Idle? && (up ==> !s.running && s.changes > 0)
    case Take => s.pc.Polling?
    case Push => s.pc.Holding?
    case Finish => s.pc.Pushed?
    case Arm => s.pc.Finished?
    case Look => s.pc.Armed?
  }

  /** The steps of a well-behaved run: a send also needs room that stops short of the tail. */
  ghost predicate Enabled(c: Config, s: Link, e: Event)
    requires c.line > 0
  {
    && Ready(c, s, e)
    && (e.Send? ==> Fits(c, s.t.head, s.t.tail, FrameSize(c, |e.bytes|)))
  }

  /** The interrupt of a doorbell for an undelivered frame is handled before RUN. */
  predicate Misses(s: Link, e: Event) {
    e.Interrupt? && s.irq && !s.running && s.m.availIdx != s.r.lastAvail
  }

  /** Whether a doorbell was missed that no look at the ring has made up for. */
  predicate MissedAfter(s: Link, e: Event, missed: bool) {
    !e.Take? && (missed || Misses(s, e))
  }

  function Less(n: nat): nat { if n > 0 then n - 1 else 0 }

  ghost function Step(c: Config, s: Link, e: Event): Link
    requires Formed(c, s) && Ready(c, s, e)
  {
    match e
    case Send(bytes) =>
      var (m, t) := TxFrame(c, s.m, s.t, bytes);
      s.(m := m, t := t, announcing := true)
    case Announce =>
      s.(t := s.t.(numAdded := 0), announcing := false, irq := s.irq || RingsDoorbell(s.m, s.t))
    case Clean =>
      var (m, t, b) := TxClean(c, s.m, s.t);
      s.(m := m, t := t, batches := if b.num == 0 then s.batches else s.batches + [b])
    case Splice(i) =>
      var (m, t) := TxSplice(c, s.m, s.t, s.batches[i]);
      s.(m := m, t := t, batches := s.batches[..i] + s.batches[i + 1..])
    case Interrupt(stateChange) =>
      // ivshm_pipe_isr counts data only in RUN and when ivshm_rx_avail holds; before RUN
      // ivshm_pipe_check_state reports a change every time
      var data := s.running && s.m.availIdx != s.r.lastAvail;
      var change := stateChange || !s.running;
      s.(irq := false, ready := if data then s.ready + 1 else s.ready,
         changes := if change then s.changes + 1 else s.changes,
         posts := if data || change then s.posts + 1 else s.posts)
    case Wake(up) =>
      // a post without data leads back to waiting
      s.(pc := if s.ready > 0 then Polling else Idle, posts := s.posts - 1, ready := Less(s.ready),
         changes := Less(s.changes), running := s.running || up)
    case Timeout(up) =>
      // the time-out itself leads to a poll only when it finds the side in RUN
      s.(pc := if s.running || s.ready > 0 then Polling else Idle, ready := Less(s.ready),
         changes := Less(s.changes), running := s.running || up)
    case Take =>
      var (r, id) := RxDesc(c, s.m, s.r);
      if id.None? then s.(r := r, pc := Idle)
      else if DescData(c, s.m.desc[id.value]).None? then s.(r := r, pc := Idle)
      else s.(r := r, pc := Holding(id.value))
    case Push =>
      (match DescData(c, s.m.desc[s.pc.id])
       case None => s
       case Some((off, len)) =>
         s.(pc := Pushed(s.pc.id), delivered := s.delivered + [s.m.data[off..off + len]]))
    case Finish =>
      var (m, r) := RxFinish(c, s.m, s.r, s.pc.id);
      s.(m := m, r := r, pc := Finished)
    case Arm => s.(m := s.m.(availEvent := s.r.lastAvail), pc := Armed)
    case Look => s.(pc := if s.m.availIdx != s.r.lastAvail then Polling else Idle)
  }

  // ---------------------------------------------------------------- the invariant

  /** What has happened so far, kept beside the state for the proof: every frame `sent`, the
      frames in `flight` (sent and not yet cleaned, oldest first), the ids on the `free`
      list and on each batch in list order, how many frames the receiver has taken and given
      back, and whether a doorbell was missed. No step reads it. */
  datatype Aux = Aux(sent: seq<seq<byte>>, flight: seq<Frame>, free: seq<nat>,
                     chains: seq<seq<nat>>, taken: nat, returned: nat, missed: bool)
  {
    function Cleaned(): int { |sent| - |flight| }
  }

  function Ids(fs: seq<Frame>): (r: seq<nat>)
    ensures |r| == |fs| && forall i | 0 <= i < |fs| :: r[i] == fs[i].id
  {
    seq(|fs|, i requires 0 <= i < |fs| => fs[i].id)
  }

  ghost function Pool(chains: seq<seq<nat>>): multiset<nat> {
    if chains == [] then multiset{}
    else Pool(chains[..|chains| - 1]) + multiset(chains[|chains| - 1])
  }

  function Range(n: nat): (r: seq<nat>)
    ensures |r| == n && forall i | 0 <= i < n :: r[i] == i
  {
    seq(n, i => i)
  }

  /** Every descriptor is owned once: by the free list, by a frame in flight or by a batch. */
  ghost predicate Owned(c: Config, g: Aux) {
    multiset(g.free) + multiset(Ids(g.flight)) + Pool(g.chains) == multiset(Range(c.num))
  }

  /** `desc.next` leads through the ids of a list. */
  ghost predicate Linked(c: Config, desc: seq<Desc>, ids: seq<nat>)
    requires |desc| == c.num
  {
    && (forall i | 0 <= i < |ids| :: ids[i] < c.num)
    && (forall i | 0 < i < |ids| :: desc[ids[i - 1]].next == ids[i])
  }

  ghost predicate IsBatch(c: Config, desc: seq<Desc>, b: Batch, ids: seq<nat>)
    requires |desc| == c.num
  {
    && Linked(c, desc, ids)
    && |ids| == b.num > 0 && ids[0] == b.fhead && ids[|ids| - 1] == b.fdesc
  }

  ghost predicate Lists(c: Config, desc: seq<Desc>, t: Tx, batches: seq<Batch>, g: Aux)
    requires |desc| == c.num
  {
    && Linked(c, desc, g.free) && |g.free| == t.numFree && (g.free != [] ==> g.free[0] == t.freeHead)
    && |g.chains| == |batches|
    && (forall j | 0 <= j < |batches| :: IsBatch(c, desc, batches[j], g.chains[j]))
  }

  ghost predicate Counted(c: Config, s: Link, g: Aux) {
    && |g.flight| <= c.num
    && 0 <= g.Cleaned() <= g.returned <= g.taken <= |g.sent|
    && g.taken - g.returned == (if s.pc.Holding? || s.pc.Pushed? then 1 else 0)
    && s.m.availIdx == s.t.lastAvail == Trunc16(|g.sent|)
    && s.r.lastAvail == Trunc16(g.taken)
    && s.m.usedIdx == s.r.lastUsed == Trunc16(g.returned)
    && s.t.lastUsed == Trunc16(g.Cleaned())
    && s.t.numAdded == (if s.announcing then 1 else 0)
    && (s.announcing ==> |g.sent| > 0)
  }

  /** The descriptor of a frame in flight names its bytes. */
  ghost predicate Described(c: Config, desc: seq<Desc>, data: seq<byte>, f: Frame)
    requires |desc| == c.num && |data| == c.size
  {
    && f.id < c.num && f.bytes != []
    && desc[f.id].addr == c.base + f.off && desc[f.id].len == |f.bytes| && desc[f.id].flags == 0
    && f.off + |f.bytes| <= c.size && data[f.off..f.off + |f.bytes|] == f.bytes
  }

  /** The `i`-th frame in flight, as sent, is in its available slot and in the data area, and
      in its used slot once it was given back. */
  ghost predicate FlightAt(c: Config, m: Shm, g: Aux, i: nat)
    requires Shaped(c, m) && c.num > 0 && g.Cleaned() >= 0 && i < |g.flight|
  {
    var f, k := g.flight[i], g.Cleaned() + i;
    && g.sent[k] == f.bytes && Described(c, m.desc, m.data, f) && m.avail[k % c.num] == f.id
    && (k < g.returned ==> m.used[k % c.num] == UsedElem(f.id, 1))
  }

  ghost predicate InFlight(c: Config, m: Shm, g: Aux)
    requires Shaped(c, m) && c.num > 0 && g.Cleaned() >= 0
  {
    forall i {:trigger g.flight[i]} | 0 <= i < |g.flight| :: FlightAt(c, m, g, i)
  }

  ghost predicate Receiving(s: Link, g: Aux)
    requires 0 <= g.Cleaned() <= g.returned <= g.taken <= |g.sent|
    requires g.taken - g.returned == (if s.pc.Holding? || s.pc.Pushed? then 1 else 0)
  {
    && (s.pc.Holding? ==> s.pc.id == g.flight[g.returned - g.Cleaned()].id)
    && (s.pc.Pushed? ==> s.pc.id == g.flight[g.returned - g.Cleaned()].id)
    && s.delivered == g.sent[..if s.pc.Holding? then g.returned else g.taken]
  }

  /** While the receiver waits with work outstanding, something is on its way to wake it or a
      doorbell was missed; and a missed doorbell is not followed by another. */
  ghost predicate Awake(s: Link, g: Aux) {
    && s.ready <= s.posts && (s.ready > 0 ==> s.running)
    && (!s.running ==> s.pc.Idle? && g.taken == 0 && (s.irq ==> |g.sent| > (if s.announcing then 1 else 0)))
    && (s.pc.Idle? || s.pc.Polling? || s.pc.Armed? ==> s.m.availEvent == s.r.lastAvail)
    && (s.pc.Idle? && g.taken < |g.sent| ==>
          s.irq || s.ready > 0 || (s.announcing && |g.sent| == g.taken + 1) || g.missed)
    && (g.missed ==>
          && g.taken == 0 && |g.sent| > (if s.announcing then 1 else 0)
          && !s.irq && (s.pc.Idle? || s.pc.Polling?))
  }

  ghost predicate Inv(c: Config, s: Link, g: Aux) {
    && ValidConfig(c) && Shaped(c, s.m)
    && Counted(c, s, g)
    && Owned(c, g)
    && Lists(c, s.m.desc, s.t, s.batches, g)
    && InFlight(c, s.m, g)
    && LaidOut(c, s.t.tail, g.flight, s.t.head)
    && Receiving(s, g)
    && Awake(s, g)
  }

  lemma InvFormed(c: Config, s: Link, g: Aux)
    requires Inv(c, s, g)
    ensures Formed(c, s)
  {
    SpansDisjoint(c, s.t.tail, g.flight, s.t.head);
    forall b | b in s.batches ensures b.fdesc < c.num {
      var j :| 0 <= j < |s.batches| && s.batches[j] == b;
      assert IsBatch(c, s.m.desc, s.batches[j], g.chains[j]);
    }
  }

  // ---------------------------------------------------------------- ownership of descriptors

  lemma PoolAppend(chains: seq<seq<nat>>, ids: seq<nat>)
    ensures Pool(chains + [ids]) == Pool(chains) + multiset(ids)
  {
    assert (chains + [ids])[..|chains|] == chains;
  }

  lemma {:induction false} PoolRemove(chains: seq<seq<nat>>, i: nat)
    requires i < |chains|
    ensures Pool(chains) == Pool(chains[..i] + chains[i + 1..]) + multiset(chains[i])
  {
    var n := |chains| - 1;
    var rest := chains[..i] + chains[i + 1..];
    if i == n {
      assert rest == chains[..n];
    } else {
      assert rest[|rest| - 1] == chains[n];
      assert rest[..|rest| - 1] == chains[..n][..i] + chains[..n][i + 1..];
      PoolRemove(chains[..n], i);
    }
  }

  lemma {:induction false} RangeOnce(n: nat, id: nat)
    ensures multiset(Range(n))[id] == if id < n then 1 else 0
  {
    if n > 0 {
      assert Range(n) == Range(n - 1) + [n - 1];
      RangeOnce(n - 1, id);
    } else {
      assert Range(0) == [];
    }
  }

  /** An id occurs at most once among all lists, and only ids below `num` occur. */
  lemma OwnedOnce(c: Config, g: Aux, id: nat)
    requires Owned(c, g)
    ensures multiset(g.free)[id] + multiset(Ids(g.flight))[id] + Pool(g.chains)[id] == if id < c.num then 1 else 0
  {
    RangeOnce(c.num, id);
    var all := multiset(g.free) + multiset(Ids(g.flight)) + Pool(g.chains);
    assert all[id] == multiset(g.free)[id] + multiset(Ids(g.flight))[id] + Pool(g.chains)[id];
  }

  lemma OwnedCount(c: Config, g: Aux)
    requires Owned(c, g)
    ensures |g.free| + |g.flight| + |Pool(g.chains)| == c.num
  {
    assert |multiset(g.free) + multiset(Ids(g.flight)) + Pool(g.chains)| == |multiset(Range(c.num))|;
  }

  lemma ChainInPool(chains: seq<seq<nat>>, j: nat)
    requires j < |chains|
    ensures multiset(chains[j]) <= Pool(chains)
  {
    PoolRemove(chains, j);
  }
}

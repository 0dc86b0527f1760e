/** Pushing and reading interleaved: the pipe thread copies one frame at a time, in pieces,
    into the endpoint it is addressed to, while every endpoint's reader takes pieces out. */
module EndpointRuns {
  import opened Words
  import opened Packet
  import opened Endpoint

  /** One endpoint. The pusher has copied `written` bytes of `frame` while `pushing`; the
      reader has taken `got` of the `need` bytes of a packet while `reading`; `out` are the
      packets handed to the service. */
  datatype Ep = Ep(rx: seq<byte>, sem: nat, pushing: bool, frame: seq<byte>, written: nat,
                   reading: bool, need: nat, got: seq<byte>, out: seq<seq<byte>>)

  const EmptyEp := Ep([], 0, false, [], 0, false, 0, [], [])

  /** All endpoints; the pipe thread is pushing to endpoint `target`, or to none when
      `target == |eps|`. A failed assertion leaves the guest `halted`. */
  datatype World = World(eps: seq<Ep>, target: nat, halted: bool)

  datatype Event =
    | PushBegin(frame: seq<byte>) | PushSome(n: nat) | PushStall | PushEnd
    | ReadBegin(k: nat) | ReadSome(k: nat, n: nat) | ReadEnd(k: nat)

  /** Per endpoint: its id, the room in its receive ring and its reader's buffer. */
  datatype Setup = Setup(ids: seq<nat>, cap: nat -> nat, maxPkt: nat -> nat)

  ghost predicate Enabled(u: Setup, w: World, e: Event)
    requires |w.eps| == |u.ids|
  {
    && !w.halted
    && match e
    case PushBegin(frame) => w.target >= |w.eps|
    case PushSome(n) =>
      && w.target < |w.eps|
      && var p := w.eps[w.target];
         0 < n && p.written + n <= |p.frame| && |p.rx| + n <= u.cap(w.target)
    case PushStall =>
      // the receive ring is full and something is left to copy
      w.target < |w.eps| && w.eps[w.target].written < |w.eps[w.target].frame| && |w.eps[w.target].rx| >= u.cap(w.target)
    case PushEnd => w.target < |w.eps| && w.eps[w.target].written == |w.eps[w.target].frame|
    case ReadBegin(k) => k < |w.eps| && !w.eps[k].reading && w.eps[k].sem > 0
    case ReadSome(k, n) =>
      k < |w.eps| && w.eps[k].reading && 0 < n <= |w.eps[k].rx| && |w.eps[k].got| + n <= w.eps[k].need
    case ReadEnd(k) => k < |w.eps| && w.eps[k].reading && |w.eps[k].got| == w.eps[k].need
  }

  ghost function Step(u: Setup, w: World, e: Event): (w': World)
    requires |w.eps| == |u.ids| && Enabled(u, w, e)
    ensures |w'.eps| == |w.eps|
  {
    match e
    case PushBegin(frame) =>
      if !WellFormed(frame) then w.(halted := true)
      else
        var k := Lookup(u.ids, Id(frame));
        // without an endpoint the frame is dropped
        if k == |u.ids| then w
        else w.(eps := w.eps[k := w.eps[k].(pushing := true, frame := frame, written := 0)], target := k)
    case PushSome(n) =>
      var p := w.eps[w.target];
      w.(eps := w.eps[w.target := p.(rx := p.rx + p.frame[p.written..p.written + n], written := p.written + n)])
    case PushStall => w.(halted := true)
    case PushEnd =>
      var p := w.eps[w.target];
      w.(eps := w.eps[w.target := p.(pushing := false, sem := p.sem + 1)], target := |w.eps|)
    case ReadBegin(k) =>
      var p := w.eps[k];
      if HeaderOk(u.maxPkt(k), p.rx)
      then w.(eps := w.eps[k := p.(sem := p.sem - 1, reading := true, need := Len(p.rx), got := [])])
      else w.(halted := true)
    case ReadSome(k, n) =>
      var p := w.eps[k];
      w.(eps := w.eps[k := p.(rx := p.rx[n..], got := p.got + p.rx[..n])])
    case ReadEnd(k) =>
      var p := w.eps[k];
      w.(eps := w.eps[k := p.(reading := false, out := p.out + [p.got])])
  }

  ghost predicate Runs(u: Setup, w: World, es: seq<Event>, w': World)
    requires |w.eps| == |u.ids|
    decreases |es|
  {
    if es == [] then w == w' else Enabled(u, w, es[0]) && Runs(u, Step(u, w, es[0]), es[1..], w')
  }

  /** The well-formed frames of a run that carry `id`, in order. */
  function AddressedTo(id: nat, es: seq<Event>): seq<seq<byte>> {
    if es == [] then []
    else
      match es[0]
      case PushBegin(frame) =>
        if WellFormed(frame) && Id(frame) == id then [frame] + AddressedTo(id, es[1..])
        else AddressedTo(id, es[1..])
      case _ => AddressedTo(id, es[1..])
  }

  function Booted(u: Setup): World {
    World(seq(|u.ids|, i => EmptyEp), |u.ids|, false)
  }

  // ---------------------------------------------------------------- one endpoint

  /** Beside an endpoint: the packet being read, the complete packets behind it, and all
      frames pushed to it so far. */
  datatype Aux = Aux(cur: seq<byte>, queue: seq<seq<byte>>, pushed: seq<seq<byte>>)

  function One(b: bool, x: seq<byte>): seq<seq<byte>> {
    if b then [x] else []
  }

  ghost predicate Sound(u: Setup, p: Ep, g: Aux) {
    && p.sem == |g.queue|
    && (forall f | f in g.queue :: WellFormed(f))
    && (p.pushing ==> WellFormed(p.frame) && p.written <= |p.frame|)
    && (p.reading ==> p.need == |g.cur| && p.got <= g.cur)
    && p.rx == (if p.reading then g.cur[|p.got|..] else []) + Concat(g.queue)
             + (if p.pushing then p.frame[..p.written] else [])
    && g.pushed == p.out + One(p.reading, g.cur) + g.queue + One(p.pushing, p.frame)
  }

  lemma ConcatAppend(xs: seq<seq<byte>>, x: seq<byte>)
    ensures Concat(xs + [x]) == Concat(xs) + x
  {
    ConcatSplit(xs, [x]);
    var one := [x];
    assert one[1..] == [] && Concat(one) == x + Concat(one[1..]);
  }

  lemma SliceGrows(f: seq<byte>, i: nat, n: nat)
    requires i + n <= |f|
    ensures f[..i + n] == f[..i] + f[i..i + n]
  {
  }

  lemma PushSomeSound(u: Setup, p: Ep, g: Aux, n: nat)
    requires Sound(u, p, g) && p.pushing && p.written + n <= |p.frame|
    ensures Sound(u, p.(rx := p.rx + p.frame[p.written..p.written + n], written := p.written + n), g)
  {
    SliceGrows(p.frame, p.written, n);
    var before := (if p.reading then g.cur[|p.got|..] else []) + Concat(g.queue);
    assert p.rx == before + p.frame[..p.written];
  }

  lemma PushEndSound(u: Setup, p: Ep, g: Aux)
    requires Sound(u, p, g) && p.pushing && p.written == |p.frame|
    ensures Sound(u, p.(pushing := false, sem := p.sem + 1), g.(queue := g.queue + [p.frame]))
  {
    ConcatAppend(g.queue, p.frame);
    assert p.frame[..p.written] == p.frame;
  }

  /** A header at the front of the ring decides like the packet it belongs to. */
  lemma FrontPacket(f: seq<byte>, rest: seq<byte>)
    requires |f| >= HDR_SIZE
    ensures Magic(f + rest) == Magic(f) && Len(f + rest) == Len(f)
  {
    assert (f + rest)[0..4] == f[0..4] && (f + rest)[8..12] == f[8..12];
  }

  /** The reader's assertions hold of the front of the ring exactly when more than a header is
      buffered and the oldest packet is shorter than the reader's buffer. */
  lemma FrontOfRing(u: Setup, maxPkt: nat, p: Ep, g: Aux)
    requires Sound(u, p, g) && !p.reading && p.sem > 0
    ensures WellFormed(g.queue[0]) && |p.rx| >= |g.queue[0]| && Len(p.rx) == |g.queue[0]|
    ensures HeaderOk(maxPkt, p.rx) <==> |p.rx| != HDR_SIZE && |g.queue[0]| < maxPkt
  {
    var f := g.queue[0];
    assert f in g.queue;
    var rest := Concat(g.queue[1..]) + if p.pushing then p.frame[..p.written] else [];
    assert p.rx == f + rest;
    FrontPacket(f, rest);
  }

  lemma ReadBeginSound(u: Setup, p: Ep, g: Aux) returns (g': Aux)
    requires Sound(u, p, g) && !p.reading && p.sem > 0 && |p.rx| >= HDR_SIZE
    ensures Sound(u, p.(sem := p.sem - 1, reading := true, need := Len(p.rx), got := []), g')
    ensures g'.pushed == g.pushed
  {
    FrontOfRing(u, 0, p, g);
    g' := Aux(g.queue[0], g.queue[1..], g.pushed);
    Dequeued(u, p, g);
  }

  lemma Dequeued(u: Setup, p: Ep, g: Aux)
    requires Sound(u, p, g) && !p.reading && p.sem > 0
    ensures Sound(u, p.(sem := p.sem - 1, reading := true, need := |g.queue[0]|, got := []),
                  Aux(g.queue[0], g.queue[1..], g.pushed))
  {
    var f := g.queue[0];
    var part := if p.pushing then p.frame[..p.written] else [];
    assert f[0..] == f;
    assert Concat(g.queue) == f + Concat(g.queue[1..]);
    assert p.rx == [] + Concat(g.queue) + part == f[0..] + Concat(g.queue[1..]) + part;
    Regroup(p.out, g.queue, One(p.pushing, p.frame));
  }

  lemma Regroup(out: seq<seq<byte>>, queue: seq<seq<byte>>, last: seq<seq<byte>>)
    requires queue != []
    ensures out + [] + queue + last == out + [queue[0]] + queue[1..] + last
  {
    assert queue == [queue[0]] + queue[1..];
  }

  lemma ReadSomeSound(u: Setup, p: Ep, g: Aux, n: nat)
    requires Sound(u, p, g) && p.reading && n <= |p.rx| && |p.got| + n <= p.need
    ensures Sound(u, p.(rx := p.rx[n..], got := p.got + p.rx[..n]), g)
  {
    var rest := g.cur[|p.got|..];
    var tail := Concat(g.queue) + if p.pushing then p.frame[..p.written] else [];
    assert p.rx == rest + tail;
    assert p.rx[..n] == rest[..n] && p.rx[n..] == rest[n..] + tail;
    assert p.got + rest == g.cur;
    assert p.got + p.rx[..n] == g.cur[..|p.got| + n];
  }

  lemma ReadEndSound(u: Setup, p: Ep, g: Aux)
    requires Sound(u, p, g) && p.reading && |p.got| == p.need
    ensures Sound(u, p.(reading := false, out := p.out + [p.got]), g)
  {
    assert p.got == g.cur;
  }

  // ---------------------------------------------------------------- all endpoints

  /** `seen[k]` are the frames addressed to endpoint `k` so far. */
  ghost predicate Inv(u: Setup, w: World, gs: seq<Aux>) {
    && |w.eps| == |u.ids| == |gs| && Unique(u.ids)
    && (forall k | 0 <= k < |gs| :: Sound(u, w.eps[k], gs[k]))
    && (forall k | 0 <= k < |gs| :: w.eps[k].pushing <==> k == w.target)
  }

  /** What a step adds to the frames addressed to `id`. */
  function Added(id: nat, e: Event): seq<seq<byte>> {
    if e.PushBegin? && WellFormed(e.frame) && Id(e.frame) == id then [e.frame] else []
  }

  lemma BeginSound(u: Setup, w: World, gs: seq<Aux>, frame: seq<byte>) returns (gs': seq<Aux>)
    requires Inv(u, w, gs) && Enabled(u, w, PushBegin(frame))
    ensures Inv(u, Step(u, w, PushBegin(frame)), gs')
    ensures forall k | 0 <= k < |gs| :: gs'[k].pushed == gs[k].pushed + Added(u.ids[k], PushBegin(frame))
  {
    var t := if WellFormed(frame) then Lookup(u.ids, Id(frame)) else |u.ids|;
    if t == |u.ids| {
      gs' := gs;
    } else {
      var p, g := w.eps[t], gs[t];
      gs' := gs[t := g.(pushed := g.pushed + [frame])];
      assert Sound(u, p.(pushing := true, frame := frame, written := 0), gs'[t]) by {
        assert frame[..0] == [];
        assert One(false, p.frame) == [];
      }
    }
  }

  /** A step that changes one endpoint and not the pusher's target. */
  lemma Lift(u: Setup, w: World, gs: seq<Aux>, k: nat, p: Ep, g: Aux)
    requires Inv(u, w, gs) && k < |gs| && Sound(u, p, g) && p.pushing == w.eps[k].pushing && g.pushed == gs[k].pushed
    ensures Inv(u, w.(eps := w.eps[k := p]), gs[k := g])
    ensures forall j | 0 <= j < |gs| :: gs[k := g][j].pushed == gs[j].pushed + []
  {
  }

  lemma EndSound(u: Setup, w: World, gs: seq<Aux>) returns (gs': seq<Aux>)
    requires Inv(u, w, gs) && Enabled(u, w, PushEnd)
    ensures Inv(u, Step(u, w, PushEnd), gs')
    ensures forall k | 0 <= k < |gs| :: gs'[k].pushed == gs[k].pushed + []
  {
    var t := w.target;
    PushEndSound(u, w.eps[t], gs[t]);
    gs' := gs[t := gs[t].(queue := gs[t].queue + [w.eps[t].frame])];
  }

  lemma StepSound(u: Setup, w: World, gs: seq<Aux>, e: Event) returns (gs': seq<Aux>)
    requires Inv(u, w, gs) && Enabled(u, w, e)
    ensures Inv(u, Step(u, w, e), gs')
    ensures forall k | 0 <= k < |gs| :: gs'[k].pushed == gs[k].pushed + Added(u.ids[k], e)
  {
    if e.PushBegin? {
      gs' := BeginSound(u, w, gs, e.frame);
    } else if e.PushEnd? {
      gs' := EndSound(u, w, gs);
    } else if Step(u, w, e).halted {
      gs' := gs;
      assert forall k | 0 <= k < |gs| :: gs[k].pushed + [] == gs[k].pushed;
    } else {
      var k := if e.PushSome? then w.target else e.k;
      var p, g := w.eps[k], gs[k];
      var g' := g;
      match e {
        case PushSome(n) => PushSomeSound(u, p, g, n);
        case ReadBegin(_) => g' := ReadBeginSound(u, p, g);
        case ReadSome(_, n) => ReadSomeSound(u, p, g, n);
        case ReadEnd(_) => ReadEndSound(u, p, g);
      }
      gs' := gs[k := g'];
      Lift(u, w, gs, k, Step(u, w, e).eps[k], g');
    }
  }

  lemma AddressedSplit(id: nat, es: seq<Event>, sofar: seq<seq<byte>>)
    requires es != []
    ensures sofar + Added(id, es[0]) + AddressedTo(id, es[1..]) == sofar + AddressedTo(id, es)
  {
  }

  lemma {:induction false} RunSound(u: Setup, w: World, gs: seq<Aux>, es: seq<Event>, w': World) returns (gs': seq<Aux>)
    requires Inv(u, w, gs) && Runs(u, w, es, w')
    ensures Inv(u, w', gs')
    ensures forall k | 0 <= k < |gs| :: gs'[k].pushed == gs[k].pushed + AddressedTo(u.ids[k], es)
    decreases |es|
  {
    if es == [] {
      gs' := gs;
      assert forall k | 0 <= k < |gs| :: gs[k].pushed + [] == gs[k].pushed;
    } else {
      var hs := StepSound(u, w, gs, es[0]);
      gs' := RunSound(u, Step(u, w, es[0]), hs, es[1..], w');
      forall k | 0 <= k < |gs| ensures gs'[k].pushed == gs[k].pushed + AddressedTo(u.ids[k], es) {
        AddressedSplit(u.ids[k], es, gs[k].pushed);
      }
    }
  }

  lemma Reached(u: Setup, es: seq<Event>, w: World) returns (gs: seq<Aux>)
    requires Unique(u.ids) && Runs(u, Booted(u), es, w)
    ensures Inv(u, w, gs) && forall k | 0 <= k < |gs| :: gs[k].pushed == AddressedTo(u.ids[k], es)
  {
    var none := seq(|u.ids|, i => Aux([], [], []));
    assert Inv(u, Booted(u), none);
    gs := RunSound(u, Booted(u), none, es, w);
    assert forall k | 0 <= k < |gs| :: none[k].pushed + AddressedTo(u.ids[k], es) == AddressedTo(u.ids[k], es);
  }

  /** In every interleaving of pushes and reads of any frames, failed assertions included, the
      packets an endpoint's reader gets are a prefix of the well-formed frames addressed to its
      unique id, whole and in order; and once the pusher rests, the semaphore counts the
      packets that are still buffered. */
  lemma ReadersGetTheirPackets(u: Setup, es: seq<Event>, w: World, k: nat)
    requires Unique(u.ids) && Runs(u, Booted(u), es, w) && k < |u.ids|
    ensures |w.eps| == |u.ids|
    ensures w.eps[k].out <= AddressedTo(u.ids[k], es)
    ensures |AddressedTo(u.ids[k], es)|
         == |w.eps[k].out| + (if w.eps[k].reading then 1 else 0) + w.eps[k].sem + (if w.target == k then 1 else 0)
    ensures w.eps[k].rx == [] && w.target != k && !w.eps[k].reading ==> w.eps[k].out == AddressedTo(u.ids[k], es)
  {
    var gs := Reached(u, es, w);
    SoundAccounts(u, w.eps[k], gs[k]);
  }

  /** The packet that the reader of an endpoint gets next. */
  ghost function NextPacket(u: Setup, es: seq<Event>, w: World, k: nat): seq<byte>
    requires k < |u.ids| == |w.eps|
  {
    var all := AddressedTo(u.ids[k], es);
    if |w.eps[k].out| < |all| then all[|w.eps[k].out|] else []
  }

  /** A frame that is not well formed, a copy into a full ring, or a read whose packet is too
      long for the reader or is a bare header with nothing behind it. */
  ghost predicate Trips(u: Setup, es: seq<Event>, w: World, e: Event)
    requires |w.eps| == |u.ids| && Enabled(u, w, e)
  {
    match e
    case PushBegin(frame) => !WellFormed(frame)
    case PushStall => true
    case ReadBegin(k) => |NextPacket(u, es, w, k)| >= u.maxPkt(k) || |w.eps[k].rx| == HDR_SIZE
    case _ => false
  }

  /** Exactly these steps fail an assertion. */
  lemma HaltsIff(u: Setup, es: seq<Event>, w: World, e: Event)
    requires Unique(u.ids) && Runs(u, Booted(u), es, w)
    requires |w.eps| == |u.ids| && Enabled(u, w, e)
    ensures Step(u, w, e).halted <==> Trips(u, es, w, e)
  {
    if e.ReadBegin? {
      var gs := Reached(u, es, w);
      FrontOfRing(u, u.maxPkt(e.k), w.eps[e.k], gs[e.k]);
      NextIsFront(u, w.eps[e.k], gs[e.k]);
    }
  }

  lemma NextIsFront(u: Setup, p: Ep, g: Aux)
    requires Sound(u, p, g) && !p.reading && p.sem > 0
    ensures |p.out| < |g.pushed| && g.pushed[|p.out|] == g.queue[0]
  {
    assert g.pushed == p.out + (g.queue + One(p.pushing, p.frame));
  }

  /** What senders put on the pipe for an endpoint: a packet with a payload that the reader's
      buffer holds. */
  predicate Sendable(maxPkt: nat, frame: seq<byte>) {
    HDR_SIZE < |frame| < maxPkt
  }

  ghost predicate AllSendable(id: nat, maxPkt: nat, es: seq<Event>) {
    forall i | 0 <= i < |es| ::
      es[i].PushBegin? && WellFormed(es[i].frame) && Id(es[i].frame) == id ==> Sendable(maxPkt, es[i].frame)
  }

  lemma {:induction false} AddressedSendable(id: nat, maxPkt: nat, es: seq<Event>)
    requires AllSendable(id, maxPkt, es)
    ensures forall i | 0 <= i < |AddressedTo(id, es)| :: Sendable(maxPkt, AddressedTo(id, es)[i])
  {
    if es != [] {
      assert forall i | 0 <= i < |es[1..]| :: es[1..][i] == es[i + 1];
      AddressedSendable(id, maxPkt, es[1..]);
    }
  }

  /** With such packets the endpoint's reader never fails an assertion, whatever goes to the
      others. */
  lemma ReadersNeverHalt(u: Setup, es: seq<Event>, w: World, k: nat)
    requires Unique(u.ids) && Runs(u, Booted(u), es, w) && k < |u.ids|
    requires AllSendable(u.ids[k], u.maxPkt(k), es)
    requires |w.eps| == |u.ids| && Enabled(u, w, ReadBegin(k))
    ensures !Step(u, w, ReadBegin(k)).halted
  {
    var gs := Reached(u, es, w);
    AddressedSendable(u.ids[k], u.maxPkt(k), es);
    FrontOfRing(u, u.maxPkt(k), w.eps[k], gs[k]);
    NextIsFront(u, w.eps[k], gs[k]);
  }

  lemma SoundAccounts(u: Setup, p: Ep, g: Aux)
    requires Sound(u, p, g)
    ensures p.out <= g.pushed
    ensures |g.pushed| == |p.out| + (if p.reading then 1 else 0) + p.sem + (if p.pushing then 1 else 0)
    ensures p.rx == [] && !p.pushing && !p.reading ==> p.out == g.pushed
  {
    assert g.pushed == p.out + (One(p.reading, g.cur) + g.queue + One(p.pushing, p.frame));
    if g.queue != [] {
      assert WellFormed(g.queue[0]);
      assert |Concat(g.queue)| >= |g.queue[0]|;
    }
  }

  /** A reader that has begun a packet never waits: the rest of it is in the ring. */
  lemma ReaderNeverStarves(u: Setup, es: seq<Event>, w: World, k: nat)
    requires Unique(u.ids) && Runs(u, Booted(u), es, w) && k < |u.ids|
    ensures |w.eps| == |u.ids|
    ensures w.eps[k].reading ==> w.eps[k].need <= |w.eps[k].got| + |w.eps[k].rx|
  {
    var gs := Reached(u, es, w);
    assert Sound(u, w.eps[k], gs[k]);
  }

  // ---------------------------------------------------------------- uninterrupted calls

  lemma RunsThree(u: Setup, w: World, e: Event, w1: World, f: Event, w2: World, h: Event, w3: World)
    requires |w.eps| == |u.ids| && Enabled(u, w, e) && w1 == Step(u, w, e)
    requires Enabled(u, w1, f) && w2 == Step(u, w1, f) && Enabled(u, w2, h) && w3 == Step(u, w2, h)
    ensures Runs(u, w, [e, f, h], w3)
  {
    assert [e, f, h][1..] == [f, h] && [f, h][1..] == [h] && [h][1..] == [];
    assert Runs(u, w3, [], w3);
    assert Runs(u, w2, [h], w3);
    assert Runs(u, w1, [f, h], w3);
  }

  /** An uninterrupted ivshm_endpoint_push into a ring with room is a run that appends the
      frame and posts the semaphore, as `Endpoint.Push` does. */
  lemma PushIsRun(u: Setup, w: World, frame: seq<byte>, k: nat)
    requires |w.eps| == |u.ids| && !w.halted && w.target == |w.eps| && WellFormed(frame)
    requires k == Lookup(u.ids, Id(frame)) && k < |u.ids| && |w.eps[k].rx| + |frame| <= u.cap(k)
    ensures var p := w.eps[k];
            var p' := p.(rx := p.rx + frame, sem := p.sem + 1, pushing := false, frame := frame, written := |frame|);
            Runs(u, w, [PushBegin(frame), PushSome(|frame|), PushEnd], w.(eps := w.eps[k := p']))
  {
    var p := w.eps[k];
    var p1 := p.(pushing := true, frame := frame, written := 0);
    var p2 := p1.(rx := p.rx + frame, written := |frame|);
    var w1, w2 := w.(eps := w.eps[k := p1], target := k), w.(eps := w.eps[k := p2], target := k);
    var w3 := w.(eps := w.eps[k := p2.(pushing := false, sem := p.sem + 1)]);
    assert frame[0..|frame|] == frame;
    assert Step(u, w1, PushSome(|frame|)) == w2;
    assert Step(u, w2, PushEnd) == w3;
    RunsThree(u, w, PushBegin(frame), w1, PushSome(|frame|), w2, PushEnd, w3);
  }

  /** An uninterrupted ivshm_endpoint_pkt_read of a buffered packet is a run that takes it off
      the ring and hands it on, as `Endpoint.PktRead` does. */
  lemma ReadIsRun(u: Setup, w: World, k: nat)
    requires |w.eps| == |u.ids| && !w.halted && k < |w.eps| && !w.eps[k].reading && w.eps[k].sem > 0
    requires HeaderOk(u.maxPkt(k), w.eps[k].rx) && 0 < Len(w.eps[k].rx) <= |w.eps[k].rx|
    ensures var p := w.eps[k];
            var n := Len(p.rx);
            var p' := p.(rx := p.rx[n..], sem := p.sem - 1, need := n, got := p.rx[..n], out := p.out + [p.rx[..n]]);
            Runs(u, w, [ReadBegin(k), ReadSome(k, n), ReadEnd(k)], w.(eps := w.eps[k := p']))
  {
    var p := w.eps[k];
    var n := Len(p.rx);
    var p1 := p.(sem := p.sem - 1, reading := true, need := n, got := []);
    var p2 := p1.(rx := p.rx[n..], got := p.rx[..n]);
    var w1, w2 := w.(eps := w.eps[k := p1]), w.(eps := w.eps[k := p2]);
    var w3 := w.(eps := w.eps[k := p2.(reading := false, out := p.out + [p.rx[..n]])]);
    assert [] + p.rx[..n] == p.rx[..n];
    assert Step(u, w1, ReadSome(k, n)) == w2;
    assert Step(u, w2, ReadEnd(k)) == w3;
    RunsThree(u, w, ReadBegin(k), w1, ReadSome(k, n), w2, ReadEnd(k), w3);
  }
}

/** What ivshm_write does before it places a frame: its guard, the one family of sends that the
    guard should refuse, and what time does to a guard's answer. */
module PipeGuard {
  import opened Words
  import opened ByteRing
  import opened Vring
  import opened Pipe
  import opened PipeSteps
  import opened PipeRuns
  import opened PipeQueue
  import opened PipePoll

  /** The steps of a sender that waits for ivshm_tx_ok. */
  ghost predicate Accepted(c: Config, s: Link, e: Event)
    requires c.line > 0
  {
    && Ready(c, s, e)
    && (e.Send? ==> TxOk(c, s.t.numFree, s.t.head, s.t.tail, FrameSize(c, |e.bytes|)))
  }

  predicate FillsExactly(c: Config, s: Link, e: Event)
    requires c.line > 0
  {
    e.Send? && ExactFill(c, s.t.head, s.t.tail, FrameSize(c, |e.bytes|))
  }

  /** A run in which every send finds room for its descriptor and, if `guarded`, is accepted by
      ivshm_tx_ok; ivshm_write itself sends either way. */
  ghost predicate RunsUnder(c: Config, guarded: bool, s: Link, es: seq<Event>, s': Link)
    requires c.line > 0
    decreases |es|
  {
    if es == [] then s == s'
    else
      && Formed(c, s) && Ready(c, s, es[0]) && (guarded ==> Accepted(c, s, es[0]))
      && RunsUnder(c, guarded, Step(c, s, es[0]), es[1..], s')
  }

  ghost predicate RunsAsGuarded(c: Config, s: Link, es: seq<Event>, s': Link)
    requires c.line > 0
  {
    RunsUnder(c, true, s, es, s')
  }

  ghost predicate NeverFills(c: Config, s: Link, es: seq<Event>, s': Link)
    requires c.line > 0 && RunsAsGuarded(c, s, es, s')
    decreases |es|
  {
    es == [] || (!FillsExactly(c, s, es[0]) && NeverFills(c, Step(c, s, es[0]), es[1..], s'))
  }

  lemma EnabledIffAccepted(c: Config, s: Link, e: Event)
    requires Formed(c, s)
    ensures Enabled(c, s, e) <==> Accepted(c, s, e) && !FillsExactly(c, s, e)
  {
    if Accepted(c, s, e) && e.Send? {
      TxOkFitsIff(c, s.t.numFree, s.t.head, s.t.tail, FrameSize(c, |e.bytes|));
    }
  }

  /** The well-behaved runs are exactly the runs under ivshm_tx_ok in which no send is an
      exact fill. */
  lemma {:induction false} RunsIffNeverFills(c: Config, s: Link, es: seq<Event>, s': Link)
    requires c.line > 0
    ensures Runs(c, s, es, s') <==> RunsAsGuarded(c, s, es, s') && NeverFills(c, s, es, s')
    decreases |es|
  {
    if es != [] && Formed(c, s) {
      EnabledIffAccepted(c, s, es[0]);
      if Accepted(c, s, es[0]) {
        RunsIffNeverFills(c, Step(c, s, es[0]), es[1..], s');
      }
    }
  }

  lemma SendMoves(c: Config, s: Link, bytes: seq<byte>)
    requires Formed(c, s) && Ready(c, s, Send(bytes))
    ensures var t := Step(c, s, Send(bytes)).t;
            && t.head == Advance(c, s.t.head, FrameSize(c, |bytes|)).1 && t.tail == s.t.tail
            && InFlightCount(t) == InFlightCount(s.t.(lastAvail := Inc16(s.t.lastAvail)))
  {
  }

  lemma CountedSend(n: nat, u: nat)
    requires u <= n <= u + 4096
    ensures Trunc16(Inc16(Trunc16(n)) - Trunc16(u)) == Trunc16(Trunc16(n) - Trunc16(u)) + 1
  {
    Distance(n, u);
    Distance(n + 1, u);
    Inc16Trunc(n);
  }

  lemma InFlightGrows(c: Config, s: Link, g: Aux)
    requires c.num <= 4096 && Counted(c, s, g)
    ensures InFlightCount(s.t.(lastAvail := Inc16(s.t.lastAvail))) == InFlightCount(s.t) + 1
  {
    CountedSend(|g.sent|, g.Cleaned());
  }

  lemma HeadMeetsTail(c: Config, head: nat, tail: nat, room: nat)
    requires head <= c.size && tail <= c.size && ExactFill(c, head, tail, room)
    ensures Advance(c, head, room).1 == tail
  {
  }

  /** A send that ivshm_tx_ok accepts leaves head at tail, which reads as an empty ring, if
      and only if it is an exact fill. */
  lemma AmbiguousIffExactFill(c: Config, s0: Link, es: seq<Event>, s: Link, bytes: seq<byte>)
    requires Fresh(c, s0) && Runs(c, s0, es, s) && Accepted(c, s, Send(bytes))
    ensures Formed(c, s)
    ensures InFlightCount(Step(c, s, Send(bytes)).t) == InFlightCount(s.t) + 1
    ensures Step(c, s, Send(bytes)).t.head == Step(c, s, Send(bytes)).t.tail <==> FillsExactly(c, s, Send(bytes))
  {
    var g := Reached(c, s0, es, s);
    InvFormed(c, s, g);
    InFlightGrows(c, s, g);
    SendMoves(c, s, bytes);
    if FillsExactly(c, s, Send(bytes)) {
      HeadMeetsTail(c, s.t.head, s.t.tail, FrameSize(c, |bytes|));
    } else {
      EnabledIffAccepted(c, s, Send(bytes));
      HeadLeavesTail(c, s0, es, s, bytes);
    }
  }

  lemma HeadLeavesTail(c: Config, s0: Link, es: seq<Event>, s: Link, bytes: seq<byte>)
    requires Fresh(c, s0) && Runs(c, s0, es, s) && Formed(c, s) && Enabled(c, s, Send(bytes))
    ensures var t := Step(c, s, Send(bytes)).t; t.head == t.tail <==> InFlightCount(t) == 0
  {
    var s' := Step(c, s, Send(bytes));
    RunsOne(c, s, Send(bytes));
    RunsAppend(c, s0, es, s, [Send(bytes)], s');
    FlightSpansDisjoint(c, s0, es + [Send(bytes)], s');
  }

  // ---------------------------------------------------------------- one send at a time

  /** A frame of the bytes `x` would be placed on the span of a frame in flight. */
  ghost predicate LandsOnFlight(c: Config, s: Link, x: seq<byte>)
    requires c.line > 0 && c.num > 0 && |s.m.avail| == c.num && |s.m.desc| == c.num
  {
    exists i | 0 <= i < InFlightCount(s.t) ::
      && FlightId(c, s, i) < c.num
      && !SpansApart(c, s.m.desc[FlightId(c, s, i)], PlacedAt(c, s, x))
  }

  function PlacedAt(c: Config, s: Link, x: seq<byte>): Desc
    requires c.line > 0
  {
    Desc(c.base + Advance(c, s.t.head, FrameSize(c, |x|)).0, |x|, 0, 0)
  }

  /** After any accepted send, exact fill or not, the frames in flight are where they were
      placed. */
  lemma PlacedFlight(c: Config, s: Link, g: Aux, f: Frame)
    requires Inv(c, s, g) && Formed(c, s) && Accepted(c, s, Send(f.bytes))
    requires f.id == s.t.freeHead && f.off == Advance(c, s.t.head, FrameSize(c, |f.bytes|)).0
    ensures g.free != []
    ensures var s', h := Step(c, s, Send(f.bytes)), Sent(g, f);
            ValidConfig(c) && Shaped(c, s'.m) && Counted(c, s', h) && InFlight(c, s'.m, h)
  {
    OwnedCount(c, g);
    AcceptedApart(c, s.t.tail, g.flight, s.t.head, f);
    SendFlight(c, s.m, s.t, g, f);
    SentCounts(c, s, Step(c, s, Send(f.bytes)), g, f);
  }

  lemma SentFlight(c: Config, s: Link, g: Aux, b: seq<byte>) returns (h: Aux)
    requires Inv(c, s, g) && Formed(c, s) && Accepted(c, s, Send(b))
    ensures ValidConfig(c) && Shaped(c, AfterSend(c, s, b).m)
    ensures h.flight == g.flight + [Frame(s.t.freeHead, Advance(c, s.t.head, FrameSize(c, |b|)).0, b)]
    ensures InFlightCount(AfterSend(c, s, b).t) == |h.flight|
    ensures forall i | 0 <= i < |h.flight| ::
      && FlightId(c, AfterSend(c, s, b), i) == h.flight[i].id < c.num
      && AfterSend(c, s, b).m.desc[h.flight[i].id].addr == c.base + h.flight[i].off
      && AfterSend(c, s, b).m.desc[h.flight[i].id].len == |h.flight[i].bytes|
  {
    var f := Frame(s.t.freeHead, Advance(c, s.t.head, FrameSize(c, |b|)).0, b);
    PlacedFlight(c, s, g, f);
    h := Sent(g, f);
    ReadPlaced(c, Step(c, s, Send(b)), h, AfterSend(c, s, b));
  }

  lemma ReadPlaced(c: Config, s: Link, h: Aux, s': Link)
    requires ValidConfig(c) && Shaped(c, s.m) && Counted(c, s, h) && InFlight(c, s.m, h)
    requires s'.m == s.m && s'.t == s.t.(numAdded := 0)
    ensures InFlightCount(s'.t) == |h.flight|
    ensures forall i | 0 <= i < |h.flight| ::
      && FlightId(c, s', i) == h.flight[i].id < c.num
      && s'.m.desc[h.flight[i].id].addr == c.base + h.flight[i].off
      && s'.m.desc[h.flight[i].id].len == |h.flight[i].bytes|
  {
    FlightRead(c, s, h);
    forall i | 0 <= i < |h.flight|
      ensures FlightId(c, s', i) == h.flight[i].id < c.num
      ensures s'.m.desc[h.flight[i].id].addr == c.base + h.flight[i].off
      ensures s'.m.desc[h.flight[i].id].len == |h.flight[i].bytes|
    {
      assert Described(c, s.m.desc, s.m.data, h.flight[i]);
    }
  }

  /** After an exact fill a frame of the oldest one's length is accepted and lands on it. */
  lemma FillIsFollowed(c: Config, s: Link, g: Aux, b: seq<byte>) returns (x: seq<byte>)
    requires Inv(c, s, g) && Formed(c, s) && Accepted(c, s, Send(b)) && s.t.numFree >= 2
    requires FillsExactly(c, s, Send(b))
    ensures Formed(c, s) && Accepted(c, AfterSend(c, s, b), Send(x))
    ensures |AfterSend(c, s, b).m.avail| == |AfterSend(c, s, b).m.desc| == c.num
    ensures LandsOnFlight(c, AfterSend(c, s, b), x)
  {
    var h := SentFlight(c, s, g, b);
    var s' := AfterSend(c, s, b);
    var f := Frame(s.t.freeHead, Advance(c, s.t.head, FrameSize(c, |b|)).0, b);
    x := h.flight[0].bytes;
    OldestHit(c, s.t.tail, g.flight, s.t.head, f);
    HeadMeetsTail(c, s.t.head, s.t.tail, FrameSize(c, |b|));
    assert FlightId(c, s', 0) < c.num && !SpansApart(c, s'.m.desc[FlightId(c, s', 0)], PlacedAt(c, s', x));
  }

  /** After any other accepted send nothing that is accepted lands on a frame in flight. */
  lemma NoFillIsSafe(c: Config, s: Link, g: Aux, b: seq<byte>, x: seq<byte>)
    requires Inv(c, s, g) && Formed(c, s) && Accepted(c, s, Send(b))
    requires !FillsExactly(c, s, Send(b)) && Accepted(c, AfterSend(c, s, b), Send(x))
    ensures |AfterSend(c, s, b).m.avail| == |AfterSend(c, s, b).m.desc| == c.num
    ensures !LandsOnFlight(c, AfterSend(c, s, b), x)
  {
    var h := SentFlight(c, s, g, b);
    var s' := AfterSend(c, s, b);
    EnabledIffAccepted(c, s, Send(b));
    var f := Frame(s.t.freeHead, Advance(c, s.t.head, FrameSize(c, |b|)).0, b);
    PlaceIffFits(c, s.t.tail, g.flight, s.t.head, f);
    var y := Frame(0, Advance(c, s'.t.head, FrameSize(c, |x|)).0, x);
    AcceptedApart(c, s'.t.tail, h.flight, s'.t.head, y);
    forall i | 0 <= i < |h.flight|
      ensures SpansApart(c, s'.m.desc[FlightId(c, s', i)], PlacedAt(c, s', x))
    {
      assert Apart(c, h.flight[i], y);
    }
  }

  /** At every reachable state with two free descriptors: after a send that ivshm_tx_ok accepts,
      some further frame that it accepts lands on a frame in flight if and only if the first
      send is an exact fill. */
  lemma SendIsSafeIff(c: Config, s0: Link, es: seq<Event>, s: Link, b: seq<byte>)
    requires Fresh(c, s0) && Runs(c, s0, es, s) && Accepted(c, s, Send(b)) && s.t.numFree >= 2
    ensures Formed(c, s) && |AfterSend(c, s, b).m.avail| == |AfterSend(c, s, b).m.desc| == c.num
    ensures (exists x :: Accepted(c, AfterSend(c, s, b), Send(x)) && LandsOnFlight(c, AfterSend(c, s, b), x))
       <==> FillsExactly(c, s, Send(b))
  {
    var g := Reached(c, s0, es, s);
    InvFormed(c, s, g);
    if FillsExactly(c, s, Send(b)) {
      var x := FillIsFollowed(c, s, g, b);
    } else {
      forall x | Accepted(c, AfterSend(c, s, b), Send(x)) ensures !LandsOnFlight(c, AfterSend(c, s, b), x) {
        NoFillIsSafe(c, s, g, b, x);
      }
    }
  }

  // ---------------------------------------------------------------- a guard read earlier

  /** Reclaiming the oldest frame takes no room away from a frame that fits. */
  lemma FitsAfterReclaim(c: Config, tail: nat, fs: seq<Frame>, head: nat, room: nat)
    requires c.line > 0 && LaidOut(c, tail, fs, head) && fs != [] && room > 0 && Fits(c, head, tail, room)
    ensures Fits(c, head, Advance(c, tail, Room(c, fs[0])).1, room)
  {
    LaidArc(c, tail, fs, head, tail, false);
    TailReplaysHead(c, tail, fs, head);
    LaidArc(c, Advance(c, tail, Room(c, fs[0])).1, fs[1..], head, Advance(c, tail, Room(c, fs[0])).1, false);
  }

  lemma {:induction false} FitsAfterSweep(c: Config, s: Link, g: Aux, w: Sweep, room: nat)
    requires Inv(c, Swept(s, w), g) && |w.desc| == c.num && w.last < U16 && s.m.usedIdx < U16
    requires w.batch.num == 0 || (w.batch.fdesc < c.num && w.batch.fhead < c.num)
    requires room > 0 && Fits(c, s.t.head, w.tail, room)
    ensures Fits(c, s.t.head, SweepAll(c, s.m.used, s.m.usedIdx, w).tail, room)
    decreases g.returned - g.Cleaned()
  {
    Trunc16Injective(g.Cleaned(), g.returned);
    if w.last != s.m.usedIdx {
      SweepAdvances(c, s, g, w);
      FitsAfterReclaim(c, w.tail, g.flight, s.t.head, room);
      var h := SweepOneKeeps(c, s, g, w);
      SweepUnfolds(c, s.m.used, s.m.usedIdx, w);
      FitsAfterSweep(c, s, h, SweepOne(c, s.m.used, w).value, room);
    }
  }

  lemma FitsAfterClean(c: Config, s: Link, g: Aux, room: nat)
    requires Inv(c, s, g) && Formed(c, s) && room > 0 && Fits(c, s.t.head, s.t.tail, room)
    ensures Fits(c, Step(c, s, Clean).t.head, Step(c, s, Clean).t.tail, room)
    ensures Step(c, s, Clean).t.numFree == s.t.numFree
  {
    var w := Sweep(s.m.desc, s.t.tail, s.t.lastUsed, EmptyBatch);
    assert Swept(s, w) == s;
    FitsAfterSweep(c, s, g, w, room);
  }

  lemma FitsAfterStep(c: Config, s: Link, g: Aux, e: Event, room: nat)
    requires Inv(c, s, g) && Formed(c, s) && Enabled(c, s, e) && !e.Send?
    requires room > 0 && Fits(c, s.t.head, s.t.tail, room)
    ensures Fits(c, Step(c, s, e).t.head, Step(c, s, e).t.tail, room)
    ensures Step(c, s, e).t.numFree >= s.t.numFree
  {
    if e.Clean? {
      FitsAfterClean(c, s, g, room);
    }
  }

  lemma {:induction false} FitsAfterRun(c: Config, s: Link, g: Aux, es: seq<Event>, t: Link, room: nat)
    requires Inv(c, s, g) && Runs(c, s, es, t) && (forall i | 0 <= i < |es| :: !es[i].Send?)
    requires room > 0 && Fits(c, s.t.head, s.t.tail, room)
    ensures Fits(c, t.t.head, t.t.tail, room) && t.t.numFree >= s.t.numFree
    decreases |es|
  {
    if es != [] {
      assert !es[0].Send?;
      FitsAfterStep(c, s, g, es[0], room);
      var h := StepKeeps(c, s, g, es[0]);
      FitsAfterRun(c, Step(c, s, es[0]), h, es[1..], t, room);
    }
  }

  /** A single sender may read its guard before it takes the lock: what could be sent at some
      state can still be sent after any steps of others, and the guard still accepts it. */
  lemma EarlyGuardHolds(c: Config, s0: Link, es: seq<Event>, s: Link, bytes: seq<byte>, fs: seq<Event>, t: Link)
    requires Fresh(c, s0) && Runs(c, s0, es, s) && Accepted(c, s, Send(bytes)) && !FillsExactly(c, s, Send(bytes))
    requires Runs(c, s, fs, t) && (forall i | 0 <= i < |fs| :: !fs[i].Send?) && !t.announcing
    ensures Enabled(c, t, Send(bytes))
  {
    var g := Reached(c, s0, es, s);
    InvFormed(c, s, g);
    EnabledIffAccepted(c, s, Send(bytes));
    FitsAfterRun(c, s, g, fs, t, FrameSize(c, |bytes|));
  }
}

/** Doorbells that come before the receiver is in RUN: how one is lost, what it costs, and a
    rule under which none is. */
module PipeWakeups {
  import opened Words
  import opened ByteRing
  import opened Vring
  import opened Pipe
  import opened PipeSteps
  import opened PipeRuns
  import opened PipePoll

  // ---------------------------------------------------------------- when a doorbell rings

  /** The sender rings exactly when the event index names one of the frames just published. */
  lemma RingsIff(m: Shm, t: Tx, before: nat)
    requires before < U16 && t.numAdded < U16 && t.lastAvail == Trunc16(before + t.numAdded)
    ensures RingsDoorbell(m, t) <==> exists d: nat :: d < t.numAdded && Trunc16(m.availEvent) == After(before, d)
  {
    assert Trunc16(t.lastAvail - t.numAdded) == before by {
      Trunc16Range(before + t.numAdded);
      Trunc16Range(t.lastAvail - t.numAdded);
    }
    NeedEventCyclic(Trunc16(m.availEvent), t.lastAvail, before, t.numAdded);
  }

  lemma OneRingsIff(m: Shm, t: Tx, n: nat)
    requires t.numAdded == 1 && t.lastAvail == Trunc16(n + 1)
    ensures RingsDoorbell(m, t) <==> Trunc16(m.availEvent) == Trunc16(t.lastAvail - 1)
    ensures Trunc16(t.lastAvail - 1) == Trunc16(n)
  {
    Inc16Trunc(n);
    Trunc16Range(Trunc16(n) + 1);
    Trunc16Range(t.lastAvail - 1);
    RingsIff(m, t, Trunc16(n));
    assert After(Trunc16(n), 0) == Trunc16(n);
  }

  /** At every reachable state the doorbell rings exactly when the event index is that of the
      frame just published. */
  lemma AnnounceRingsIff(c: Config, s0: Link, es: seq<Event>, s: Link)
    requires Fresh(c, s0) && Runs(c, s0, es, s) && s.announcing
    ensures Formed(c, s)
    ensures Step(c, s, Announce).irq <==> s.irq || Trunc16(s.m.availEvent) == Trunc16(s.m.availIdx - 1)
  {
    var g := Reached(c, s0, es, s);
    InvFormed(c, s, g);
    OneRingsIff(s.m, s.t, |g.sent| - 1);
  }

  /** A frame that the receiver has taken and armed past never rings. */
  lemma TakenNeverRings(c: Config, s0: Link, es: seq<Event>, s: Link)
    requires Fresh(c, s0) && Runs(c, s0, es, s) && s.announcing && !s.irq
    requires s.r.lastAvail == s.m.availIdx && (s.pc.Idle? || s.pc.Polling? || s.pc.Armed?)
    ensures Formed(c, s) && !Step(c, s, Announce).irq
  {
    var g := Reached(c, s0, es, s);
    AnnounceRingsIff(c, s0, es, s);
    Trunc16Range(s.m.availIdx - 1);
  }

  /** An interrupt in RUN without a change of state posts and counts data exactly when some
      frame has not been taken; otherwise it leaves nothing behind. */
  lemma InterruptCounts(c: Config, s0: Link, es: seq<Event>, s: Link)
    requires Fresh(c, s0) && Runs(c, s0, es, s) && s.running && s.irq
    ensures Formed(c, s)
    ensures var s' := Step(c, s, Interrupt(false));
            var untaken := |s.delivered| + (if s.pc.Holding? then 1 else 0) < |SentIn(es)|;
            s' == if untaken then s.(irq := false, ready := s.ready + 1, posts := s.posts + 1) else s.(irq := false)
  {
    var g := Reached(c, s0, es, s);
    InvFormed(c, s, g);
    CountersFaithful(c, s0, es, s);
    Trunc16Range(s.m.availIdx - s.r.lastAvail);
  }

  /** Before RUN every interrupt is a change of state and no data. */
  lemma InterruptBeforeRun(c: Config, s: Link, stateChange: bool)
    requires Formed(c, s) && !s.running && (s.irq || stateChange)
    ensures var s' := Step(c, s, Interrupt(stateChange));
            s' == s.(irq := false, changes := s.changes + 1, posts := s.posts + 1)
  {
  }

  /** A pass of the thread takes at most one of each count, and polls for data or, after a
      time-out, for being in RUN. */
  lemma PassTakes(c: Config, s: Link, e: Event)
    requires Formed(c, s) && Enabled(c, s, e) && (e.Wake? || e.Timeout?)
    ensures var s' := Step(c, s, e);
            && s.ready - s'.ready == (if s.ready > 0 then 1 else 0)
            && s.changes - s'.changes == (if s.changes > 0 then 1 else 0)
            && s.posts - s'.posts == (if e.Wake? then 1 else 0)
            && (s'.pc.Polling? <==> s.ready > 0 || (e.Timeout? && s.running))
            && (s'.running <==> s.running || e.up) && s'.m == s.m && s'.irq == s.irq
  {
  }

  // ---------------------------------------------------------------- what a miss is

  /** Event `i` is the interrupt of a doorbell for an undelivered frame, handled before RUN,
      and the receiver has not looked at the ring since. */
  ghost predicate MissesAt(c: Config, s: Link, es: seq<Event>, i: nat)
    requires c.line > 0
  {
    && i < |es| && (forall j | i < j < |es| :: !es[j].Take?)
    && exists t :: Runs(c, s, es[..i], t) && Misses(t, es[i])
  }

  ghost predicate NoTake(es: seq<Event>) {
    forall j | 0 <= j < |es| :: !es[j].Take?
  }

  lemma MissesLater(c: Config, s: Link, es: seq<Event>, i: nat)
    requires c.line > 0 && es != [] && Formed(c, s) && Enabled(c, s, es[0]) && i > 0
    ensures MissesAt(c, s, es, i) <==> MissesAt(c, Step(c, s, es[0]), es[1..], i - 1)
  {
    if i < |es| {
      var t := Step(c, s, es[0]);
      var rest := es[1..];
      assert es[..i][0] == es[0] && es[..i][1..] == rest[..i - 1] && es[i] == rest[i - 1];
      assert forall u :: Runs(c, s, es[..i], u) <==> Runs(c, t, rest[..i - 1], u);
      assert forall j | i - 1 < j < |rest| :: rest[j] == es[j + 1];
      assert forall j | i < j < |es| :: es[j] == rest[j - 1];
    }
  }

  lemma MissesNow(c: Config, s: Link, es: seq<Event>)
    requires c.line > 0 && es != []
    ensures MissesAt(c, s, es, 0) <==> Misses(s, es[0]) && NoTake(es[1..])
  {
    assert es[..0] == [];
    assert Runs(c, s, es[..0], s);
    assert forall j | 0 < j < |es| :: es[j] == es[1..][j - 1];
    assert forall j | 0 <= j < |es| - 1 :: es[1..][j] == es[j + 1];
  }

  /** A run has missed a doorbell exactly when one of its events misses it and nothing has
      made up for that. */
  lemma {:induction false} MissedIffMissesAt(c: Config, s: Link, es: seq<Event>, s': Link, missed: bool)
    requires c.line > 0 && Runs(c, s, es, s')
    ensures MissedIn(c, s, es, missed) <==> (missed && NoTake(es)) || exists i: nat :: MissesAt(c, s, es, i)
    decreases |es|
  {
    if es != [] {
      var t := Step(c, s, es[0]);
      MissedIffMissesAt(c, t, es[1..], s', MissedAfter(s, es[0], missed));
      MissesNow(c, s, es);
      forall i: nat | i > 0 ensures MissesAt(c, s, es, i) <==> MissesAt(c, t, es[1..], i - 1) {
        MissesLater(c, s, es, i);
      }
      if exists i: nat :: MissesAt(c, t, es[1..], i) {
        var i: nat :| MissesAt(c, t, es[1..], i);
        MissesLater(c, s, es, i + 1);
        assert MissesAt(c, s, es, i + 1);
      }
      assert NoTake(es) <==> !es[0].Take? && NoTake(es[1..]) by {
        assert forall j | 0 < j < |es| :: es[j] == es[1..][j - 1];
        assert forall j | 0 <= j < |es| - 1 :: es[1..][j] == es[j + 1];
      }
    }
  }

  // ---------------------------------------------------------------- a sender that waits

  /** Every send of the run finds the receiver in RUN. */
  ghost predicate SendsInRun(c: Config, s: Link, es: seq<Event>)
    requires c.line > 0
    decreases |es|
  {
    es == [] ||
    (Formed(c, s) && Enabled(c, s, es[0]) && (es[0].Send? ==> s.running) && SendsInRun(c, Step(c, s, es[0]), es[1..]))
  }

  predicate Untouched(s: Link) {
    !s.running ==> s.pc.Idle? && s.m.availIdx == s.r.lastAvail
  }

  lemma UntouchedStep(c: Config, s: Link, e: Event)
    requires Formed(c, s) && Enabled(c, s, e) && Untouched(s) && (e.Send? ==> s.running) && (s.ready > 0 ==> s.running)
    ensures Untouched(Step(c, s, e)) && !Misses(s, e)
    ensures Step(c, s, e).ready > 0 ==> Step(c, s, e).running
  {
  }

  lemma {:induction false} WaitingNeverMisses(c: Config, s: Link, es: seq<Event>)
    requires c.line > 0 && Untouched(s) && (s.ready > 0 ==> s.running) && SendsInRun(c, s, es)
    ensures !MissedIn(c, s, es, false)
    decreases |es|
  {
    if es != [] {
      UntouchedStep(c, s, es[0]);
      WaitingNeverMisses(c, Step(c, s, es[0]), es[1..]);
    }
  }

  /** A sender that waits for the peer's RUN loses nothing: at rest everything is delivered. */
  lemma WaitingSenderLosesNothing(c: Config, s0: Link, es: seq<Event>, s: Link)
    requires Fresh(c, s0) && Runs(c, s0, es, s) && SendsInRun(c, s0, es)
    requires s.pc.Idle? && !s.irq && s.posts == 0 && !s.announcing
    ensures s.delivered == SentIn(es)
  {
    WaitingNeverMisses(c, s0, es);
    NoLostWakeup(c, s0, es, s);
  }

  // ---------------------------------------------------------------- a sender that does not

  lemma RunsStep(c: Config, s: Link, e: Event, es: seq<Event>, s': Link, missed: bool)
    requires c.line > 0 && Formed(c, s) && Enabled(c, s, e) && Runs(c, Step(c, s, e), es, s')
    ensures Runs(c, s, [e] + es, s')
    ensures MissedIn(c, s, [e] + es, missed) <==> MissedIn(c, Step(c, s, e), es, MissedAfter(s, e, missed))
  {
    assert ([e] + es)[1..] == es;
  }

  /** A first frame rings. */
  lemma FirstRings(c: Config, s0: Link, b: seq<byte>) returns (s: Link)
    requires Fresh(c, s0) && b != [] && FrameSize(c, |b|) <= c.size
    ensures Formed(c, s0) && Enabled(c, s0, Send(b)) && Formed(c, Step(c, s0, Send(b)))
    ensures Enabled(c, Step(c, s0, Send(b)), Announce) && s == Step(c, Step(c, s0, Send(b)), Announce)
    ensures Formed(c, s) && s.irq && s.m.availIdx == 1 && s.r == Rx(0, 0) && !s.announcing
    ensures s.pc == Idle && s.delivered == [] && s.ready == 0 && !s.running && s.posts == s0.posts
  {
    var g := FreshInv(c, s0);
    InvFormed(c, s0, g);
    var h := StepKeeps(c, s0, g, Send(b));
    var s1 := Step(c, s0, Send(b));
    InvFormed(c, s1, h);
    RingsForAwaited(s1.m, s1.t, 0);
    var k := StepKeeps(c, s1, h, Announce);
    s := Step(c, s1, Announce);
    InvFormed(c, s, k);
  }

  /** The peer sends its first frame as soon as it runs, and the doorbell is handled while the
      receiver is still in READY: the receiver then reaches RUN and waits with nothing pending
      and nothing delivered. */
  lemma DoorbellBeforeRunIsLost(c: Config, s0: Link, b: seq<byte>) returns (es: seq<Event>, s: Link)
    requires Fresh(c, s0) && b != [] && FrameSize(c, |b|) <= c.size
    ensures es == [Send(b), Announce, Interrupt(false), Wake(true)] && Runs(c, s0, es, s)
    ensures s.running && s.pc.Idle? && !s.irq && s.ready == 0 && !s.announcing && s.posts == s0.posts
    ensures s.delivered == [] && SentIn(es) == [b] && MissedIn(c, s0, es, false)
  {
    var s2 := FirstRings(c, s0, b);
    var s3 := Step(c, s2, Interrupt(false));
    s := Step(c, s3, Wake(true));
    assert Runs(c, s, [], s) && MissedIn(c, s, [], true);
    RunsStep(c, s3, Wake(true), [], s, true);
    RunsStep(c, s2, Interrupt(false), [Wake(true)], s, false);
    RunsStep(c, Step(c, s0, Send(b)), Announce, [Interrupt(false), Wake(true)], s, false);
    RunsStep(c, s0, Send(b), [Announce, Interrupt(false), Wake(true)], s, false);
    es := [Send(b), Announce, Interrupt(false), Wake(true)];
    LostParts(b);
  }

  lemma LostParts(b: seq<byte>)
    ensures [Wake(true)] + [] == [Wake(true)]
    ensures [Interrupt(false)] + [Wake(true)] == [Interrupt(false), Wake(true)]
    ensures [Announce] + [Interrupt(false), Wake(true)] == [Announce, Interrupt(false), Wake(true)]
    ensures [Send(b)] + [Announce, Interrupt(false), Wake(true)] == [Send(b), Announce, Interrupt(false), Wake(true)]
    ensures SentIn([Send(b), Announce, Interrupt(false), Wake(true)]) == [b]
  {
    var es := [Announce, Interrupt(false), Wake(true)];
    assert Quiet(es);
    NoneSent(es);
    assert [Send(b), Announce, Interrupt(false), Wake(true)][1..] == es;
  }
}

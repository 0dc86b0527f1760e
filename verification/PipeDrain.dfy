/** Progress of the pipe: whatever has happened, it can come to rest with everything
    delivered and every resource back. */
module PipeDrain {
  import opened Words
  import opened ByteRing
  import opened Vring
  import opened Pipe
  import opened PipeSteps
  import opened PipeRuns
  import opened PipeQueue
  import opened PipePoll

  /** `s` leads to `t` by the steps `es`, none of them a send. */
  ghost predicate Settles(c: Config, s: Link, es: seq<Event>, t: Link)
    requires c.line > 0
  {
    Runs(c, s, es, t) && SentIn(es) == []
  }

  lemma SettlesJoin(c: Config, s: Link, es: seq<Event>, t: Link, fs: seq<Event>, u: Link) returns (gs: seq<Event>)
    requires c.line > 0 && Settles(c, s, es, t) && Settles(c, t, fs, u)
    ensures Settles(c, s, gs, u)
  {
    RunsAppend(c, s, es, t, fs, u);
    SentInAppend(es, fs);
    gs := es + fs;
  }

  lemma SettlesOne(c: Config, s: Link, g: Aux, e: Event) returns (t: Link, h: Aux)
    requires Inv(c, s, g) && Enabled(c, s, e) && !e.Send?
    ensures Formed(c, s) && t == Step(c, s, e)
    ensures Inv(c, t, h) && h.sent == g.sent && Settles(c, s, [e], t)
    ensures h.missed == MissedAfter(s, e, g.missed)
  {
    InvFormed(c, s, g);
    h := StepKeeps(c, s, g, e);
    t := Step(c, s, e);
    RunsOne(c, s, e);
    SentInOne(e);
  }

  /** How many steps the threads are from a sender at rest and a receiver about to look. */
  function ToGo(s: Link): nat {
    (if s.announcing then 1 else 0) +
    (if !s.running then (if s.changes > 0 && s.posts > 0 then 2 else 3)
     else
       match s.pc
       case Polling => 0 case Idle => 1 case Armed => 2 case Finished => 3 case Pushed(_) => 4 case Holding(_) => 5)
  }

  /** The step that brings them closer. */
  function NextStep(s: Link): Event
    requires ToGo(s) > 0
  {
    if s.announcing then Announce
    else if !s.running then (if s.changes > 0 && s.posts > 0 then Wake(true) else Interrupt(true))
    else
      match s.pc
      case Idle => Timeout(false) case Armed => Look case Finished => Arm case Pushed(_) => Finish
      case Holding(_) => Push
  }

  lemma CloserPc(c: Config, s: Link)
    requires Formed(c, s) && ToGo(s) > 0 && Ready(c, s, NextStep(s))
    requires !s.running ==> s.pc.Idle? && s.ready == 0
    requires s.pc.Holding? ==> DescData(c, s.m.desc[s.pc.id]).Some?
    ensures ToGo(Step(c, s, NextStep(s))) < ToGo(s)
  {
    var t := Step(c, s, NextStep(s));
    if s.announcing {
      assert !t.announcing && t.pc == s.pc && t.running == s.running && t.changes == s.changes && t.posts == s.posts;
    } else {
      assert t.announcing == s.announcing;
    }
  }

  lemma CloserStep(c: Config, s: Link, g: Aux)
    requires Inv(c, s, g) && ToGo(s) > 0
    ensures Formed(c, s) && Enabled(c, s, NextStep(s)) && ToGo(Step(c, s, NextStep(s))) < ToGo(s)
  {
    InvFormed(c, s, g);
    if s.pc.Holding? { PushDelivers(c, s, g); }
    CloserPc(c, s);
  }

  lemma {:induction false} ToPolling(c: Config, s: Link, g: Aux) returns (es: seq<Event>, t: Link, h: Aux)
    requires Inv(c, s, g)
    ensures Inv(c, t, h) && h.sent == g.sent && Settles(c, s, es, t)
    ensures t.pc.Polling? && !t.announcing
    decreases ToGo(s)
  {
    if ToGo(s) == 0 {
      es, t, h := [], s, g;
    } else {
      CloserStep(c, s, g);
      var u, k := SettlesOne(c, s, g, NextStep(s));
      es, t, h := ToPolling(c, u, k);
      es := SettlesJoin(c, s, [NextStep(s)], u, es, t);
    }
  }

  /** From any state of the invariant everything sent can be delivered. */
  lemma ToDelivered(c: Config, s: Link, g: Aux) returns (es: seq<Event>, t: Link, h: Aux)
    requires Inv(c, s, g)
    ensures Inv(c, t, h) && h.sent == g.sent && Settles(c, s, es, t)
    ensures t.pc.Idle? && !t.announcing && t.delivered == g.sent
  {
    var u, k;
    es, u, k := ToPolling(c, s, g);
    var fs := PollIsRun(c, u, k);
    NoneSent(fs);
    t := AfterPoll(c, u);
    h := RunKeeps(c, u, k, fs, t);
    assert h.sent == k.sent + [];
    es := SettlesJoin(c, s, es, u, fs, t);
  }

  lemma NothingInFlight(c: Config, s: Link, g: Aux)
    requires Inv(c, s, g) && s.t.lastUsed == s.m.usedIdx && s.pc.Idle? && s.delivered == g.sent
    ensures g.flight == [] && s.t.head == s.t.tail && InFlightCount(s.t) == 0
  {
    FlightRead(c, s, g);
    Distance(|g.sent|, g.Cleaned());
    SpansDisjoint(c, s.t.tail, g.flight, s.t.head);
  }

  /** The pending batches can be spliced one after the other. */
  lemma {:induction false} ToSpliced(c: Config, s: Link, g: Aux) returns (es: seq<Event>, t: Link, h: Aux)
    requires Inv(c, s, g) && !s.announcing
    ensures Inv(c, t, h) && h.sent == g.sent && Settles(c, s, es, t)
    ensures t.batches == [] && t.t.lastUsed == s.t.lastUsed && t.m.usedIdx == s.m.usedIdx
    ensures t.pc == s.pc && t.delivered == s.delivered
    decreases |s.batches|
  {
    if s.batches == [] {
      es, t, h := [], s, g;
    } else {
      var u, k := SettlesOne(c, s, g, Splice(0));
      es, t, h := ToSpliced(c, u, k);
      es := SettlesJoin(c, s, [Splice(0)], u, es, t);
    }
  }

  lemma AllFree(c: Config, s: Link, g: Aux)
    requires Inv(c, s, g) && g.flight == [] && s.batches == []
    ensures s.t.numFree == c.num
  {
    OwnedCount(c, g);
  }

  /** From every reachable state there is a continuation without sends after which the
      receiver rests, everything sent is delivered, no batch is pending, head meets tail and
      every descriptor is free. */
  lemma Drains(c: Config, s0: Link, es: seq<Event>, s: Link) returns (fs: seq<Event>, t: Link)
    requires Fresh(c, s0) && Runs(c, s0, es, s)
    ensures Runs(c, s, fs, t) && SentIn(fs) == []
    ensures t.pc.Idle? && t.delivered == SentIn(es)
    ensures t.batches == [] && t.t.head == t.t.tail && t.t.numFree == c.num
  {
    var g := Reached(c, s0, es, s);
    var u, h;
    fs, u, h := ToDelivered(c, s, g);
    var v, k := SettlesOne(c, u, h, Clean);
    CleanOutcome(c, u, h, v);
    CleanFrame(c, u, v);
    fs := SettlesJoin(c, s, fs, u, [Clean], v);
    var gs, l;
    gs, t, l := ToSpliced(c, v, k);
    fs := SettlesJoin(c, s, fs, v, gs, t);
    NothingInFlight(c, t, l);
    AllFree(c, t, l);
  }

  // ---------------------------------------------------------------- by doorbells alone

  /** The same for a receiver in RUN that waits for no time-out. */
  function QuietToGo(s: Link): nat {
    (if s.announcing then 3 else 0) +
    match s.pc
    case Polling => 0
    case Idle => if s.ready > 0 then 1 else if s.irq then 2 else 0
    case Armed => 3 case Finished => 4 case Pushed(_) => 5 case Holding(_) => 6
  }

  function QuietStep(s: Link): Event
    requires QuietToGo(s) > 0
  {
    if s.announcing then Announce
    else
      match s.pc
      case Idle => if s.ready > 0 then Wake(false) else Interrupt(false)
      case Armed => Look case Finished => Arm case Pushed(_) => Finish case Holding(_) => Push
  }

  lemma QuietCloserPc(c: Config, s: Link)
    requires Formed(c, s) && QuietToGo(s) > 0 && Ready(c, s, QuietStep(s)) && s.running
    requires s.pc.Holding? ==> DescData(c, s.m.desc[s.pc.id]).Some?
    ensures QuietToGo(Step(c, s, QuietStep(s))) < QuietToGo(s) && Step(c, s, QuietStep(s)).running
    ensures s.pc.Idle? && s.ready > 0 ==>
      var t := Step(c, s, QuietStep(s)); t.pc.Polling? || (t.pc.Idle? && t.ready > 0)
    ensures s.pc.Polling? ==> Step(c, s, QuietStep(s)).pc.Polling?
  {
    var t := Step(c, s, QuietStep(s));
    if s.announcing {
      assert !t.announcing && t.pc == s.pc && t.ready == s.ready;
    } else {
      assert t.announcing == s.announcing;
    }
  }

  lemma QuietCloser(c: Config, s: Link, g: Aux)
    requires Inv(c, s, g) && QuietToGo(s) > 0 && s.running
    ensures Formed(c, s) && Enabled(c, s, QuietStep(s)) && QuietEvent(QuietStep(s))
    ensures QuietToGo(Step(c, s, QuietStep(s))) < QuietToGo(s) && Step(c, s, QuietStep(s)).running
    ensures s.pc.Idle? && s.ready > 0 ==>
      var t := Step(c, s, QuietStep(s)); t.pc.Polling? || (t.pc.Idle? && t.ready > 0)
    ensures s.pc.Polling? ==> Step(c, s, QuietStep(s)).pc.Polling?
  {
    InvFormed(c, s, g);
    if s.pc.Holding? { PushDelivers(c, s, g); }
    QuietCloserPc(c, s);
  }

  /** A doorbell was missed and nothing yet leads the receiver back to the ring. */
  predicate Stranded(s: Link, missed: bool) {
    missed && s.pc.Idle? && s.ready == 0
  }

  lemma QuietJoin(c: Config, s: Link, e: Event, t: Link, fs: seq<Event>, u: Link)
    requires c.line > 0 && Runs(c, s, [e], t) && Runs(c, t, fs, u) && QuietEvent(e) && Quiet(fs)
    ensures Runs(c, s, [e] + fs, u) && Quiet([e] + fs)
  {
    RunsAppend(c, s, [e], t, fs, u);
  }

  /** A receiver in RUN that is not stranded reaches the ring, or has nothing to do there. */
  lemma {:induction false} ToRing(c: Config, s: Link, g: Aux) returns (es: seq<Event>, t: Link, h: Aux)
    requires Inv(c, s, g) && s.running && !Stranded(s, g.missed)
    ensures Inv(c, t, h) && h.sent == g.sent && Runs(c, s, es, t) && Quiet(es)
    ensures t.pc.Polling? || (t.pc.Idle? && h.taken == |h.sent|)
    decreases QuietToGo(s)
  {
    if QuietToGo(s) == 0 {
      es, t, h := [], s, g;
    } else {
      var e := QuietStep(s);
      QuietCloser(c, s, g);
      var u, k := SettlesOne(c, s, g, e);
      assert k.missed ==> g.missed;
      es, t, h := ToRing(c, u, k);
      QuietJoin(c, s, e, u, es, t);
      es := [e] + es;
    }
  }

  lemma QuietDelivery(c: Config, s: Link, g: Aux) returns (es: seq<Event>, t: Link)
    requires Inv(c, s, g) && s.running && !Stranded(s, g.missed)
    ensures Runs(c, s, es, t) && Quiet(es) && t.delivered == g.sent
  {
    var u, k;
    es, u, k := ToRing(c, s, g);
    if u.pc.Polling? {
      var fs := PollIsRun(c, u, k);
      t := AfterPoll(c, u);
      RunsAppend(c, s, es, u, fs, t);
      es := es + fs;
    } else {
      t := u;
      assert k.sent[..|k.sent|] == k.sent;
    }
  }

  lemma StrandedStep(c: Config, s: Link, g: Aux, e: Event) returns (h: Aux)
    requires Inv(c, s, g) && Formed(c, s) && Enabled(c, s, e) && Stranded(s, g.missed)
    requires e.Send? || QuietEvent(e)
    ensures Inv(c, Step(c, s, e), h) && Stranded(Step(c, s, e), h.missed)
    ensures Step(c, s, e).delivered == s.delivered
  {
    h := StepKeeps(c, s, g, e);
  }

  /** A stranded receiver stays so, whatever is sent, until the time-out or a change of the
      peer's state. */
  lemma {:induction false} StrandedStays(c: Config, s: Link, g: Aux, es: seq<Event>, t: Link)
    requires Inv(c, s, g) && Stranded(s, g.missed) && Runs(c, s, es, t)
    requires forall i | 0 <= i < |es| :: es[i].Send? || QuietEvent(es[i])
    ensures t.pc.Idle? && t.delivered == s.delivered
    decreases |es|
  {
    if es != [] {
      assert es[0].Send? || QuietEvent(es[0]);
      var h := StrandedStep(c, s, g, es[0]);
      StrandedStays(c, Step(c, s, es[0]), h, es[1..], t);
    }
  }

  lemma StrandedHasNothing(c: Config, s: Link, g: Aux)
    requires Inv(c, s, g) && Stranded(s, g.missed)
    ensures s.delivered == [] && g.sent != []
  {
    assert g.sent[..0] == [];
  }

  /** All of `frames` can be delivered without a time-out or a change of the peer's state. */
  ghost predicate DoorbellsSuffice(c: Config, s: Link, frames: seq<seq<byte>>)
    requires c.line > 0
  {
    exists fs, t :: Runs(c, s, fs, t) && Quiet(fs) && t.delivered == frames
  }

  /** From a reachable state in RUN everything can be delivered without a time-out and without
      a change of the peer's state if and only if the receiver is not stranded. */
  lemma DoorbellsSufficeIff(c: Config, s0: Link, es: seq<Event>, s: Link)
    requires Fresh(c, s0) && Runs(c, s0, es, s) && s.running
    ensures DoorbellsSuffice(c, s, SentIn(es)) <==> !Stranded(s, MissedIn(c, s0, es, false))
  {
    var g := Reached(c, s0, es, s);
    if Stranded(s, g.missed) {
      StrandedFails(c, s, g);
    } else {
      var fs, t := QuietDelivery(c, s, g);
    }
  }

  lemma StrandedFails(c: Config, s: Link, g: Aux)
    requires Inv(c, s, g) && Stranded(s, g.missed)
    ensures !DoorbellsSuffice(c, s, g.sent)
  {
    StrandedHasNothing(c, s, g);
    forall fs, t | Runs(c, s, fs, t) && Quiet(fs) ensures t.delivered != g.sent {
      StrandedStays(c, s, g, fs, t);
    }
  }

  /** After a missed doorbell further sends do not help either. */
  lemma SendsDoNotHelp(c: Config, s0: Link, es: seq<Event>, s: Link, fs: seq<Event>, t: Link)
    requires Fresh(c, s0) && Runs(c, s0, es, s) && Stranded(s, MissedIn(c, s0, es, false))
    requires Runs(c, s, fs, t) && forall i | 0 <= i < |fs| :: fs[i].Send? || QuietEvent(fs[i])
    ensures t.pc.Idle? && t.delivered == [] && SentIn(es) != []
  {
    var g := Reached(c, s0, es, s);
    StrandedStays(c, s, g, fs, t);
    StrandedHasNothing(c, s, g);
  }
}

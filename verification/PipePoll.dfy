/** The receive loop of ivshm_pipe_poll, run without interference, is a run of the protocol
    and hands on every frame that was published. */
module PipePoll {
  import opened Basics
  import opened Words
  import opened ByteRing
  import opened Vring
  import opened Pipe
  import opened PipeSteps
  import opened PipeRuns
  import opened PipeQueue

  lemma HeadOfAppend<T>(xs: seq<T>, ys: seq<T>)
    requires xs != []
    ensures xs + ys != [] && (xs + ys)[0] == xs[0] && (xs + ys)[1..] == xs[1..] + ys
  {
  }

  lemma {:induction false} RunsAppend(c: Config, s: Link, es: seq<Event>, t: Link, fs: seq<Event>, u: Link)
    requires c.line > 0 && Runs(c, s, es, t) && Runs(c, t, fs, u)
    ensures Runs(c, s, es + fs, u)
    decreases |es|
  {
    if es == [] {
      assert es + fs == fs;
    } else {
      HeadOfAppend(es, fs);
      RunsAppend(c, Step(c, s, es[0]), es[1..], t, fs, u);
    }
  }

  lemma RunsOne(c: Config, s: Link, e: Event)
    requires c.line > 0 && Formed(c, s) && Enabled(c, s, e)
    ensures Runs(c, s, [e], Step(c, s, e))
  {
    assert Runs(c, Step(c, s, e), [], Step(c, s, e));
  }

  const ROUND: seq<Event> := [Take, Push, Finish, Arm, Look]

  lemma RoundParts()
    ensures [Take] + [Push] == [Take, Push] && [Take, Push] + [Finish, Arm, Look] == ROUND
  {
  }

  /** Taking and pushing the next frame. */
  lemma TakeAndPush(c: Config, s: Link, g: Aux) returns (t: Link, g': Aux)
    requires Inv(c, s, g) && s.pc.Polling? && g.taken < |g.sent|
    ensures Inv(c, t, g') && Runs(c, s, [Take, Push], t) && g'.sent == g.sent && g'.taken == g.taken + 1
    ensures t == s.(r := RxDesc(c, s.m, s.r).0, pc := t.pc, delivered := t.delivered) && t.pc.Pushed?
    ensures RxDesc(c, s.m, s.r).1 == Some(t.pc.id) && t.pc.id < c.num
    ensures DescData(c, s.m.desc[t.pc.id]).Some?
    ensures var (off, len) := DescData(c, s.m.desc[t.pc.id]).value;
            t.delivered == s.delivered + [s.m.data[off..off + len]]
  {
    var u;
    u, g' := TakeOne(c, s, g);
    t := PushOne(c, u, g');
    TakenAndPushed(c, s, u, t);
    assert Runs(c, s, [Take, Push], t) by {
      RunsAppend(c, s, [Take], u, [Push], t);
      RoundParts();
    }
  }

  lemma TakenAndPushed(c: Config, s: Link, u: Link, t: Link)
    requires ValidConfig(c) && Shaped(c, s.m)
    requires var (r, id) := RxDesc(c, s.m, s.r);
             && id.Some? && u == s.(r := r, pc := Holding(id.value))
             && id.value < c.num && DescData(c, s.m.desc[id.value]).Some?
    requires var (off, len) := DescData(c, u.m.desc[u.pc.id]).value;
             t == u.(pc := Pushed(u.pc.id), delivered := u.delivered + [u.m.data[off..off + len]])
    ensures t == s.(r := RxDesc(c, s.m, s.r).0, pc := t.pc, delivered := t.delivered) && t.pc.Pushed?
    ensures RxDesc(c, s.m, s.r).1 == Some(t.pc.id)
    ensures var (off, len) := DescData(c, s.m.desc[t.pc.id]).value;
            t.delivered == s.delivered + [s.m.data[off..off + len]]
  {
  }

  lemma TakeOne(c: Config, s: Link, g: Aux) returns (t: Link, g': Aux)
    requires Inv(c, s, g) && s.pc.Polling? && g.taken < |g.sent|
    ensures Inv(c, t, g') && Runs(c, s, [Take], t) && g'.sent == g.sent && g'.taken == g.taken + 1
    ensures RxDesc(c, s.m, s.r).1.Some?
    ensures t == s.(r := RxDesc(c, s.m, s.r).0, pc := Holding(RxDesc(c, s.m, s.r).1.value))
  {
    InvFormed(c, s, g);
    TakesOldest(c, s, g);
    g' := TakeKeeps(c, s, g);
    t := Step(c, s, Take);
    RunsOne(c, s, Take);
  }

  lemma PushOne(c: Config, s: Link, g: Aux) returns (t: Link)
    requires Inv(c, s, g) && s.pc.Holding?
    ensures Inv(c, t, g) && Runs(c, s, [Push], t)
    ensures s.pc.id < c.num && DescData(c, s.m.desc[s.pc.id]).Some?
    ensures var (off, len) := DescData(c, s.m.desc[s.pc.id]).value;
            t == s.(pc := Pushed(s.pc.id), delivered := s.delivered + [s.m.data[off..off + len]])
  {
    InvFormed(c, s, g);
    PushDelivers(c, s, g);
    t := Step(c, s, Push);
    assert Inv(c, t, g) by { PushKeeps(c, s, g); }
    assert Runs(c, s, [Push], t) by { RunsOne(c, s, Push); }
  }

  /** Giving the descriptor back, arming the event index and looking again. */
  lemma FinishAndLook(c: Config, s: Link, g: Aux) returns (t: Link, g': Aux)
    requires Inv(c, s, g) && s.pc.Pushed?
    ensures Inv(c, t, g') && Runs(c, s, [Finish, Arm, Look], t) && g'.sent == g.sent && g'.taken == g.taken
    ensures var (m, r) := RxFinish(c, s.m, s.r, s.pc.id);
            t == s.(m := m.(availEvent := r.lastAvail), r := r,
                    pc := if m.availIdx != r.lastAvail then Polling else Idle)
  {
    InvFormed(c, s, g);
    g' := FinishKeeps(c, s, g);
    var u := Step(c, s, Finish);
    RunsOne(c, s, Finish);
    InvFormed(c, u, g');
    ArmAndLook(c, u, g');
    t := Step(c, Step(c, u, Arm), Look);
    RunsAppend(c, s, [Finish], u, [Arm, Look], t);
  }

  lemma ArmAndLook(c: Config, s: Link, g: Aux)
    requires Inv(c, s, g) && Formed(c, s) && s.pc.Finished?
    ensures Formed(c, Step(c, s, Arm)) && Step(c, s, Arm).pc.Armed?
    ensures Inv(c, Step(c, Step(c, s, Arm), Look), g)
    ensures Runs(c, s, [Arm, Look], Step(c, Step(c, s, Arm), Look))
  {
    LookingKeeps(c, s, g, Arm);
    var t := Step(c, s, Arm);
    InvFormed(c, t, g);
    LookingKeeps(c, t, g, Look);
    RunsOne(c, s, Arm);
    RunsOne(c, t, Look);
    RunsAppend(c, s, [Arm], t, [Look], Step(c, t, Look));
  }


  /** One round of the receive loop as five steps of the protocol. */
  lemma RoundIsRun(c: Config, s: Link, g: Aux) returns (u: Link, g': Aux)
    requires Inv(c, s, g) && s.pc.Polling? && g.taken < |g.sent|
    ensures Inv(c, u, g') && Runs(c, s, ROUND, u) && g'.sent == g.sent && g'.taken == g.taken + 1
    ensures var p := PollOne(c, s.m, s.r);
            && p.frames != []
            && u == s.(m := p.m, r := p.r, delivered := s.delivered + p.frames,
                       pc := if p.m.availIdx != p.r.lastAvail then Polling else Idle)
  {
    var t, h := TakeAndPush(c, s, g);
    u, g' := FinishAndLook(c, t, h);
    assert Runs(c, s, ROUND, u) by {
      RoundParts();
      RunsAppend(c, s, [Take, Push], t, [Finish, Arm, Look], u);
    }
    RoundValue(c, s, t, u);
  }

  lemma RoundValue(c: Config, s: Link, t: Link, u: Link)
    requires ValidConfig(c) && Shaped(c, s.m) && t.pc.Pushed? && t.pc.id < c.num
    requires RxDesc(c, s.m, s.r).1 == Some(t.pc.id) && DescData(c, s.m.desc[t.pc.id]).Some?
    requires t == s.(r := RxDesc(c, s.m, s.r).0, pc := t.pc, delivered := t.delivered)
    requires var (off, len) := DescData(c, s.m.desc[t.pc.id]).value;
             t.delivered == s.delivered + [s.m.data[off..off + len]]
    requires var (m, r) := RxFinish(c, t.m, t.r, t.pc.id);
             u == t.(m := m.(availEvent := r.lastAvail), r := r,
                     pc := if m.availIdx != r.lastAvail then Polling else Idle)
    ensures var p := PollOne(c, s.m, s.r);
            && p.frames != []
            && u == s.(m := p.m, r := p.r, delivered := s.delivered + p.frames,
                       pc := if p.m.availIdx != p.r.lastAvail then Polling else Idle)
  {
  }

  /** The event comes neither from a service that sends, nor from the time-out, nor from a
      change of the peer's state. */
  predicate QuietEvent(e: Event) {
    !e.Send? && !e.Timeout? && !(e.Interrupt? && e.stateChange)
  }

  predicate Quiet(es: seq<Event>) {
    forall i | 0 <= i < |es| :: QuietEvent(es[i])
  }

  lemma QuietRound(es: seq<Event>)
    requires Quiet(es)
    ensures Quiet(ROUND) && Quiet(ROUND + es)
  {
  }

  /** What one uninterrupted pass of the receive loop makes of a link. */
  ghost function AfterPoll(c: Config, s: Link): Link
    requires ValidConfig(c) && Shaped(c, s.m) && s.m.availIdx < U16 && s.r.lastAvail < U16
  {
    var p := PollAll(c, s.m, s.r);
    s.(m := p.m, r := p.r, pc := Idle, delivered := s.delivered + p.frames)
  }

  lemma PollStops(c: Config, s: Link, g: Aux)
    requires Inv(c, s, g) && (s.pc.Polling? || s.pc.Idle?) && g.taken == |g.sent|
    ensures s.m.availIdx < U16 && s.r.lastAvail < U16
    ensures AfterPoll(c, s) == s.(pc := Idle) && s.delivered == g.sent
    ensures s.pc.Polling? ==> Runs(c, s, [Take], AfterPoll(c, s))
  {
    assert g.sent[..|g.sent|] == g.sent;
    assert s.delivered + [] == s.delivered;
    if s.pc.Polling? {
      InvFormed(c, s, g);
      RunsOne(c, s, Take);
    }
  }

  /** A round followed by the rest of the loop is the whole loop. */
  lemma PollContinues(c: Config, s: Link, u: Link)
    requires ValidConfig(c) && Shaped(c, s.m) && s.m.availIdx < U16 && s.r.lastAvail < U16
    requires var p := PollOne(c, s.m, s.r);
             && p.frames != []
             && u == s.(m := p.m, r := p.r, delivered := s.delivered + p.frames, pc := u.pc)
    ensures Shaped(c, u.m) && u.m.availIdx < U16 && u.r.lastAvail < U16
    ensures AfterPoll(c, s) == AfterPoll(c, u)
  {
    var p := PollOne(c, s.m, s.r);
    var rest := PollAll(c, p.m, p.r);
    assert s.delivered + (p.frames + rest.frames) == (s.delivered + p.frames) + rest.frames;
  }

  /** One uninterrupted pass of the receive loop is a run of the protocol that ends idle
      with every published frame delivered. */
  lemma {:induction false} PollIsRun(c: Config, s: Link, g: Aux) returns (es: seq<Event>)
    requires Inv(c, s, g) && s.pc.Polling?
    ensures s.m.availIdx < U16 && s.r.lastAvail < U16
    ensures Runs(c, s, es, AfterPoll(c, s)) && AfterPoll(c, s).delivered == g.sent
    ensures Quiet(es)
    decreases |g.sent| - g.taken
  {
    if g.taken == |g.sent| {
      PollStops(c, s, g);
      es := [Take];
    } else {
      var u, h := RoundIsRun(c, s, g);
      PollContinues(c, s, u);
      if u.pc.Polling? {
        var more := PollIsRun(c, u, h);
        RunsAppend(c, s, ROUND, u, more, AfterPoll(c, u));
        es := ROUND + more;
        assert Quiet(es) by { QuietRound(more); }
      } else {
        Trunc16Injective(h.taken, |h.sent|);
        PollStops(c, u, h);
        es := ROUND;
        assert Quiet(es) by { QuietRound([]); }
      }
    }
  }

  // ---------------------------------------------------------------- one uninterrupted write

  lemma CleanOne(c: Config, s: Link, g: Aux) returns (t: Link, h: Aux)
    requires Inv(c, s, g) && Formed(c, s)
    ensures Inv(c, t, h) && Runs(c, s, [Clean], t) && h.sent == g.sent
    ensures var (m, q, b) := TxClean(c, s.m, s.t);
            t == s.(m := m, t := q, batches := if b.num == 0 then s.batches else s.batches + [b])
  {
    h := CleanKeeps(c, s, g);
    t := Step(c, s, Clean);
    RunsOne(c, s, Clean);
  }

  lemma SpliceLast(c: Config, s: Link, g: Aux, batches: seq<Batch>, b: Batch) returns (t: Link, h: Aux)
    requires Inv(c, s, g) && !s.announcing && s.batches == batches + [b]
    ensures Inv(c, t, h) && Runs(c, s, [Splice(|batches|)], t) && h.sent == g.sent
    ensures b.fdesc < c.num
    ensures var (m, q) := TxSplice(c, s.m, s.t, b); t == s.(m := m, t := q, batches := batches)
  {
    InvFormed(c, s, g);
    assert b in s.batches;
    var e := Splice(|batches|);
    h := SpliceKeeps(c, s, g, |batches|);
    t := Step(c, s, e);
    RunsOne(c, s, e);
    assert s.batches[..|batches|] + s.batches[|batches| + 1..] == batches;
  }

  ghost function AfterClean(c: Config, s: Link): Link
    requires Formed(c, s)
  {
    var (m, q) := Cleaned(c, s.m, s.t);
    s.(m := m, t := q)
  }

  lemma CleanIsRun(c: Config, s: Link, g: Aux) returns (es: seq<Event>, h: Aux)
    requires Inv(c, s, g) && Formed(c, s) && !s.announcing
    ensures Inv(c, AfterClean(c, s), h) && Runs(c, s, es, AfterClean(c, s)) && SentIn(es) == []
  {
    var u;
    u, h := CleanOne(c, s, g);
    var b := TxClean(c, s.m, s.t).2;
    if b.num == 0 {
      es := [Clean];
      SentInOne(Clean);
      assert u == AfterClean(c, s);
    } else {
      var t;
      t, h := SpliceLast(c, u, h, s.batches, b);
      assert t == AfterClean(c, s);
      es := CleanThenSplice(c, s, u, |s.batches|, t);
    }
  }

  lemma CleanThenSplice(c: Config, s: Link, u: Link, i: nat, t: Link) returns (es: seq<Event>)
    requires c.line > 0 && Runs(c, s, [Clean], u) && Runs(c, u, [Splice(i)], t)
    ensures Runs(c, s, es, t) && SentIn(es) == []
  {
    RunsAppend(c, s, [Clean], u, [Splice(i)], t);
    SentInAppend([Clean], [Splice(i)]);
    SentInOne(Clean);
    SentInOne(Splice(i));
    es := [Clean] + [Splice(i)];
  }

  ghost function AfterSend(c: Config, s: Link, bytes: seq<byte>): Link
    requires Formed(c, s) && Ready(c, s, Send(bytes))
  {
    var (m, q) := TxFrame(c, s.m, s.t, bytes);
    s.(m := m, t := q.(numAdded := 0), irq := s.irq || RingsDoorbell(m, q))
  }

  lemma SendAndAnnounce(c: Config, s: Link, g: Aux, bytes: seq<byte>) returns (es: seq<Event>)
    requires Inv(c, s, g) && Formed(c, s) && Enabled(c, s, Send(bytes))
    ensures Runs(c, s, es, AfterSend(c, s, bytes)) && SentIn(es) == [bytes]
  {
    var h := SendKeeps(c, s, g, bytes);
    var u := Step(c, s, Send(bytes));
    InvFormed(c, u, h);
    RunsOne(c, s, Send(bytes));
    RunsOne(c, u, Announce);
    RunsAppend(c, s, [Send(bytes)], u, [Announce], Step(c, u, Announce));
    SentInAppend([Send(bytes)], [Announce]);
    SentInOne(Send(bytes));
    SentInOne(Announce);
    es := [Send(bytes)] + [Announce];
  }

  /** What one uninterrupted ivshm_write makes of a link. */
  ghost function AfterWrite(c: Config, s: Link, bytes: seq<byte>): Link
    requires Formed(c, s) && FrameSize(c, |bytes|) <= c.size
  {
    var (m, q, sent, ring) := Written(c, s.m, s.t, bytes);
    s.(m := m, t := q, irq := s.irq || ring)
  }

  lemma WriteIsCleanAndSend(c: Config, s: Link, bytes: seq<byte>)
    requires Formed(c, s) && Formed(c, AfterClean(c, s)) && bytes != [] && !s.announcing
    requires FrameSize(c, |bytes|) <= c.size
    ensures var u := AfterClean(c, s);
            && (Written(c, s.m, s.t, bytes).2 <==> Ready(c, u, Send(bytes)))
            && AfterWrite(c, s, bytes) == if Ready(c, u, Send(bytes)) then AfterSend(c, u, bytes) else u
  {
  }

  /** One uninterrupted ivshm_write whose frame fits behind the cleaned tail is a run of the
      protocol that sends exactly this frame, or nothing where the code stops for want of a
      descriptor. */
  lemma WriteIsRun(c: Config, s: Link, g: Aux, bytes: seq<byte>) returns (es: seq<Event>)
    requires Inv(c, s, g) && Formed(c, s) && !s.announcing && bytes != []
    requires Fits(c, s.t.head, Cleaned(c, s.m, s.t).1.tail, FrameSize(c, |bytes|))
    ensures FrameSize(c, |bytes|) <= c.size
    ensures Runs(c, s, es, AfterWrite(c, s, bytes))
    ensures SentIn(es) == if Written(c, s.m, s.t, bytes).2 then [bytes] else []
  {
    var h;
    es, h := CleanIsRun(c, s, g);
    var u := AfterClean(c, s);
    InvFormed(c, u, h);
    assert u.t.head == s.t.head;
    WriteIsCleanAndSend(c, s, bytes);
    if Written(c, s.m, s.t, bytes).2 {
      var fs := SendAndAnnounce(c, u, h, bytes);
      RunsAppend(c, s, es, u, fs, AfterWrite(c, s, bytes));
      SentInAppend(es, fs);
      es := es + fs;
    }
  }

  lemma {:induction false} NoneSent(es: seq<Event>)
    requires Quiet(es)
    ensures SentIn(es) == []
  {
    if es != [] {
      assert QuietEvent(es[0]);
      NoneSent(es[1..]);
    }
  }

  lemma SentInOne(e: Event)
    ensures SentIn([e]) == if e.Send? then [e.bytes] else []
  {
    assert [e][1..] == [];
  }

  lemma {:induction false} SentInAppend(es: seq<Event>, fs: seq<Event>)
    ensures SentIn(es + fs) == SentIn(es) + SentIn(fs)
  {
    if es == [] {
      assert es + fs == fs;
    } else {
      HeadOfAppend(es, fs);
      SentInAppend(es[1..], fs);
    }
  }
}

/** What the guard lets through: runs in which the wrong frame is delivered, because of an
    exact fill or because two senders read the guard before either of them sends. */
module PipeOverwrite {
  import opened Basics
  import opened Words
  import opened ByteRing
  import opened Vring
  import opened Pipe
  import opened PipeRuns
  import opened PipePoll
  import opened PipeGuard
  import opened Layout
  import opened Bringup

  /** Two steps in a row. */
  lemma TwoSteps(c: Config, guarded: bool, s: Link, e: Event, f: Event, s': Link)
    requires c.line > 0 && Formed(c, s) && Ready(c, s, e) && (guarded ==> Accepted(c, s, e))
    requires var t := Step(c, s, e);
             Formed(c, t) && Ready(c, t, f) && (guarded ==> Accepted(c, t, f)) && Step(c, t, f) == s'
    ensures RunsUnder(c, guarded, s, [e, f], s')
  {
    var t := Step(c, s, e);
    assert [e, f][1..] == [f] && [f][1..] == [];
    assert RunsUnder(c, guarded, s', [], s');
    assert RunsUnder(c, guarded, t, [f], s');
  }

  lemma {:induction false} AppendRun(c: Config, guarded: bool, s: Link, es: seq<Event>, t: Link,
                                     fs: seq<Event>, u: Link)
    requires c.line > 0 && RunsUnder(c, guarded, s, es, t) && RunsUnder(c, guarded, t, fs, u)
    ensures RunsUnder(c, guarded, s, es + fs, u)
    decreases |es|
  {
    if es == [] {
      assert es + fs == fs;
    } else {
      HeadOfAppend(es, fs);
      AppendRun(c, guarded, Step(c, s, es[0]), es[1..], t, fs, u);
    }
  }

  /** A pair of steps on top of a run. */
  lemma NextTwo(c: Config, guarded: bool, s: Link, es: seq<Event>, t: Link, e: Event, f: Event, u: Link)
    returns (gs: seq<Event>)
    requires c.line > 0 && RunsUnder(c, guarded, s, es, t) && RunsUnder(c, guarded, t, [e, f], u) && !f.Send?
    ensures RunsUnder(c, guarded, s, gs, u)
    ensures gs == es + [e, f] && SentIn(gs) == SentIn(es) + if e.Send? then [e.bytes] else []
  {
    gs := es + [e, f];
    AppendRun(c, guarded, s, es, t, [e, f], u);
    SentInAppend(es, [e, f]);
    assert [e, f][1..] == [f] && [f][1..] == [] && SentIn([f]) == [];
  }

  /** The sender has sent `k` frames and none has been spliced back: descriptor `i` carries
      frame `i`, and the free list still runs in order from `k`. */
  ghost predicate Scripted(c: Config, s: Link, k: nat) {
    && ValidConfig(c) && Shaped(c, s.m) && k <= c.num && c.num >= 3
    && !s.announcing && s.t.numFree == c.num - k && (k < c.num ==> s.t.freeHead == k)
    && s.t.lastAvail == s.m.availIdx == k && s.t.head <= c.size && s.t.tail <= c.size
    && s.m.usedIdx < U16 && s.t.lastUsed < U16
    && (forall i | k <= i < c.num - 1 :: s.m.desc[i].next == i + 1)
    && (forall i | 0 <= i < k :: s.m.avail[i] == i)
    && (forall b | b in s.batches :: b.fdesc < c.num) && (s.pc.Holding? ==> s.pc.id < c.num)
  }

  lemma ScriptedFormed(c: Config, s: Link, k: nat)
    requires Scripted(c, s, k)
    ensures Formed(c, s)
  {
  }

  /** Sending and announcing. */
  lemma SendAnnounced(c: Config, guarded: bool, s: Link, bytes: seq<byte>)
    requires Formed(c, s) && Ready(c, s, Send(bytes)) && (guarded ==> Accepted(c, s, Send(bytes)))
    requires Formed(c, AfterSend(c, s, bytes))
    ensures RunsUnder(c, guarded, s, [Send(bytes), Announce], AfterSend(c, s, bytes))
  {
    var t := Step(c, s, Send(bytes));
    assert Formed(c, t);
    assert Step(c, t, Announce) == AfterSend(c, s, bytes);
    TwoSteps(c, guarded, s, Send(bytes), Announce, AfterSend(c, s, bytes));
  }

  /** What the `k`-th send changes. */
  lemma FrameNext(c: Config, s: Link, k: nat, bytes: seq<byte>)
    requires Scripted(c, s, k) && k < c.num && FrameSize(c, |bytes|) <= c.size
    ensures var (m, t) := TxFrame(c, s.m, s.t, bytes);
            var (off, head) := Advance(c, s.t.head, FrameSize(c, |bytes|));
            && m == s.m.(desc := s.m.desc[k := Desc(c.base + off, |bytes|, 0, s.m.desc[k].next)],
                         avail := s.m.avail[k := k], availIdx := k + 1, data := Blit(s.m.data, off, bytes))
            && t == s.t.(freeHead := s.m.desc[k].next, numFree := c.num - k - 1, numAdded := s.t.numAdded + 1,
                         lastAvail := k + 1, head := head)
  {
    DivModUnique(k, c.num, 0, k);
  }

  lemma SendNext(c: Config, guarded: bool, s: Link, k: nat, bytes: seq<byte>) returns (s': Link)
    requires Scripted(c, s, k) && k < c.num && bytes != []
    requires FrameSize(c, |bytes|) <= c.size && (guarded ==> TxOk(c, 1, s.t.head, s.t.tail, FrameSize(c, |bytes|)))
    ensures RunsUnder(c, guarded, s, [Send(bytes), Announce], s') && Scripted(c, s', k + 1)
    ensures var (off, head) := Advance(c, s.t.head, FrameSize(c, |bytes|));
            && off + |bytes| <= c.size
            && s'.m.data == Blit(s.m.data, off, bytes)
            && s'.m.desc == s.m.desc[k := Desc(c.base + off, |bytes|, 0, s.m.desc[k].next)]
            && s'.t.head == head && s'.t.tail == s.t.tail && s'.t.lastUsed == s.t.lastUsed
    ensures s' == s.(m := s'.m, t := s'.t, irq := s'.irq)
    ensures s'.m.used == s.m.used && s'.m.usedIdx == s.m.usedIdx && s'.m.availEvent == s.m.availEvent
  {
    ScriptedFormed(c, s, k);
    FrameNext(c, s, k, bytes);
    s' := AfterSend(c, s, bytes);
    ScriptedFormed(c, s', k + 1);
    SendAnnounced(c, guarded, s, bytes);
  }

  lemma TakeStep(c: Config, s: Link, k: nat)
    requires Formed(c, s) && s.pc.Polling? && k < c.num && s.r.lastAvail == k && s.m.availIdx != k
    requires s.m.avail[k] == k && DescData(c, s.m.desc[k]).Some?
    ensures Step(c, s, Take) == s.(pc := Holding(k), r := s.r.(lastAvail := k + 1))
  {
    DivModUnique(k, c.num, 0, k);
    assert RxDesc(c, s.m, s.r) == (s.r.(lastAvail := k + 1), Some(k));
  }

  lemma TakeNext(c: Config, guarded: bool, s: Link, n: nat, k: nat, e: Event) returns (s': Link)
    requires Scripted(c, s, n) && k < n && s.r.lastAvail == k && DescData(c, s.m.desc[k]).Some?
    requires (s.pc.Idle? && e == Timeout(false) && s.ready == 0 && s.running) || (s.pc.Armed? && e == Look)
    ensures RunsUnder(c, guarded, s, [e, Take], s') && Scripted(c, s', n)
    ensures s' == s.(pc := Holding(k), r := s.r.(lastAvail := k + 1), changes := s'.changes)
  {
    var t := s.(pc := Polling, changes := if e.Look? then s.changes else Less(s.changes));
    ScriptedFormed(c, s, n);
    ScriptedFormed(c, t, n);
    assert Step(c, s, e) == t;
    TakeStep(c, t, k);
    s' := t.(pc := Holding(k), r := s.r.(lastAvail := k + 1));
    TwoSteps(c, guarded, s, e, Take, s');
  }

  lemma FinishStep(c: Config, s: Link, k: nat)
    requires Formed(c, s) && s.pc == Pushed(k) && k < c.num && s.r.lastUsed == k
    ensures Step(c, s, Finish) == s.(m := s.m.(used := s.m.used[k := UsedElem(k, 1)], usedIdx := k + 1),
                                     r := s.r.(lastUsed := k + 1), pc := Finished)
  {
    DivModUnique(k, c.num, 0, k);
  }

  lemma PushNext(c: Config, guarded: bool, s: Link, n: nat, k: nat, frame: seq<byte>) returns (s': Link)
    requires Scripted(c, s, n) && k < n && s.pc == Holding(k) && s.r.lastUsed == k
    requires DescData(c, s.m.desc[k]).Some?
    requires var (off, len) := DescData(c, s.m.desc[k]).value; frame == s.m.data[off..off + len]
    ensures RunsUnder(c, guarded, s, [Push, Finish], s') && Scripted(c, s', n)
    ensures s' == s.(m := s.m.(used := s.m.used[k := UsedElem(k, 1)], usedIdx := k + 1),
                     r := s.r.(lastUsed := k + 1), pc := Finished, delivered := s.delivered + [frame])
  {
    ScriptedFormed(c, s, n);
    var t := s.(pc := Pushed(k), delivered := s.delivered + [frame]);
    assert Step(c, s, Push) == t;
    ScriptedFormed(c, t, n);
    FinishStep(c, t, k);
    s' := Step(c, t, Finish);
    ScriptedFormed(c, s', n);
    TwoSteps(c, guarded, s, Push, Finish, s');
  }

  lemma CleanFirst(c: Config, m: Shm, t: Tx)
    requires ValidConfig(c) && Shaped(c, m) && m.usedIdx == 1 && t.lastUsed == 0 && t.tail == 0
    requires m.used[0] == UsedElem(0, 1) && DescData(c, m.desc[0]).Some? && DescData(c, m.desc[0]).value.0 == 0
    requires FrameSize(c, DescData(c, m.desc[0]).value.1) <= c.size
    ensures TxClean(c, m, t) ==
      (m, t.(tail := FrameSize(c, DescData(c, m.desc[0]).value.1), lastUsed := 1), Batch(0, 0, 1))
  {
    DivModUnique(0, c.num, 0, 0);
    var pos := FrameSize(c, DescData(c, m.desc[0]).value.1);
    var w := Sweep(m.desc, pos, 1, Batch(0, 0, 1));
    assert SweepOne(c, m.used, Sweep(m.desc, 0, 0, EmptyBatch)) == Some(w);
    assert SweepAll(c, m.used, 1, w) == w;
  }

  lemma CleanNext(c: Config, guarded: bool, s: Link, n: nat) returns (s': Link)
    requires Scripted(c, s, n) && s.pc.Finished? && s.batches == []
    requires s.m.usedIdx == 1 && s.t.lastUsed == 0 && s.t.tail == 0 && s.m.used[0] == UsedElem(0, 1)
    requires DescData(c, s.m.desc[0]).Some? && DescData(c, s.m.desc[0]).value.0 == 0
    requires FrameSize(c, DescData(c, s.m.desc[0]).value.1) <= c.size
    ensures RunsUnder(c, guarded, s, [Clean, Arm], s') && Scripted(c, s', n)
    ensures s' == s.(m := s.m.(availEvent := s.r.lastAvail), batches := [Batch(0, 0, 1)], pc := Armed,
                     t := s.t.(tail := FrameSize(c, DescData(c, s.m.desc[0]).value.1), lastUsed := 1))
  {
    ScriptedFormed(c, s, n);
    CleanFirst(c, s.m, s.t);
    var t := s.(batches := [Batch(0, 0, 1)],
                t := s.t.(tail := FrameSize(c, DescData(c, s.m.desc[0]).value.1), lastUsed := 1));
    assert Step(c, s, Clean) == t;
    s' := t.(m := s.m.(availEvent := s.r.lastAvail), pc := Armed);
    assert Step(c, t, Arm) == s';
    TwoSteps(c, guarded, s, Clean, Arm, s');
  }

  /** A frame of `n` bytes fills the ring down to less than a line. */
  predicate FillsRing(c: Config, n: nat)
    requires c.line > 0
  {
    n > 0 && FrameSize(c, n) <= c.size < FrameSize(c, n) + c.line
  }

  lemma FillingAdvance(c: Config, n: nat)
    requires c.line > 0 && FillsRing(c, n)
    ensures n <= FrameSize(c, n) && c.size - FrameSize(c, n) < FrameSize(c, n)
    ensures Advance(c, 0, FrameSize(c, n)) == (0, FrameSize(c, n)) == Advance(c, FrameSize(c, n), FrameSize(c, n))
    ensures TxOk(c, 1, 0, 0, FrameSize(c, n)) && TxOk(c, 1, FrameSize(c, n), FrameSize(c, n), FrameSize(c, n))
    ensures ExactFill(c, FrameSize(c, n), FrameSize(c, n), FrameSize(c, n))
  {
    assert FrameSize(c, n) >= c.line by {
      DivModUnique(FrameSize(c, n), c.line, FrameSize(c, n) / c.line, 0);
      MulMono(c.line, 1, FrameSize(c, n) / c.line);
    }
  }

  /** The receiver reaches RUN before anything is sent. */
  lemma ComeUp(c: Config, guarded: bool, s0: Link) returns (es: seq<Event>, s: Link)
    requires Fresh(c, s0) && c.num >= 3
    ensures RunsUnder(c, guarded, s0, es, s) && SentIn(es) == [] && Scripted(c, s, 0)
    ensures s == s0.(running := true)
  {
    ScriptedFormed(c, s0, 0);
    var t := s0.(posts := s0.posts + 1, changes := s0.changes + 1);
    assert Step(c, s0, Interrupt(true)) == t;
    s := s0.(running := true);
    assert Step(c, t, Wake(true)) == s;
    TwoSteps(c, guarded, s0, Interrupt(true), Wake(true), s);
    assert RunsUnder(c, guarded, s0, [], s0);
    es := NextTwo(c, guarded, s0, [], s0, Interrupt(true), Wake(true), s);
  }

  /** Frame `a` is sent, taken and given back. */
  lemma FirstReturned(c: Config, s0: Link, a: seq<byte>) returns (es: seq<Event>, s: Link)
    requires Fresh(c, s0) && c.num >= 3 && FillsRing(c, |a|)
    ensures RunsAsGuarded(c, s0, es, s) && SentIn(es) == [a] && s.delivered == [a]
    ensures Scripted(c, s, 1) && s.pc.Finished? && s.r == Rx(1, 1) && s.batches == []
    ensures s.t.head == FrameSize(c, |a|) && s.t.tail == s.t.lastUsed == 0
    ensures s.m.usedIdx == 1 && s.m.used[0] == UsedElem(0, 1) && DescData(c, s.m.desc[0]) == Some((0, |a| as nat))
  {
    var s1;
    es, s1 := FirstSent(c, s0, a);
    var s2 := TakeNext(c, true, s1, 1, 0, Timeout(false));
    s := PushNext(c, true, s2, 1, 0, a);
    es := TwoPairs(c, true, s0, es, s1, Timeout(false), Take, s2, Push, Finish, s);
    assert [] + [a] == [a];
  }

  lemma FirstSent(c: Config, s0: Link, a: seq<byte>) returns (es: seq<Event>, s: Link)
    requires Fresh(c, s0) && c.num >= 3 && FillsRing(c, |a|)
    ensures RunsAsGuarded(c, s0, es, s) && SentIn(es) == [a] && Scripted(c, s, 1)
    ensures s == s0.(running := true, m := s.m, t := s.t, irq := s.irq) && s.m.usedIdx == 0
    ensures s.t.head == FrameSize(c, |a|) && s.t.tail == s.t.lastUsed == 0
    ensures DescData(c, s.m.desc[0]) == Some((0, |a| as nat)) && s.m.data[0..|a|] == a
  {
    FillingAdvance(c, |a|);
    var up;
    es, up := ComeUp(c, true, s0);
    s := SendNext(c, true, up, 0, a);
    var n: nat := |a|;
    assert DescData(c, s.m.desc[0]) == Some((0, n));
    assert s.m.data[0..|a|] == a;
    es := NextTwo(c, true, s0, es, up, Send(a), Announce, s);
  }

  lemma TwoPairs(c: Config, guarded: bool, s: Link, es: seq<Event>, t: Link, e: Event, f: Event, u: Link,
                 e': Event, f': Event, v: Link)
    returns (gs: seq<Event>)
    requires c.line > 0 && RunsUnder(c, guarded, s, es, t)
    requires RunsUnder(c, guarded, t, [e, f], u) && RunsUnder(c, guarded, u, [e', f'], v)
    requires !f.Send? && !f'.Send?
    ensures RunsUnder(c, guarded, s, gs, v)
    ensures gs == es + [e, f] + [e', f']
    ensures SentIn(gs) == SentIn(es) + (if e.Send? then [e.bytes] else []) + (if e'.Send? then [e'.bytes] else [])
  {
    gs := NextTwo(c, guarded, s, es, t, e, f, u);
    gs := NextTwo(c, guarded, s, gs, u, e', f', v);
  }

  /** Frame `a` goes through; the receiver is about to look again. */
  lemma FirstGoesThrough(c: Config, s0: Link, a: seq<byte>) returns (es: seq<Event>, s: Link)
    requires Fresh(c, s0) && c.num >= 3 && FillsRing(c, |a|)
    ensures RunsAsGuarded(c, s0, es, s) && SentIn(es) == [a] && s.delivered == [a]
    ensures Scripted(c, s, 1) && s.pc.Armed? && s.r == Rx(1, 1)
    ensures s.t.head == s.t.tail == FrameSize(c, |a|)
  {
    var s3;
    es, s3 := FirstReturned(c, s0, a);
    s := CleanNext(c, true, s3, 1);
    es := NextTwo(c, true, s0, es, s3, Clean, Arm, s);
  }

  /** Frame `b` is an exact fill and `x` is accepted on top of it. */
  lemma NextOverwritten(c: Config, s: Link, b: seq<byte>, x: seq<byte>) returns (es: seq<Event>, s': Link)
    requires Scripted(c, s, 1) && s.pc.Armed? && s.r == Rx(1, 1)
    requires FillsRing(c, |b|) && |x| == |b| && s.t.head == s.t.tail == FrameSize(c, |b|)
    ensures RunsAsGuarded(c, s, es, s') && SentIn(es) == [b, x]
    ensures Scripted(c, s', 3) && s'.pc.Armed? && s'.r == Rx(1, 1) && s'.delivered == s.delivered
    ensures DescData(c, s'.m.desc[1]) == Some((0, |x| as nat)) && s'.m.data[0..|x|] == x
  {
    FillingAdvance(c, |b|);
    var s1 := SendNext(c, true, s, 1, b);
    s' := SendNext(c, true, s1, 2, x);
    var n: nat := |b|;
    assert DescData(c, s'.m.desc[1]) == Some((0, n));
    assert s'.m.data[0..|b|] == x;
    assert RunsAsGuarded(c, s, [], s);
    es := TwoPairs(c, true, s, [], s, Send(b), Announce, s1, Send(x), Announce, s');
  }

  lemma WrongIsDelivered(c: Config, s: Link, x: seq<byte>) returns (es: seq<Event>, s': Link)
    requires Scripted(c, s, 3) && s.pc.Armed? && s.r == Rx(1, 1)
    requires DescData(c, s.m.desc[1]) == Some((0, |x| as nat)) && s.m.data[0..|x|] == x
    ensures RunsAsGuarded(c, s, es, s') && SentIn(es) == [] && s'.delivered == s.delivered + [x]
  {
    var s3 := TakeNext(c, true, s, 3, 1, Look);
    s' := PushNext(c, true, s3, 3, 1, x);
    assert RunsAsGuarded(c, s, [], s);
    es := TwoPairs(c, true, s, [], s, Look, Take, s3, Push, Finish, s');
  }

  lemma JoinRuns(c: Config, guarded: bool, s: Link, es: seq<Event>, t: Link, fs: seq<Event>, u: Link)
    returns (gs: seq<Event>)
    requires c.line > 0 && RunsUnder(c, guarded, s, es, t) && RunsUnder(c, guarded, t, fs, u)
    ensures RunsUnder(c, guarded, s, gs, u) && SentIn(gs) == SentIn(es) + SentIn(fs)
  {
    AppendRun(c, guarded, s, es, t, fs, u);
    SentInAppend(es, fs);
    gs := es + fs;
  }

  /** Under ivshm_tx_ok alone, in every configuration with three descriptors, three frames of
      equal length that each fill the ring have a run in which the last one is delivered in
      place of the second. */
  lemma ExactFillBreaksFifo(c: Config, s0: Link, a: seq<byte>, b: seq<byte>, x: seq<byte>)
    returns (es: seq<Event>, s: Link)
    requires Fresh(c, s0) && c.num >= 3 && FillsRing(c, |a|) && |a| == |b| == |x|
    ensures RunsAsGuarded(c, s0, es, s) && SentIn(es) == [a, b, x] && s.delivered == [a, x]
  {
    var s1, s2, fs;
    es, s1 := FirstGoesThrough(c, s0, a);
    fs, s2 := NextOverwritten(c, s1, b, x);
    es := JoinRuns(c, true, s0, es, s1, fs, s2);
    fs, s := WrongIsDelivered(c, s2, x);
    es := JoinRuns(c, true, s0, es, s2, fs, s);
  }

  ghost predicate GuardedFifo(c: Config)
    requires c.line > 0
  {
    forall s0, es, s | Fresh(c, s0) && RunsAsGuarded(c, s0, es, s) :: s.delivered <= SentIn(es)
  }

  /** The guard makes the pipe a FIFO if and only if it never lets anything through. */
  lemma GuardedFifoIff(c: Config)
    requires ValidConfig(c) && c.num >= 3
    ensures GuardedFifo(c) <==> c.size < c.line
  {
    if c.size < c.line {
      forall s0, es, s | Fresh(c, s0) && RunsAsGuarded(c, s0, es, s) ensures s.delivered <= SentIn(es) {
        NothingSent(c, s0, es, s);
        RunsIffNeverFills(c, s0, es, s);
        PipeIsFifo(c, s0, es, s);
      }
    } else {
      FifoBroken(c);
    }
  }

  lemma FifoBroken(c: Config)
    requires ValidConfig(c) && c.num >= 3 && c.line <= c.size
    ensures !GuardedFifo(c)
  {
    var n := LargestFrame(c);
    var s0 := FreshExists(c);
    var a: seq<byte>, b: seq<byte> := seq(n, i => 0), seq(n, i => 1);
    var es, s := ExactFillBreaksFifo(c, s0, a, a, b);
    assert a[0] != b[0];
    assert s.delivered[1] != SentIn(es)[1];
  }

  lemma LargestFrame(c: Config) returns (n: nat)
    requires 0 < c.line <= c.size
    ensures FillsRing(c, n)
  {
    var q := c.size / c.line;
    n := c.line * q;
    assert c.size == n + c.size % c.line;
    MulBound(c.line, q);
    DivModUnique(n + c.line - 1, c.line, q, c.line - 1);
  }

  lemma {:induction false} NothingSent(c: Config, s: Link, es: seq<Event>, s': Link)
    requires c.line > 0 && c.size < c.line && RunsAsGuarded(c, s, es, s')
    ensures NeverFills(c, s, es, s')
    decreases |es|
  {
    if es != [] {
      NothingFits(c, s, es[0]);
      NothingSent(c, Step(c, s, es[0]), es[1..], s');
    }
  }

  lemma NothingFits(c: Config, s: Link, e: Event)
    requires c.line > 0 && c.size < c.line && Ready(c, s, e)
    ensures !e.Send?
  {
    if e.Send? {
      var r := FrameSize(c, |e.bytes|);
      assert r == c.line * (r / c.line);
      MulBound(c.line, r / c.line);
    }
  }

  /** The same for every size of shared memory that ivshm_calc_qsize accepts. */
  lemma GuardedFifoByMemory(shmlen: nat, sz: Sizes, id: nat, line: nat)
    requires Chosen(shmlen, sz) && sz.Sizes? && id < 2 && line > 0
    ensures ValidConfig(Direction(shmlen, sz, id, line))
    ensures GuardedFifo(Direction(shmlen, sz, id, line)) <==> sz.qsize < line
  {
    DirectionValid(shmlen, sz, id, line);
    GuardedFifoIff(Direction(shmlen, sz, id, line));
  }

  // ---------------------------------------------------------------- two senders

  /** Both frames are placed at the start of the ring, the second on top of the first. */
  lemma BothPlaced(c: Config, s: Link, a: seq<byte>, b: seq<byte>) returns (es: seq<Event>, s': Link)
    requires Scripted(c, s, 0) && s.t.head == s.t.tail == 0
    requires FillsRing(c, |a|) && |a| == |b|
    ensures RunsUnder(c, false, s, es, s') && SentIn(es) == [a, b] && Scripted(c, s', 2)
    ensures es == [Send(a), Announce, Send(b), Announce]
    ensures s' == s.(m := s'.m, t := s'.t, irq := s'.irq)
    ensures DescData(c, s'.m.desc[0]) == Some((0, |a| as nat)) && s'.m.data[0..|b|] == b
  {
    FillingAdvance(c, |a|);
    var s1 := SendNext(c, false, s, 0, a);
    s' := SendNext(c, false, s1, 1, b);
    var n: nat := |a|;
    assert DescData(c, s'.m.desc[0]) == Some((0, n));
    assert s'.m.data[0..|b|] == b;
    es := [Send(a), Announce] + [Send(b), Announce];
    AppendRun(c, false, s, [Send(a), Announce], s1, [Send(b), Announce], s');
    PairSent(a);
    PairSent(b);
    SentInAppend([Send(a), Announce], [Send(b), Announce]);
  }

  lemma PairSent(a: seq<byte>)
    ensures SentIn([Send(a), Announce]) == [a]
  {
    assert [Send(a), Announce][1..] == [Announce] && [Announce][1..] == [];
  }

  /** Two senders read the guard at the same state, and it accepts both frames; once the first
      has sent, the second no longer fits, yet sends: its frame is delivered in place of the
      first. */
  lemma TwoSendersRace(c: Config, s0: Link, a: seq<byte>, b: seq<byte>)
    returns (es: seq<Event>, s: Link, fs: seq<Event>, t: Link)
    requires Fresh(c, s0) && c.num >= 3 && FillsRing(c, |a|) && |a| == |b|
    ensures RunsAsGuarded(c, s0, es, s) && SentIn(es) == []
    ensures Accepted(c, s, Send(a)) && Accepted(c, s, Send(b))
    ensures Formed(c, s) && !Fits(c, AfterSend(c, s, a).t.head, AfterSend(c, s, a).t.tail, FrameSize(c, |b|))
    ensures RunsUnder(c, false, s, fs, t) && SentIn(fs) == [a, b] && t.delivered == [b]
    ensures fs == [Send(a), Announce, Send(b), Announce] + [Timeout(false), Take] + [Push, Finish]
  {
    FillingAdvance(c, |a|);
    es, s := ComeUp(c, true, s0);
    var s2, s3;
    fs, s2 := BothPlaced(c, s, a, b);
    s3 := TakeNext(c, false, s2, 2, 0, Timeout(false));
    t := PushNext(c, false, s3, 2, 0, b);
    fs := TwoPairs(c, false, s, fs, s2, Timeout(false), Take, s3, Push, Finish, t);
    assert [] + [b] == [b];
  }
}

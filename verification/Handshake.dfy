/** The bring-up handshake of ivshm_pipe_fsm between two peers, with the read of the remote
    state separated from the transition it leads to, and with restarts. */
module Handshake {

  /** IVSHM_PIPE_STATE_RESET, INIT, READY, RUN */
  datatype State = Reset | Init | Ready | Run

  function Rank(s: State): nat {
    match s case Reset => 0 case Init => 1 case Ready => 2 case Run => 3
  }

  datatype Pending = Nothing | Read(remote: State)

  /** One peer: its published state, the remote state its FSM pass has read and not yet acted
      on, and whether its half was zeroed since the last reset of either peer. */
  datatype Side = Side(lstate: State, pending: Pending, clean: bool)

  /** The transition of ivshm_pipe_fsm from `l` on reading `r`. */
  function Next(l: State, r: State): State {
    match l
    case Reset => if Rank(r) < Rank(Ready) then Init else Reset
    case Init => if Rank(r) > Rank(Reset) then Ready else Init
    case Ready => if Rank(r) >= Rank(Ready) then Run else Ready
    case Run => if r == Reset then Reset else Run
  }

  /** Exactly these pairs of own and remote state make a side move, and always to the next state
      in the cycle. */
  lemma MovesExactly(l: State, r: State)
    ensures Next(l, r) != l
       <==> (l, r) in {(Reset, Reset), (Reset, Init), (Init, Init), (Init, Ready), (Init, Run), (Ready, Ready),
                       (Ready, Run), (Run, Reset)}
    ensures Next(l, r) != l ==> Rank(Next(l, r)) == (Rank(l) + 1) % 4
  {
  }

  /** The transition out of Init calls ivshm_init_queues, which zeroes the peer's half. */
  predicate Zeroes(l: State, r: State) {
    l == Init && Next(l, r) == Ready
  }

  /** The part of struct ivshm_info that ivshm_pipe_fsm works on. */
  class Info {
    var lstate: State
    var rstate: State
    var inits: nat       // calls of ivshm_init_queues

    constructor ()
      ensures lstate == Reset && inits == 0
    {
      lstate, rstate, inits := Reset, Reset, 0;
    }

    /** ivshm_pipe_fsm, given the remote state it read. */
    method PipeFsm(r: State)
      modifies this
      ensures lstate == Next(old(lstate), r) && rstate == r
      ensures inits == old(inits) + if Zeroes(old(lstate), r) then 1 else 0
    {
      match lstate {
        case Reset =>
          if r == Reset || r == Init {
            lstate := Init;
          }
        case Init =>
          if r != Reset {
            inits := inits + 1;
            lstate := Ready;
          }
        case Ready =>
          if r == Ready || r == Run {
            lstate := Run;
          }
        case Run =>
          if r == Reset {
            lstate := Reset;
          }
      }
      rstate := r;
    }
  }

  // ---------------------------------------------------------------- two peers

  datatype Pair = Pair(a: Side, b: Side)

  datatype Event = ReadRemote(first: bool) | Act(first: bool) | Restart(first: bool)

  function Swap(p: Pair): Pair { Pair(p.b, p.a) }

  predicate Enabled(p: Pair, e: Event) {
    match e
    case ReadRemote(first) => (if first then p.a else p.b).pending.Nothing?
    case Act(first) => (if first then p.a else p.b).pending.Read?
    case Restart(_) => true
  }

  /** A step of the first peer. Entering Reset makes both halves stale. */
  function StepA(p: Pair, e: Event): Pair
    requires Enabled(p, e) && e.first
  {
    match e
    case ReadRemote(_) => p.(a := p.a.(pending := Read(p.b.lstate)))
    case Act(_) =>
      var r := p.a.pending.remote;
      var l := Next(p.a.lstate, r);
      if p.a.lstate == Run && l == Reset then Pair(Side(l, Nothing, false), p.b.(clean := false))
      else p.(a := Side(l, Nothing, p.a.clean || Zeroes(p.a.lstate, r)))
    case Restart(_) => Pair(Side(Reset, Nothing, false), p.b.(clean := false))
  }

  function Mirror(e: Event): Event {
    e.(first := !e.first)
  }

  function Step(p: Pair, e: Event): Pair
    requires Enabled(p, e)
  {
    if e.first then StepA(p, e) else Swap(StepA(Swap(p), Mirror(e)))
  }

  const Boot: Pair := Pair(Side(Reset, Nothing, false), Side(Reset, Nothing, false))

  ghost predicate Runs(p: Pair, es: seq<Event>, q: Pair)
    decreases |es|
  {
    if es == [] then p == q else Enabled(p, es[0]) && Runs(Step(p, es[0]), es[1..], q)
  }

  // ---------------------------------------------------------------- safety

  /** On its way up before zeroing: in Init, or in Reset with a read that leads there. */
  predicate Early(s: Side) {
    s.lstate == Init || (s.lstate == Reset && s.pending.Read? && Rank(s.pending.remote) < Rank(Ready))
  }

  /** In Run, or in Ready with a read that leads there. */
  predicate Late(s: Side) {
    s.lstate == Run || (s.lstate == Ready && s.pending.Read? && Rank(s.pending.remote) >= Rank(Ready))
  }

  /** A peer past zeroing whose half is stale faces a peer that stays in Reset. */
  predicate StaleOnlyBeforeReset(me: Side, peer: Side) {
    Rank(me.lstate) >= Rank(Ready) && !me.clean ==> peer.lstate == Reset && !Early(peer)
  }

  /** A running side about to fall back has read Reset from a peer that is still there. */
  predicate FallsBackToReset(me: Side, peer: Side) {
    me.lstate == Run && me.pending == Read(Reset) ==> peer.lstate == Reset
  }

  predicate Inv(p: Pair) {
    && FallsBackToReset(p.a, p.b) && FallsBackToReset(p.b, p.a)
    && !(Early(p.a) && Late(p.b)) && !(Early(p.b) && Late(p.a))
    && StaleOnlyBeforeReset(p.a, p.b) && StaleOnlyBeforeReset(p.b, p.a)
  }

  lemma StepKeeps(p: Pair, e: Event)
    requires Inv(p) && Enabled(p, e)
    ensures Inv(Step(p, e))
  {
  }

  lemma {:induction false} RunKeeps(p: Pair, es: seq<Event>, q: Pair)
    requires Inv(p) && Runs(p, es, q)
    ensures Inv(q)
    decreases |es|
  {
    if es != [] {
      StepKeeps(p, es[0]);
      RunKeeps(Step(p, es[0]), es[1..], q);
    }
  }

  /** Over any number of epochs no side zeroes its half while the peer runs. */
  lemma NeverZeroesUnderRun(es: seq<Event>, p: Pair)
    requires Runs(Boot, es, p)
    ensures p.a.pending.Read? && Zeroes(p.a.lstate, p.a.pending.remote) ==> p.b.lstate != Run
    ensures p.b.pending.Read? && Zeroes(p.b.lstate, p.b.pending.remote) ==> p.a.lstate != Run
  {
    RunKeeps(Boot, es, p);
  }

  /** A running side that faces a peer which is not in Reset works on halves that were both
      zeroed since the last reset of either side. */
  lemma RunOnFreshHalves(es: seq<Event>, p: Pair)
    requires Runs(Boot, es, p)
    ensures p.a.lstate == Run && p.b.lstate != Reset ==> p.a.clean && p.b.clean
    ensures p.b.lstate == Run && p.a.lstate != Reset ==> p.a.clean && p.b.clean
  {
    RunKeeps(Boot, es, p);
  }

  // ---------------------------------------------------------------- progress

  /** The deadlock of the handshake: Ready waits for a peer that waits for it to leave Ready. */
  predicate Stuck(me: Side, peer: Side) {
    me.lstate == Ready && !Late(me) && peer.lstate == Reset && !Early(peer)
  }

  /** Stuck, or one act away from it: in Init with a read that leads to Ready. */
  predicate Endangered(me: Side, peer: Side) {
    || Stuck(me, peer)
    || (me.lstate == Init && me.pending.Read? && Rank(me.pending.remote) > Rank(Reset)
        && peer.lstate == Reset && !Early(peer))
  }

  predicate Deadlocked(p: Pair) { Stuck(p.a, p.b) || Stuck(p.b, p.a) }

  predicate InDanger(p: Pair) { Endangered(p.a, p.b) || Endangered(p.b, p.a) }

  predicate Running(p: Pair) { p.a.lstate == Run && p.b.lstate == Run }

  /** A peer may restart while the other side is neither waiting in Ready nor in Init on the
      way to Ready. */
  predicate MayRestart(other: Side) {
    && (other.lstate == Ready ==> Late(other))
    && (other.lstate == Init && other.pending.Read? ==> other.pending.remote == Reset)
  }

  predicate Polite(p: Pair, e: Event) {
    e.Restart? ==> MayRestart(if e.first then p.b else p.a)
  }

  ghost predicate PoliteRuns(p: Pair, es: seq<Event>, q: Pair)
    decreases |es|
  {
    if es == [] then p == q
    else Enabled(p, es[0]) && Polite(p, es[0]) && PoliteRuns(Step(p, es[0]), es[1..], q)
  }

  /** A restart puts an invariant state that was not in danger into danger exactly when it is
      not one of the allowed ones; no other step ever does. */
  lemma DangerIffImpolite(p: Pair, e: Event)
    requires Inv(p) && !InDanger(p) && Enabled(p, e)
    ensures InDanger(Step(p, e)) <==> !Polite(p, e)
  {
  }

  /** Danger is real: the pair is deadlocked, or the endangered side acts on what it has read
      and then it is. */
  lemma DangerDeadlocks(p: Pair) returns (es: seq<Event>, q: Pair)
    requires InDanger(p)
    ensures Runs(p, es, q) && Deadlocked(q) && forall i | 0 <= i < |es| :: !es[i].Restart?
  {
    if Deadlocked(p) {
      es, q := [], p;
    } else {
      var e := Act(Endangered(p.a, p.b));
      es, q := [e], Step(p, e);
      assert es[1..] == [];
    }
  }

  /** A restart of any other kind can be followed by a deadlock without a further restart. */
  lemma ImpoliteCanDeadlock(p: Pair, e: Event) returns (es: seq<Event>, q: Pair)
    requires Inv(p) && !InDanger(p) && Enabled(p, e) && !Polite(p, e)
    ensures Runs(Step(p, e), es, q) && Deadlocked(q) && forall i | 0 <= i < |es| :: !es[i].Restart?
  {
    DangerIffImpolite(p, e);
    es, q := DangerDeadlocks(Step(p, e));
  }

  /** A deadlock is for good: without a restart neither side ever moves again. */
  lemma {:induction false} DeadlockStays(p: Pair, es: seq<Event>, q: Pair)
    requires Deadlocked(p) && Runs(p, es, q) && forall i | 0 <= i < |es| :: !es[i].Restart?
    ensures Deadlocked(q) && q.a.lstate == p.a.lstate && q.b.lstate == p.b.lstate
    decreases |es|
  {
    if es != [] {
      assert !es[0].Restart?;
      DeadlockStays(Step(p, es[0]), es[1..], q);
    }
  }

  /** How far a pair is from both running, looking at the published states: first a side that
      still runs falls back, then both climb. `x` is the side of lower rank. */
  function Climb(x: Side, y: Side): nat {
    match (x.lstate, y.lstate)
    case (Reset, Ready) => if Early(x) then 5 else 9
    case (Reset, Run) => 8
    case (Reset, Reset) => 7
    case (Reset, Init) => 6
    case (Init, Init) => 5
    case (Init, Ready) => 4
    case (Ready, Ready) => 3
    case (Ready, Run) => 2
    case _ => 0
  }

  predicate Useful(x: Side) {
    x.pending.Read? && Next(x.lstate, x.pending.remote) != x.lstate
  }

  /** Whether the side of higher rank has to move first. */
  predicate UpperMoves(x: Side, y: Side) {
    x.lstate == Reset && (y.lstate == Run || (y.lstate == Ready && !Early(x)))
  }

  /** The side whose step brings the pair closer to both running. */
  predicate FirstMoves(p: Pair) {
    if Rank(p.a.lstate) <= Rank(p.b.lstate) then !UpperMoves(p.a, p.b) else UpperMoves(p.b, p.a)
  }

  function Helpful(p: Pair): Event {
    var first := FirstMoves(p);
    if (if first then p.a else p.b).pending.Nothing? then ReadRemote(first) else Act(first)
  }

  function Distance(p: Pair): nat {
    var x := if FirstMoves(p) then p.a else p.b;
    3 * (if Rank(p.a.lstate) <= Rank(p.b.lstate) then Climb(p.a, p.b) else Climb(p.b, p.a))
    + if Useful(x) then 0 else if x.pending.Nothing? then 1 else 2
  }

  /** Every reachable state that is neither running nor deadlocked has an enabled step that
      brings it closer to both sides running. */
  lemma HelpfulHelps(p: Pair)
    requires Inv(p) && !Deadlocked(p) && !Running(p)
    ensures Enabled(p, Helpful(p)) && !Helpful(p).Restart?
    ensures !Deadlocked(Step(p, Helpful(p))) && Distance(Step(p, Helpful(p))) < Distance(p)
  {
  }

  lemma {:induction false} CanRun(p: Pair) returns (es: seq<Event>, q: Pair)
    requires Inv(p) && !Deadlocked(p)
    ensures Runs(p, es, q) && Running(q) && forall i | 0 <= i < |es| :: !es[i].Restart?
    decreases Distance(p)
  {
    if Running(p) {
      es, q := [], p;
    } else {
      HelpfulHelps(p);
      var p' := Step(p, Helpful(p));
      StepKeeps(p, Helpful(p));
      var fs;
      fs, q := CanRun(p');
      es := [Helpful(p)] + fs;
      assert es[1..] == fs;
    }
  }

  /** Whatever has happened, the handshake can still bring both sides to Run without a
      restart if and only if it is not deadlocked. */
  lemma ReachesRunIffNotDeadlocked(es: seq<Event>, p: Pair)
    requires Runs(Boot, es, p)
    ensures (exists fs: seq<Event>, q: Pair ::
               Runs(p, fs, q) && Running(q) && forall i | 0 <= i < |fs| :: !fs[i].Restart?)
       <==> !Deadlocked(p)
  {
    RunKeeps(Boot, es, p);
    if Deadlocked(p) {
      forall fs: seq<Event>, q: Pair | Runs(p, fs, q) && forall i | 0 <= i < |fs| :: !fs[i].Restart?
        ensures !Running(q)
      {
        DeadlockStays(p, fs, q);
      }
    } else {
      var fs, q := CanRun(p);
    }
  }

  /** Restarts that never hit a side waiting in Ready, nor one in Init on its way there, never
      lead to a deadlock. */
  lemma {:induction false} PoliteNeverDeadlocks(p: Pair, es: seq<Event>, q: Pair)
    requires Inv(p) && !InDanger(p) && PoliteRuns(p, es, q)
    ensures Inv(q) && !InDanger(q) && !Deadlocked(q)
    decreases |es|
  {
    if es != [] {
      StepKeeps(p, es[0]);
      DangerIffImpolite(p, es[0]);
      PoliteNeverDeadlocks(Step(p, es[0]), es[1..], q);
    }
  }

  /** Sparing Ready peers alone is not enough: a restart that hits a peer in Init which has
      already read Init ends in the deadlock. */
  lemma RestartAgainstInitDeadlocks() returns (es: seq<Event>, p: Pair)
    ensures Runs(Boot, es, p) && Deadlocked(p)
    ensures es == [ReadRemote(true), Act(true), ReadRemote(false), Act(false), ReadRemote(true),
                   Restart(false), Act(true)]
  {
    var s1 := Step(Boot, ReadRemote(true));
    var s2 := Step(s1, Act(true));
    var s3 := Step(s2, ReadRemote(false));
    var s4 := Step(s3, Act(false));
    var s5 := Step(s4, ReadRemote(true));
    var s6 := Step(s5, Restart(false));
    p := Step(s6, Act(true));
    es := [ReadRemote(true), Act(true), ReadRemote(false), Act(false), ReadRemote(true), Restart(false), Act(true)];
    assert Runs(p, es[7..], p);
    assert Runs(s6, es[6..], p) by { assert es[6..][1..] == es[7..]; }
    assert Runs(s5, es[5..], p) by { assert es[5..][1..] == es[6..]; }
    assert Runs(s4, es[4..], p) by { assert es[4..][1..] == es[5..]; }
    assert Runs(s3, es[3..], p) by { assert es[3..][1..] == es[4..]; }
    assert Runs(s2, es[2..], p) by { assert es[2..][1..] == es[3..]; }
    assert Runs(s1, es[1..], p) by { assert es[1..][1..] == es[2..]; }
  }
}

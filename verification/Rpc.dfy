/** The RPC service: a call waits for the reply that carries its transaction id, looking at a
    bounded number of replies. */
module Rpc {
  import opened Basics
  import opened Words

  datatype Status = NoError | InvalidArgs | TimedOut | Internal | NotReady

  /** struct ivshm_rpc_header with its payload. */
  datatype Reply = Reply(id: nat, tid: nat, payload: seq<byte>)

  /** How a wait on the reply event ends: with the time-out, or with whatever reply the
      service buffer holds then. */
  datatype Wait = Expired | Woken(reply: Reply)

  /** IVSHM_RPC_GET_SZ_IN, IVSHM_RPC_GET_SZ_OUT */
  function SizeIn(rpcId: nat): nat { rpcId / 0x40_0000 % 0x400 }
  function SizeOut(rpcId: nat): nat { rpcId / 0x1000 % 0x400 }

  /** The result of a call: its status, the copied payload and the number of waits. */
  datatype Outcome = Outcome(status: Status, payload: seq<byte>, waits: nat)

  const RETRY: nat := 5

  /** The retry loop of ivshm_rpc_call from wait `k` on. `retry` is unsigned: a sixth reply
      with a foreign id makes it wrap and is looked at further. */
  function Await(tid: nat, rpcId: nat, outLen: nat, waits: nat -> Wait, k: nat): (o: Outcome)
    requires k <= RETRY
    ensures k < o.waits <= RETRY + 1
    decreases RETRY - k
  {
    match waits(k)
    case Expired => Outcome(TimedOut, [], k + 1)
    case Woken(r) =>
      if |r.payload| > outLen then Outcome(InvalidArgs, [], k + 1)
      else if r.tid != tid && k < RETRY then Await(tid, rpcId, outLen, waits, k + 1)
      else if r.tid == tid && k == RETRY then Outcome(Internal, [], k + 1)
      else if r.id != rpcId then Outcome(NotReady, [], k + 1)
      else Outcome(NoError, r.payload, k + 1)
  }

  class Service {
    var tid: nat

    constructor ()
      ensures tid == 0
    {
      tid := 0;
    }

    /** ivshm_rpc_call with `inLen` parameter bytes and the caller's output length, if any. */
    method Call(rpcId: nat, inLen: nat, outLen: Option<nat>, waits: nat -> Wait) returns (o: Outcome)
      modifies this
      ensures inLen > SizeIn(rpcId) || (SizeOut(rpcId) != 0 && outLen != Some(SizeOut(rpcId))) ==>
        o == Outcome(InvalidArgs, [], 0) && tid == old(tid)
      ensures inLen <= SizeIn(rpcId) && SizeOut(rpcId) == 0 ==>
        o == Outcome(NoError, [], 0) && tid == (old(tid) + 1) % U32
      ensures inLen <= SizeIn(rpcId) && SizeOut(rpcId) != 0 && outLen == Some(SizeOut(rpcId)) ==>
        tid == (old(tid) + 1) % U32 && o == Await(tid, rpcId, SizeOut(rpcId), waits, 0)
    {
      if inLen > SizeIn(rpcId) {
        return Outcome(InvalidArgs, [], 0);
      }
      if SizeOut(rpcId) != 0 && (outLen.None? || SizeOut(rpcId) != outLen.value) {
        return Outcome(InvalidArgs, [], 0);
      }
      tid := (tid + 1) % U32;
      if SizeOut(rpcId) == 0 {
        return Outcome(NoError, [], 0);
      }
      var retry, k := RETRY, 0;
      while true
        invariant 0 <= retry && retry + k == RETRY
        invariant Await(tid, rpcId, SizeOut(rpcId), waits, k) == Await(tid, rpcId, SizeOut(rpcId), waits, 0)
        invariant tid == (old(tid) + 1) % U32
        decreases retry
      {
        var w := waits(k);
        k := k + 1;
        if w.Expired? {
          return Outcome(TimedOut, [], k);
        }
        var r := w.reply;
        if |r.payload| > outLen.value {
          return Outcome(InvalidArgs, [], k);
        }
        if r.tid != tid {
          // the comparison with 0 looks at the counter before it is decremented
          var before := retry;
          retry := (retry - 1) % U32;
          if before > 0 {
            continue;
          }
        }
        if retry == 0 {
          return Outcome(Internal, [], k);
        }
        if r.id != rpcId {
          return Outcome(NotReady, [], k);
        }
        return Outcome(NoError, r.payload, k);
      }
    }
  }

  /** A reply that the loop passes over. */
  predicate Foreign(w: Wait, tid: nat, outLen: nat) {
    w.Woken? && w.reply.tid != tid && |w.reply.payload| <= outLen
  }

  /** All replies before the one that decides a call are foreign ones. */
  lemma {:induction false} ForeignBefore(tid: nat, rpcId: nat, outLen: nat, waits: nat -> Wait, k: nat)
    requires k <= RETRY
    ensures var o := Await(tid, rpcId, outLen, waits, k);
            (forall j | k <= j < o.waits - 1 :: Foreign(waits(j), tid, outLen))
    decreases RETRY - k
  {
    if k < RETRY && Foreign(waits(k), tid, outLen) {
      ForeignBefore(tid, rpcId, outLen, waits, k + 1);
    }
  }

  /** A call that succeeds returns the payload of the last reply it waited for: with the
      requested id, within the caller's length, and with the current transaction id exactly
      when at most five waits were needed. */
  lemma {:induction false} SuccessMeans(tid: nat, rpcId: nat, outLen: nat, waits: nat -> Wait, k: nat)
    requires k <= RETRY && Await(tid, rpcId, outLen, waits, k).status == NoError
    ensures var o := Await(tid, rpcId, outLen, waits, k);
            && waits(o.waits - 1).Woken?
            && var r := waits(o.waits - 1).reply;
               && r.id == rpcId && o.payload == r.payload && |o.payload| <= outLen
               && (r.tid == tid <==> o.waits <= RETRY)
    decreases RETRY - k
  {
    if k < RETRY && Foreign(waits(k), tid, outLen) {
      SuccessMeans(tid, rpcId, outLen, waits, k + 1);
    }
  }

  /** When the first reply with the current transaction id is among the first five and is
      preceded by foreign replies only, the call returns it. */
  lemma {:induction false} MatchReturned(tid: nat, rpcId: nat, outLen: nat, waits: nat -> Wait, k: nat, j: nat)
    requires k <= j < RETRY && (forall i | k <= i < j :: Foreign(waits(i), tid, outLen))
    requires waits(j).Woken? && waits(j).reply.tid == tid && |waits(j).reply.payload| <= outLen
    ensures Await(tid, rpcId, outLen, waits, k) ==
      if waits(j).reply.id == rpcId then Outcome(NoError, waits(j).reply.payload, j + 1)
      else Outcome(NotReady, [], j + 1)
    decreases j - k
  {
    if k < j {
      assert Foreign(waits(k), tid, outLen);
      MatchReturned(tid, rpcId, outLen, waits, k + 1, j);
    }
  }

  /** Five is the exact limit: after five foreign replies a current sixth one is refused and a
      foreign sixth one with the requested id is taken. */
  lemma {:induction false} SixthReplyInverted(tid: nat, rpcId: nat, outLen: nat, waits: nat -> Wait, k: nat)
    requires k <= RETRY && (forall i | k <= i < RETRY :: Foreign(waits(i), tid, outLen))
    requires waits(RETRY).Woken? && |waits(RETRY).reply.payload| <= outLen && waits(RETRY).reply.id == rpcId
    ensures Await(tid, rpcId, outLen, waits, k) ==
      if waits(RETRY).reply.tid == tid then Outcome(Internal, [], RETRY + 1)
      else Outcome(NoError, waits(RETRY).reply.payload, RETRY + 1)
    decreases RETRY - k
  {
    if k < RETRY {
      assert Foreign(waits(k), tid, outLen);
      SixthReplyInverted(tid, rpcId, outLen, waits, k + 1);
    }
  }

  // ---------------------------------------------------------------- how a call ends

  /** The call gets as far as wait `j`: only foreign replies come before it. */
  ghost predicate Reaches(tid: nat, outLen: nat, waits: nat -> Wait, j: nat) {
    j <= 5 && forall i | 0 <= i < j :: Foreign(waits(i), tid, outLen)
  }

  lemma {:induction false} ReachedFrom(tid: nat, rpcId: nat, outLen: nat, waits: nat -> Wait, k: nat, j: nat)
    requires k <= j && Reaches(tid, outLen, waits, j)
    ensures Await(tid, rpcId, outLen, waits, k) == Await(tid, rpcId, outLen, waits, j)
    decreases j - k
  {
    if k < j {
      assert Foreign(waits(k), tid, outLen);
      ReachedFrom(tid, rpcId, outLen, waits, k + 1, j);
    }
  }

  /** Wait `j` decides the call: it is reached and is the sixth or brings no foreign reply. */
  ghost predicate Decides(tid: nat, outLen: nat, waits: nat -> Wait, j: nat) {
    Reaches(tid, outLen, waits, j) && (j == 5 || !Foreign(waits(j), tid, outLen))
  }

  /** Exactly one wait decides a call, and it is the last one. */
  lemma DecidedBy(tid: nat, rpcId: nat, outLen: nat, waits: nat -> Wait, j: nat)
    ensures Decides(tid, outLen, waits, j) <==> j + 1 == Await(tid, rpcId, outLen, waits, 0).waits
  {
    var o := Await(tid, rpcId, outLen, waits, 0);
    ForeignBefore(tid, rpcId, outLen, waits, 0);
    if Decides(tid, outLen, waits, j) {
      ReachedFrom(tid, rpcId, outLen, waits, 0, j);
    }
    if j + 1 == o.waits {
      ReachedFrom(tid, rpcId, outLen, waits, 0, j);
    }
  }

  /** What the deciding wait makes of the call. */
  lemma Verdict(tid: nat, rpcId: nat, outLen: nat, waits: nat -> Wait, j: nat)
    requires Decides(tid, outLen, waits, j)
    ensures var o, w := Await(tid, rpcId, outLen, waits, 0), waits(j);
            && o.waits == j + 1
            && (o.status == TimedOut <==> w == Expired)
            && (o.status == InvalidArgs <==> w.Woken? && |w.reply.payload| > outLen)
            && (w.Woken? && |w.reply.payload| <= outLen ==>
                  && (o.status == Internal <==> j == 5 && w.reply.tid == tid)
                  && (o.status == NotReady <==> w.reply.id != rpcId && !(j == 5 && w.reply.tid == tid))
                  && (o.status == NoError <==> w.reply.id == rpcId && !(j == 5 && w.reply.tid == tid)))
            && o.payload == if o.status == NoError then w.reply.payload else []
  {
    ReachedFrom(tid, rpcId, outLen, waits, 0, j);
  }

  /** A call times out if and only if one of the first six waits expires and only foreign
      replies come before it. */
  lemma TimesOutIff(tid: nat, rpcId: nat, outLen: nat, waits: nat -> Wait)
    ensures Await(tid, rpcId, outLen, waits, 0).status == TimedOut
       <==> exists j: nat :: Reaches(tid, outLen, waits, j) && waits(j) == Expired
  {
    var o := Await(tid, rpcId, outLen, waits, 0);
    DecidedBy(tid, rpcId, outLen, waits, o.waits - 1);
    Verdict(tid, rpcId, outLen, waits, o.waits - 1);
    forall j: nat | Reaches(tid, outLen, waits, j) && waits(j) == Expired ensures o.status == TimedOut {
      Verdict(tid, rpcId, outLen, waits, j);
    }
    assert Reaches(tid, outLen, waits, o.waits - 1);
  }

  /** A call is refused for its length if and only if one of the first six waits brings a reply
      that is too long and only foreign replies come before it. */
  lemma TooLongIff(tid: nat, rpcId: nat, outLen: nat, waits: nat -> Wait)
    ensures Await(tid, rpcId, outLen, waits, 0).status == InvalidArgs
       <==> exists j: nat :: Reaches(tid, outLen, waits, j) && waits(j).Woken? && |waits(j).reply.payload| > outLen
  {
    var o := Await(tid, rpcId, outLen, waits, 0);
    DecidedBy(tid, rpcId, outLen, waits, o.waits - 1);
    Verdict(tid, rpcId, outLen, waits, o.waits - 1);
    forall j: nat | Reaches(tid, outLen, waits, j) && waits(j).Woken? && |waits(j).reply.payload| > outLen
      ensures o.status == InvalidArgs
    {
      Verdict(tid, rpcId, outLen, waits, j);
    }
    assert Reaches(tid, outLen, waits, o.waits - 1);
  }

  /** Reply `j` is looked at for its id: it fits, and it is current or the sixth, but not both. */
  ghost predicate Examined(tid: nat, outLen: nat, waits: nat -> Wait, j: nat) {
    && Reaches(tid, outLen, waits, j) && waits(j).Woken? && |waits(j).reply.payload| <= outLen
    && (waits(j).reply.tid == tid <==> j < 5)
  }

  /** A call reports a wrong reply if and only if the one it examines has another id. */
  lemma NotReadyIff(tid: nat, rpcId: nat, outLen: nat, waits: nat -> Wait)
    ensures Await(tid, rpcId, outLen, waits, 0).status == NotReady
       <==> exists j: nat :: Examined(tid, outLen, waits, j) && waits(j).reply.id != rpcId
  {
    var o := Await(tid, rpcId, outLen, waits, 0);
    DecidedBy(tid, rpcId, outLen, waits, o.waits - 1);
    Verdict(tid, rpcId, outLen, waits, o.waits - 1);
    forall j: nat | Examined(tid, outLen, waits, j) && waits(j).reply.id != rpcId ensures o.status == NotReady {
      Verdict(tid, rpcId, outLen, waits, j);
    }
    if o.status == NotReady {
      assert Examined(tid, outLen, waits, o.waits - 1);
    }
  }

  /** A call ends with an internal error if and only if five foreign replies are followed by a
      current one that fits. */
  lemma InternalIff(tid: nat, rpcId: nat, outLen: nat, waits: nat -> Wait)
    ensures Await(tid, rpcId, outLen, waits, 0).status == Internal
       <==> Reaches(tid, outLen, waits, 5) && waits(5).Woken? && waits(5).reply.tid == tid
            && |waits(5).reply.payload| <= outLen
  {
    var o := Await(tid, rpcId, outLen, waits, 0);
    DecidedBy(tid, rpcId, outLen, waits, o.waits - 1);
    Verdict(tid, rpcId, outLen, waits, o.waits - 1);
    if Reaches(tid, outLen, waits, 5) {
      Verdict(tid, rpcId, outLen, waits, 5);
    }
  }

  /** The sizes packed into an id by IVSHM_RPC_ID come out again. */
  lemma SizesOf(sizeIn: nat, sizeOut: nat, id: nat)
    requires sizeIn < 1024 && sizeOut < 1024 && id < 4096
    ensures SizeIn(sizeIn * 0x40_0000 + sizeOut * 0x1000 + id) == sizeIn
    ensures SizeOut(sizeIn * 0x40_0000 + sizeOut * 0x1000 + id) == sizeOut
  {
  }

  /** The call succeeds, and the reply it takes is its own (`own`) or another call's. */
  predicate Accepts(tid: nat, rpcId: nat, outLen: nat, waits: nat -> Wait, own: bool) {
    var o := Await(tid, rpcId, outLen, waits, 0);
    o.status == NoError && waits(o.waits - 1).Woken? && (waits(o.waits - 1).reply.tid == tid <==> own)
  }

  /** A call succeeds with the reply of another transaction if and only if the first six
      replies all belong to other transactions, fit, and the sixth has the requested id. */
  lemma ForeignSuccessIff(tid: nat, rpcId: nat, outLen: nat, waits: nat -> Wait)
    ensures Accepts(tid, rpcId, outLen, waits, false)
       <==> (forall i | 0 <= i <= RETRY :: Foreign(waits(i), tid, outLen)) && waits(RETRY).reply.id == rpcId
  {
    var o := Await(tid, rpcId, outLen, waits, 0);
    if forall i | 0 <= i <= RETRY :: Foreign(waits(i), tid, outLen) {
      if waits(RETRY).reply.id == rpcId {
        SixthReplyInverted(tid, rpcId, outLen, waits, 0);
      } else {
        SixthRefused(tid, rpcId, outLen, waits, 0);
      }
    }
    if Accepts(tid, rpcId, outLen, waits, false) {
      SuccessMeans(tid, rpcId, outLen, waits, 0);
      ForeignBefore(tid, rpcId, outLen, waits, 0);
    }
  }

  lemma {:induction false} SixthRefused(tid: nat, rpcId: nat, outLen: nat, waits: nat -> Wait, k: nat)
    requires k <= RETRY && (forall i | k <= i <= RETRY :: Foreign(waits(i), tid, outLen))
    requires waits(RETRY).Woken? && waits(RETRY).reply.id != rpcId
    ensures Await(tid, rpcId, outLen, waits, k).status != NoError
    decreases RETRY - k
  {
    assert Foreign(waits(k), tid, outLen);
    if k < RETRY {
      SixthRefused(tid, rpcId, outLen, waits, k + 1);
    }
  }

  /** Reply `j` answers the call: it is current, fits, has the requested id, and only foreign
      replies come before it. */
  ghost predicate Answers(tid: nat, rpcId: nat, outLen: nat, waits: nat -> Wait, j: nat) {
    && waits(j).Woken? && waits(j).reply.tid == tid && waits(j).reply.id == rpcId
    && |waits(j).reply.payload| <= outLen
    && forall i | 0 <= i < j :: Foreign(waits(i), tid, outLen)
  }

  /** A call succeeds with its own reply if and only if one of the first five answers it. */
  lemma OwnSuccessIff(tid: nat, rpcId: nat, outLen: nat, waits: nat -> Wait)
    ensures Accepts(tid, rpcId, outLen, waits, true)
       <==> exists j: nat :: j < RETRY && Answers(tid, rpcId, outLen, waits, j)
  {
    var o := Await(tid, rpcId, outLen, waits, 0);
    forall j: nat | j < RETRY && Answers(tid, rpcId, outLen, waits, j)
      ensures o == Outcome(NoError, waits(j).reply.payload, j + 1)
    {
      MatchReturned(tid, rpcId, outLen, waits, 0, j);
    }
    if Accepts(tid, rpcId, outLen, waits, true) {
      SuccessMeans(tid, rpcId, outLen, waits, 0);
      ForeignBefore(tid, rpcId, outLen, waits, 0);
      assert Answers(tid, rpcId, outLen, waits, o.waits - 1);
    }
  }

  /** RPC_DAC_INIT_ID: no parameters, four bytes of result. */
  const DacInit: nat := 0x4101

  /** Six calls that timed out are answered late, one after the other. */
  const LateReplies: nat -> Wait := (k: nat) => Woken(Reply(DacInit, k + 1, [0, 0, 0, 0]))

  /** Call 7 succeeds with the reply to call 6. */
  lemma LateReplyAccepted()
    ensures SizeIn(DacInit) == 0 && SizeOut(DacInit) == 4
    ensures Await(7, DacInit, 4, LateReplies, 0) == Outcome(NoError, [0, 0, 0, 0], 6)
    ensures LateReplies(5).reply.tid == 6
  {
    SixthReplyInverted(7, DacInit, 4, LateReplies, 0);
  }
}

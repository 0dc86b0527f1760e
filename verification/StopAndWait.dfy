/** A sender that goes by acknowledgements: it sends the next item after an acknowledgement,
    the same one again after a failed wait, and gives up after ten failures in a row. */
module StopAndWait {

  /** How many of the first `k` waits were acknowledged. */
  function Acks(acked: nat -> bool, k: nat): nat {
    if k == 0 then 0 else Acks(acked, k - 1) + if acked(k - 1) then 1 else 0
  }

  /** The last `n` of `waits` waits all failed. */
  ghost predicate LastFailed(waits: nat, acked: nat -> bool, n: nat) {
    n <= waits && forall k | waits - n <= k < waits :: !acked(k)
  }

  /** After `k` waits all `total` items are acknowledged or the last ten waits all failed. */
  ghost predicate Over(total: nat, acked: nat -> bool, k: nat) {
    Acks(acked, k) == total || LastFailed(k, acked, 10)
  }

  /** Each thing sent is the item behind those acknowledged before it. */
  ghost predicate Follows<T>(all: seq<T>, sent: seq<T>, acked: nat -> bool) {
    forall k | 0 <= k < |sent| :: Acks(acked, k) < |all| && sent[k] == all[Acks(acked, k)]
  }

  ghost predicate NotYet(total: nat, acked: nat -> bool, m: nat) {
    forall k | 0 <= k < m :: !Over(total, acked, k)
  }

  /** A whole transfer: it follows the acknowledgements and is over with the last wait, not
      before. */
  ghost predicate Transfer<T>(all: seq<T>, sent: seq<T>, acked: nat -> bool) {
    Follows(all, sent, acked) && NotYet(|all|, acked, |sent|) && Over(|all|, acked, |sent|)
  }

  /** Exactly the last `failed` waits have failed. */
  ghost predicate FailedExactly(acked: nat -> bool, m: nat, failed: nat) {
    LastFailed(m, acked, failed) && (m > failed ==> acked(m - failed - 1))
  }

  /** A transfer that is not over. */
  ghost predicate Underway<T>(all: seq<T>, sent: seq<T>, failed: nat, acked: nat -> bool) {
    && Follows(all, sent, acked) && NotYet(|all|, acked, |sent| + 1)
    && Acks(acked, |sent|) < |all| && FailedExactly(acked, |sent|, failed) && failed < 10
  }

  lemma FailedNext(acked: nat -> bool, m: nat, failed: nat)
    requires FailedExactly(acked, m, failed) && failed < 10
    ensures FailedExactly(acked, m + 1, if acked(m) then 0 else failed + 1)
    ensures LastFailed(m + 1, acked, 10) <==> !acked(m) && failed == 9
  {
    if !acked(m) {
      if failed == 9 {
        assert LastFailed(m + 1, acked, 10);
      } else if m + 1 >= 10 {
        assert acked(m - failed - 1);
      }
    }
  }

  lemma FollowsNext<T>(all: seq<T>, sent: seq<T>, acked: nat -> bool)
    requires Follows(all, sent, acked) && Acks(acked, |sent|) < |all|
    ensures Follows(all, sent + [all[Acks(acked, |sent|)]], acked)
  {
  }

  /** One more item ends the transfer exactly when it is the last one, acknowledged, or the wait
      is the tenth failure in a row; otherwise the transfer stays under way. */
  lemma Next<T>(all: seq<T>, sent: seq<T>, failed: nat, acked: nat -> bool)
    requires Underway(all, sent, failed, acked)
    ensures var m := |sent|;
            var sent' := sent + [all[Acks(acked, m)]];
            && Acks(acked, m + 1) == Acks(acked, m) + (if acked(m) then 1 else 0)
            && (if (if acked(m) then Acks(acked, m) + 1 == |all| else failed == 9)
                then Transfer(all, sent', acked)
                else Underway(all, sent', if acked(m) then 0 else failed + 1, acked))
  {
    FollowsNext(all, sent, acked);
    FailedNext(acked, |sent|, failed);
  }

  lemma {:induction false} NotYetBound(total: nat, acked: nat -> bool, k: nat) returns (failed: nat)
    requires NotYet(total, acked, k + 1)
    ensures failed < 10 && FailedExactly(acked, k, failed) && k <= 10 * Acks(acked, k) + failed
  {
    if k == 0 {
      failed := 0;
    } else {
      assert !Over(total, acked, k);
      var before := NotYetBound(total, acked, k - 1);
      FailedNext(acked, k - 1, before);
      failed := if acked(k - 1) then 0 else before + 1;
    }
  }

  /** No item is sent more than ten times. */
  lemma TransferBound<T>(all: seq<T>, sent: seq<T>, acked: nat -> bool)
    requires Transfer(all, sent, acked)
    ensures |sent| <= 10 * |all|
  {
    if |sent| > 0 {
      var failed := NotYetBound(|all|, acked, |sent| - 1);
    }
  }

  /** The acknowledgements determine the whole transfer. */
  lemma TransferUnique<T>(all: seq<T>, sent: seq<T>, sent': seq<T>, acked: nat -> bool)
    requires Transfer(all, sent, acked) && Transfer(all, sent', acked)
    ensures sent == sent'
  {
    assert |sent| == |sent'| by {
      assert Over(|all|, acked, |sent|) && Over(|all|, acked, |sent'|);
    }
  }
}

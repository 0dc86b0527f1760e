/** The binary service: a stop-and-wait transfer in chunks with 8-bit packet numbers, over a
    channel that neither loses nor reorders packets but whose acknowledgements may be late. */
module Binary {
  import opened Basics
  import opened Words
  import opened StopAndWait

  /** CHUNK_SIZE, and the retries of _ivshm_binary_write. */
  const CHUNK_SIZE: nat := 4096
  const RETRIES: nat := 10

  /** IVSHM_BIN_SOH, IVSHM_BIN_EOT */
  datatype Kind = Soh | Eot

  /** struct binary_pkt; `pkt` and `npkt` are shorts, `npkt` the complement of the sender's
      8-bit packet number. */
  datatype Pkt = Pkt(kind: Kind, pkt: int, npkt: int, payload: seq<byte>)

  function Trunc8(x: int): (r: nat)
    ensures r < 256
  {
    x % 256
  }

  /** `~x` on an int */
  function Not(x: int): int { -x - 1 }

  // ---------------------------------------------------------------- the sender

  /** How many chunks a transfer of `len` bytes takes; an empty one still takes a packet. */
  function Chunks(len: nat): (n: nat)
    ensures n >= 1
  {
    if len <= CHUNK_SIZE then 1 else 1 + Chunks(len - CHUNK_SIZE)
  }

  /** The end of chunk `i`, counted from 1, in a buffer of `len` bytes. */
  function ChunkEnd(len: nat, i: nat): nat { Min(i * CHUNK_SIZE, len) }

  /** Chunk `i` of `src` as the packet that carries it. */
  function ChunkPkt(src: seq<byte>, i: nat): Pkt
    requires 1 <= i <= Chunks(|src|)
  {
    var lo, hi := ChunkEnd(|src|, i - 1), ChunkEnd(|src|, i);
    Pkt(if i == Chunks(|src|) then Eot else Soh, Trunc8(i), Not(Trunc8(i)), src[lo..hi])
  }

  /** The packets a sender has put on the channel: chunk 1 first, each next packet repeating
      the last chunk or carrying the following one, chunk `i` last. */
  ghost predicate Emitted(src: seq<byte>, ps: seq<Pkt>, i: nat)
    decreases |ps|
  {
    && 1 <= i <= Chunks(|src|) && |ps| >= 1
    && ps[|ps| - 1] == ChunkPkt(src, i)
    && if |ps| == 1 then i == 1
       else Emitted(src, ps[..|ps| - 1], i) || (i >= 2 && Emitted(src, ps[..|ps| - 1], i - 1))
  }

  lemma {:induction false} ChunksExact(len: nat)
    ensures (Chunks(len) - 1) * CHUNK_SIZE <= len <= Chunks(len) * CHUNK_SIZE
    ensures len > 0 ==> (Chunks(len) - 1) * CHUNK_SIZE < len
  {
    if len > CHUNK_SIZE { ChunksExact(len - CHUNK_SIZE); }
  }

  /** The transfer stopped at chunk `i`: either that was the last one and was acknowledged,
      and the offset is the whole length, or the last ten waits all failed and the offset
      counts the chunks before it. */
  ghost predicate Outcome(src: seq<byte>, sent: seq<Pkt>, i: nat, offset: nat, acked: nat -> bool) {
    if |sent| >= 1 && acked(|sent| - 1) then i == Chunks(|src|) && offset == |src|
    else i >= 1 && offset == ChunkEnd(|src|, i - 1) && LastFailed(|sent|, acked, RETRIES)
  }

  /** The packet that the loop builds is the one that carries chunk `i`. */
  lemma BuildsChunk(src: seq<byte>, i: nat, offset: nat, remaining: nat)
    requires 1 <= i <= Chunks(|src|) && offset == ChunkEnd(|src|, i - 1) && offset + remaining == |src|
    ensures var count := Min(remaining, CHUNK_SIZE);
            && offset + count == ChunkEnd(|src|, i)
            && Pkt(if remaining > CHUNK_SIZE then Soh else Eot, Trunc8(i), Not(Trunc8(i)), src[offset..offset + count])
               == ChunkPkt(src, i)
            && (remaining - count == 0 <==> i == Chunks(|src|))
  {
    LastChunk(|src|, i);
    ChunksExact(|src|);
  }

  /** All packets of a transfer, in order. */
  function ChunkPackets(src: seq<byte>): (ps: seq<Pkt>)
    ensures |ps| == Chunks(|src|)
  {
    seq(Chunks(|src|), i requires 0 <= i < Chunks(|src|) => ChunkPkt(src, i + 1))
  }

  /** A transfer that goes by the acknowledgements, with the offset that counts the chunks
      acknowledged. */
  ghost predicate Transcript(src: seq<byte>, sent: seq<Pkt>, offset: nat, acked: nat -> bool) {
    Transfer(ChunkPackets(src), sent, acked) && offset == ChunkEnd(|src|, Acks(acked, |sent|))
  }

  /** Packet by packet: with `i - 1` acknowledgements before it, a packet carries chunk `i`. */
  lemma TranscriptAt(src: seq<byte>, sent: seq<Pkt>, offset: nat, acked: nat -> bool, k: nat, i: nat)
    requires Transcript(src, sent, offset, acked) && k < |sent| && i == Acks(acked, k) + 1
    ensures i <= Chunks(|src|) && sent[k] == ChunkPkt(src, i)
    ensures !Over(Chunks(|src|), acked, k) && Over(Chunks(|src|), acked, |sent|)
  {
    PacketAt(src, sent, acked, k, i);
  }

  lemma PacketAt(src: seq<byte>, sent: seq<Pkt>, acked: nat -> bool, k: nat, i: nat)
    requires Follows(ChunkPackets(src), sent, acked) && k < |sent| && i == Acks(acked, k) + 1
    ensures i <= Chunks(|src|) && sent[k] == ChunkPkt(src, i)
  {
    var all := ChunkPackets(src);
    assert i - 1 < |all| && sent[k] == all[i - 1];
  }

  /** The acknowledgements determine the packets and the offset. */
  lemma TranscriptUnique(src: seq<byte>, acked: nat -> bool, sent: seq<Pkt>, offset: nat,
                         sent': seq<Pkt>, offset': nat)
    requires Transcript(src, sent, offset, acked) && Transcript(src, sent', offset', acked)
    ensures sent == sent' && offset == offset'
  {
    TransferUnique(ChunkPackets(src), sent, sent', acked);
  }

  /** A sender that goes by the acknowledgements never skips a chunk and never goes back. */
  lemma {:induction false} FollowsEmitted(src: seq<byte>, sent: seq<Pkt>, acked: nat -> bool, i: nat)
    requires Follows(ChunkPackets(src), sent, acked) && |sent| >= 1 && i == Acks(acked, |sent| - 1) + 1
    ensures Emitted(src, sent, i)
    decreases |sent|
  {
    var m := |sent| - 1;
    PacketAt(src, sent, acked, m, i);
    if m > 0 {
      FollowsLess(src, sent, acked);
      FollowsEmitted(src, sent[..m], acked, if acked(m - 1) then i - 1 else i);
    }
  }

  lemma FollowsLess(src: seq<byte>, sent: seq<Pkt>, acked: nat -> bool)
    requires Follows(ChunkPackets(src), sent, acked) && |sent| >= 1
    ensures Follows(ChunkPackets(src), sent[..|sent| - 1], acked)
  {
  }

  lemma OutcomeOf(src: seq<byte>, sent: seq<Pkt>, i: nat, offset: nat, acked: nat -> bool)
    requires |sent| >= 1 && Over(Chunks(|src|), acked, |sent|)
    requires i == Acks(acked, |sent| - 1) + 1 <= Chunks(|src|)
    requires offset == ChunkEnd(|src|, Acks(acked, |sent|))
    ensures Outcome(src, sent, i, offset, acked)
  {
    var m := |sent|;
    assert Acks(acked, m) == if acked(m - 1) then i else i - 1;
    if acked(m - 1) {
      assert !LastFailed(m, acked, 10);
      LastChunk(|src|, i);
    }
  }

  /** The packets of a transfer are chunks in order with repeats, at most ten for each; it stops
      at the last chunk, acknowledged, or after ten failures in a row. */
  lemma TranscriptMeans(src: seq<byte>, sent: seq<Pkt>, offset: nat, acked: nat -> bool)
    requires Transcript(src, sent, offset, acked)
    ensures |sent| <= 10 * Chunks(|src|)
    ensures exists i: nat :: Emitted(src, sent, i) && Outcome(src, sent, i, offset, acked)
  {
    assert |sent| > 0;
    TransferBound(ChunkPackets(src), sent, acked);
    var i := Acks(acked, |sent| - 1) + 1;
    FollowsEmitted(src, sent, acked, i);
    PacketAt(src, sent, acked, |sent| - 1, i);
    OutcomeOf(src, sent, i, offset, acked);
  }

  /** Where the loop stands when it sends chunk `i`. */
  predicate Progress(len: nat, i: nat, lastPkt: nat, offset: nat, remaining: nat) {
    1 <= i <= Chunks(len) && lastPkt == Trunc8(i) && offset == ChunkEnd(len, i - 1) && offset + remaining == len
  }

  /** The packet for what remains, chunk `i` of which lastPkt holds the low 8 bits. */
  method NextPacket(src: seq<byte>, lastPkt: nat, offset: nat, remaining: nat, ghost i: nat)
    returns (p: Pkt, count: nat)
    requires Progress(|src|, i, lastPkt, offset, remaining)
    ensures p == ChunkPackets(src)[i - 1] && count <= remaining && offset + count == ChunkEnd(|src|, i)
    ensures count == remaining <==> i == Chunks(|src|)
    ensures count < remaining ==> Progress(|src|, i + 1, Trunc8(lastPkt + 1), offset + count, remaining - count)
  {
    Trunc8Next(i);
    var kind := if remaining > CHUNK_SIZE then Soh else Eot;
    count := if remaining > CHUNK_SIZE then CHUNK_SIZE else remaining;
    p := Pkt(kind, lastPkt, Not(lastPkt), src[offset..offset + count]);
    BuildsChunk(src, i, offset, remaining);
  }

  /** _ivshm_binary_write. `acked(k)` tells whether the k-th wait ended with the semaphore and
      an ACK in the handler; anything may come of a wait, since acknowledgements can be late.
      Returns the offset reached and the packets put on the channel. */
  method Write(src: seq<byte>, acked: nat -> bool) returns (offset: nat, sent: seq<Pkt>)
    ensures Transcript(src, sent, offset, acked)
    ensures |sent| <= 10 * Chunks(|src|)
    ensures exists i: nat :: Emitted(src, sent, i) && Outcome(src, sent, i, offset, acked)
  {
    var remaining: nat := |src|;
    var lastPkt, retry: nat := 1, RETRIES;
    var eot := false;
    offset, sent := 0, [];
    ghost var all, i := ChunkPackets(src), 1;        // chunk `i` is being sent
    while !eot
      invariant !eot ==> 1 <= retry <= RETRIES && Underway(all, sent, RETRIES - retry, acked)
      invariant !eot ==> i == Acks(acked, |sent|) + 1 && Progress(|src|, i, lastPkt, offset, remaining)
      invariant eot ==> Transfer(all, sent, acked) && offset == ChunkEnd(|src|, Acks(acked, |sent|))
      decreases !eot, Chunks(|src|) - i, retry
    {
      var p, count := NextPacket(src, lastPkt, offset, remaining, i);
      Next(all, sent, RETRIES - retry, acked);
      sent := sent + [p];
      if acked(|sent| - 1) {
        retry := RETRIES;
        lastPkt := Trunc8(lastPkt + 1);
        remaining := remaining - count;
        offset := offset + count;
        if remaining == 0 {
          eot := true;
        } else {
          i := i + 1;
        }
      } else {
        retry := retry - 1;
        if retry == 0 {
          assert Transfer(all, sent, acked) && Acks(acked, |sent|) == i - 1;
          break;
        }
      }
    }
    assert Transcript(src, sent, offset, acked);
    TranscriptMeans(src, sent, offset, acked);
  }

  lemma Trunc8Next(i: nat)
    ensures Trunc8(Trunc8(i) + 1) == Trunc8(i + 1)
  {
  }

  /** What is left at chunk `i` exceeds a chunk exactly when `i` is not the last. */
  lemma LastChunk(len: nat, i: nat)
    requires 1 <= i <= Chunks(len)
    ensures (i - 1) * CHUNK_SIZE <= len
    ensures len - (i - 1) * CHUNK_SIZE > CHUNK_SIZE <==> i < Chunks(len)
    ensures ChunkEnd(len, i - 1) == (i - 1) * CHUNK_SIZE
    ensures ChunkEnd(len, i) == if i < Chunks(len) then i * CHUNK_SIZE else len
  {
    ChunksExact(len);
  }

  // ---------------------------------------------------------------- the receiver

  /** The receive handler: RECEIVING or RESET, the last packet number, the bytes appended to
      the receive buffer. `ended` is set by the first packet of kind EOT and `panicked` by a
      failed assertion. */
  datatype Rx = Rx(receiving: bool, lastPkt: nat, out: seq<byte>, ended: bool, panicked: bool)

  const Idle := Rx(false, 0, [], false, false)

  /** ivshm_binary_rx_consume; every packet that gets past the assertions is acknowledged. */
  function Consume(s: Rx, p: Pkt): Rx {
    if p.pkt != Trunc8(Not(p.npkt)) || (!s.receiving && p.pkt != 1) then s.(panicked := true)
    else
      var t :=
        if !s.receiving then s.(receiving := true, lastPkt := 1, out := s.out + p.payload)
        else if p.pkt == s.lastPkt + 1 then s.(lastPkt := Trunc8(s.lastPkt + 1), out := s.out + p.payload)
        else s;
      if p.kind == Eot then t.(receiving := false, ended := true) else t
  }

  class Handler {
    var receiving: bool
    var lastPkt: nat
    var out: seq<byte>
    ghost var ended: bool

    ghost function View(): Rx
      reads this
    {
      Rx(receiving, lastPkt, out, ended, false)
    }

    constructor ()
      ensures View() == Idle
    {
      receiving, lastPkt, out, ended := false, 0, [], false;
    }

    /** ivshm_binary_rx_consume; false where an assertion fails. */
    method RxConsume(p: Pkt) returns (acked: bool)
      modifies this
      ensures Consume(old(View()), p) == View().(panicked := !acked)
    {
      if p.pkt != Trunc8(Not(p.npkt)) {
        return false;
      }
      if !receiving {
        if p.pkt != 1 {
          return false;
        }
        receiving := true;
        lastPkt := 1;
        out := out + p.payload;
      } else if p.pkt == lastPkt + 1 {
        lastPkt := Trunc8(lastPkt + 1);
        out := out + p.payload;
      }
      if p.kind == Eot {
        receiving := false;
        ended := true;
      }
      acked := true;
    }
  }

  /** The receiver after the packets `ps`, up to the first EOT. */
  function Received(ps: seq<Pkt>): Rx
    decreases |ps|
  {
    if ps == [] then Idle
    else
      var s := Received(ps[..|ps| - 1]);
      if s.ended || s.panicked then s else Consume(s, ps[|ps| - 1])
  }

  // ---------------------------------------------------------------- delivery

  lemma PacketNumber(i: nat)
    ensures Trunc8(Not(Not(Trunc8(i)))) == Trunc8(i)
    ensures i < 256 ==> Trunc8(i) == i
  {
  }

  /** Chunks join up. */
  lemma NextChunk(src: seq<byte>, i: nat)
    requires 1 <= i <= Chunks(|src|)
    ensures src[..ChunkEnd(|src|, i - 1)] + ChunkPkt(src, i).payload == src[..ChunkEnd(|src|, i)]
  {
  }

  /** After any packets a sender can put on the channel, the receiver holds exactly the chunks
      up to the one last sent, except that chunks beyond 255 are acknowledged and dropped. */
  lemma {:induction false} ReceivedExactly(src: seq<byte>, ps: seq<Pkt>, i: nat)
    requires Emitted(src, ps, i)
    ensures Received(ps) == Rx(i < Chunks(|src|), Min(i, 255), src[..ChunkEnd(|src|, Min(i, 255))],
                               i == Chunks(|src|), false)
    decreases |ps|
  {
    var n := |ps| - 1;
    PacketNumber(i);
    if n == 0 {
      assert ps[..0] == [] && Received(ps[..0]) == Idle;
      assert src[..ChunkEnd(|src|, 0)] == [];
      NextChunk(src, 1);
    } else if Emitted(src, ps[..n], i) {
      ReceivedExactly(src, ps[..n], i);
    } else {
      ReceivedExactly(src, ps[..n], i - 1);
      if i <= 255 { NextChunk(src, i); }
    }
  }

  /** Whatever prefix of the channel the receiver has seen was itself put there by a sender. */
  lemma {:induction false} EmittedPrefix(src: seq<byte>, ps: seq<Pkt>, i: nat, k: nat) returns (j: nat)
    requires Emitted(src, ps, i) && 1 <= k <= |ps|
    ensures Emitted(src, ps[..k], j)
    decreases |ps|
  {
    var n := |ps| - 1;
    if k == |ps| {
      assert ps[..k] == ps;
      j := i;
    } else {
      assert ps[..n][..k] == ps[..k];
      j := EmittedPrefix(src, ps[..n], if Emitted(src, ps[..n], i) then i else i - 1, k);
    }
  }

  /** Delivery under any pattern of timeouts, retransmissions and late acknowledgements: at
      every moment up to the first EOT the receiver holds a prefix of the source and has
      never failed an assertion; at the EOT it holds all of the source if and only if the
      transfer takes at most 255 chunks. */
  lemma Delivery(src: seq<byte>, sent: seq<Pkt>, i: nat, k: nat)
    requires Emitted(src, sent, i) && k <= |sent|
    ensures var s := Received(sent[..k]);
            && !s.panicked && s.out <= src
            && (s.ended ==> (s.out == src <==> Chunks(|src|) <= 255))
  {
    if k == 0 {
      assert sent[..0] == [];
    } else {
      var j := EmittedPrefix(src, sent, i, k);
      ReceivedExactly(src, sent[..k], j);
      var m := Min(j, 255);
      LastChunk(|src|, m);
      if m == Chunks(|src|) { assert src[..|src|] == src; }
    }
  }

  /** A packet passes the assertions exactly when its two numbers are complements of each other
      and a new reception starts with number 1. */
  lemma ConsumePanicsIff(s: Rx, p: Pkt)
    requires !s.panicked
    ensures Consume(s, p).panicked <==>
      !(0 <= p.pkt <= 255 && (p.pkt + p.npkt) % 256 == 255) || (!s.receiving && p.pkt != 1)
    ensures Consume(s, p).panicked ==> Consume(s, p) == s.(panicked := true)
  {
  }

  /** A repeated EOT, as a late acknowledgement provokes it: the receiver is back in RESET and
      its assertion fails, unless the packet carries number 1; then its chunk is appended as a
      new reception. */
  lemma RepeatedEot(src: seq<byte>, ps: seq<Pkt>)
    requires Emitted(src, ps, Chunks(|src|))
    ensures var s, n := Received(ps), Chunks(|src|);
            var t := Consume(s, ChunkPkt(src, n));
            && s.ended && !s.panicked && (t.panicked <==> n % 256 != 1)
            && (t.panicked ==> t.out == s.out)
            && (!t.panicked ==> t.out == s.out + ChunkPkt(src, n).payload && !t.receiving)
    ensures |src| <= 4096 ==> Consume(Received(ps), ChunkPkt(src, Chunks(|src|))).out == src + src
  {
    ReceivedExactly(src, ps, Chunks(|src|));
    PacketNumber(Chunks(|src|));
    if |src| <= 4096 {
      LastChunk(|src|, 1);
      assert src[..|src|] == src && src[0..|src|] == src;
    }
  }

  /** The bound in bytes. */
  lemma ChunksBound(len: nat)
    ensures Chunks(len) <= 255 <==> len <= 255 * 4096
  {
    ChunksExact(len);
  }
}

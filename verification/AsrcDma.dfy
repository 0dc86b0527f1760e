/** The DMA ring that feeds the sample-rate converter: a few descriptors, moved forward as
    they complete, stream a linear buffer. */
module AsrcDma {
  import opened Words

  /** ASRC_DMA_MAX_REQUEST_SIZE and ASRC_MIN_XFER_SIZE */
  const MAX_REQUEST: nat := 2048
  const MIN_XFER: nat := 4096

  /** What the receive callbacks and the DMA engine work on, as a value: per descriptor its
      address (an offset in the input) and whether the engine owns it, the descriptor the
      engine completes next, the bytes still to transfer, whether the channel is paused, how
      often completion was signalled, and the offsets transferred so far. `failed` records
      the assertion that must never be reached. */
  datatype Dma = Dma(n: nat, period: nat, addr: seq<nat>, owned: seq<bool>, next: nat, rem: nat,
                     paused: bool, signals: nat, log: seq<nat>, failed: bool)

  class RxDma {
    var n: nat            // dma_rx_nr_periods
    var period: nat       // rx_dma_period_size
    var rem: nat          // rx_dma_rem_size
    var paused: bool
    var signals: nat

    /** The configured number and size of periods, before clamping. */
    constructor (n: nat, period: nat)
      ensures this.n == n && this.period == period && rem == 0 && !paused && signals == 0
    {
      this.n, this.period, rem, paused, signals := n, period, 0, false, 0;
    }

    /** The receive half of imx_asrc_dma_start: limits the period and the number of
        descriptors to the input. */
    method Start(size: nat)
      requires period > 0
      modifies this
      ensures (n, period) == Clamped(old(n), old(period), size)
      ensures rem == size && paused == old(paused) && signals == old(signals)
    {
      if period > MAX_REQUEST {
        period := MAX_REQUEST;
      }
      if period * n > size {
        n := size / period;
      }
      rem := size;
    }

    /** imx_asrc_rx_dma_cb for a completed descriptor: whether the descriptor goes back to the
        engine; `ok` is false where the assertion fails. */
    method Completed() returns (ok: bool, release: bool)
      modifies this`rem, this`paused, this`signals
      ensures ok == (old(rem) >= period)
      ensures !ok ==> rem == old(rem) && paused == old(paused) && signals == old(signals) && !release
      ensures ok ==>
        && Tally(rem, release, rem < period) == Counted(n, period, old(rem))
        && paused == (old(paused) || rem < period)
        && signals == old(signals) + if rem < period then 1 else 0
    {
      if rem < period {
        return false, false;
      }
      rem := rem - period;
      release := n * period <= rem;
      if rem < period {
        paused := true;
        signals := signals + 1;
      }
      ok := true;
    }

    /** imx_asrc_rx_dma_zerocopy_cb: a descriptor for period `u` of a buffer becomes the one for
        period `u + n`. */
    method MoveOn(addr: nat) returns (addr': nat)
      ensures forall base, u: nat :: addr == PeriodAt(base, period, u) ==> addr' == PeriodAt(base, period, u + n)
    {
      addr' := addr + n * period;
      PeriodsAdd(period, n);
    }
  }

  /** What imx_asrc_rx_dma_cb makes of `rem` bytes: the bytes left, whether the descriptor is
      released and whether the transfer ends. */
  datatype Tally = Tally(rem: nat, release: bool, ends: bool)

  function Counted(n: nat, period: nat, rem: nat): Tally
    requires period <= rem
  {
    Tally(rem - period, n * period <= rem - period, rem - period < period)
  }

  /** Where period `u` of a buffer at `base` begins. */
  function PeriodAt(base: nat, period: nat, u: nat): nat {
    base + u * period
  }

  lemma PeriodsAdd(period: nat, n: nat)
    ensures forall base, u: nat :: PeriodAt(base, period, u + n) == PeriodAt(base, period, u) + n * period
  {
    forall base, u: nat ensures PeriodAt(base, period, u + n) == PeriodAt(base, period, u) + n * period {
      assert (u + n) * period == u * period + n * period;
    }
  }

  /** The number and the size of the periods that a start settles on. */
  function Clamped(n: nat, period: nat, size: nat): (nat, nat)
    requires period > 0
  {
    var p := if period > MAX_REQUEST then MAX_REQUEST else period;
    (if p * n > size then size / p else n, p)
  }

  /** The period is the smaller of the old one and 2048 bytes; the descriptors are all that were
      there when they lie inside the input, and otherwise as many as do. */
  lemma ClampedExactly(n: nat, period: nat, size: nat)
    requires period > 0
    ensures var (n', p) := Clamped(n, period, size);
            && p == (if period <= 2048 then period else 2048)
            && (if n * p <= size then n' == n else n' * p <= size < (n' + 1) * p)
  {
    var (n', p) := Clamped(n, period, size);
    if p * n > size {
      assert size == p * n' + size % p;
      assert (n' + 1) * p == p * n' + p;
    }
  }

  /** Transfers go through the DMA only from 4096 bytes on; then there is at least one
      descriptor and all of them lie inside the input. */
  lemma ClampedFits(n: nat, period: nat, size: nat)
    requires n >= 1 && period >= 1 && size >= MIN_XFER
    ensures var (n', p) := Clamped(n, period, size); n' >= 1 && 1 <= p <= MAX_REQUEST && n' * p <= size
  {
    var p := if period > MAX_REQUEST then MAX_REQUEST else period;
    if p * n > size {
      assert size == p * (size / p) + size % p;
      MulBound(p, size / p - 1);
    }
  }

  // ---------------------------------------------------------------- a transfer

  function Started(n: nat, period: nat, size: nat): Dma {
    Dma(n, period, seq(n, i => i * period), seq(n, i => true), 0, size, false, 0, [], false)
  }

  /** The engine goes on while the channel is not paused and it owns the next descriptor. */
  predicate Busy(d: Dma) {
    !d.paused && !d.failed && d.next < |d.addr| && d.next < |d.owned| && d.owned[d.next]
  }

  /** One descriptor completes: the engine transferred a period from its address, then calls
      imx_asrc_rx_dma_cb and, when the descriptor is released, imx_asrc_rx_dma_zerocopy_cb. */
  function Complete(d: Dma): Dma
    requires Busy(d)
  {
    var e := d.(log := d.log + [d.addr[d.next]]);
    if d.rem < d.period then e.(failed := true)
    else
      var c := Counted(d.n, d.period, d.rem);
      var f := e.(rem := c.rem, paused := c.ends, signals := d.signals + if c.ends then 1 else 0,
                  next := (d.next + 1) % |d.addr|);
      if c.release then f.(addr := d.addr[d.next := PeriodAt(d.addr[d.next], d.period, d.n)])
      else f.(owned := d.owned[d.next := false])
  }

  function After(d: Dma, t: nat): Dma {
    if t == 0 then d
    else
      var e := After(d, t - 1);
      if Busy(e) then Complete(e) else e
  }

  /** Descriptor slots are looked at through the transfer that will use them next. */
  ghost predicate Inv(n: nat, period: nat, size: nat, t: nat, d: Dma) {
    && n >= 1 && period >= 1 && n * period <= size
    && d.n == n && d.period == period && |d.addr| == |d.owned| == n && d.next == t % n && !d.failed
    && t * period <= size && d.rem == size - t * period
    && |d.log| == t && (forall k | 0 <= k < t :: d.log[k] == k * period)
    && d.paused == (d.rem < period) && d.signals == (if d.paused then 1 else 0)
    && (forall u | t <= u < t + n :: SlotReady(n, period, size, d, u))
  }

  ghost predicate SlotReady(n: nat, period: nat, size: nat, d: Dma, u: nat)
    requires n >= 1 && |d.addr| == |d.owned| == n
  {
    && (d.owned[u % n] <==> (u + 1) * period <= size)
    && (d.owned[u % n] ==> d.addr[u % n] == u * period)
  }

  lemma StartInv(n: nat, period: nat, size: nat)
    requires n >= 1 && period >= 1 && n * period <= size
    ensures Inv(n, period, size, 0, Started(n, period, size))
  {
    var d := Started(n, period, size);
    forall u: nat | u < n ensures SlotReady(n, period, size, d, u) {
      StartSlot(n, period, size, u);
    }
    MulMono(period, 1, n);
  }

  lemma StartSlot(n: nat, period: nat, size: nat, u: nat)
    requires u < n && period >= 1 && n * period <= size
    ensures SlotReady(n, period, size, Started(n, period, size), u)
  {
    MulMono(period, u + 1, n);
    DivModUnique(u, n, 0, u);
  }

  lemma CompleteKeeps(n: nat, period: nat, size: nat, t: nat, d: Dma)
    requires Inv(n, period, size, t, d)
    ensures Busy(d) <==> (t + 1) * period <= size
    ensures Busy(d) ==> Inv(n, period, size, t + 1, Complete(d))
  {
    assert (t + 1) * period == t * period + period;
    assert SlotReady(n, period, size, d, t);
    if Busy(d) {
      NextSlot(t, n);
      forall u | t + 1 <= u < t + 1 + n ensures SlotReady(n, period, size, Complete(d), u) {
        CompleteSlot(n, period, size, t, d, u);
      }
    }
  }

  lemma CompleteSlot(n: nat, period: nat, size: nat, t: nat, d: Dma, u: nat)
    requires Inv(n, period, size, t, d) && Busy(d) && t + 1 <= u < t + 1 + n && (t + 1) * period <= size
    ensures |Complete(d).addr| == |Complete(d).owned| == n && SlotReady(n, period, size, Complete(d), u)
  {
    if u == t + n {
      assert SlotReady(n, period, size, d, t);
      SameSlot(t, n);
      ReusedSlot(n, period, size, t);
    } else {
      SlotsDiffer(t, u, n);
      assert SlotReady(n, period, size, d, u);
    }
  }

  lemma SameSlot(t: nat, n: nat)
    requires n >= 1
    ensures (t + n) % n == t % n
  {
    var q := t / n;
    assert t == n * q + t % n;
    assert n * (q + 1) == n * q + n;
    DivModUnique(t + n, n, q + 1, t % n);
  }

  lemma ReusedSlot(n: nat, period: nat, size: nat, t: nat)
    requires (t + 1) * period <= size
    ensures PeriodAt(t * period, period, n) == (t + n) * period
    ensures n * period <= size - t * period - period <==> (t + n + 1) * period <= size
  {
    assert (t + 1) * period == t * period + period;
    assert (t + n) * period == t * period + n * period;
    assert (t + n + 1) * period == (t + n) * period + period;
  }

  lemma NextSlot(t: nat, n: nat)
    requires n >= 1
    ensures (t % n + 1) % n == (t + 1) % n
  {
    var q, r := t / n, t % n;
    assert t == n * q + r;
    if r + 1 < n {
      DivModUnique(t + 1, n, q, r + 1);
      DivModUnique(r + 1, n, 0, r + 1);
    } else {
      assert n * (q + 1) == n * q + n;
      DivModUnique(t + 1, n, q + 1, 0);
      DivModUnique(n, n, 1, 0);
    }
  }

  lemma {:induction false} AfterInv(n: nat, period: nat, size: nat, t: nat)
    requires n >= 1 && period >= 1 && n * period <= size && t * period <= size
    ensures Inv(n, period, size, t, After(Started(n, period, size), t))
  {
    if t == 0 {
      StartInv(n, period, size);
    } else {
      assert t * period == (t - 1) * period + period;
      AfterInv(n, period, size, t - 1);
      CompleteKeeps(n, period, size, t - 1, After(Started(n, period, size), t - 1));
    }
  }

  lemma WithinInput(period: nat, size: nat, m: nat)
    requires period >= 1 && m <= size / period
    ensures m * period <= size
    ensures (m + 1) * period <= size <==> m < size / period
    ensures size - m * period < period <==> m == size / period
    ensures m == size / period ==> size - m * period == size % period
  {
    var q := size / period;
    assert size == period * q + size % period;
    assert (m + 1) * period == m * period + period;
    assert m * period == period * m;
    assert period * (q - m) == period * q - period * m;
    MulBound(period, q - m);
  }

  lemma TransferState(n: nat, period: nat, size: nat, m: nat)
    requires n >= 1 && period >= 1 && n * period <= size && m <= size / period
    ensures var d := After(Started(n, period, size), m);
            && !d.failed && |d.log| == m && (forall k | 0 <= k < m :: d.log[k] == k * period)
            && d.signals == (if m == size / period then 1 else 0)
            && (Busy(d) <==> m < size / period)
            && (m == size / period ==> d.rem == size % period)
  {
    WithinInput(period, size, m);
    AfterInv(n, period, size, m);
    CompleteKeeps(n, period, size, m, After(Started(n, period, size), m));
  }

  lemma EndsInside(period: nat, size: nat, k: nat)
    requires period >= 1 && k < size / period
    ensures k * period + period <= size
  {
    WithinInput(period, size, k);
    assert (k + 1) * period == k * period + period;
  }

  /** The ring streams the input exactly once: the engine completes size / period descriptors
      and no more, the k-th of them at offset k * period, so every offset is visited once and
      none reaches past the input; the assertion never fails; completion is signalled once,
      by the last of them, when exactly size % period bytes remain. */
  lemma StreamsOnce(n: nat, period: nat, size: nat, t: nat)
    requires n >= 1 && period >= 1 && n * period <= size
    ensures var d := After(Started(n, period, size), t);
            var done := size / period;
            && !d.failed
            && |d.log| == (if t <= done then t else done)
            && (forall k | 0 <= k < |d.log| :: d.log[k] == k * period && d.log[k] + period <= size)
            && d.signals == (if t >= done then 1 else 0)
            && (Busy(d) <==> t < done)
            && (t >= done ==> d.rem == size % period)
  {
    var done := size / period;
    var m := if t <= done then t else done;
    TransferState(n, period, size, m);
    if t > done { StopsThere(Started(n, period, size), done, t); }
    forall k | 0 <= k < m ensures k * period + period <= size { EndsInside(period, size, k); }
  }

  lemma {:induction false} StopsThere(d: Dma, m: nat, t: nat)
    requires m <= t && !Busy(After(d, m))
    ensures After(d, t) == After(d, m)
  {
    if m < t { StopsThere(d, m, t - 1); }
  }

  // ---------------------------------------------------------------- the output ring

  /** imx_asrc_tx_dma_zerocopy_cb: the offset given to period `k` (counted from 0, `k` being
      period_elapsed - 1 + number of periods) in an output ring of `ring` bytes; the product
      is a u32. */
  function TxOffset(k: nat, period: nat, ring: nat): nat
    requires ring > 0
  {
    k * period % U32 % ring
  }

  /** Output periods follow each other around the ring for ever exactly when the ring size
      divides 2^32; otherwise the u32 product jumps after 4 GiB of output. */
  lemma TxOffsetFaithfulIff(period: nat, ring: nat)
    requires 0 < period < U32 && ring > 0
    ensures (forall k: nat :: TxOffset(k, period, ring) == k * period % ring) <==> U32 % ring == 0
  {
    if U32 % ring == 0 {
      forall k: nat ensures TxOffset(k, period, ring) == k * period % ring {
        ModDivisor(k * period, ring, U32);
      }
    } else {
      var k := U32 / period + 1;
      var x := k * period;
      assert U32 == period * (U32 / period) + U32 % period;
      assert x == period * (U32 / period) + period;
      assert U32 < x < 2 * U32;
      DivModUnique(x, U32, 1, x - U32);
      Unequal(x, ring);
      assert TxOffset(k, period, ring) != k * period % ring;
    }
  }

  lemma Unequal(x: nat, ring: nat)
    requires ring > 0 && x >= U32 && U32 % ring != 0
    ensures (x - U32) % ring != x % ring
  {
    var q, q' := x / ring, (x - U32) / ring;
    assert x == ring * q + x % ring && x - U32 == ring * q' + (x - U32) % ring;
    assert ring * (q - q') == ring * q - ring * q';
    if (x - U32) % ring == x % ring {
      DivModUnique(U32, ring, q - q', 0);
      assert false;
    }
  }
}

/** From the size of the shared memory to the first state of the protocol. */
module Bringup {
  import opened Words
  import opened ByteRing
  import opened Vring
  import opened Pipe
  import opened PipeRuns
  import opened PipeQueue
  import opened Layout

  /** The direction in which peer `id` sends; `line` is the size of a cache line. */
  function Direction(shmlen: nat, sz: Sizes, id: nat, line: nat): Config
    requires sz.Sizes? && id < 2
  {
    var q := PeerViews(shmlen, sz, id).tx;
    Config(q.num, q.end - q.data, q.data, shmlen, line)
  }

  /** Every accepted memory size gives a valid configuration with at least 32 descriptors,
      and both peers see the same one. */
  lemma DirectionValid(shmlen: nat, sz: Sizes, id: nat, line: nat)
    requires Chosen(shmlen, sz) && sz.Sizes? && id < 2 && line > 0
    ensures ValidConfig(Direction(shmlen, sz, id, line)) && Direction(shmlen, sz, id, line).num >= 32
    ensures var q := PeerViews(shmlen, sz, 1 - id).rx;
            Direction(shmlen, sz, id, line) == Config(q.num, q.end - q.data, q.data, shmlen, line)
  {
    SmallPowers();
    var half := shmlen / 2;
    assert sz.vrsize + sz.qsize == half;
    assert id * half + half <= shmlen by { assert id == 0 || id == 1; }
    assert 1 - (1 - id) == id;
  }

  /** The link of queues and shared ring at rest. */
  ghost function LinkOf(vr: SharedRing, tx: TxQueue, rx: RxQueue): Link
    requires vr.Valid()
    reads vr, vr.desc, vr.avail, vr.used, vr.data, tx, rx
  {
    Link(vr.View(), tx.View(), rx.View(), [], false, Idle, rx.delivered, false, 0, 0, 0, false)
  }

  /** ivshm_init_queues on both sides leaves the first state of the protocol. */
  method StartQueues(c: Config) returns (vr: SharedRing, tx: TxQueue, rx: RxQueue)
    requires ValidConfig(c)
    ensures vr.Valid() && tx.vr == vr && rx.vr == vr && Fresh(c, LinkOf(vr, tx, rx))
  {
    vr := new SharedRing(c);
    assert vr.desc.Length > 0;
    tx := new TxQueue(vr);
    rx := new RxQueue(vr);
  }

  /** Every accepted memory size leads to a first state for either direction; a size that
      ivshm_calc_qsize refuses leads nowhere. */
  method StartDirection(shmlen: nat, id: nat, line: nat)
    returns (sz: Sizes, vr: SharedRing?, tx: TxQueue?, rx: RxQueue?)
    requires id < 2 && line > 0
    ensures Chosen(shmlen, sz)
    ensures sz.Sizes? ==>
      && vr != null && tx != null && rx != null && vr.Valid() && tx.vr == vr && rx.vr == vr
      && Fresh(Direction(shmlen, sz, id, line), LinkOf(vr, tx, rx))
  {
    sz := CalcQsize(shmlen);
    if sz.Refused? {
      return sz, null, null, null;
    }
    DirectionValid(shmlen, sz, id, line);
    vr, tx, rx := StartQueues(Direction(shmlen, sz, id, line));
  }

  /** A first state exists for every configuration. */
  lemma FreshExists(c: Config) returns (s: Link)
    requires ValidConfig(c)
    ensures Fresh(c, s)
  {
    var m := Shm(seq(c.num, (i: nat) => Desc(0, 0, 0, i + 1)), seq(c.num, i => 0), 0,
                 seq(c.num, i => UsedElem(0, 0)), 0, 0, seq(c.size, i => 0));
    s := Link(m, Tx(0, c.num, 0, 0, 0, 0, 0), Rx(0, 0), [], false, Idle, [], false, 0, 0, 0, false);
  }

  /** A page of shared memory gives rings of 32 entries and 128 bytes of data in each half. */
  lemma OnePage()
    ensures Chosen(4096, Sizes(1920, 32, 128))
    ensures Direction(4096, Sizes(1920, 32, 128), 0, 64) == Config(32, 128, 1920, 4096, 64)
  {
    assert VringSize(64) == 1798 by { DivModUnique(1158 + 127, 128, 10, 5); }
    assert VrSize(64) == 1920 by { DivModUnique(1798 + 127, 128, 15, 5); }
  }
}

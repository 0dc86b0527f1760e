/** The byte-ring allocator of a transmit queue: where each frame is placed in the data
    area, when a frame may be placed, and why the cleaner can replay the placements. */
module ByteRing {
  import opened Words

  /** Geometry of one direction of the pipe. `line` is the cache line that frames are
      aligned to, `base` the offset of the data area in shared memory. */
  datatype Config = Config(num: nat, size: nat, base: nat, shmlen: nat, line: nat)

  ghost predicate ValidConfig(c: Config) {
    && PowerOfTwo(c.num) && c.num <= 4096
    && c.line > 0
    && c.base + c.size <= c.shmlen
  }

  /** A frame that the sender has placed and not yet reclaimed. */
  datatype Frame = Frame(id: nat, off: nat, bytes: seq<byte>)

  /** IVSHM_FRAME_SIZE: the space a frame of `len` bytes takes. */
  function FrameSize(c: Config, len: nat): nat
    requires c.line > 0
  {
    Align(len, c.line)
  }

  function Room(c: Config, f: Frame): nat
    requires c.line > 0
  {
    FrameSize(c, |f.bytes|)
  }

  /** ivshm_tx_advance on an aligned length: the start of the frame and the new position. */
  function Advance(c: Config, pos: nat, room: nat): (nat, nat) {
    var p := if c.size - pos < room then 0 else pos;
    (p, p + room)
  }

  /** ivshm_tx_space: what the sender believes it can place contiguously. */
  function Space(c: Config, head: nat, tail: nat): int {
    if head < tail then tail - head
    else if c.size - head > tail then c.size - head
    else tail
  }

  /** ivshm_tx_ok for a frame that needs `room` aligned bytes. */
  predicate TxOk(c: Config, numFree: nat, head: nat, tail: nat, room: nat) {
    numFree >= 1 && Space(c, head, tail) >= room
  }

  /** The exact-fill family that `>=` lets through: the frame takes all the reported space
      and that space ends at the tail, so head would run into tail. */
  predicate ExactFill(c: Config, head: nat, tail: nat, room: nat) {
    room == Space(c, head, tail) && (head < tail || c.size - head < room)
  }

  /** Placing `room` bytes at `head` keeps `head` short of `tail`. */
  predicate Fits(c: Config, head: nat, tail: nat, room: nat) {
    if c.size - head >= room
    then head < tail ==> head + room < tail
    else tail <= head && room < tail
  }

  /** `fs` are the frames that advancing from `pos` places one after the other, ending at
      `head`. The ring may be rounded once; after that (`wrapped`) the frames end strictly
      before `bound`. */
  ghost predicate Laid(c: Config, pos: nat, fs: seq<Frame>, head: nat, bound: nat, wrapped: bool)
    requires c.line > 0
    decreases |fs|
  {
    if fs == [] then pos == head && (wrapped ==> head < bound)
    else
      var room := Room(c, fs[0]);
      && room > 0
      && if c.size - pos >= room
         then fs[0].off == pos && Laid(c, pos + room, fs[1..], head, bound, wrapped)
         else !wrapped && room <= c.size && fs[0].off == 0 && Laid(c, room, fs[1..], head, bound, true)
  }

  /** The in-flight frames of a queue are exactly what the allocator placed from `tail`. */
  ghost predicate LaidOut(c: Config, tail: nat, fs: seq<Frame>, head: nat)
    requires c.line > 0
  {
    tail <= c.size && Laid(c, tail, fs, head, tail, false)
  }

  /** The span `[off, off + room)` lies on the arc that leads from `pos` to `head`. */
  predicate OnArc(c: Config, pos: nat, head: nat, off: nat, room: nat) {
    if pos <= head then pos <= off && off + room <= head
    else (pos <= off && off + room <= c.size) || off + room <= head
  }

  predicate Apart(c: Config, f: Frame, g: Frame)
    requires c.line > 0
  {
    f.off + Room(c, f) <= g.off || g.off + Room(c, g) <= f.off
  }

  // ---------------------------------------------------------------- where frames lie

  lemma {:induction false} LaidArc(c: Config, pos: nat, fs: seq<Frame>, head: nat, bound: nat, wrapped: bool)
    requires c.line > 0 && pos <= c.size && bound <= c.size
    requires !wrapped ==> bound <= pos
    requires Laid(c, pos, fs, head, bound, wrapped)
    ensures head <= c.size
    ensures wrapped ==> pos <= head < bound
    ensures !wrapped && head < pos ==> head < bound
    ensures head == pos <==> fs == []
    ensures forall i | 0 <= i < |fs| :: Room(c, fs[i]) > 0 && OnArc(c, pos, head, fs[i].off, Room(c, fs[i]))
    decreases |fs|
  {
    if fs != [] {
      var room := Room(c, fs[0]);
      var next := Advance(c, pos, room).1;
      var wraps := wrapped || c.size - pos < room;
      LaidArc(c, next, fs[1..], head, bound, wraps);
      assert forall i | 0 < i < |fs| :: fs[i] == fs[1..][i - 1];
    }
  }

  lemma {:induction false} LaidApart(c: Config, pos: nat, fs: seq<Frame>, head: nat, bound: nat, wrapped: bool)
    requires c.line > 0 && pos <= c.size && bound <= c.size
    requires !wrapped ==> bound <= pos
    requires Laid(c, pos, fs, head, bound, wrapped)
    ensures forall i, j | 0 <= i < j < |fs| :: Apart(c, fs[i], fs[j])
    decreases |fs|
  {
    if fs != [] {
      var room := Room(c, fs[0]);
      var next := Advance(c, pos, room).1;
      var wraps := wrapped || c.size - pos < room;
      LaidApart(c, next, fs[1..], head, bound, wraps);
      LaidArc(c, next, fs[1..], head, bound, wraps);
      forall i, j | 0 <= i < j < |fs|
        ensures Apart(c, fs[i], fs[j])
      {
        assert fs[j] == fs[1..][j - 1];
        if i > 0 { assert fs[i] == fs[1..][i - 1]; }
      }
    }
  }

  /** In-flight frames lie inside the data area, pairwise disjoint, and head meets tail
      exactly when nothing is in flight. */
  lemma SpansDisjoint(c: Config, tail: nat, fs: seq<Frame>, head: nat)
    requires c.line > 0 && LaidOut(c, tail, fs, head)
    ensures head <= c.size
    ensures forall i | 0 <= i < |fs| :: Room(c, fs[i]) > 0 && fs[i].off + Room(c, fs[i]) <= c.size
    ensures forall i, j | 0 <= i < j < |fs| :: Apart(c, fs[i], fs[j])
    ensures head == tail <==> fs == []
  {
    LaidArc(c, tail, fs, head, tail, false);
    LaidApart(c, tail, fs, head, tail, false);
  }

  // ---------------------------------------------------------------- placing a frame

  lemma {:induction false} LaidAppend(c: Config, pos: nat, fs: seq<Frame>, head: nat, bound: nat,
                                      wrapped: bool, f: Frame)
    requires c.line > 0 && pos <= c.size && bound <= c.size
    requires !wrapped ==> bound <= pos
    requires Laid(c, pos, fs, head, bound, wrapped)
    requires Room(c, f) > 0 && f.off == Advance(c, head, Room(c, f)).0
    ensures Laid(c, pos, fs + [f], Advance(c, head, Room(c, f)).1, bound, wrapped) <==> Fits(c, head, bound, Room(c, f))
    decreases |fs|
  {
    var end := Advance(c, head, Room(c, f)).1;
    if fs == [] {
      assert fs + [f] == [f];
      assert [f][1..] == [];
      var room := Room(c, f);
      assert Laid(c, pos, [f], end, bound, wrapped) <==>
             if c.size - pos >= room then (wrapped ==> end < bound) else !wrapped && room <= c.size && end < bound by {
        assert Laid(c, end, [], end, bound, wrapped) <==> (wrapped ==> end < bound);
        assert Laid(c, end, [], end, bound, true) <==> end < bound;
      }
    } else {
      var room := Room(c, fs[0]);
      assert (fs + [f])[1..] == fs[1..] + [f] && (fs + [f])[0] == fs[0];
      LaidAppend(c, Advance(c, pos, room).1, fs[1..], head, bound, wrapped || c.size - pos < room, f);
    }
  }

  /** Placing a frame keeps the placement invariant exactly when the frame fits. */
  lemma PlaceIffFits(c: Config, tail: nat, fs: seq<Frame>, head: nat, f: Frame)
    requires c.line > 0 && LaidOut(c, tail, fs, head)
    requires Room(c, f) > 0 && f.off == Advance(c, head, Room(c, f)).0
    ensures LaidOut(c, tail, fs + [f], Advance(c, head, Room(c, f)).1) <==> Fits(c, head, tail, Room(c, f))
  {
    LaidAppend(c, tail, fs, head, tail, false, f);
  }

  /** A frame that ivshm_tx_ok accepts fits if and only if it is not an exact fill. */
  lemma TxOkFitsIff(c: Config, numFree: nat, head: nat, tail: nat, room: nat)
    requires head <= c.size && tail <= c.size && room > 0
    requires TxOk(c, numFree, head, tail, room)
    ensures Fits(c, head, tail, room) <==> !ExactFill(c, head, tail, room)
    ensures room < Space(c, head, tail) ==> Fits(c, head, tail, room)
  {
  }

  /** A frame that ivshm_tx_ok accepts never touches a frame in flight, exact fill or not, as
      long as the layout is in order. */
  lemma AcceptedApart(c: Config, tail: nat, fs: seq<Frame>, head: nat, f: Frame)
    requires c.line > 0 && LaidOut(c, tail, fs, head)
    requires Room(c, f) > 0 && f.off == Advance(c, head, Room(c, f)).0 && TxOk(c, 1, head, tail, Room(c, f))
    ensures forall i | 0 <= i < |fs| :: Apart(c, fs[i], f)
  {
    LaidArc(c, tail, fs, head, tail, false);
  }

  /** After an exact fill a frame of the oldest one's length lands exactly on it. */
  lemma OldestHit(c: Config, tail: nat, fs: seq<Frame>, head: nat, f: Frame)
    requires c.line > 0 && LaidOut(c, tail, fs, head)
    requires Room(c, f) > 0 && f.off == Advance(c, head, Room(c, f)).0
    requires TxOk(c, 1, head, tail, Room(c, f)) && ExactFill(c, head, tail, Room(c, f))
    ensures var first := (fs + [f])[0];
            && Room(c, first) > 0 && TxOk(c, 1, tail, tail, Room(c, first))
            && Advance(c, tail, Room(c, first)).0 == first.off
  {
    LaidArc(c, tail, fs, head, tail, false);
    if fs != [] {
      TailReplaysHead(c, tail, fs, head);
      if c.size - tail < Room(c, fs[0]) { WrappedEndBefore(c, tail, fs, head); }
    }
  }

  /** A frame takes the least number of whole lines that holds it. */
  lemma FrameSizeLeast(c: Config, len: nat, room: nat)
    requires c.line > 0 && room % c.line == 0
    ensures FrameSize(c, len) % c.line == 0 && len <= FrameSize(c, len)
    ensures len <= room ==> FrameSize(c, len) <= room
  {
    var f := FrameSize(c, len);
    if len <= room < f {
      DivModUnique(f, c.line, f / c.line, 0);
      DivModUnique(room, c.line, room / c.line, 0);
      assert c.line * (f / c.line - room / c.line) == f - room;
      MulBound(c.line, f / c.line - room / c.line);
    }
  }

  /** The guard passes exactly when a descriptor is free and the frame stops short of the tail
      or fills the space up to it. */
  lemma TxOkIff(c: Config, numFree: nat, head: nat, tail: nat, room: nat)
    requires head <= c.size && tail <= c.size && room > 0
    ensures TxOk(c, numFree, head, tail, room)
       <==> numFree >= 1 && (Fits(c, head, tail, room) || ExactFill(c, head, tail, room))
  {
  }

  /** Once head has wrapped below the first position, some frame starts at offset 0. */
  lemma {:induction false} WrapStartsAtZero(c: Config, pos: nat, fs: seq<Frame>, head: nat, bound: nat)
    returns (i: nat)
    requires c.line > 0 && pos <= c.size && bound <= pos
    requires Laid(c, pos, fs, head, bound, false) && head < pos
    ensures i < |fs| && fs[i].off == 0 && Room(c, fs[i]) > 0
    decreases |fs|
  {
    var room := Room(c, fs[0]);
    if c.size - pos >= room {
      var j := WrapStartsAtZero(c, pos + room, fs[1..], head, bound);
      i := j + 1;
    } else {
      i := 0;
    }
  }

  /** Frames laid out from a position that already rounded the ring end before head. */
  lemma WrappedEndBefore(c: Config, tail: nat, fs: seq<Frame>, head: nat)
    requires c.line > 0 && LaidOut(c, tail, fs, head)
    requires fs != [] && c.size - tail < Room(c, fs[0])
    ensures head < tail && forall i | 0 <= i < |fs| :: fs[i].off + Room(c, fs[i]) <= head
  {
    LaidArc(c, Room(c, fs[0]), fs[1..], head, tail, true);
    assert forall i | 0 < i < |fs| :: fs[i] == fs[1..][i - 1];
  }

  /** A frame that lands at the start of the ring after an exact fill meets one in flight. */
  lemma StartIsTaken(c: Config, tail: nat, fs: seq<Frame>, head: nat, f: Frame)
    returns (i: nat)
    requires c.line > 0 && LaidOut(c, tail, fs, head) && head <= c.size
    requires Room(c, f) > 0 && f.off == Advance(c, head, Room(c, f)).0
    requires ExactFill(c, head, tail, Room(c, f))
    ensures i < |fs + [f]| && (fs + [f])[i].off == 0 && Room(c, (fs + [f])[i]) > 0
  {
    if head < tail {
      i := WrapStartsAtZero(c, tail, fs, head, tail);
    } else {
      i := |fs|;
    }
  }

  /** An exact fill brings head to the tail, and ivshm_tx_ok then reports space that is in
      use: a further frame it accepts lands on a frame in flight if and only if the oldest one
      starts at the tail or the frame does not fit between the tail and the end. */
  lemma ExactFillOverwrites(c: Config, tail: nat, fs: seq<Frame>, head: nat, f: Frame, g: Frame)
    requires c.line > 0 && LaidOut(c, tail, fs, head)
    requires Room(c, f) > 0 && f.off == Advance(c, head, Room(c, f)).0
    requires TxOk(c, 1, head, tail, Room(c, f)) && ExactFill(c, head, tail, Room(c, f))
    requires Room(c, g) > 0 && g.off == Advance(c, tail, Room(c, g)).0 && TxOk(c, 1, tail, tail, Room(c, g))
    ensures Advance(c, head, Room(c, f)).1 == tail
    ensures (exists i | 0 <= i < |fs + [f]| :: !Apart(c, (fs + [f])[i], g))
       <==> (fs + [f])[0].off == tail || c.size - tail < Room(c, g)
  {
    var all := fs + [f];
    LaidArc(c, tail, fs, head, tail, false);
    if c.size - tail < Room(c, g) {
      var i := StartIsTaken(c, tail, fs, head, f);
      assert !Apart(c, all[i], g);
    } else if all[0].off == tail {
      assert Room(c, all[0]) > 0;
      assert !Apart(c, all[0], g);
    } else {
      if fs != [] { WrappedEndBefore(c, tail, fs, head); }
      forall i | 0 <= i < |all| ensures Apart(c, all[i], g) {
        if i < |fs| { assert all[i] == fs[i]; }
      }
    }
  }

  /** A 128-byte ring with 64-byte lines and one frame in flight at its tail: `>=` accepts a
      frame that fills it exactly, and then a further frame on top of the first. */
  lemma ExactFillWitness()
    ensures exists c: Config, fs: seq<Frame>, f: Frame, g: Frame ::
      && c.line > 0 && LaidOut(c, 64, fs, 128)
      && TxOk(c, 1, 128, 64, Room(c, f)) && Advance(c, 128, Room(c, f)) == (f.off, 64)
      && TxOk(c, 1, 64, 64, Room(c, g)) && Advance(c, 64, Room(c, g)).0 == g.off
      && |fs| == 1 && !Apart(c, fs[0], g)
  {
    var c := Config(32, 128, 0, 128, 64);
    var bytes := seq(64, i => 0);
    var fs, f, g := [Frame(0, 64, bytes)], Frame(1, 0, bytes), Frame(2, 64, bytes);
    assert fs[1..] == [] && Laid(c, 128, [], 128, 64, false);
    assert LaidOut(c, 64, fs, 128);
    assert TxOk(c, 1, 128, 64, Room(c, f)) && Advance(c, 128, Room(c, f)) == (f.off, 64);
    assert TxOk(c, 1, 64, 64, Room(c, g)) && Advance(c, 64, Room(c, g)).0 == g.off;
    assert !Apart(c, fs[0], g);
  }

  // ---------------------------------------------------------------- reclaiming a frame

  lemma {:induction false} LaidWiden(c: Config, pos: nat, fs: seq<Frame>, head: nat, bound: nat,
                                     wrapped: bool, bound': nat)
    requires c.line > 0
    requires Laid(c, pos, fs, head, bound, wrapped)
    requires wrapped || bound <= bound'
    ensures Laid(c, pos, fs, head, bound', false)
    decreases |fs|
  {
    if fs != [] {
      var room := Room(c, fs[0]);
      if c.size - pos >= room {
        LaidWiden(c, pos + room, fs[1..], head, bound, wrapped, bound');
      } else {
        LaidRaise(c, room, fs[1..], head, bound, bound');
      }
    }
  }

  lemma {:induction false} LaidRaise(c: Config, pos: nat, fs: seq<Frame>, head: nat, bound: nat, bound': nat)
    requires c.line > 0 && bound <= bound'
    requires Laid(c, pos, fs, head, bound, true)
    ensures Laid(c, pos, fs, head, bound', true)
    decreases |fs|
  {
    if fs != [] {
      LaidRaise(c, pos + Room(c, fs[0]), fs[1..], head, bound, bound');
    }
  }

  /** The tail replays the head: advancing from the tail by the oldest frame yields the very
      offset that frame was given, and the rest is again laid out from the new tail. */
  lemma TailReplaysHead(c: Config, tail: nat, fs: seq<Frame>, head: nat)
    requires c.line > 0 && LaidOut(c, tail, fs, head) && fs != []
    ensures Advance(c, tail, Room(c, fs[0])).0 == fs[0].off
    ensures LaidOut(c, Advance(c, tail, Room(c, fs[0])).1, fs[1..], head)
  {
    var room := Room(c, fs[0]);
    if c.size - tail >= room {
      LaidWiden(c, tail + room, fs[1..], head, tail, false, tail + room);
    } else {
      LaidWiden(c, room, fs[1..], head, tail, true, room);
    }
  }
}

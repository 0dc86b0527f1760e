/** From a service on one side to its peer on the other: the pipe and the endpoint layer put
    together. */
module EndToEnd {
  import opened Words
  import opened Packet
  import opened ByteRing
  import opened Endpoint
  import P = Pipe
  import R = PipeRuns
  import E = EndpointRuns

  /** The packets among `frames` that carry `id`, in order. */
  function Addressed(id: nat, frames: seq<seq<byte>>): seq<seq<byte>> {
    if frames == [] then []
    else
      var rest := Addressed(id, frames[1..]);
      if WellFormed(frames[0]) && Id(frames[0]) == id then [frames[0]] + rest else rest
  }

  /** The frames that the endpoint layer was called with, in order. */
  function Begun(es: seq<E.Event>): seq<seq<byte>> {
    if es == [] then []
    else if es[0].PushBegin? then [es[0].frame] + Begun(es[1..])
    else Begun(es[1..])
  }

  lemma {:induction false} AddressedIsFilter(id: nat, es: seq<E.Event>)
    ensures E.AddressedTo(id, es) == Addressed(id, Begun(es))
  {
    if es != [] {
      AddressedIsFilter(id, es[1..]);
      if es[0].PushBegin? {
        assert Begun(es)[1..] == Begun(es[1..]);
      }
    }
  }

  lemma {:induction false} FilterPrefix(id: nat, xs: seq<seq<byte>>, ys: seq<seq<byte>>)
    requires xs <= ys
    ensures Addressed(id, xs) <= Addressed(id, ys)
  {
    if xs != [] {
      assert xs[0] == ys[0] && xs[1..] <= ys[1..];
      FilterPrefix(id, xs[1..], ys[1..]);
    }
  }

  /** Whatever the interleaving on the pipe and among the endpoints, when the endpoint layer
      is called with the frames the pipe hands on, the reader of endpoint `k` gets a prefix
      of the packets that the other side sent to its id. */
  lemma ReaderGetsWhatWasSent(c: Config, s0: P.Link, es: seq<P.Event>, s: P.Link,
                              u: E.Setup, fs: seq<E.Event>, w: E.World, k: nat)
    requires R.Fresh(c, s0) && R.Runs(c, s0, es, s)
    requires Unique(u.ids) && E.Runs(u, E.Booted(u), fs, w) && k < |u.ids|
    requires Begun(fs) <= s.delivered
    ensures |w.eps| == |u.ids|
    ensures w.eps[k].out <= Addressed(u.ids[k], R.SentIn(es))
  {
    R.PipeIsFifo(c, s0, es, s);
    E.ReadersGetTheirPackets(u, fs, w, k);
    AddressedIsFilter(u.ids[k], fs);
    FilterPrefix(u.ids[k], Begun(fs), R.SentIn(es));
  }

  /** Once both layers are at rest and no doorbell was missed before RUN, the reader has got
      every packet sent to its id. */
  lemma AtRestAllArrived(c: Config, s0: P.Link, es: seq<P.Event>, s: P.Link,
                         u: E.Setup, fs: seq<E.Event>, w: E.World, k: nat)
    requires R.Fresh(c, s0) && R.Runs(c, s0, es, s)
    requires s.pc.Idle? && !s.irq && s.posts == 0 && !s.announcing && !R.MissedIn(c, s0, es, false)
    requires Unique(u.ids) && E.Runs(u, E.Booted(u), fs, w) && k < |u.ids|
    requires Begun(fs) == s.delivered
    requires |w.eps| == |u.ids| ==> w.eps[k].rx == [] && w.target != k && !w.eps[k].reading
    ensures |w.eps| == |u.ids| && w.eps[k].out == Addressed(u.ids[k], R.SentIn(es))
  {
    R.NoLostWakeup(c, s0, es, s);
    E.ReadersGetTheirPackets(u, fs, w, k);
    AddressedIsFilter(u.ids[k], fs);
  }
}

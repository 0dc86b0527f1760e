/** The receive buffer of the binary service: a bounded byte ring that makes room for new
    data by dropping the oldest unread bytes. */
module RxBuffer {
  import opened Basics
  import opened Words

  /** The last `n` bytes of `s`, or all of them. */
  function Newest(s: seq<byte>, n: nat): seq<byte> {
    if |s| <= n then s else s[|s| - n..]
  }

  /** The handler's circular buffer and its overwrite flag. */
  class Buffer {
    const cap: nat
    const noOverwrite: bool
    var contents: seq<byte>

    constructor (cap: nat, noOverwrite: bool)
      ensures this.cap == cap && this.noOverwrite == noOverwrite && contents == []
    {
      this.cap, this.noOverwrite, contents := cap, noOverwrite, [];
    }

    /** cbuf_read: as much as is there. */
    method Read(n: nat) returns (b: seq<byte>)
      modifies this
      ensures old(contents) == b + contents
      ensures |b| == if n <= |old(contents)| then n else |old(contents)|
    {
      var k := if n <= |contents| then n else |contents|;
      b := contents[..k];
      contents := contents[k..];
    }

    /** cbuf_write without blocking: as much as fits. */
    method Write(b: seq<byte>) returns (count: nat)
      requires |contents| <= cap
      modifies this
      ensures count == (if |b| <= cap - |old(contents)| then |b| else cap - |old(contents)|)
      ensures contents == old(contents) + b[..count] && |contents| <= cap
    {
      count := if |b| <= cap - |contents| then |b| else cap - |contents|;
      contents := contents + b[..count];
    }

    /** ivshm_binary_write_cbuf */
    method WriteCbuf(b: seq<byte>) returns (count: nat)
      requires |contents| <= cap
      modifies this
      ensures |contents| <= cap && count <= |b|
      ensures !noOverwrite && |b| <= cap ==> count == |b| && contents == Newest(old(contents) + b, cap)
      ensures !noOverwrite && |b| > cap ==> count == cap && contents == b[..cap]
      ensures noOverwrite ==>
        contents == old(contents) + b[..count] && count == Min(|b|, cap - |old(contents)|)
    {
      var avail := cap - |contents|;
      if avail >= |b| {
        count := Write(b);
        return;
      }
      var remaining := |b| - avail;
      if !noOverwrite {
        var dropped := Read(remaining);
      }
      count := Write(b);
    }
  }

  // ---------------------------------------------------------------- runs

  datatype Op = Put(bytes: seq<byte>) | Get(n: nat)

  /** The contents after the operations `ops` on an empty buffer in overwrite mode. */
  function Contents(cap: nat, ops: seq<Op>): seq<byte>
    decreases |ops|
  {
    if ops == [] then []
    else
      var before := Contents(cap, ops[..|ops| - 1]);
      match ops[|ops| - 1]
      case Put(b) => Newest(before + b, cap)
      case Get(n) => before[Min(n, |before|)..]
  }

  /** All bytes ever written. */
  function Stream(ops: seq<Op>): seq<byte>
    decreases |ops|
  {
    if ops == [] then []
    else
      match ops[|ops| - 1]
      case Put(b) => Stream(ops[..|ops| - 1]) + b
      case Get(_) => Stream(ops[..|ops| - 1])
  }

  /** Where the reader stands in the stream: a read moves it by what it takes, a write only
      when more than `cap` bytes would be unread. */
  function Position(cap: nat, ops: seq<Op>): nat
    decreases |ops|
  {
    if ops == [] then 0
    else
      var before := Position(cap, ops[..|ops| - 1]);
      var total := |Stream(ops)|;
      match ops[|ops| - 1]
      case Put(_) => Max(before, total - cap)
      case Get(n) => if before <= total then before + Min(n, total - before) else before
  }

  ghost predicate PutsFit(cap: nat, ops: seq<Op>) {
    forall i | 0 <= i < |ops| :: ops[i].Put? ==> |ops[i].bytes| <= cap
  }

  /** Over any run the buffer is the unread end of the stream: what a reader takes are slices
      of the stream in order, and only the oldest unread bytes are ever removed. */
  lemma {:induction false} BufferIsStreamEnd(cap: nat, ops: seq<Op>)
    requires PutsFit(cap, ops)
    ensures Position(cap, ops) <= |Stream(ops)| <= Position(cap, ops) + cap
    ensures Contents(cap, ops) == Stream(ops)[Position(cap, ops)..]
    decreases |ops|
  {
    if ops != [] {
      var before := ops[..|ops| - 1];
      BufferIsStreamEnd(cap, before);
      var p, w := Position(cap, before), Stream(before);
      match ops[|ops| - 1] {
        case Put(b) =>
          assert w[p..] + b == (w + b)[p..];
        case Get(n) =>
      }
    }
  }

  /** What a read returns at the end of a run is the next slice of the stream, and the reader
      never goes back. */
  lemma ReadsAreSlices(cap: nat, ops: seq<Op>, n: nat)
    requires PutsFit(cap, ops)
    ensures var p, c := Position(cap, ops), Contents(cap, ops);
            var k := Min(n, |c|);
            && p + k <= |Stream(ops)| && c[..k] == Stream(ops)[p..p + k]
            && Position(cap, ops + [Get(n)]) == p + k && Stream(ops + [Get(n)]) == Stream(ops)
  {
    BufferIsStreamEnd(cap, ops);
    assert (ops + [Get(n)])[..|ops|] == ops;
  }

  lemma WritesOnlyDropOnOverflow(cap: nat, ops: seq<Op>, b: seq<byte>)
    requires PutsFit(cap, ops) && |b| <= cap
    ensures Position(cap, ops + [Put(b)]) >= Position(cap, ops)
    ensures Position(cap, ops + [Put(b)]) == Position(cap, ops) <==> |Contents(cap, ops)| + |b| <= cap
    ensures Position(cap, ops + [Put(b)]) > Position(cap, ops) ==> |Contents(cap, ops + [Put(b)])| == cap
  {
    BufferIsStreamEnd(cap, ops);
    var all := ops + [Put(b)];
    assert all[..|ops|] == ops;
    assert PutsFit(cap, all);
    BufferIsStreamEnd(cap, all);
  }
}

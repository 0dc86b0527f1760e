/** Packets of the endpoint layer: the header, and the gathering buffer that protocol layers
    prepend their parts to. */
module Packet {
  import opened Words

  const PKT_MAGIC: nat := 0x78746B70
  const PAD_MAGIC: nat := 0x58444150
  /** sizeof(struct ivshm_pkt_hdr) */
  const HDR_SIZE: nat := 16
  /** IVSHM_EP_MAX_IOVEC */
  const MAX_IOVEC: nat := 8

  /** A u32 in memory, least significant byte first. */
  function Le32(x: nat): (r: seq<byte>)
    requires x < U32
    ensures |r| == 4
  {
    var y := x / 256;
    var z := y / 256;
    [x % 256, y % 256, z % 256, z / 256]
  }

  function FromLe32(s: seq<byte>): nat
    requires |s| == 4
  {
    (s[0] as int) + 256 * ((s[1] as int) + 256 * ((s[2] as int) + 256 * (s[3] as int)))
  }

  lemma Le32RoundTrip(x: nat)
    requires x < U32
    ensures FromLe32(Le32(x)) == x
  {
  }

  /** IVSHM_EP_GET_ID: the low 16 bits of an endpoint's identifier word. */
  function GetId(word: nat): nat {
    word % U16
  }

  /** struct ivshm_pkt_hdr as bytes. */
  function Header(id: nat, len: nat): (r: seq<byte>)
    requires id < U32
    ensures |r| == HDR_SIZE
  {
    Le32(PKT_MAGIC) + Le32(id) + Le32(len % U32) + Le32(PAD_MAGIC)
  }

  function Magic(b: seq<byte>): nat requires |b| >= HDR_SIZE { FromLe32(b[0..4]) }
  function Id(b: seq<byte>): nat requires |b| >= HDR_SIZE { FromLe32(b[4..8]) }
  function Len(b: seq<byte>): nat requires |b| >= HDR_SIZE { FromLe32(b[8..12]) }

  /** What ivshm_endpoint_push asserts of a frame. */
  predicate WellFormed(b: seq<byte>) {
    |b| >= HDR_SIZE && Magic(b) == PKT_MAGIC && Len(b) == |b|
  }

  /** ivshm_pkt_get_payload_length on a header's length field. */
  function PayloadLength(len: nat): nat {
    if len < HDR_SIZE then 0 else len - HDR_SIZE
  }

  lemma HeaderSlices(id: nat, len: nat, payload: seq<byte>)
    requires id < U32 && len < U32
    ensures var b := Header(id, len) + payload;
            && b[0..4] == Le32(PKT_MAGIC) && b[4..8] == Le32(id) && b[8..12] == Le32(len)
            && b[HDR_SIZE..] == payload
  {
    var b := Header(id, len) + payload;
    var rest := Le32(len) + Le32(PAD_MAGIC) + payload;
    assert b == Le32(PKT_MAGIC) + (Le32(id) + rest);
    assert rest[..4] == Le32(len);
  }

  lemma HeaderParses(id: nat, payload: seq<byte>)
    requires id < U32 && HDR_SIZE + |payload| < U32
    ensures var b := Header(id, HDR_SIZE + |payload|) + payload;
            && WellFormed(b) && Id(b) == id
            && b[HDR_SIZE..] == payload && PayloadLength(Len(b)) == |payload|
  {
    var len := HDR_SIZE + |payload|;
    HeaderSlices(id, len, payload);
    Le32RoundTrip(PKT_MAGIC);
    Le32RoundTrip(id);
    Le32RoundTrip(len);
  }

  /** The bytes of a number come least significant first. */
  lemma Le32Bytes(x: nat)
    requires x < U32
    ensures var s := Le32(x);
            x == (s[0] as int) + 0x100 * (s[1] as int) + 0x1_0000 * (s[2] as int) + 0x100_0000 * (s[3] as int)
  {
    var y := x / 256;
    var z := y / 256;
    assert x == 256 * y + x % 256 && y == 256 * z + y % 256 && z == 256 * (z / 256) + z % 256;
  }

  /** The sixteen bytes of a header: "pktx", the id, the length, "PADX" in memory order. */
  lemma HeaderBytes(id: nat, len: nat)
    requires id < U32 && len < U32
    ensures Header(id, len) == [0x70, 0x6B, 0x74, 0x78] + Le32(id) + Le32(len) + [0x50, 0x41, 0x44, 0x58]
  {
    Le32Is(PKT_MAGIC, 0x70, 0x6B, 0x74, 0x78);
    Le32Is(PAD_MAGIC, 0x50, 0x41, 0x44, 0x58);
    assert len % U32 == len;
  }

  lemma Le32Is(x: nat, b0: byte, b1: byte, b2: byte, b3: byte)
    requires x < U32 && x == b0 + 256 * (b1 + 256 * (b2 + 256 * b3))
    ensures Le32(x) == [b0, b1, b2, b3]
  {
    DivModUnique(x, 256, b1 + 256 * (b2 + 256 * b3), b0);
    DivModUnique(b1 + 256 * (b2 + 256 * b3), 256, b2 + 256 * b3, b1);
    DivModUnique(b2 + 256 * b3, 256, b3, b2);
  }

  lemma FromLe32Unique(s: seq<byte>, t: seq<byte>)
    requires |s| == |t| == 4 && FromLe32(s) == FromLe32(t)
    ensures s == t
  {
    var u: int, v: int := (s[2] as int) + 256 * (s[3] as int), (t[2] as int) + 256 * (t[3] as int);
    SameByte(s[0], (s[1] as int) + 256 * u, t[0], (t[1] as int) + 256 * v);
    SameByte(s[1], u, t[1], v);
    SameByte(s[2], s[3], t[2], t[3]);
  }

  lemma SameByte(a: byte, x: int, b: byte, y: int)
    requires a + 256 * x == b + 256 * y
    ensures a == b && x == y
  {
  }

  /** A frame is well formed exactly when it begins with "pktx" and states its own length. */
  lemma WellFormedIff(b: seq<byte>)
    requires |b| >= HDR_SIZE
    ensures Magic(b) == PKT_MAGIC <==> b[..4] == [0x70, 0x6B, 0x74, 0x78]
    ensures WellFormed(b) <==> b[..4] == [0x70, 0x6B, 0x74, 0x78] && FromLe32(b[8..12]) == |b|
  {
    var magic: seq<byte> := [0x70, 0x6B, 0x74, 0x78];
    assert FromLe32(magic) == PKT_MAGIC;
    assert b[..4] == b[0..4];
    if Magic(b) == PKT_MAGIC { FromLe32Unique(b[..4], magic); }
  }

  /** A length field below the header's own size stands for no payload. */
  lemma PayloadLengthOf(len: nat)
    ensures PayloadLength(len) == 0 <==> len <= 16
    ensures len >= 16 ==> PayloadLength(len) + 16 == len
  {
  }

  function Concat(parts: seq<seq<byte>>): seq<byte> {
    if parts == [] then [] else parts[0] + Concat(parts[1..])
  }

  function Reverse<T>(xs: seq<T>): (r: seq<T>)
    ensures |r| == |xs|
  {
    if xs == [] then [] else Reverse(xs[1..]) + [xs[0]]
  }

  lemma {:induction false} ConcatSplit(xs: seq<seq<byte>>, ys: seq<seq<byte>>)
    ensures Concat(xs + ys) == Concat(xs) + Concat(ys)
  {
    if xs == [] {
      assert xs + ys == ys;
    } else {
      assert (xs + ys)[1..] == xs[1..] + ys;
      ConcatSplit(xs[1..], ys);
    }
  }

  /** struct ivshm_ep_buf: parts are added from the end of the vector downwards. */
  class EpBuf {
    const vec: array<seq<byte>>
    var idx: nat

    ghost predicate Valid()
      reads this
    {
      vec.Length == MAX_IOVEC && idx <= MAX_IOVEC
    }

    /** The bytes that the io vector starting at `idx` gathers. */
    ghost function Gathered(): seq<byte>
      reads this, vec
      requires Valid()
    {
      Concat(vec[idx..])
    }

    /** ivshm_ep_buf_init */
    constructor ()
      ensures Valid() && idx == MAX_IOVEC && Gathered() == [] && fresh(vec)
    {
      vec := new seq<byte>[MAX_IOVEC](i => []);
      idx := MAX_IOVEC;
    }

    /** ivshm_ep_buf_add; false is the code's -1. */
    method Add(part: seq<byte>) returns (ok: bool)
      requires Valid()
      modifies this, vec
      ensures Valid() && ok == (old(idx) >= 1) && idx == old(idx) - (if ok then 1 else 0)
      ensures vec[idx..] == if ok then [part] + old(vec[idx..]) else old(vec[idx..])
      ensures Gathered() == if ok then part + old(Gathered()) else old(Gathered())
    {
      if idx < 1 {
        return false;
      }
      ghost var rest := vec[idx..];
      idx := idx - 1;
      vec[idx] := part;
      assert vec[idx..] == [part] + rest;
      ok := true;
    }

    /** ivshm_ep_buf_iov_size */
    method Size() returns (n: nat)
      requires Valid()
      ensures n == |Gathered()|
    {
      n := 0;
      var i := MAX_IOVEC;
      assert vec[MAX_IOVEC..] == [];
      while i > idx
        invariant idx <= i <= MAX_IOVEC && n == |Concat(vec[i..])|
      {
        i := i - 1;
        assert vec[i..] == [vec[i]] + vec[i + 1..];
        n := n + |vec[i]|;
      }
    }

    /** What the io vector copies out. */
    method Gather() returns (b: seq<byte>)
      requires Valid()
      ensures b == Gathered()
    {
      b := [];
      var i := MAX_IOVEC;
      assert vec[MAX_IOVEC..] == [];
      while i > idx
        invariant idx <= i <= MAX_IOVEC && b == Concat(vec[i..])
      {
        i := i - 1;
        assert vec[i..] == [vec[i]] + vec[i + 1..];
        b := vec[i] + b;
      }
    }

    /** ivshm_endpoint_write up to the call of ivshm_write: prepends the packet header, whose
        length field is filled in once the header is part of the buffer. The result of the
        addition is not looked at. */
    method Frame(word: nat) returns (frame: seq<byte>)
      requires Valid()
      modifies this, vec
      ensures Valid()
      ensures old(idx) >= 1 ==>
        frame == Header(GetId(word), HDR_SIZE + |old(Gathered())|) + old(Gathered())
      ensures old(idx) == 0 ==> frame == old(Gathered())
    {
      var blank: seq<byte> := seq(HDR_SIZE, i => 0);
      var ok := Add(blank);
      var len := Size();
      if ok {
        vec[idx] := Header(GetId(word), len);
        assert vec[idx..] == [vec[idx]] + old(vec[idx..]);
      }
      frame := Gather();
    }
  }

  /** The bytes gathered after adding `parts` one after the other to `gathered`, with room
      for `room` more. */
  function AfterAdds(gathered: seq<byte>, parts: seq<seq<byte>>, room: nat): seq<byte>
    decreases |parts|
  {
    if parts == [] then gathered
    else if room == 0 then AfterAdds(gathered, parts[1..], 0)
    else AfterAdds(parts[0] + gathered, parts[1..], room - 1)
  }

  lemma {:induction false} AddsReverse(gathered: seq<byte>, parts: seq<seq<byte>>, room: nat)
    requires |parts| <= room
    ensures AfterAdds(gathered, parts, room) == Concat(Reverse(parts)) + gathered
    decreases |parts|
  {
    if parts != [] {
      AddsReverse(parts[0] + gathered, parts[1..], room - 1);
      ConcatSplit(Reverse(parts[1..]), [parts[0]]);
      var one := [parts[0]];
      assert one[1..] == [] && Concat(one) == parts[0] + Concat(one[1..]);
    }
  }

  /** Up to seven parts added by the protocol layers travel as their reverse-order
      concatenation behind a header that carries the frame's own length. */
  lemma SevenPartsFramed(parts: seq<seq<byte>>, word: nat)
    requires |parts| <= 7
    requires HDR_SIZE + |Concat(Reverse(parts))| < U32
    ensures var payload := AfterAdds([], parts, MAX_IOVEC);
            var frame := Header(GetId(word), HDR_SIZE + |payload|) + payload;
            && WellFormed(frame) && Id(frame) == GetId(word)
            && frame[HDR_SIZE..] == Concat(Reverse(parts))
  {
    AddsReverse([], parts, MAX_IOVEC);
    HeaderParses(GetId(word), Concat(Reverse(parts)));
  }
}

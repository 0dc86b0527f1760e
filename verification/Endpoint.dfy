/** The receive side of the endpoint layer: frames are routed by id into each endpoint's byte
    ring and cut into packets again by the endpoint's reader. */
module Endpoint {
  import opened Words
  import opened Packet

  // ---------------------------------------------------------------- the endpoint list

  /** ivshm_pipe_get_endpoint over the 16-bit ids of the list, in list order: the position of
      the first match, or the length of the list. */
  function Lookup(ids: seq<nat>, id: nat): (k: nat)
    ensures k <= |ids|
    ensures k < |ids| ==> ids[k] == id
    ensures forall j | 0 <= j < k :: ids[j] != id
  {
    if ids == [] then 0
    else if ids[0] == id then 0
    else 1 + Lookup(ids[1..], id)
  }

  ghost predicate Unique(ids: seq<nat>) {
    forall i, j | 0 <= i < j < |ids| :: ids[i] != ids[j]
  }

  /** The list of endpoints, by identifier word. */
  class Registry {
    var words: seq<nat>

    ghost function Ids(): (r: seq<nat>)
      reads this
      ensures |r| == |words|
    {
      seq(|words|, i requires 0 <= i < |words| reads this => GetId(words[i]))
    }

    /** ivshm_pipe_get_endpoint */
    method GetEndpoint(id: nat) returns (k: nat)
      ensures k == Lookup(Ids(), id)
    {
      k := 0;
      while k < |words|
        invariant k <= |words| && forall j | 0 <= j < k :: GetId(words[j]) != id
      {
        if GetId(words[k]) == id {
          break;
        }
        k := k + 1;
      }
      LookupUnique(Ids(), id, k);
    }

    /** ivshm_endpoint_create_w_private: refuses an id that is already in the list; the new
        word carries the low 16 bits of the id, `attrs` the scheduling bits above. */
    method Create(id: nat, attrs: nat) returns (ok: bool)
      modifies this
      ensures ok == (Lookup(old(Ids()), id) == |old(words)|)
      ensures Ids() == if ok then old(Ids()) + [GetId(id)] else old(Ids())
      ensures !ok ==> words == old(words)
      ensures ok ==> |words| == |old(words)| + 1 && words[..|old(words)|] == old(words)
      ensures ok ==> words[|old(words)|] % U16 == id % U16 && words[|old(words)|] / U16 == attrs
    {
      var k := GetEndpoint(id);
      if k < |words| {
        return false;
      }
      ghost var before := Ids();
      var word := GetId(id) + U16 * attrs;
      DivModUnique(word, U16, attrs, GetId(id));
      words := words + [word];
      assert Ids() == before + [GetId(id)];
      ok := true;
    }
  }

  lemma LookupUnique(ids: seq<nat>, id: nat, k: nat)
    requires k <= |ids| && (k < |ids| ==> ids[k] == id)
    requires forall j | 0 <= j < k :: ids[j] != id
    ensures Lookup(ids, id) == k
  {
    var l := Lookup(ids, id);
  }

  /** The check in the creation of an endpoint keeps ids unique exactly when the id fits 16
      bits or its low half is new: it compares the full id with stored 16-bit ids. */
  lemma CreateKeepsUniqueIff(ids: seq<nat>, id: nat)
    requires Unique(ids) && Lookup(ids, id) == |ids|
    ensures Unique(ids + [GetId(id)]) <==> (id < U16 || Lookup(ids, GetId(id)) == |ids|)
  {
    var all := ids + [GetId(id)];
    var k := Lookup(ids, GetId(id));
    if k < |ids| {
      assert all[k] == all[|ids|];
    } else {
      assert forall i | 0 <= i < |ids| :: all[i] != all[|ids|];
    }
  }

  /** Two endpoints with the same 16-bit id: the second creation is let through. */
  lemma CreateDuplicates()
    ensures Lookup([0x201], 0x1_0201) == 1 && !Unique([0x201] + [GetId(0x1_0201)])
  {
    var all := [0x201] + [GetId(0x1_0201)];
    assert all[0] == all[1];
    LookupUnique([0x201], 0x1_0201, 1);
  }

  // ---------------------------------------------------------------- one endpoint

  datatype PushResult = Done | Overrun
  datatype ReadResult = Packet(bytes: seq<byte>) | NoPacket | Corrupt

  /** What ivshm_endpoint_pkt_read asserts of the front of the ring, `maxPkt` being the size of
      the reader's buffer. */
  predicate HeaderOk(maxPkt: nat, ring: seq<byte>) {
    |ring| > HDR_SIZE && Magic(ring) == PKT_MAGIC && Len(ring) < maxPkt
  }

  /** The reader goes on exactly when more than a header is there, it begins with "pktx" and
      states a length below the reader's buffer. */
  lemma HeaderOkIff(maxPkt: nat, ring: seq<byte>)
    ensures HeaderOk(maxPkt, ring)
       <==> |ring| > 16 && ring[..4] == [0x70, 0x6B, 0x74, 0x78] && FromLe32(ring[8..12]) < maxPkt
  {
    if |ring| > 16 { WellFormedIff(ring); }
  }

  /** struct ivshm_endpoint: `rx` is the byte ring with room for `cap` bytes, `sem` counts
      complete packets. */
  class Endpoint {
    const cap: nat
    const maxPkt: nat
    var rx: seq<byte>
    var sem: nat

    constructor (cap: nat, maxPkt: nat)
      ensures this.cap == cap && this.maxPkt == maxPkt && rx == [] && sem == 0
    {
      this.cap, this.maxPkt, rx, sem := cap, maxPkt, [], 0;
    }

    /** cbuf_write without blocking: as much as fits. */
    method RingWrite(b: seq<byte>) returns (count: nat)
      requires |rx| <= cap
      modifies this`rx
      ensures |rx| <= cap && count <= |b| && rx == old(rx) + b[..count]
      ensures count == if |b| <= cap - |old(rx)| then |b| else cap - |old(rx)|
    {
      count := if |b| <= cap - |rx| then |b| else cap - |rx|;
      rx := rx + b[..count];
    }

    /** The copy loop of ivshm_endpoint_push. Overrun is its failed assertion that the ring
        took something. */
    method Push(frame: seq<byte>) returns (r: PushResult)
      requires |rx| <= cap
      modifies this
      ensures |rx| <= cap
      ensures if |frame| <= cap - |old(rx)|
              then r == Done && rx == old(rx) + frame && sem == old(sem) + 1
              else r == Overrun && sem == old(sem) && rx == old(rx) + frame[..cap - |old(rx)|]
    {
      var remaining: nat, done: nat := |frame|, 0;
      while remaining > 0
        invariant |rx| <= cap && done + remaining == |frame| && sem == old(sem)
        invariant rx == old(rx) + frame[..done]
        decreases remaining
      {
        var count := RingWrite(frame[done..]);
        assert frame[..done + count] == frame[..done] + frame[done..][..count];
        if count == 0 {
          return Overrun;
        }
        remaining, done := remaining - count, done + count;
      }
      assert frame[..done] == frame;
      sem := sem + 1;
      r := Done;
    }

    /** cbuf_read: as much as is there. */
    method RingRead(want: nat) returns (b: seq<byte>)
      modifies this`rx
      ensures old(rx) == b + rx && |b| == if want <= |old(rx)| then want else |old(rx)|
    {
      var n := if want <= |rx| then want else |rx|;
      b := rx[..n];
      rx := rx[n..];
    }

    /** ivshm_endpoint_pkt_read; NoPacket stands for the wait on the semaphore, Corrupt for
        its failed assertions on the header and for a read that would wait for ever. */
    method PktRead() returns (r: ReadResult)
      modifies this
      ensures old(sem) == 0 ==> r == NoPacket && rx == old(rx) && sem == 0
      ensures old(sem) > 0 ==> sem == old(sem) - 1
      ensures old(sem) > 0 && !HeaderOk(maxPkt, old(rx)) ==> r == Corrupt && rx == old(rx)
      ensures old(sem) > 0 && HeaderOk(maxPkt, old(rx)) ==>
        if Len(old(rx)) <= |old(rx)| then r == Packet(old(rx)[..Len(old(rx))]) && rx == old(rx)[Len(old(rx))..]
        else r == Corrupt && rx == []
    {
      if sem == 0 {
        return NoPacket;
      }
      sem := sem - 1;
      if !HeaderOk(maxPkt, rx) {
        return Corrupt;
      }
      var remaining: nat := Len(rx);
      var out: seq<byte> := [];
      while remaining > 0
        invariant sem == old(sem) - 1 && out + rx == old(rx)
        invariant |out| + remaining == Len(old(rx))
        decreases remaining
      {
        var b := RingRead(remaining);
        out := out + b;
        if |b| == 0 {
          return Corrupt;
        }
        remaining := remaining - |b|;
      }
      assert out == old(rx)[..|out|] && rx == old(rx)[|out|..];
      r := Packet(out);
    }
  }
}

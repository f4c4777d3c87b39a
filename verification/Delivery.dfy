/** Packets through the transport: what a writer puts into a frame is what a reader takes out. */
module Delivery {
  import opened Bytes
  import opened Cursors
  import opened Errors
  import opened Frames
  import opened Packets = Packet
  import opened Readers
  import opened Transport

  /** Every live frame carries the serialized form of the packet that `packets` has for its number. */
  ghost predicate Carries(frames: seq<Frame>, packets: map<nat, Packet>) {
    forall i :: 0 <= i < |frames| ==> IsPacket(frames[i], packets)
  }

  ghost predicate IsPacket(f: Frame, packets: map<nat, Packet>) {
    f.num in packets && Sized(packets[f.num]) && AreTexts(HeadersOf(packets[f.num]))
    && f.data == FlatOf(packets[f.num])
  }

  lemma CarriesOneMore(frames: seq<Frame>, k: nat, f: Frame, packets: map<nat, Packet>, pkt: Packet)
    requires k <= |frames| && Carries(frames, packets) && Sized(pkt) && AreTexts(HeadersOf(pkt))
    requires f.data == FlatOf(pkt) && forall i :: 0 <= i < |frames| ==> frames[i].num < f.num
    ensures Carries(frames[k..] + [f], packets[f.num := pkt])
  {
    var more := packets[f.num := pkt];
    var after := frames[k..] + [f];
    forall i | 0 <= i < |after|
      ensures IsPacket(after[i], more)
    {
      if i < |frames| - k {
        assert after[i] == frames[k + i] && IsPacket(frames[k + i], packets);
      }
    }
  }

  /** So do all the queues a death during the write can leave. */
  lemma StepsCarry(t0: seq<Entry>, t: seq<Entry>, c: seq<Frame>, k: nat, f: Frame, packets: map<nat, Packet>, pkt: Packet)
    requires k <= |c| && WriteSteps(t0, t, c, k, f) && Carries(c, packets) && Sized(pkt) && AreTexts(HeadersOf(pkt))
    requires f.data == FlatOf(pkt) && forall i :: 0 <= i < |c| ==> c[i].num < f.num
    ensures |t0| <= |t| && forall i :: |t0| <= i < |t| ==> Carries(t[i].queue, packets[f.num := pkt])
  {
    CarriesOneMore(c, k, f, packets, pkt);
    forall j | 0 <= j <= |c|
      ensures Carries(c[j..], packets[f.num := pkt])
    {
      CarriesOneMore(c, j, f, packets, pkt);
      var more := c[j..] + [f];
      assert forall i :: 0 <= i < |c[j..]| ==> c[j..][i] == more[i];
    }
  }

  /** The writer's own action, both phases of it: one frame more, carrying the packet; and a death
      after any store leaves a queue of frames that carry theirs. */
  method WriteAction(arena: Arena, pkt: Packet, ghost packets: map<nat, Packet>) returns (off: nat, ghost k: nat)
    requires arena.Consistent() && arena.CommittedHigh() + 1 < WORD_LIMIT
    requires Sized(pkt) && AreTexts(HeadersOf(pkt)) && Carries(arena.queue, packets)
    requires Fits(arena.queue, arena.arenaSize, FRAME_HDR + |FlatOf(pkt)|)
    modifies arena, arena.buf
    ensures arena.Valid() && arena.CommittedHigh() == old(arena.CommittedHigh()) + 1
    ensures k <= |old(arena.queue)|
    ensures var f := Frame(arena.CommittedHigh(), off, FlatOf(pkt));
            && arena.queue == old(arena.queue)[k..] + [f]
            && WriteSteps(old(arena.trace), arena.trace, old(arena.queue), k, f)
    ensures Carries(arena.queue, packets[arena.CommittedHigh() := pkt])
    ensures |old(arena.trace)| <= |arena.trace|
    ensures forall i :: |old(arena.trace)| <= i < |arena.trace| ==>
              Carries(arena.trace[i].queue, packets[arena.CommittedHigh() := pkt])
  {
    hide Carries, FlatOf, Sized, AreTexts, WriteSteps, Arena.Valid, Arena.Consistent;
    NumbersBelow(arena);
    var bytes, stored := Serialize(pkt);
    var r;
    r, k := arena.Write(bytes[..]);
    off := r.value;
    ghost var f := arena.queue[|arena.queue| - 1];
    CarriesOneMore(old(arena.queue), k, f, packets, pkt);
    StepsCarry(old(arena.trace), arena.trace, old(arena.queue), k, f, packets, pkt);
  }

  lemma NumbersBelow(arena: Arena)
    requires arena.Consistent()
    ensures forall i :: 0 <= i < |arena.queue| ==> arena.queue[i].num < arena.CommittedHigh() + 1
  {
  }

  /** A read that succeeds gives the packet that was written with the number it delivers. */
  method ReadAction(reader: SyncReader, ghost packets: map<nat, Packet>)
    returns (r: Result<(array<byte>, Unpacked)>, ghost num: nat)
    requires reader.Valid() && Carries(reader.handle.Committed().frames, packets)
    modifies reader, reader.handle, reader.handle.arena
    ensures reader.Valid() && reader.handle.Committed() == old(reader.handle.Committed())
    ensures r.Ok? <==> old(reader.Readable(reader.handle.Committed()))
    ensures r.Err? ==> r.error == Again && reader.delivered == old(reader.delivered)
    ensures r.Ok? ==>
      && reader.delivered == old(reader.delivered) + [num] && num in packets
      && Packets.Holds(r.value.0[..], r.value.1, packets[num])
  {
    hide SyncReader.Valid, SyncReader.Readable;
    var f := reader.Read();
    if f.Err? { return Err(f.error), 0; }
    num := f.value.num;
    CarriedPacket(reader.handle.Committed().frames, f.value, packets);
    var b := new byte[|f.value.data|](i requires 0 <= i < |f.value.data| => f.value.data[i]);
    assert b[..] == f.value.data;
    var buf, u := Deserialize(b, packets[num]);
    r := Ok((buf, u));
  }

  lemma CarriedPacket(frames: seq<Frame>, f: Frame, packets: map<nat, Packet>)
    requires Carries(frames, packets) && f in frames
    ensures IsPacket(f, packets)
  {
    var i :| 0 <= i < |frames| && frames[i] == f;
  }
}

/** A writer's chain run on an arena: the handlers see the arena's own numbers, and the packet they make
    is what the new frame carries. */
module Publishing {
  import opened Bytes
  import opened Delivery
  import opened Frames
  import opened Packets = Packet
  import opened Strconv
  import opened Transport
  import W = Writers

  /** The arena as the chain's handlers see it. */
  ghost function Seen(arena: Arena, held: bool, written: seq<(nat, Packet)>): W.Transport
    reads arena
  {
    W.Transport(arena.CommittedHigh(), arena.queue == [], held, written)
  }

  predicate Wrote<S>(o: W.Outcome<S>, t: W.Transport) {
    |o.transport.written| > |t.written|
  }

  /** The packet that the locked handlers made. */
  function Sent<S>(o: W.Outcome<S>, t: W.Transport): Packet
    requires Wrote(o, t)
  {
    o.transport.written[|o.transport.written| - 1].1
  }

  /** What the caller owes: the packet that comes out of the handlers, if one does, fits the arena. */
  ghost predicate SentFits<S>(o: W.Outcome<S>, t: W.Transport, frames: seq<Frame>, arenaSize: nat) {
    Wrote(o, t) ==>
      && Sized(Sent(o, t)) && AreTexts(HeadersOf(Sent(o, t)))
      && Fits(frames, arenaSize, FRAME_HDR + |FlatOf(Sent(o, t))|)
  }

  /** What a run leaves of the queue `c`: the survivors and one frame with the packet and the next number,
      or `c` itself when the packet was dropped. `t0` and `t1` are the records before and after. */
  ghost predicate Published<S>(o: W.Outcome<S>, t: W.Transport, t0: seq<Entry>, t1: seq<Entry>, c: seq<Frame>, k: nat,
                               q: seq<Frame>)
  {
    if Wrote(o, t) then
      && k <= |c| && q != []
      && var f := Last(q);
         && f.num == t.seqHigh + 1 && Sized(Sent(o, t)) && f.data == FlatOf(Sent(o, t))
         && o.transport.seqHigh == f.num && o.transport.written == t.written + [(f.num, Sent(o, t))]
         && q == c[k..] + [f] && WriteSteps(t0, t1, c, k, f)
    else
      o.transport.written == t.written && q == c && OnlySince(t0, t1, c)
  }

  lemma LockedThenPublished<S>(o: W.Outcome<S>, t: W.Transport, t0: seq<Entry>, t1: seq<Entry>, t2: seq<Entry>,
                               c: seq<Frame>, k: nat, q: seq<Frame>)
    requires OnlySince(t0, t1, c) && Published(o, t.(held := true), t1, t2, c, k, q)
    ensures Published(W.Before([W.Locked], o), t, t0, t2, c, k, q)
  {
    hide OnlySince, WriteSteps, FlatOf;
    if Wrote(o, t) {
      LockedThenWritten(t0, t1, t2, c, k, Last(q));
    } else {
      OnlySinceTransitive(t0, t1, t2, c);
    }
  }

  /** The writer's own action under the lock. */
  method WriteLocked<S>(arena: Arena, s: S, pkt: Packet, written: seq<(nat, Packet)>)
    returns (o: W.Outcome<S>, ghost k: nat)
    requires arena.Valid() && arena.pending == [] && arena.CommittedHigh() + 1 < WORD_LIMIT
    requires Sized(pkt) && Fits(arena.queue, arena.arenaSize, FRAME_HDR + |FlatOf(pkt)|)
    modifies arena, arena.buf
    ensures arena.Valid() && arena.pending == [] && arena.arenaSize == old(arena.arenaSize)
    ensures o == W.WriteLocked(s, old(Seen(arena, true, written)), pkt)
    ensures o.transport == Seen(arena, false, o.transport.written)
    ensures Published(o, old(Seen(arena, true, written)), old(arena.trace), arena.trace, old(arena.queue), k, arena.queue)
  {
    hide Sized, FlatOf, WriteSteps, OnlySince, Fits, Evictions, SlotFor;
    hide Arena.Valid, Arena.Consistent, Arena.CommittedHigh, Arena.WorkingHigh;
    var t := Look(arena, written);
    var bytes, stored := Serialize(pkt);
    var r;
    r, k := arena.WriteHeld(bytes[..]);
    o := W.WriteLocked(s, t, pkt);
  }

  /** What a locked handler is shown. */
  method Look(arena: Arena, written: seq<(nat, Packet)>) returns (t: W.Transport)
    requires arena.Valid() && arena.pending == []
    ensures t == Seen(arena, true, written)
  {
    var state := arena.pages[1 - arena.committedIdx];
    EmptyExactly(state, arena.arenaSize, arena.Working());
    assert arena.Working() == arena.queue;
    t := W.Transport(state.seqHigh, Empty(state), true, written);
  }

  /** a0_writer_write_impl on an arena, from the writer at `curr` on. */
  method RunChain<S>(arena: Arena, curr: W.Writers<S>, head: W.Writers<S>, s: S, pkt: Packet, held: bool,
                     written: seq<(nat, Packet)>)
    returns (o: W.Outcome<S>, ghost k: nat)
    requires W.Ends(curr) && W.Ends(head) && arena.CommittedHigh() + 1 < WORD_LIMIT
    requires arena.Consistent() && (held ==> arena.Valid() && arena.pending == [])
    requires SentFits(W.WriteImpl(curr, head, s, Seen(arena, held, written), pkt), Seen(arena, held, written),
                      arena.queue, arena.arenaSize)
    modifies arena, arena.buf
    ensures arena.Valid() && arena.pending == [] && arena.arenaSize == old(arena.arenaSize)
    ensures o == old(W.WriteImpl(curr, head, s, Seen(arena, held, written), pkt))
    ensures o.transport == Seen(arena, false, o.transport.written)
    ensures Published(o, old(Seen(arena, held, written)), old(arena.trace), arena.trace, old(arena.queue), k, arena.queue)
    decreases !held, W.Size(curr)
  {
    hide Sized, FlatOf, AreTexts, Fits, Arena.Valid, Arena.Consistent, OnlySince, WriteSteps, Last;
    ghost var t := Seen(arena, held, written);
    k := 0;
    match curr.action {
      case Compose(first, second) =>
        assert W.Size(W.Node(second, curr.next)) == W.Nodes(second) + W.Size(curr.next);
        o, k := RunChain(arena, W.Node(first, W.Node(second, curr.next)), head, s, pkt, held, written);
      case WriteAction =>
        if held {
          o, k := WriteLocked(arena, s, pkt, written);
        } else {
          ghost var c, t0 := arena.queue, arena.trace;
          arena.Lock();
          ghost var t1 := arena.trace;
          o, k := RunChain(arena, head, head, s, pkt, true, written);
          LockedThenPublished(o, t, t0, t1, arena.trace, c, k, arena.queue);
          o := W.Before([W.Locked], o);
        }
      case Handlers(name, process, processLocked) =>
        if !held {
          if process.None? {
            o, k := RunChain(arena, curr.next, head, s, pkt, held, written);
          } else {
            var r := process.value(s, pkt);
            o, k := RunChain(arena, curr.next, head, r.0, r.1, held, written);
            o := W.Before([W.Ran(name, false)], o);
          }
        } else {
          if processLocked.None? {
            o, k := RunChain(arena, curr.next, head, s, pkt, held, written);
          } else {
            var seen := Look(arena, written);
            var v := processLocked.value(s, seen, pkt);
            if v.Pass? {
              o, k := RunChain(arena, curr.next, head, v.state, v.pkt, held, written);
              o := W.Before([W.Ran(name, true)], o);
            } else {
              arena.Unlock();
              o := W.Outcome([W.Ran(name, true), W.Unlocked], v.state, seen.(held := false));
            }
          }
        }
    }
  }

  /** a0_writer_write on an arena. It leaves the abstract outcome of the chain; a packet that was not
      dropped is in the newest frame, under the next number, with that number less one in its sequence
      header if the chain adds one; and a death after any store leaves only frames that carry their
      packets. */
  method Publish<S(!new)>(arena: Arena, w: W.Writer<S>, s: S, pkt: Packet, written: seq<(nat, Packet)>,
                          ghost packets: map<nat, Packet>)
    returns (o: W.Outcome<S>, ghost k: nat)
    requires w.Valid() && W.Ends(w.Chain())
    requires arena.Consistent() && arena.CommittedHigh() + 1 < WORD_LIMIT && Carries(arena.queue, packets)
    requires SentFits(W.Write(w.Chain(), s, Seen(arena, false, written), pkt), Seen(arena, false, written),
                      arena.queue, arena.arenaSize)
    modifies arena, arena.buf
    ensures arena.Valid() && arena.pending == []
    ensures o == old(W.FlatWrite(W.Flatten(w.Chain()), s, Seen(arena, false, written), pkt))
    ensures o.transport == Seen(arena, false, o.transport.written)
    ensures Published(o, old(Seen(arena, false, written)), old(arena.trace), arena.trace, old(arena.queue), k, arena.queue)
    ensures Wrote(o, old(Seen(arena, false, written))) ==>
      var sent, num := Sent(o, old(Seen(arena, false, written))), old(arena.CommittedHigh()) + 1;
      && o.transport.written == written + [(num, sent)] && arena.CommittedHigh() == num
      && arena.queue != [] && Last(arena.queue).num == num && Last(arena.queue).data == FlatOf(sent)
      && |old(arena.trace)| <= |arena.trace| && Carries(arena.queue, packets[num := sent])
      && (forall i :: |old(arena.trace)| <= i < |arena.trace| ==> Carries(arena.trace[i].queue, packets[num := sent]))
      && (forall at, key :: W.SeqHeaderAt(W.Flatten(old(w.Chain())), at, key) ==>
            Header(key, Decimal(num - 1)) in HeadersOf(sent))
  {
    hide Sized, FlatOf, AreTexts, Fits, Arena.Valid, Arena.Consistent, Arena.CommittedHigh, Carries, OnlySince, WriteSteps;
    hide W.FlatWrite, W.Flatten, W.SeqHeaderAt, W.Ends;
    ghost var t, t0, c, chain := Seen(arena, false, written), arena.trace, arena.queue, w.Chain();
    NumbersBelow(arena);
    W.WriteIsFlat(chain, s, t, pkt);
    o, k := RunChain(arena, w.Chain(), w.Chain(), s, pkt, false, written);
    if Wrote(o, t) {
      CarriesOneMore(c, k, Last(arena.queue), packets, Sent(o, t));
      StepsCarry(t0, arena.trace, c, k, Last(arena.queue), packets, Sent(o, t));
      forall at, key | W.SeqHeaderAt(W.Flatten(chain), at, key)
        ensures Header(key, Decimal(t.seqHigh)) in HeadersOf(Sent(o, t))
      {
        W.SeqHeaderIsOneLess(chain, at, s, t, pkt, key);
      }
    }
  }
}

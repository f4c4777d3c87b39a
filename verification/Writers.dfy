/** The write chain: middleware composed into trees, writers wrapped around writers, and the
    two-phase run that ends in one frame. */
module Writers {
  import opened Bytes
  import opened Errors
  import opened Packet
  import opened Strconv

  // ----- Middleware and writers -----------------------------------------------------------------

  /** What a writer sees of its transport: the highest sequence number, whether it is empty, whether
      this process holds its lock, and what was written. */
  datatype Transport = Transport(seqHigh: nat, empty: bool, held: bool, written: seq<(nat, Packet)>)

  /** A locked handler passes the packet on, or gives the lock back and stops. */
  datatype Verdict<S> = Pass(state: S, pkt: Packet) | Drop(state: S)

  /** Middleware with its two optional handlers, which run the rest of the chain when they are done;
      the writer's own action; and a pair. `S` is whatever the handlers keep between writes. */
  datatype Middleware<!S> =
    | Handlers(name: nat,
               process: Option<(S, Packet) -> (S, Packet)>,
               processLocked: Option<(S, Transport, Packet) -> Verdict<S>>)
    | WriteAction
    | Compose(first: Middleware<S>, second: Middleware<S>)

  /** A writer: an action, and the writers below it. */
  datatype Writers<!S> = Nil | Node(action: Middleware<S>, next: Writers<S>)

  datatype Event =
    | Ran(name: nat, locked: bool)
    | Locked
    | Serialized(pkt: Packet)
    | Committed(no: nat)
    | Unlocked

  /** The result of a write. */
  datatype Outcome<S> = Outcome(events: seq<Event>, state: S, transport: Transport)

  function Before<S>(events: seq<Event>, o: Outcome<S>): Outcome<S> {
    o.(events := events + o.events)
  }

  function Nodes<S>(m: Middleware<S>): nat {
    if m.Compose? then 1 + Nodes(m.first) + Nodes(m.second) else 1
  }

  function Size<S>(w: Writers<S>): nat {
    if w.Nil? then 0 else Nodes(w.action) + Size(w.next)
  }

  // ----- The run -------------------------------------------------------------------------------

  /** Every path through the chain comes to a writer's own action. */
  predicate Ends<S>(w: Writers<S>) {
    w.Node? && (HasWrite(w.action) || Ends(w.next))
  }

  predicate HasWrite<S>(m: Middleware<S>) {
    match m
    case Handlers(_, _, _) => false
    case WriteAction => true
    case Compose(first, second) => HasWrite(first) || HasWrite(second)
  }

  /** Serialize, commit and unlock. */
  function WriteLocked<S>(s: S, t: Transport, pkt: Packet): Outcome<S> {
    var no := t.seqHigh + 1;
    Outcome([Serialized(pkt), Committed(no), Unlocked], s,
            Transport(no, false, false, t.written + [(no, pkt)]))
  }

  /** One step of the chain. The writer's own action starts again from the head under the lock; the
      second time it comes up it writes. */
  function WriteImpl<S>(curr: Writers<S>, head: Writers<S>, s: S, t: Transport, pkt: Packet): Outcome<S>
    requires Ends(curr) && Ends(head)
    decreases !t.held, Size(curr)
  {
    match curr.action
    case Compose(first, second) =>
      assert Size(Node(second, curr.next)) == Nodes(second) + Size(curr.next);
      WriteImpl(Node(first, Node(second, curr.next)), head, s, t, pkt)
    case WriteAction =>
      if t.held then WriteLocked(s, t, pkt)
      else Before([Locked], WriteImpl(head, head, s, t.(held := true), pkt))
    case Handlers(name, process, processLocked) =>
      if !t.held then
        if process.None? then WriteImpl(curr.next, head, s, t, pkt)
        else
          var r := process.value(s, pkt);
          Before([Ran(name, false)], WriteImpl(curr.next, head, r.0, t, r.1))
      else
        if processLocked.None? then WriteImpl(curr.next, head, s, t, pkt)
        else
          match processLocked.value(s, t, pkt)
          case Pass(s', pkt') => Before([Ran(name, true)], WriteImpl(curr.next, head, s', t, pkt'))
          case Drop(s') => Outcome([Ran(name, true), Unlocked], s', t.(held := false))
  }

  /** a0_writer_write. */
  function Write<S>(w: Writers<S>, s: S, t: Transport, pkt: Packet): Outcome<S>
    requires Ends(w) && !t.held
  {
    WriteImpl(w, w, s, t, pkt)
  }

  // ----- The flat run -------------------------------------------------------------------------------

  /** The leaves of a tree, and of a chain, from first to last. */
  function Leaves<S>(m: Middleware<S>): seq<Middleware<S>> {
    if m.Compose? then Leaves(m.first) + Leaves(m.second) else [m]
  }

  function Flatten<S>(w: Writers<S>): seq<Middleware<S>> {
    if w.Nil? then [] else Leaves(w.action) + Flatten(w.next)
  }

  /** The unlocked handlers of the leaves before the first write, in order. */
  function RunUnlocked<S>(leaves: seq<Middleware<S>>, s: S, pkt: Packet): (seq<Event>, S, Packet) {
    if leaves == [] || !leaves[0].Handlers? then ([], s, pkt)
    else if leaves[0].process.None? then RunUnlocked(leaves[1..], s, pkt)
    else
      var r := leaves[0].process.value(s, pkt);
      var rest := RunUnlocked(leaves[1..], r.0, r.1);
      ([Ran(leaves[0].name, false)] + rest.0, rest.1, rest.2)
  }

  /** The locked handlers before the first write, in order, until one drops the packet; then the
      write. */
  function RunLocked<S>(leaves: seq<Middleware<S>>, s: S, t: Transport, pkt: Packet): Outcome<S> {
    if leaves == [] || !leaves[0].Handlers? then WriteLocked(s, t, pkt)
    else if leaves[0].processLocked.None? then RunLocked(leaves[1..], s, t, pkt)
    else
      match leaves[0].processLocked.value(s, t, pkt)
      case Pass(s', pkt') => Before([Ran(leaves[0].name, true)], RunLocked(leaves[1..], s', t, pkt'))
      case Drop(s') => Outcome([Ran(leaves[0].name, true), Unlocked], s', t.(held := false))
  }

  /** All unlocked handlers, the lock, all locked handlers, the write. */
  function FlatWrite<S>(leaves: seq<Middleware<S>>, s: S, t: Transport, pkt: Packet): Outcome<S> {
    var u := RunUnlocked(leaves, s, pkt);
    Before(u.0 + [Locked], RunLocked(leaves, u.1, t.(held := true), u.2))
  }

  lemma FlattenCompose<S>(first: Middleware<S>, second: Middleware<S>, next: Writers<S>)
    ensures Flatten(Node(first, Node(second, next))) == Flatten(Node(Compose(first, second), next))
  {
  }

  lemma {:induction false} LockedIsFlat<S>(curr: Writers<S>, head: Writers<S>, s: S, t: Transport, pkt: Packet)
    requires Ends(curr) && Ends(head) && t.held
    ensures WriteImpl(curr, head, s, t, pkt) == RunLocked(Flatten(curr), s, t, pkt)
    decreases Size(curr)
  {
    match curr.action
    case Compose(first, second) =>
      FlattenCompose(first, second, curr.next);
      assert Size(Node(second, curr.next)) == Nodes(second) + Size(curr.next);
      LockedIsFlat(Node(first, Node(second, curr.next)), head, s, t, pkt);
    case WriteAction =>
      assert Flatten(curr)[0] == WriteAction;
    case Handlers(name, process, processLocked) =>
      assert Flatten(curr)[0] == curr.action && Flatten(curr)[1..] == Flatten(curr.next);
      if processLocked.None? {
        LockedIsFlat(curr.next, head, s, t, pkt);
      } else {
        var v := processLocked.value(s, t, pkt);
        if v.Pass? {
          LockedIsFlat(curr.next, head, v.state, t, v.pkt);
        }
      }
  }

  lemma {:induction false} UnlockedIsFlat<S>(curr: Writers<S>, head: Writers<S>, s: S, t: Transport, pkt: Packet)
    requires Ends(curr) && Ends(head) && !t.held
    ensures var u := RunUnlocked(Flatten(curr), s, pkt);
            WriteImpl(curr, head, s, t, pkt)
              == Before(u.0 + [Locked], RunLocked(Flatten(head), u.1, t.(held := true), u.2))
    decreases Size(curr)
  {
    hide RunLocked, Before;
    match curr.action
    case Compose(first, second) =>
      FlattenCompose(first, second, curr.next);
      assert Size(Node(second, curr.next)) == Nodes(second) + Size(curr.next);
      UnlockedIsFlat(Node(first, Node(second, curr.next)), head, s, t, pkt);
    case WriteAction =>
      assert Flatten(curr)[0] == WriteAction && [] + [Locked] == [Locked];
      LockedIsFlat(head, head, s, t.(held := true), pkt);
    case Handlers(name, process, processLocked) =>
      assert Flatten(curr)[0] == curr.action && Flatten(curr)[1..] == Flatten(curr.next);
      if process.None? {
        UnlockedIsFlat(curr.next, head, s, t, pkt);
      } else {
        var r := process.value(s, pkt);
        UnlockedIsFlat(curr.next, head, r.0, t, r.1);
        var u := RunUnlocked(Flatten(curr.next), r.0, r.1);
        BeforeTwice([Ran(name, false)], u.0 + [Locked], RunLocked(Flatten(head), u.1, t.(held := true), u.2));
        assert [Ran(name, false)] + (u.0 + [Locked]) == [Ran(name, false)] + u.0 + [Locked];
      }
  }

  lemma BeforeTwice<S>(a: seq<Event>, b: seq<Event>, o: Outcome<S>)
    ensures Before(a, Before(b, o)) == Before(a + b, o)
  {
  }

  /** Flattening: a write runs the leaves of all trees of the chain as one list, twice. */
  lemma WriteIsFlat<S>(w: Writers<S>, s: S, t: Transport, pkt: Packet)
    requires Ends(w) && !t.held
    ensures Write(w, s, t, pkt) == FlatWrite(Flatten(w), s, t, pkt)
  {
    UnlockedIsFlat(w, w, s, t, pkt);
  }

  /** Only the leaves matter: however they are bracketed by compose, or spread over wrapped writers. */
  lemma SameLeavesSameWrite<S>(v: Writers<S>, w: Writers<S>, s: S, t: Transport, pkt: Packet)
    requires Ends(v) && Ends(w) && !t.held && Flatten(v) == Flatten(w)
    ensures Write(v, s, t, pkt) == Write(w, s, t, pkt)
  {
    WriteIsFlat(v, s, t, pkt);
    WriteIsFlat(w, s, t, pkt);
  }

  /** Compose is associative. */
  lemma ComposeIsAssociative<S>(a: Middleware<S>, b: Middleware<S>, c: Middleware<S>, below: Writers<S>,
                                s: S, t: Transport, pkt: Packet)
    requires Ends(below) && !t.held
    ensures Write(Node(Compose(Compose(a, b), c), below), s, t, pkt)
         == Write(Node(Compose(a, Compose(b, c)), below), s, t, pkt)
  {
    var left, right := Compose(Compose(a, b), c), Compose(a, Compose(b, c));
    assert Leaves(left) == Leaves(Compose(a, b)) + Leaves(c) && Leaves(right) == Leaves(a) + Leaves(Compose(b, c));
    assert (Leaves(a) + Leaves(b)) + Leaves(c) == Leaves(a) + (Leaves(b) + Leaves(c));
    assert Flatten(Node(left, below)) == Leaves(left) + Flatten(below);
    assert Flatten(Node(right, below)) == Leaves(right) + Flatten(below);
    SameLeavesSameWrite(Node(Compose(Compose(a, b), c), below), Node(Compose(a, Compose(b, c)), below), s, t, pkt);
  }

  // ----- What a write does to the lock and the transport -----------------------------------------------

  predicate AllRan(events: seq<Event>, locked: bool) {
    forall i :: 0 <= i < |events| ==> events[i].Ran? && events[i].locked == locked
  }

  lemma {:induction false} UnlockedOnlyRuns<S>(leaves: seq<Middleware<S>>, s: S, pkt: Packet)
    ensures AllRan(RunUnlocked(leaves, s, pkt).0, false)
    decreases |leaves|
  {
    if leaves != [] && leaves[0].Handlers? {
      if leaves[0].process.None? {
        UnlockedOnlyRuns(leaves[1..], s, pkt);
      } else {
        var r := leaves[0].process.value(s, pkt);
        UnlockedOnlyRuns(leaves[1..], r.0, r.1);
      }
    }
  }

  /** The end of a locked run: one frame written, or the packet dropped; unlocked either way. */
  ghost predicate EndsOnce<S>(o: Outcome<S>, t: Transport, ran: nat) {
    && ran <= |o.events| && AllRan(o.events[..ran], true)
    && (|| (&& |o.events| == ran + 3
            && o.events[ran].Serialized? && o.events[ran + 1] == Committed(t.seqHigh + 1) && o.events[ran + 2] == Unlocked
            && o.transport == Transport(t.seqHigh + 1, false, false, t.written + [(t.seqHigh + 1, o.events[ran].pkt)]))
        || (&& |o.events| == ran + 1 && o.events[ran] == Unlocked
            && o.transport == t.(held := false)))
  }

  lemma {:induction false} LockedEndsOnce<S>(leaves: seq<Middleware<S>>, s: S, t: Transport, pkt: Packet)
    returns (ran: nat)
    ensures EndsOnce(RunLocked(leaves, s, t, pkt), t, ran)
    decreases |leaves|
  {
    var o := RunLocked(leaves, s, t, pkt);
    if leaves == [] || !leaves[0].Handlers? {
      ran := 0;
    } else if leaves[0].processLocked.None? {
      ran := LockedEndsOnce(leaves[1..], s, t, pkt);
    } else {
      var v := leaves[0].processLocked.value(s, t, pkt);
      if v.Drop? {
        ran := 1;
      } else {
        var rest := RunLocked(leaves[1..], v.state, t, v.pkt);
        ran := LockedEndsOnce(leaves[1..], v.state, t, v.pkt);
        assert o.events[1..] == rest.events;
        assert o.events[..ran + 1] == [o.events[0]] + rest.events[..ran];
        ran := ran + 1;
      }
    }
  }

  /** A write locks once, after all its unlocked handlers and before all its locked ones, and its
      last event is the one unlock: after one commit of one frame with the next sequence number, or,
      when a handler dropped the packet, with the transport as it was. */
  lemma WriteLocksOnce<S>(w: Writers<S>, s: S, t: Transport, pkt: Packet)
    returns (before: nat, rest: Outcome<S>, ran: nat)
    requires Ends(w) && !t.held
    ensures var o := Write(w, s, t, pkt);
            && o == rest.(events := o.events) && before < |o.events|
            && AllRan(o.events[..before], false) && o.events[before] == Locked
            && o.events[before + 1..] == rest.events && EndsOnce(rest, t.(held := true), ran)
            && !o.transport.held
  {
    WriteIsFlat(w, s, t, pkt);
    var u := RunUnlocked(Flatten(w), s, pkt);
    UnlockedOnlyRuns(Flatten(w), s, pkt);
    rest := RunLocked(Flatten(w), u.1, t.(held := true), u.2);
    ran := LockedEndsOnce(Flatten(w), u.1, t.(held := true), u.2);
    before := |u.0|;
    var o := Write(w, s, t, pkt);
    assert o.events == u.0 + [Locked] + rest.events;
  }

  // ----- Writer objects -------------------------------------------------------------------------------------

  /** Pushing onto a writer and wrapping it come to the same write. */
  lemma PushIsWrap<S>(m: Middleware<S>, action: Middleware<S>, below: Writers<S>, s: S, t: Transport, pkt: Packet)
    requires Ends(Node(action, below)) && !t.held
    ensures Write(Node(Compose(m, action), below), s, t, pkt) == Write(Node(m, Node(action, below)), s, t, pkt)
  {
    FlattenCompose(m, action, below);
    SameLeavesSameWrite(Node(Compose(m, action), below), Node(m, Node(action, below)), s, t, pkt);
  }

  class Writer<!S> {
    var action: Middleware<S>
    var next: Writer?<S>
    ghost var below: set<object>

    ghost predicate Valid()
      reads this, below
      decreases below
    {
      && this !in below
      && (next != null ==> next in below && next.below < below && next.Valid())
    }

    /** The writer and those below it. */
    function Chain(): Writers<S>
      requires Valid()
      reads this, below
      decreases below
    {
      Node(action, if next == null then Nil else next.Chain())
    }

    /** a0_writer_init: a writer of its own arena. */
    constructor Init()
      ensures Valid() && Chain() == Node(WriteAction, Nil) && Ends(Chain()) && fresh(this)
    {
      action, next, below := WriteAction, null, {};
    }

    /** a0_writer_wrap: the old writer stays usable and is what the new one passes on to. */
    constructor Wrap(writer: Writer<S>, m: Middleware<S>)
      requires writer.Valid() && Ends(writer.Chain())
      ensures Valid() && Chain() == Node(m, writer.Chain()) && Ends(Chain()) && fresh(this)
    {
      action, next, below := m, writer, writer.below + {writer};
    }

    /** a0_writer_push. */
    method Push(m: Middleware<S>)
      requires Valid() && Ends(Chain())
      modifies this`action
      ensures Valid() && Ends(Chain()) && Chain() == Node(Compose(m, old(Chain()).action), old(Chain()).next)
    {
      action := Compose(m, action);
    }

    /** a0_writer_write: the leaves of the whole chain, flattened. */
    method WritePacket(s: S, t: Transport, pkt: Packet) returns (o: Outcome<S>)
      requires Valid() && Ends(Chain()) && !t.held
      ensures o == FlatWrite(Flatten(Chain()), s, t, pkt)
    {
      WriteIsFlat(Chain(), s, t, pkt);
      o := Write(Chain(), s, t, pkt);
    }
  }

  // ----- Provided middleware ------------------------------------------------------------------------------------

  /** Puts one header in a block of its own before the others. */
  function WithHeader(pkt: Packet, h: Header): (r: Packet)
    ensures HeadersOf(r) == [h] + HeadersOf(pkt) && r.id == pkt.id && r.payload == pkt.payload
  {
    pkt.(blocks := Block([h], pkt.blocks))
  }

  /** A header whose text does not depend on anything kept: the writer's id, and the time of day. */
  function AddHeader(name: nat, h: Header): Middleware<nat> {
    Handlers(name, Some((s: nat, pkt: Packet) => (s, WithHeader(pkt, h))), None)
  }

  /** The monotonic time, read under the lock. */
  function AddLockedHeader(name: nat, h: Header): Middleware<nat> {
    Handlers(name, None, Some((s: nat, t: Transport, pkt: Packet) => Pass(s, WithHeader(pkt, h))))
  }

  /** The writer's own count of packets, which wraps around with its word. */
  function AddWriterSeq(name: nat, key: seq<byte>): Middleware<nat> {
    Handlers(name, Some((s: nat, pkt: Packet) => ((s + 1) % WORD_LIMIT, WithHeader(pkt, Header(key, Decimal(s))))), None)
  }

  /** The sequence number the transport has reached so far. */
  function AddTransportSeq(name: nat, key: seq<byte>): Middleware<nat> {
    Handlers(name, None,
             Some((s: nat, t: Transport, pkt: Packet) => Pass(s, WithHeader(pkt, Header(key, Decimal(t.seqHigh))))))
  }

  /** Drops the packet unless the transport is empty. */
  function WriteIfEmpty<S>(name: nat, note: (S, bool) -> S): Middleware<S> {
    Handlers(name, None,
             Some((s: S, t: Transport, pkt: Packet) =>
                    if t.empty then Pass(note(s, true), pkt) else Drop(note(s, false))))
  }

  /** write_if_empty on a writer: one write on an empty transport; otherwise the lock is taken and
      given back once and nothing is written. */
  lemma WriteIfEmptyWrites<S>(name: nat, note: (S, bool) -> S, s: S, t: Transport, pkt: Packet)
    requires !t.held
    ensures var w := Node(WriteIfEmpty(name, note), Node(WriteAction, Nil));
            Write(w, s, t, pkt) ==
              if t.empty then
                Outcome([Locked, Ran(name, true), Serialized(pkt), Committed(t.seqHigh + 1), Unlocked], note(s, true),
                        Transport(t.seqHigh + 1, false, false, t.written + [(t.seqHigh + 1, pkt)]))
              else
                Outcome([Locked, Ran(name, true), Unlocked], note(s, false), t)
  {
    var drop, held := WriteIfEmpty(name, note), t.(held := true);
    var w := Node(drop, Node(WriteAction, Nil));
    WriteIsFlat(w, s, t, pkt);
    var leaves := Flatten(w);
    assert Flatten(Node(WriteAction, Writers<S>.Nil)) == [WriteAction];
    assert leaves == [drop, WriteAction] && leaves[1..] == [WriteAction];
    assert RunUnlocked(leaves, s, pkt) == RunUnlocked(leaves[1..], s, pkt) == ([], s, pkt);
    var locked := RunLocked(leaves, s, held, pkt);
    if t.empty {
      assert locked == Before([Ran(name, true)], RunLocked(leaves[1..], note(s, true), held, pkt));
      assert RunLocked(leaves[1..], note(s, true), held, pkt) == WriteLocked(note(s, true), held, pkt);
    } else {
      assert locked == Outcome([Ran(name, true), Unlocked], note(s, false), t);
    }
  }

  // ----- The sequence number header ---------------------------------------------------------------------------------

  /** A locked handler that only adds headers. */
  ghost predicate OnlyAdds<S(!new)>(m: Middleware<S>) {
    m.Handlers? && (m.processLocked.Some? ==>
      forall s: S, t: Transport, pkt: Packet :: var v := m.processLocked.value(s, t, pkt);
        v.Pass? ==> forall h :: h in HeadersOf(pkt) ==> h in HeadersOf(v.pkt))
  }

  /** The outcome wrote a packet that has the header `h`. */
  predicate WroteWith<S>(o: Outcome<S>, t: Transport, h: Header) {
    o.transport.written != t.written ==>
      && |o.transport.written| == |t.written| + 1
      && o.transport.written[|t.written|].0 == t.seqHigh + 1
      && h in HeadersOf(o.transport.written[|t.written|].1)
  }

  lemma {:induction false} HeaderStays<S(!new)>(leaves: seq<Middleware<S>>, s: S, t: Transport, pkt: Packet, h: Header)
    requires h in HeadersOf(pkt)
    requires forall i :: 0 <= i < |leaves| && leaves[i].Handlers? ==> OnlyAdds(leaves[i])
    ensures WroteWith(RunLocked(leaves, s, t, pkt), t, h)
    decreases |leaves|
  {
    if leaves != [] && leaves[0].Handlers? {
      if leaves[0].processLocked.None? {
        HeaderStays(leaves[1..], s, t, pkt, h);
      } else {
        assert OnlyAdds(leaves[0]);
        var v := leaves[0].processLocked.value(s, t, pkt);
        if v.Pass? {
          HeaderStays(leaves[1..], v.state, t, v.pkt, h);
        }
      }
    }
  }

  lemma {:induction false} SeqHeaderFrom<S(!new)>(leaves: seq<Middleware<S>>, at: nat, s: S, t: Transport, pkt: Packet,
                                                  key: seq<byte>)
    requires at < |leaves| && forall i :: 0 <= i < at ==> leaves[i].Handlers?
    requires IsSeqHeader(leaves[at], key)
    requires forall i :: at < i < |leaves| && leaves[i].Handlers? ==> OnlyAdds(leaves[i])
    ensures WroteWith(RunLocked(leaves, s, t, pkt), t, Header(key, Decimal(t.seqHigh)))
    decreases at
  {
    if leaves[0].processLocked.Some? {
      var v := leaves[0].processLocked.value(s, t, pkt);
      if at == 0 {
        HeaderStays(leaves[1..], v.state, t, v.pkt, Header(key, Decimal(t.seqHigh)));
      } else if v.Pass? {
        SeqHeaderFrom(leaves[1..], at - 1, v.state, t, v.pkt, key);
      }
    } else {
      SeqHeaderFrom(leaves[1..], at - 1, s, t, pkt, key);
    }
  }

  /** Middleware that adds the transport's sequence number, whatever it keeps. */
  ghost predicate IsSeqHeader<S(!new)>(m: Middleware<S>, key: seq<byte>) {
    m.Handlers? && m.processLocked.Some? &&
    forall s: S, t: Transport, pkt: Packet ::
      m.processLocked.value(s, t, pkt) == Pass(s, WithHeader(pkt, Header(key, Decimal(t.seqHigh))))
  }

  /** The sequence number middleware stands at `at`, with any middleware before it and only
      header-adding middleware after it. */
  ghost predicate SeqHeaderAt<S(!new)>(leaves: seq<Middleware<S>>, at: nat, key: seq<byte>) {
    && at < |leaves| && (forall i :: 0 <= i < at ==> leaves[i].Handlers?)
    && IsSeqHeader(leaves[at], key)
    && forall i :: at < i < |leaves| && leaves[i].Handlers? ==> OnlyAdds(leaves[i])
  }

  /** Wherever the sequence number middleware stands, every frame that gets written carries the number
      one below its own. */
  lemma SeqHeaderIsOneLess<S(!new)>(w: Writers<S>, at: nat, s: S, t: Transport, pkt: Packet, key: seq<byte>)
    requires Ends(w) && !t.held
    requires SeqHeaderAt(Flatten(w), at, key)
    ensures WroteWith(Write(w, s, t, pkt), t, Header(key, Decimal(t.seqHigh)))
  {
    WriteIsFlat(w, s, t, pkt);
    var u := RunUnlocked(Flatten(w), s, pkt);
    SeqHeaderFrom(Flatten(w), at, u.1, t.(held := true), u.2, key);
  }

  // ----- a0_add_standard_headers --------------------------------------------------------------------------------------

  function Ascii(s: string): (b: seq<byte>)
    requires forall i :: 0 <= i < |s| ==> s[i] < 128 as char
    ensures |b| == |s|
  {
    seq(|s|, i requires 0 <= i < |s| => s[i] as int)
  }

  /** The tree of a0_add_standard_headers, for the texts its handlers put in. */
  function StandardHeaders(mono: seq<byte>, wall: seq<byte>, id: seq<byte>): Middleware<nat> {
    Compose(
      Compose(
        Compose(
          Compose(AddLockedHeader(0, Header(Ascii("a0_time_mono"), mono)), AddHeader(1, Header(Ascii("a0_time_wall"), wall))),
          AddHeader(2, Header(Ascii("a0_writer_id"), id))),
        AddWriterSeq(3, Ascii("a0_writer_seq"))),
      AddTransportSeq(4, Ascii("a0_transport_seq")))
  }

  /** What the standard headers come to: the locked ones are added last, so they come first. */
  lemma StandardHeadersWrite(mono: seq<byte>, wall: seq<byte>, id: seq<byte>, count: nat, t: Transport, pkt: Packet)
    requires !t.held
    ensures var o := Write(Node(StandardHeaders(mono, wall, id), Node(WriteAction, Nil)), count, t, pkt);
            && |o.transport.written| == |t.written| + 1
            && o.state == (count + 1) % WORD_LIMIT
            && o.transport.written[|t.written|].0 == t.seqHigh + 1
            && HeadersOf(o.transport.written[|t.written|].1) ==
                 [Header(Ascii("a0_transport_seq"), Decimal(t.seqHigh)), Header(Ascii("a0_time_mono"), mono),
                  Header(Ascii("a0_writer_seq"), Decimal(count)), Header(Ascii("a0_writer_id"), id),
                  Header(Ascii("a0_time_wall"), wall)] + HeadersOf(pkt)
  {
    hide RunUnlocked, RunLocked, Write, Flatten, Leaves, Ascii, Decimal, Headers;
    var h0, h1, h2 := Header(Ascii("a0_time_mono"), mono), Header(Ascii("a0_time_wall"), wall), Header(Ascii("a0_writer_id"), id);
    var k3, k4 := Ascii("a0_writer_seq"), Ascii("a0_transport_seq");
    WriteIsFlat(Node(StandardHeaders(mono, wall, id), Node(WriteAction, Nil)), count, t, pkt);
    StandardLeaves(AddLockedHeader(0, h0), AddHeader(1, h1), AddHeader(2, h2), AddWriterSeq(3, k3), AddTransportSeq(4, k4));
    StandardUnlocked(h0, h1, h2, k3, k4, count, pkt);
    var p3 := WithHeader(WithHeader(WithHeader(pkt, h1), h2), Header(k3, Decimal(count)));
    StandardLocked(h0, h1, h2, k3, k4, (count + 1) % WORD_LIMIT, t.(held := true), p3);
  }

  function StandardList(h0: Header, h1: Header, h2: Header, k3: seq<byte>, k4: seq<byte>): seq<Middleware<nat>> {
    [AddLockedHeader(0, h0)] + ([AddHeader(1, h1)] + ([AddHeader(2, h2)] + ([AddWriterSeq(3, k3)]
      + ([AddTransportSeq(4, k4)] + [WriteAction]))))
  }

  lemma StandardUnlocked(h0: Header, h1: Header, h2: Header, k3: seq<byte>, k4: seq<byte>, count: nat, pkt: Packet)
    ensures var u := RunUnlocked(StandardList(h0, h1, h2, k3, k4), count, pkt);
            && u.1 == (count + 1) % WORD_LIMIT
            && u.2 == WithHeader(WithHeader(WithHeader(pkt, h1), h2), Header(k3, Decimal(count)))
  {
    hide RunUnlocked, Decimal, Headers;
    var p1 := WithHeader(pkt, h1);
    var p2 := WithHeader(p1, h2);
    var p3 := WithHeader(p2, Header(k3, Decimal(count)));
    var n: nat := (count + 1) % WORD_LIMIT;
    var l5: seq<Middleware<nat>> := [WriteAction];
    var l4 := [AddTransportSeq(4, k4)] + l5;
    var l3 := [AddWriterSeq(3, k3)] + l4;
    var l2 := [AddHeader(2, h2)] + l3;
    UnlockedStep(AddLockedHeader(0, h0), [AddHeader(1, h1)] + l2, count, pkt);
    UnlockedStep(AddHeader(1, h1), l2, count, pkt);
    UnlockedStep(AddHeader(2, h2), l3, count, p1);
    UnlockedStep(AddWriterSeq(3, k3), l4, count, p2);
    UnlockedStep(AddTransportSeq(4, k4), l5, n, p3);
    UnlockedEnd(n, p3);
  }

  lemma StandardLocked(h0: Header, h1: Header, h2: Header, k3: seq<byte>, k4: seq<byte>, n: nat, t: Transport, pkt: Packet)
    ensures var o := RunLocked(StandardList(h0, h1, h2, k3, k4), n, t, pkt);
            var p := WithHeader(WithHeader(pkt, h0), Header(k4, Decimal(t.seqHigh)));
            o.state == n && o.transport == Transport(t.seqHigh + 1, false, false, t.written + [(t.seqHigh + 1, p)])
  {
    hide RunLocked, Decimal, Headers;
    var p4 := WithHeader(pkt, h0);
    var l5: seq<Middleware<nat>> := [WriteAction];
    var l4 := [AddTransportSeq(4, k4)] + l5;
    var l3 := [AddWriterSeq(3, k3)] + l4;
    var l2 := [AddHeader(2, h2)] + l3;
    LockedStep(AddLockedHeader(0, h0), [AddHeader(1, h1)] + l2, n, t, pkt);
    LockedStep(AddHeader(1, h1), l2, n, t, p4);
    LockedStep(AddHeader(2, h2), l3, n, t, p4);
    LockedStep(AddWriterSeq(3, k3), l4, n, t, p4);
    LockedStep(AddTransportSeq(4, k4), l5, n, t, p4);
    LockedEnd(n, t, WithHeader(p4, Header(k4, Decimal(t.seqHigh))));
  }

  lemma UnlockedStep<S>(m: Middleware<S>, rest: seq<Middleware<S>>, s: S, pkt: Packet)
    requires m.Handlers?
    ensures var o := RunUnlocked([m] + rest, s, pkt);
            if m.process.None? then o == RunUnlocked(rest, s, pkt)
            else
              var r := m.process.value(s, pkt); var o' := RunUnlocked(rest, r.0, r.1);
              o.1 == o'.1 && o.2 == o'.2
  {
  }

  lemma UnlockedEnd<S>(s: S, pkt: Packet)
    ensures var o := RunUnlocked([WriteAction], s, pkt); o.1 == s && o.2 == pkt
  {
  }

  lemma LockedStep<S>(m: Middleware<S>, rest: seq<Middleware<S>>, s: S, t: Transport, pkt: Packet)
    requires m.Handlers? && (m.processLocked.Some? ==> m.processLocked.value(s, t, pkt).Pass?)
    ensures var o := RunLocked([m] + rest, s, t, pkt);
            if m.processLocked.None? then o == RunLocked(rest, s, t, pkt)
            else
              var v := m.processLocked.value(s, t, pkt); var o' := RunLocked(rest, v.state, t, v.pkt);
              o.state == o'.state && o.transport == o'.transport
  {
  }

  lemma LockedEnd<S>(s: S, t: Transport, pkt: Packet)
    ensures var o := RunLocked([WriteAction], s, t, pkt);
            o.state == s && o.transport == Transport(t.seqHigh + 1, false, false, t.written + [(t.seqHigh + 1, pkt)])
  {
  }

  lemma StandardLeaves<S>(m0: Middleware<S>, m1: Middleware<S>, m2: Middleware<S>, m3: Middleware<S>, m4: Middleware<S>)
    requires m0.Handlers? && m1.Handlers? && m2.Handlers? && m3.Handlers? && m4.Handlers?
    ensures Flatten(Node(Compose(Compose(Compose(Compose(m0, m1), m2), m3), m4), Node(WriteAction, Nil)))
         == [m0] + ([m1] + ([m2] + ([m3] + ([m4] + [WriteAction]))))
  {
    hide Leaves;
    var c1 := Compose(m0, m1);
    var c2 := Compose(c1, m2);
    var c3 := Compose(c2, m3);
    LeavesOfPair(m0, m1);
    LeavesOfPair(c1, m2);
    LeavesOfPair(c2, m3);
    LeavesOfPair(c3, m4);
    LeafAlone(m0);
    LeafAlone(m1);
    LeafAlone(m2);
    LeafAlone(m3);
    LeafAlone(m4);
    LeafAlone(Middleware<S>.WriteAction);
    assert Flatten(Node(WriteAction, Writers<S>.Nil)) == [WriteAction];
  }

  lemma LeavesOfPair<S>(a: Middleware<S>, b: Middleware<S>)
    ensures Leaves(Compose(a, b)) == Leaves(a) + Leaves(b)
  {
  }

  lemma LeafAlone<S>(m: Middleware<S>)
    requires !m.Compose?
    ensures Leaves(m) == [m]
  {
  }
}

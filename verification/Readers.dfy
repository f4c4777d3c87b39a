/** Readers of a transport that other processes keep writing to. */
module Readers {
  import opened Bytes
  import opened Frames
  import opened Errors
  import opened Transport
  import opened Cursors

  datatype Init = Oldest | MostRecent | AwaitNew
  datatype Iter = Next | Newest

  /** What another process does in one session. */
  datatype Foreign = Write(data: seq<byte>) | Clear

  /** What a waiting reader waits for. */
  datatype Condition = NonEmpty | HasNext

  predicate Holds(c: Condition, v: View, num: nat) {
    v.frames != [] && (c.HasNext? ==> num < v.high)
  }

  predicate Increasing(s: seq<nat>) {
    forall i, j :: 0 <= i < j < |s| ==> s[i] < s[j]
  }

  /** The number a reader at `num` steps to. */
  function Stepped(v: View, iter: Iter, num: nat): nat
    requires |v.frames| <= v.high
  {
    if iter.Newest? then v.high
    else if num + 1 >= Low(v) then num + 1
    else Low(v)
  }

  /** A step to the next number skips only frames that are gone, and a step to the newest
      leaves nothing newer behind. */
  lemma SteppedSkipsNothingLive(v: View, iter: Iter, num: nat)
    requires WellNumbered(v) && v.frames != [] && num < v.high
    ensures num < Stepped(v, iter, num) && Low(v) <= Stepped(v, iter, num) <= v.high
    ensures iter.Next? ==> forall f :: f in v.frames && num < f.num ==> Stepped(v, iter, num) <= f.num
    ensures iter.Newest? ==> forall f :: f in v.frames ==> f.num <= Stepped(v, iter, num)
  {
  }

  lemma SteppedMeans(v: View, iter: Iter, num: nat)
    requires WellNumbered(v)
    ensures iter.Newest? ==> Stepped(v, iter, num) == v.high
    ensures iter.Next? ==> num < Stepped(v, iter, num) || Stepped(v, iter, num) == Low(v)
    ensures iter.Next? ==> forall f :: f in v.frames && num < f.num ==> Stepped(v, iter, num) <= f.num
  {
  }

  /** Where a read lands: a reader that has delivered, or that only wants new frames, must
      step; another one stays where it was placed while that frame is live. */
  function Target(v: View, settled: bool, iter: Iter, num: nat): nat
    requires |v.frames| <= v.high
  {
    if settled || num < Low(v) then Stepped(v, iter, num) else num
  }

  /** In plain words: a reader with its frame still live and not told to move on stays on it; any other
      lands on the least live number above its own, or on the highest. */
  lemma TargetMeans(v: View, settled: bool, iter: Iter, num: nat)
    requires WellNumbered(v) && v.frames != [] && num <= v.high && (settled ==> num < v.high)
    ensures !settled && num + |v.frames| > v.high ==> Target(v, settled, iter, num) == num
    ensures settled || num + |v.frames| <= v.high ==>
      var n := Target(v, settled, iter, num);
      if iter.Newest? then n == v.high
      else num < n && forall f :: f in v.frames && num < f.num ==> n <= f.num
  {
    if num < v.high {
      SteppedSkipsNothingLive(v, iter, num);
    }
  }

  // ----- What other processes do -------------------------------------------------------

  /** What one session of another process leaves of the queue. A write that does not fit leaves it
      as it was. */
  function Session(v: View, op: Foreign, arenaSize: nat): View {
    match op
    case Write(data) =>
      var size := FRAME_HDR + |data|;
      if Fits(v.frames, arenaSize, size) then
        var off := SlotFor(v.frames, arenaSize, size);
        View(v.high + 1, v.frames[Evictions(v.frames, off, size)..] + [Frame(v.high + 1, off, data)])
      else v
    case Clear => View(v.high, [])
  }

  /** In plain words: a clear leaves nothing; a write larger than the workspace leaves everything; any other
      write leaves some of the newest frames and its own data under the next number. */
  lemma SessionMeans(v: View, op: Foreign, arenaSize: nat)
    requires Placed(v.frames, arenaSize)
    ensures var v' := Session(v, op, arenaSize);
            match op
            case Clear => v' == View(v.high, [])
            case Write(data) =>
              if WORKSPACE + FRAME_HDR + |data| > arenaSize then v' == v
              else
                && v'.high == v.high + 1 && 1 <= |v'.frames| <= |v.frames| + 1
                && Last(v'.frames).num == v'.high && Last(v'.frames).data == data
                && v'.frames[..|v'.frames| - 1] == v.frames[|v.frames| + 1 - |v'.frames|..]
  {
    hide SlotFor, Evictions;
    if op.Write? {
      FitsBySize(v.frames, arenaSize, FRAME_HDR + |op.data|);
    }
  }

  function Run(v: View, ops: seq<Foreign>, arenaSize: nat): View {
    if ops == [] then v else Session(Run(v, ops[..|ops| - 1], arenaSize), ops[|ops| - 1], arenaSize)
  }

  /** Sessions one after the other. */
  lemma {:induction false} RunJoins(v: View, ops1: seq<Foreign>, ops2: seq<Foreign>, arenaSize: nat)
    ensures Run(v, ops1 + ops2, arenaSize) == Run(Run(v, ops1, arenaSize), ops2, arenaSize)
    ensures Run(v, [], arenaSize) == v
    ensures forall op :: Run(v, [op], arenaSize) == Session(v, op, arenaSize)
    decreases |ops2|
  {
    hide Session;
    if ops2 == [] {
      assert ops1 + ops2 == ops1;
    } else {
      var front := ops2[..|ops2| - 1];
      RunJoins(v, ops1, front, arenaSize);
      assert (ops1 + ops2)[..|ops1 + ops2| - 1] == ops1 + front;
    }
    forall op
      ensures Run(v, [op], arenaSize) == Session(v, op, arenaSize)
    {
      assert [op][..0] == [];
    }
  }

  /** A cursor with a next frame keeps one over any number of completed writes, also of writes that
      were too large. Only a clear can take it away. */
  lemma {:induction false} HasNextKept(v: View, ops: seq<Foreign>, arenaSize: nat, num: nat)
    requires Holds(HasNext, v, num)
    requires forall i :: 0 <= i < |ops| ==> ops[i].Write?
    ensures Holds(HasNext, Run(v, ops, arenaSize), num)
    decreases |ops|
  {
    if ops != [] {
      HasNextKept(v, ops[..|ops| - 1], arenaSize, num);
    }
  }

  /** After a clear no cursor has a next frame, until a write that fits. */
  lemma HasNextAfterClear(v: View, ops: seq<Foreign>, arenaSize: nat, num: nat)
    requires ops != [] && ops[|ops| - 1].Clear?
    ensures !Holds(HasNext, Run(v, ops, arenaSize), num)
  {
  }

  /** A run of another process, from its lock to its unlock. */
  method Apply(arena: Arena, op: Foreign)
    requires arena.Consistent() && arena.CommittedHigh() + 1 < WORD_LIMIT
    modifies arena, arena.buf
    ensures arena.Valid() && arena.pending == [] && old(arena.trace) <= arena.trace
    ensures arena.CommittedHigh() <= old(arena.CommittedHigh()) + 1 && arena.arenaSize == old(arena.arenaSize)
    ensures Transport.View(arena.CommittedHigh(), arena.queue)
         == Session(old(Transport.View(arena.CommittedHigh(), arena.queue)), op, arena.arenaSize)
  {
    hide Transport.Arena.Valid, Transport.Arena.Consistent, Transport.Arena.CommittedHigh;
    hide Transport.Arena.WorkingHigh, Evictions, SlotFor, Fits;
    match op
    case Write(data) =>
      var r, k := arena.Write(data);
    case Clear =>
      arena.Lock();
      arena.Clear();
      arena.Unlock();
  }

  // ----- Sessions -------------------------------------------------------------------

  /** The cursor of `h` was sane in the last state of `seen`, since when others may have
      run. */
  ghost predicate Follows(h: Handle, seen: seq<Entry>)
    reads h, h.arena, h.arena.buf
  {
    && h.arena.Consistent()
    && seen != [] && seen <= h.arena.trace
    && Sane(LastView(seen), h.num, h.off)
  }

  lemma CatchUp(h: Handle, seen: seq<Entry>)
    requires Follows(h, seen)
    ensures Sane(h.Committed(), h.num, h.off)
    ensures Extends(LastView(seen), h.Committed())
  {
    hide Describes, Extends, Sane;
    var t := h.arena.trace;
    assert t[|seen| - 1] == seen[|seen| - 1];
    ChronicleExtends(t, |seen| - 1, |t| - 1);
    EntryWellNumbered(t[|t| - 1]);
    CursorKept(LastView(seen), LastView(t), h.num, h.off);
  }

  /** Takes the lock. */
  method Enter(h: Handle, ghost seen: seq<Entry>)
    requires Follows(h, seen)
    modifies h.arena
    ensures h.Valid() && h.arena.pending == [] && old(h.arena.trace) <= h.arena.trace
    ensures h.View() == old(h.Committed()) == h.Committed() && h.arena.arenaSize == old(h.arena.arenaSize)
    ensures Extends(LastView(seen), h.View())
  {
    hide Transport.Arena.Valid, Transport.Arena.Consistent, Extends, ViewOf;
    CatchUp(h, seen);
    h.arena.Lock();
    assert h.arena.Working() == h.arena.queue;
  }

  /** Releases the lock. */
  method Leave(h: Handle)
    requires h.Valid() && h.arena.pending == []
    modifies h.arena
    ensures Follows(h, h.arena.trace) && old(h.arena.trace) <= h.arena.trace
    ensures LastView(h.arena.trace) == old(h.View()) == h.Committed()
    ensures h.arena.arenaSize == old(h.arena.arenaSize)
  {
    hide Describes, Chronicle, Extends;
    assert h.arena.Working() == h.arena.queue;
    h.arena.Unlock();
  }

  /** Releases the lock for the sessions of other processes and takes it again. */
  method Yield(h: Handle, ops: seq<Foreign>)
    requires h.Valid() && h.arena.pending == [] && h.View().high + |ops| < WORD_LIMIT
    modifies h.arena, h.arena.buf
    ensures h.Valid() && h.arena.pending == [] && old(h.arena.trace) <= h.arena.trace
    ensures Extends(old(h.View()), h.View()) && h.View().high <= old(h.View().high) + |ops|
    ensures h.View() == Run(old(h.View()), ops, h.arena.arenaSize) && h.arena.arenaSize == old(h.arena.arenaSize)
    ensures old(Holds(HasNext, h.View(), h.num)) && (forall i :: 0 <= i < |ops| ==> ops[i].Write?) ==>
              Holds(HasNext, h.View(), h.num)
  {
    hide Transport.Arena.Valid, Transport.Arena.Consistent, Extends, LastView, Sane, Session;
    ghost var v, size := h.View(), h.arena.arenaSize;
    Leave(h);
    ghost var t := h.arena.trace;
    var i := 0;
    while i < |ops|
      invariant 0 <= i <= |ops| && Follows(h, t) && t <= h.arena.trace
      invariant h.Committed() == Run(v, ops[..i], size) && h.arena.arenaSize == size
      invariant h.Committed().high <= v.high + i
    {
      Apply(h.arena, ops[i]);
      Resumed(h, t);
      i := i + 1;
      assert ops[..i][..i - 1] == ops[..i - 1];
    }
    assert ops[..i] == ops;
    Enter(h, t);
    if Holds(HasNext, v, h.num) && forall k :: 0 <= k < |ops| ==> ops[k].Write? {
      HasNextKept(v, ops, size, h.num);
    }
  }

  // ----- Waiting ----------------------------------------------------------------------------

  /** What a waiter finds when it has the lock: the sessions that ran since its last look, whether its
      deadline has passed, and whether its own transport is being shut down. */
  datatype Look = Look(ops: seq<Foreign>, late: bool, shutdown: bool)

  datatype WaitEnd = Met | OutOfTime | Stopped

  /** The looks of one wait, from the one on entry to one that ends it whatever the condition. */
  predicate IsWait(looks: seq<Look>) {
    looks != [] && looks[0].ops == [] && Final(looks[|looks| - 1])
  }

  predicate Final(l: Look) {
    l.late || l.shutdown
  }

  function Sessions(looks: seq<Look>): nat {
    if looks == [] then 0 else |looks[0].ops| + Sessions(looks[1..])
  }

  /** How a look ends the wait, if it does. The deadline comes before the condition; the shutdown
      comes before both on entry, and later it comes between them. */
  function EndAt(entry: bool, l: Look, holds: bool): Option<WaitEnd> {
    if entry && l.shutdown then Some(Stopped)
    else if l.late then Some(OutOfTime)
    else if l.shutdown then Some(Stopped)
    else if holds then Some(Met)
    else None
  }

  /** The end of a wait and the view it ends with. */
  function Waits(c: Condition, num: nat, arenaSize: nat, v: View, looks: seq<Look>, entry: bool): (WaitEnd, View)
    requires looks != [] && Final(looks[|looks| - 1])
    decreases |looks|
  {
    var v' := Run(v, looks[0].ops, arenaSize);
    var end := EndAt(entry, looks[0], Holds(c, v', num));
    if end.Some? then (end.value, v') else Waits(c, num, arenaSize, v', looks[1..], false)
  }

  /** The view at look `i`. */
  function ViewAt(v: View, looks: seq<Look>, i: nat, arenaSize: nat): View
    requires i < |looks|
  {
    Run(if i == 0 then v else ViewAt(v, looks, i - 1, arenaSize), looks[i].ops, arenaSize)
  }

  /** The first look that is late, sees the shutdown or finds the condition ends the wait: so a wait
      succeeds exactly when the condition holds at some look and the deadline has passed, and the
      shutdown begun, at none up to it. */
  lemma {:induction false} WaitEndsAtFirst(c: Condition, num: nat, arenaSize: nat, v: View, looks: seq<Look>, entry: bool)
    returns (n: nat)
    requires looks != [] && Final(looks[|looks| - 1])
    ensures n < |looks|
    ensures forall i :: 0 <= i < n ==> !Final(looks[i]) && !Holds(c, ViewAt(v, looks, i, arenaSize), num)
    ensures var end := Waits(c, num, arenaSize, v, looks, entry);
            && end.1 == ViewAt(v, looks, n, arenaSize)
            && (end.0.Met? <==> !looks[n].late && !looks[n].shutdown)
            && (end.0.OutOfTime? <==> looks[n].late && !(looks[n].shutdown && entry && n == 0))
            && (end.0.Stopped? <==> looks[n].shutdown && (!looks[n].late || (entry && n == 0)))
            && (end.0.Met? ==> Holds(c, end.1, num))
    decreases |looks|
  {
    hide Run, Holds;
    var v' := Run(v, looks[0].ops, arenaSize);
    if EndAt(entry, looks[0], Holds(c, v', num)).Some? {
      n := 0;
    } else {
      var m := WaitEndsAtFirst(c, num, arenaSize, v', looks[1..], false);
      n := m + 1;
      forall i | 0 <= i < |looks| - 1
        ensures ViewAt(v', looks[1..], i, arenaSize) == ViewAt(v, looks, i + 1, arenaSize)
      {
        ViewAtLater(v, looks, i, arenaSize);
      }
    }
  }

  /** A waiter in time gets what comes: when nobody runs for `n` looks and then another process writes a frame
      that fits, the wait ends with that write, whatever was waited for. */
  lemma {:induction false} WriteEndsWait(c: Condition, num: nat, arenaSize: nat, v: View, looks: seq<Look>, entry: bool,
                                         n: nat, data: seq<byte>)
    requires looks != [] && Final(looks[|looks| - 1]) && n < |looks|
    requires (forall i :: 0 <= i < n ==> looks[i] == Look([], false, false))
    requires looks[n] == Look([Write(data)], false, false)
    requires num <= v.high && Placed(v.frames, arenaSize) && WORKSPACE + FRAME_HDR + |data| <= arenaSize
    requires !Holds(c, v, num)
    ensures Waits(c, num, arenaSize, v, looks, entry) == (Met, Session(v, Write(data), arenaSize))
    decreases n
  {
    hide Session, Final;
    RunNothing(v, arenaSize);
    if n == 0 {
      assert looks[0].ops[..0] == [];
      assert Run(v, looks[0].ops, arenaSize) == Session(v, Write(data), arenaSize);
      SessionMeans(v, Write(data), arenaSize);
    } else {
      WriteEndsWait(c, num, arenaSize, v, looks[1..], false, n - 1, data);
    }
  }

  lemma {:induction false} ViewAtLater(v: View, looks: seq<Look>, i: nat, arenaSize: nat)
    requires i + 1 < |looks|
    ensures ViewAt(Run(v, looks[0].ops, arenaSize), looks[1..], i, arenaSize) == ViewAt(v, looks, i + 1, arenaSize)
    decreases i
  {
    if i > 0 {
      ViewAtLater(v, looks, i - 1, arenaSize);
    }
  }

  /** a0_transport_timedwait; without a deadline no look is late. */
  method Wait(h: Handle, c: Condition, looks: seq<Look>) returns (end: WaitEnd)
    requires h.Valid() && h.arena.pending == [] && IsWait(looks)
    requires h.View().high + Sessions(looks) < WORD_LIMIT
    modifies h.arena, h.arena.buf
    ensures h.Valid() && h.arena.pending == [] && old(h.arena.trace) <= h.arena.trace
    ensures Extends(old(h.View()), h.View()) && h.arena.arenaSize == old(h.arena.arenaSize)
    ensures (end, h.View()) == Waits(c, h.num, h.arena.arenaSize, old(h.View()), looks, true)
    ensures end.Met? ==> Holds(c, h.View(), h.num)
    ensures h.View().high <= old(h.View().high) + Sessions(looks)
  {
    hide Extends, Handle.Valid, Transport.Arena.Valid, Run, Session;
    ghost var v0, t0, size := h.View(), h.arena.trace, h.arena.arenaSize;
    ExtendsReflexive(v0);
    RunNothing(v0, size);
    if looks[0].shutdown {
      return Stopped;
    }
    if looks[0].late {
      return OutOfTime;
    }
    var met := Check(h, c);
    if met {
      return Met;
    }
    var i := 1;
    while true
      invariant 1 <= i < |looks| && h.Valid() && h.arena.pending == [] && t0 <= h.arena.trace
      invariant Extends(v0, h.View()) && h.arena.arenaSize == size
      invariant Waits(c, h.num, size, v0, looks, true) == Waits(c, h.num, size, h.View(), looks[i..], false)
      invariant h.View().high + Sessions(looks[i..]) <= v0.high + Sessions(looks)
      decreases |looks| - i
    {
      ghost var v, rest := h.View(), looks[i..];
      assert rest[1..] == looks[i + 1..];
      Yield(h, looks[i].ops);
      ExtendsTransitive(v0, v, h.View());
      if looks[i].late {
        return OutOfTime;
      }
      met := Check(h, c);
      if met || looks[i].shutdown {
        break;
      }
      i := i + 1;
    }
    end := if looks[i].shutdown then Stopped else Met;
  }

  lemma RunNothing(v: View, arenaSize: nat)
    ensures Run(v, [], arenaSize) == v
  {
  }

  method Check(h: Handle, c: Condition) returns (ok: bool)
    requires h.Valid()
    ensures ok <==> Holds(c, h.View(), h.num)
  {
    hide Transport.Arena.Valid;
    match c
    case NonEmpty =>
      ok := h.NonEmpty();
    case HasNext =>
      ok := h.HasNext();
  }

  /** The step of either iteration mode. */
  method StepOn(h: Handle, iter: Iter)
    requires h.Valid() && Holds(HasNext, h.View(), h.num)
    modifies h
    ensures h.Valid() && h.num == old(Stepped(h.View(), iter, h.num))
  {
    hide Transport.Arena.Valid;
    h.PageView();
    if iter.Next? {
      var r := h.StepNext();
    } else {
      var r := h.JumpTail();
    }
  }

  /** A zeroed handle follows any arena. */
  lemma StartSane(h: Handle)
    requires h.arena.Consistent() && h.num == 0
    ensures Follows(h, h.arena.trace)
  {
    EntryWellNumbered(h.arena.trace[|h.arena.trace| - 1]);
  }

  lemma Resumed(h: Handle, t: seq<Entry>)
    requires t != [] && Sane(LastView(t), h.num, h.off)
    requires h.arena.Valid() && t <= h.arena.trace
    ensures Follows(h, t)
  {
  }

  // ----- Blocking reads -----------------------------------------------------------------------

  function EndError(end: WaitEnd): Error {
    if end.OutOfTime? then TimedOut else ShutDown
  }

  /** Whether a reader with a frame before it must still step. */
  predicate NeedsStep(v: View, num: nat, settled: bool) {
    settled || num + |v.frames| <= v.high
  }

  /** The end of a blocking read, and the view it ends with: it waits for any frame, and if it has to
      step, for a newer one. */
  function Blocks(v: View, num: nat, settled: bool, arenaSize: nat, looks1: seq<Look>, looks2: seq<Look>): (WaitEnd, View)
    requires IsWait(looks1) && IsWait(looks2)
  {
    var first := Waits(NonEmpty, num, arenaSize, v, looks1, true);
    if first.0.Met? && NeedsStep(first.1, num, settled) then Waits(HasNext, num, arenaSize, first.1, looks2, true)
    else first
  }

  /** A read times out only when it finds itself late at some look, and is stopped only when it sees the
      shutdown. */
  lemma BlocksEnd(v: View, num: nat, settled: bool, arenaSize: nat, looks1: seq<Look>, looks2: seq<Look>)
    requires IsWait(looks1) && IsWait(looks2)
    ensures var end := Blocks(v, num, settled, arenaSize, looks1, looks2).0;
            && (end.OutOfTime? ==> exists l :: l in looks1 + looks2 && l.late)
            && (end.Stopped? ==> exists l :: l in looks1 + looks2 && l.shutdown)
  {
    hide Waits;
    var first := Waits(NonEmpty, num, arenaSize, v, looks1, true);
    var n := WaitEndsAtFirst(NonEmpty, num, arenaSize, v, looks1, true);
    assert looks1[n] in looks1 + looks2;
    if first.0.Met? {
      var m := WaitEndsAtFirst(HasNext, num, arenaSize, first.1, looks2, true);
      assert looks2[m] in looks1 + looks2;
    }
  }

  /** A transport that is readable when the read begins is read at once, without waiting for anybody,
      exactly when the deadline has not passed, nor the shutdown begun, on entry to each wait. Without
      a deadline and a shutdown that is always. */
  lemma ReadableIsReadInTime(v: View, num: nat, settled: bool, arenaSize: nat, looks1: seq<Look>, looks2: seq<Look>)
    requires IsWait(looks1) && IsWait(looks2)
    requires v.frames != [] && (settled ==> num < v.high)
    ensures var end := Blocks(v, num, settled, arenaSize, looks1, looks2);
            && end.1 == v
            && (end.0.Met? <==>
                  && !looks1[0].late && !looks1[0].shutdown
                  && (settled || num + |v.frames| <= v.high ==> !looks2[0].late && !looks2[0].shutdown))
  {
    RunNothing(v, arenaSize);
  }

  /** Once the deadline has passed, no transport can be read: not even one that is readable. */
  lemma PastDeadlineFails(v: View, num: nat, settled: bool, arenaSize: nat, looks1: seq<Look>, looks2: seq<Look>)
    requires IsWait(looks1) && IsWait(looks2) && looks1[0].late && !looks1[0].shutdown
    ensures Blocks(v, num, settled, arenaSize, looks1, looks2) == (OutOfTime, v)
  {
    RunNothing(v, arenaSize);
  }

  // ----- Synchronous reader ---------------------------------------------------------

  class SyncReader {
    const handle: Handle
    const init: Init
    const iter: Iter
    var firstReadDone: bool

    /** The view when the reader was made. */
    ghost var start: View
    /** The history of the arena up to the reader's last visit. */
    ghost var seen: seq<Entry>
    /** The sequence numbers delivered so far. */
    ghost var delivered: seq<nat>

    /** Survives any number of sessions of other processes. */
    ghost predicate Valid()
      reads this, handle, handle.arena, handle.arena.buf
    {
      && Follows(handle, seen)
      && Extends(start, LastView(seen))
      && Increasing(delivered)
      && (firstReadDone <==> delivered != [])
      && (delivered != [] ==> handle.num == delivered[|delivered| - 1])
      && (init.AwaitNew? ==> forall i :: 0 <= i < |delivered| ==> start.high < delivered[i])
      && (init.AwaitNew? && delivered == [] ==> handle.num == start.high || start.frames == [])
    }

    constructor (arena: Arena, init: Init, iter: Iter)
      requires arena.Consistent()
      modifies arena
      ensures Valid() && fresh(handle) && handle.arena == arena && old(arena.trace) <= arena.trace
      ensures arena.arenaSize == old(arena.arenaSize)
      ensures this.init == init && this.iter == iter
      ensures delivered == [] && start == old(Transport.View(arena.CommittedHigh(), arena.queue)) == handle.Committed()
      ensures handle.num == if start.frames == [] then 0
                            else if init.Oldest? then start.high + 1 - |start.frames| else start.high
    {
      this.handle := new Handle(arena);
      this.init := init;
      this.iter := iter;
      firstReadDone := false;
      start := Transport.View(arena.CommittedHigh(), arena.queue);
      seen := arena.trace;
      delivered := [];
      new;
      hide Describes, Chronicle, Extends;
      StartSane(handle);
      Start();
    }

    method Start()
      requires Follows(handle, seen) && start == handle.Committed() && handle.num == 0
      requires delivered == [] && !firstReadDone
      modifies this`seen, handle, handle.arena
      ensures Valid() && old(handle.arena.trace) <= handle.arena.trace && start == handle.Committed()
      ensures handle.arena.arenaSize == old(handle.arena.arenaSize)
      ensures handle.num == if start.frames == [] then 0
                            else if init.Oldest? then start.high + 1 - |start.frames| else start.high
    {
      hide Transport.Arena.Valid, Transport.Arena.Consistent, Extends, Sane;
      Enter(handle, seen);
      if init.Oldest? {
        var r := handle.JumpHead();
      } else {
        var r := handle.JumpTail();
      }
      Leave(handle);
      seen := handle.arena.trace;
      ExtendsReflexive(start);
    }

    predicate Settled()
      reads this
    {
      firstReadDone || init.AwaitNew?
    }

    /** Whether a read of a transport with view `v` finds a frame to deliver. */
    predicate Readable(v: View)
      reads this, handle
    {
      v.frames != [] && (Settled() ==> handle.num < v.high)
    }

    method CanRead() returns (r: bool)
      requires Valid()
      modifies this`seen, handle.arena
      ensures Valid() && old(handle.arena.trace) <= handle.arena.trace
      ensures handle.Committed() == old(handle.Committed()) && delivered == old(delivered)
      ensures r <==> Readable(handle.Committed())
      ensures r <==> handle.Committed().frames != [] &&
                     (firstReadDone || init.AwaitNew? ==> handle.num < handle.Committed().high)
    {
      hide Transport.Arena.Valid, Transport.Arena.Consistent, Extends, Sane, LastView, Increasing;
      Enter(handle, seen);
      ghost var v := handle.View();
      ExtendsTransitive(start, LastView(seen), v);
      if firstReadDone || init.AwaitNew? {
        r := handle.HasNext();
      } else {
        r := handle.NonEmpty();
      }
      Leave(handle);
      seen := handle.arena.trace;
    }

    /** Moves the cursor to the frame to deliver, if there is one. */
    method Align() returns (ok: bool)
      requires handle.Valid()
      modifies handle
      ensures ok <==> old(Readable(handle.View()))
      ensures !ok ==> handle.Valid() && handle.num == old(handle.num)
      ensures ok ==> handle.Valid() && handle.num == old(Target(handle.View(), Settled(), iter, handle.num))
      ensures ok ==>
        var v, num := handle.View(), old(handle.num);
        if !firstReadDone && !init.AwaitNew? && num + |v.frames| > v.high then handle.num == num
        else if iter.Newest? then handle.num == v.high
        else handle.num == if num + |v.frames| >= v.high then num + 1 else v.high + 1 - |v.frames|
    {
      hide Transport.Arena.Valid;
      handle.PageView();
      var some := handle.NonEmpty();
      if !some {
        return false;
      }
      if firstReadDone || init.AwaitNew? {
        var more := handle.HasNext();
        if !more {
          return false;
        }
      }
      var step := ShouldStep();
      if step {
        StepOn(handle, iter);
      }
      ok := true;
    }

    method ShouldStep() returns (step: bool)
      requires handle.Valid() && handle.View().frames != []
      ensures step <==> Settled() || handle.num < Low(handle.View())
    {
      step := firstReadDone || init.AwaitNew?;
      if !step {
        var valid := handle.IterValid();
        step := !valid;
      }
    }

    /** A frame past everything delivered so far is also past the start of the reader. */
    lemma TargetIsNew(v: View, num: nat)
      requires Extends(start, v) && WellNumbered(v) && v.frames != [] && num <= v.high
      requires Settled() ==> num < v.high
      requires delivered != [] ==> num == delivered[|delivered| - 1]
      requires firstReadDone <==> delivered != []
      requires init.AwaitNew? ==> forall i :: 0 <= i < |delivered| ==> start.high < delivered[i]
      requires init.AwaitNew? && delivered == [] ==> num == start.high || start.frames == []
      ensures Low(v) <= Target(v, Settled(), iter, num) <= v.high
      ensures delivered != [] ==> delivered[|delivered| - 1] < Target(v, Settled(), iter, num)
      ensures init.AwaitNew? ==> start.high < Target(v, Settled(), iter, num)
    {
      var n := Target(v, Settled(), iter, num);
      if num < v.high {
        SteppedSkipsNothingLive(v, iter, num);
      }
      assert Low(v) <= n <= v.high;
      var f := FrameAt(v, n);
      assert f in v.frames && f.num == n;
    }

    /** Hands over the frame under the cursor and ends the session. */
    method Deliver() returns (r: Result<Frame>)
      requires handle.Valid() && handle.arena.pending == []
      requires Low(handle.View()) <= handle.num && Extends(start, handle.View())
      requires Increasing(delivered)
      requires delivered != [] ==> delivered[|delivered| - 1] < handle.num
      requires init.AwaitNew? ==> start.high < handle.num
      requires init.AwaitNew? ==> forall i :: 0 <= i < |delivered| ==> start.high < delivered[i]
      modifies this, handle.arena
      ensures Valid() && old(handle.arena.trace) <= handle.arena.trace
      ensures start == old(start) && handle.Committed() == old(handle.View())
      ensures r.Ok? && r.value.num == handle.num && r.value in handle.Committed().frames
      ensures delivered == old(delivered) + [handle.num]
    {
      hide Transport.Arena.Valid, Transport.Arena.Consistent, Extends;
      firstReadDone := true;
      var at := handle.Current();
      var f := handle.Load(at.value);
      r := Ok(f);
      Leave(handle);
      seen := handle.arena.trace;
      delivered := delivered + [handle.num];
    }

    /** Succeeds exactly when CanRead would say so. */
    method Read() returns (r: Result<Frame>)
      requires Valid()
      modifies this, handle, handle.arena
      ensures Valid() && old(handle.arena.trace) <= handle.arena.trace
      ensures start == old(start) && handle.Committed() == old(handle.Committed())
      ensures r.Ok? <==> old(Readable(handle.Committed()))
      ensures r.Err? ==> r == Err(Again) && delivered == old(delivered)
      ensures r.Ok? ==>
        && r.value in handle.Committed().frames
        && r.value.num == old(Target(handle.Committed(), Settled(), iter, handle.num))
        && delivered == old(delivered) + [r.value.num]
      ensures r.Ok? ==>
        var v, num := handle.Committed(), old(handle.num);
        if !old(firstReadDone) && !init.AwaitNew? && num + |v.frames| > v.high then r.value.num == num
        else if iter.Newest? then r.value.num == v.high
        else num < r.value.num && forall f :: f in v.frames && num < f.num ==> r.value.num <= f.num
      ensures r.Ok? <==> old(handle.Committed().frames != [] &&
                             (firstReadDone || init.AwaitNew? ==> handle.num < handle.Committed().high))
    {
      hide Transport.Arena.Valid, Transport.Arena.Consistent, Extends, Increasing, LastView, Stepped, WellNumbered, Target;
      Enter(handle, seen);
      ghost var v := handle.View();
      ExtendsTransitive(start, LastView(seen), v);
      if Readable(v) {
        handle.ViewWellNumbered();
        TargetIsNew(v, handle.num);
        TargetMeans(v, Settled(), iter, handle.num);
      }
      var ok := Align();
      if !ok {
        Leave(handle);
        seen := handle.arena.trace;
        return Err(Again);
      }
      r := Deliver();
    }

    /** The blocking read, with or without a deadline: `looks1` are those of the wait for any frame at
        all, and `looks2` those of the wait for a newer one, if it comes to that. */
    method ReadBlocking(looks1: seq<Look>, looks2: seq<Look>) returns (r: Result<Frame>)
      requires Valid() && IsWait(looks1) && IsWait(looks2)
      requires handle.Committed().high + Sessions(looks1) + Sessions(looks2) < WORD_LIMIT
      modifies this, handle, handle.arena, handle.arena.buf
      ensures Valid() && old(handle.arena.trace) <= handle.arena.trace
      ensures start == old(start)
      ensures var end := old(Blocks(handle.Committed(), handle.num, Settled(), handle.arena.arenaSize, looks1, looks2));
              && handle.Committed() == end.1
              && (r.Ok? <==> end.0.Met?) && (r.Err? ==> r.error == EndError(end.0))
      ensures r.Err? ==> delivered == old(delivered) && handle.num == old(handle.num)
      ensures r.Ok? ==>
        && r.value in handle.Committed().frames
        && r.value.num == Target(handle.Committed(), old(Settled()), iter, old(handle.num))
        && delivered == old(delivered) + [r.value.num]
      ensures r.Ok? ==>
        var v, num := handle.Committed(), old(handle.num);
        if !old(firstReadDone) && !init.AwaitNew? && num + |v.frames| > v.high then r.value.num == num
        else if iter.Newest? then r.value.num == v.high
        else num < r.value.num && forall f :: f in v.frames && num < f.num ==> r.value.num <= f.num
      ensures r.Err? ==> r.error == TimedOut || r.error == ShutDown
      ensures r == Err(TimedOut) ==> exists l :: l in looks1 + looks2 && l.late
      ensures r == Err(ShutDown) ==> exists l :: l in looks1 + looks2 && l.shutdown
    {
      hide Transport.Arena.Valid, Transport.Arena.Consistent, Extends, Increasing, LastView, Stepped, Blocks;
      hide IsWait, Sessions, Run, WellNumbered, Target;
      Enter(handle, seen);
      ghost var v0, num := handle.View(), handle.num;
      ExtendsTransitive(start, LastView(seen), v0);
      var end := AlignBlocking(looks1, looks2);
      ExtendsTransitive(start, v0, handle.View());
      if !end.Met? {
        BlocksEnd(v0, num, Settled(), handle.arena.arenaSize, looks1, looks2);
        Leave(handle);
        seen := handle.arena.trace;
        return Err(EndError(end));
      }
      handle.ViewWellNumbered();
      TargetIsNew(handle.View(), num);
      TargetMeans(handle.View(), Settled(), iter, num);
      r := Deliver();
    }

    method AlignBlocking(looks1: seq<Look>, looks2: seq<Look>) returns (end: WaitEnd)
      requires handle.Valid() && handle.arena.pending == [] && IsWait(looks1) && IsWait(looks2)
      requires handle.View().high + Sessions(looks1) + Sessions(looks2) < WORD_LIMIT
      modifies handle, handle.arena, handle.arena.buf
      ensures handle.Valid() && handle.arena.pending == [] && old(handle.arena.trace) <= handle.arena.trace
      ensures Extends(old(handle.View()), handle.View()) && handle.arena.arenaSize == old(handle.arena.arenaSize)
      ensures (end, handle.View())
           == Blocks(old(handle.View()), old(handle.num), Settled(), handle.arena.arenaSize, looks1, looks2)
      ensures !end.Met? ==> handle.num == old(handle.num)
      ensures end.Met? ==>
        && handle.View().frames != [] && old(handle.num) <= handle.View().high
        && (Settled() ==> old(handle.num) < handle.View().high)
        && handle.num == Target(handle.View(), Settled(), iter, old(handle.num))
      ensures end.Met? ==>
        var v, num := handle.View(), old(handle.num);
        if !firstReadDone && !init.AwaitNew? && num + |v.frames| > v.high then handle.num == num
        else if iter.Newest? then handle.num == v.high
        else handle.num == if num + |v.frames| >= v.high then num + 1 else v.high + 1 - |v.frames|
    {
      hide Transport.Arena.Valid, Transport.Arena.Consistent, Extends, FrameAt, WellNumbered, Waits, IsWait, Sessions;
      ghost var v0 := handle.View();
      end := Wait(handle, NonEmpty, looks1);
      if !end.Met? {
        return;
      }
      ghost var v1 := handle.View();
      handle.ViewWellNumbered();
      var step := ShouldStep();
      if step {
        end := Wait(handle, HasNext, looks2);
        handle.ViewWellNumbered();
        ExtendsTransitive(v0, v1, handle.View());
        CursorKept(v1, handle.View(), handle.num, handle.off);
        if end.Met? {
          StepOn(handle, iter);
        }
      }
    }
  }

  /** A read whose deadline has already passed fails, although a frame is there to read: here the one
      that was written before the reader was made. */
  method ReadTooLate(buf: array<byte>) returns (can: bool, r: Result<Frame>)
    requires WORKSPACE + FRAME_HDR <= buf.Length < WORD_LIMIT
    modifies buf
    ensures can && r == Err(TimedOut)
  {
    hide Good, Describes, Chronicle, WriteSteps, Follows, Extends;
    var arena := new Arena(buf);
    var w, k := arena.Write([]);
    var reader := new SyncReader(arena, Oldest, Next);
    can := reader.CanRead();
    var late := [Look([], true, false)];
    ghost var v := reader.handle.Committed();
    PastDeadlineFails(v, reader.handle.num, reader.Settled(), reader.handle.arena.arenaSize, late, late);
    assert Sessions(late) == 0;
    r := reader.ReadBlocking(late, late);
  }

  /** The first read of a new reader on a queue that has not changed since: the oldest frame, the newest, or
      none. */
  method FirstRead(arena: Arena, init: Init, iter: Iter) returns (reader: SyncReader, r: Result<Frame>)
    requires arena.Consistent() && arena.queue != []
    modifies arena
    ensures init.Oldest? ==> r == Ok(old(arena.queue)[0])
    ensures init.MostRecent? ==> r == Ok(Last(old(arena.queue)))
    ensures init.AwaitNew? ==> r == Err(Again)
  {
    hide Arena.Valid, Describes, Chronicle, Extends, Follows, Increasing;
    QueueNumbers(arena);
    reader := new SyncReader(arena, init, iter);
    r := reader.Read();
    if r.Ok? {
      NumberIdentifies(reader.start, r.value);
    }
  }

  lemma QueueNumbers(arena: Arena)
    requires arena.Consistent()
    ensures WellNumbered(Transport.View(arena.CommittedHigh(), arena.queue))
  {
    EntryWellNumbered(arena.Now());
  }

  /** A reader waits on an empty transport, another process writes, and the read delivers what it wrote. */
  method ReadsWhatComes(buf: array<byte>, data: seq<byte>, init: Init, iter: Iter) returns (r: Result<Frame>)
    requires WORKSPACE + FRAME_HDR + |data| <= buf.Length < WORD_LIMIT
    modifies buf
    ensures r.Ok? && r.value.num == 1 && r.value.data == data
  {
    hide Good, Describes, Chronicle, Follows, Extends, Increasing, Session, Blocks, Waits, Target;
    var arena := new Arena(buf);
    var reader := new SyncReader(arena, init, iter);
    var looks1 := [Look([], false, false), Look([Write(data)], false, false), Look([], true, false)];
    var looks2 := [Look([], false, false), Look([], true, false)];
    ComesInTime(reader.Settled(), buf.Length, data, looks1, looks2);
    r := reader.ReadBlocking(looks1, looks2);
  }

  lemma ComesInTime(settled: bool, arenaSize: nat, data: seq<byte>, looks1: seq<Look>, looks2: seq<Look>)
    requires WORKSPACE + FRAME_HDR + |data| <= arenaSize
    requires looks1 == [Look([], false, false), Look([Write(data)], false, false), Look([], true, false)]
    requires looks2 == [Look([], false, false), Look([], true, false)]
    ensures Sessions(looks1) + Sessions(looks2) == 1
    ensures var end := Blocks(View(0, []), 0, settled, arenaSize, looks1, looks2);
            && end.0 == Met && end.1.high == 1 && |end.1.frames| == 1
            && end.1.frames[0].num == 1 && end.1.frames[0].data == data
  {
    hide Session, Run;
    var v := View(0, []);
    assert looks1[1..] == [looks1[1], looks1[2]] && looks1[1..][1..] == [looks1[2]] && looks2[1..] == [looks2[1]];
    assert Sessions([Look([], true, false)]) == 0 && Sessions(looks1[1..]) == 1;
    WriteEndsWait(NonEmpty, 0, arenaSize, v, looks1, true, 1, data);
    SessionMeans(v, Write(data), arenaSize);
    RunNothing(Session(v, Write(data), arenaSize), arenaSize);
  }

  // ----- Threaded reader ------------------------------------------------------------

  /** The reader whose thread calls back on every packet. Each call of the two handlers is
      one turn of the thread, from the previous callback's return to the next callback. */
  class ThreadedReader {
    const handle: Handle
    const init: Init
    const iter: Iter
    var startedEmpty: bool

    ghost var start: View
    ghost var seen: seq<Entry>
    ghost var firstHandled: bool
    ghost var delivered: seq<nat>

    ghost predicate Valid()
      reads this, handle, handle.arena, handle.arena.buf
    {
      && Follows(handle, seen)
      && Extends(start, LastView(seen))
      && Increasing(delivered)
      && (init.AwaitNew? ==> forall i :: 0 <= i < |delivered| ==> start.high < delivered[i])
      && (startedEmpty <==> start.frames == [])
      && (delivered != [] ==> firstHandled && handle.num == delivered[|delivered| - 1])
      && (!firstHandled && !startedEmpty ==> handle.num == FirstNumber())
      && (firstHandled && delivered == [] ==> init.AwaitNew? && handle.num == start.high)
    }

    /** Where the constructor places the cursor in a transport that is not empty. */
    ghost function FirstNumber(): int
      reads this
    {
      if init.Oldest? then start.high + 1 - |start.frames| else start.high
    }

    constructor (arena: Arena, init: Init, iter: Iter)
      requires arena.Consistent()
      modifies arena
      ensures Valid() && fresh(handle) && handle.arena == arena && old(arena.trace) <= arena.trace
      ensures this.init == init && this.iter == iter && !firstHandled
      ensures delivered == [] && start == old(Transport.View(arena.CommittedHigh(), arena.queue))
      ensures handle.num == if start.frames == [] then 0
                            else if init.Oldest? then start.high + 1 - |start.frames| else start.high
    {
      hide Describes, Chronicle, Extends, Sane, Good;
      this.handle := new Handle(arena);
      this.init := init;
      this.iter := iter;
      startedEmpty := true;
      start := Transport.View(arena.CommittedHigh(), arena.queue);
      seen := arena.trace;
      delivered, firstHandled := [], false;
      new;
      StartSane(handle);
      Start();
    }

    method Start()
      requires Follows(handle, seen) && start == handle.Committed() && handle.num == 0
      requires delivered == [] && !firstHandled
      modifies this`seen, this`startedEmpty, handle, handle.arena
      ensures Valid() && old(handle.arena.trace) <= handle.arena.trace
      ensures handle.num == if start.frames == [] then 0
                            else if init.Oldest? then start.high + 1 - |start.frames| else start.high
    {
      hide Transport.Arena.Valid, Transport.Arena.Consistent, Extends, Sane, WellNumbered, LastView;
      Enter(handle, seen);
      var some := handle.NonEmpty();
      startedEmpty := !some;
      if some {
        if init.Oldest? {
          var r := handle.JumpHead();
        } else {
          var r := handle.JumpTail();
        }
      }
      Leave(handle);
      seen := handle.arena.trace;
      ExtendsReflexive(start);
    }

    /** Waits for a frame and decides which one, if any, the first turn delivers. */
    method AlignFirst(looks: seq<Look>) returns (ok: bool, deliver: bool)
      requires handle.Valid() && handle.arena.pending == [] && IsWait(looks)
      requires handle.View().high + Sessions(looks) < WORD_LIMIT
      modifies handle, handle.arena, handle.arena.buf
      ensures handle.Valid() && handle.arena.pending == [] && old(handle.arena.trace) <= handle.arena.trace
      ensures Extends(old(handle.View()), handle.View())
      ensures WellNumbered(handle.View()) && handle.arena.arenaSize == old(handle.arena.arenaSize)
      ensures var end := Waits(NonEmpty, old(handle.num), handle.arena.arenaSize, old(handle.View()), looks, true);
              handle.View() == end.1 && (ok <==> end.0.Met?)
      ensures ok ==> handle.View().frames != []
      ensures deliver ==> ok && Low(handle.View()) <= handle.num
      ensures !ok ==> handle.num == old(handle.num)
      ensures ok ==>
        var low := Low(handle.View());
        if startedEmpty || old(handle.num) < low then deliver && handle.num == low
        else low <= handle.num == old(handle.num) && deliver == !init.AwaitNew?
    {
      hide Transport.Arena.Valid, Extends, FrameAt, Waits, IsWait, Sessions;
      deliver := false;
      var end := Wait(handle, NonEmpty, looks);
      ok := end.Met?;
      handle.ViewWellNumbered();
      if ok {
        var reset := startedEmpty;
        if !reset {
          var valid := handle.IterValid();
          reset := !valid;
        }
        if reset {
          var jumped := handle.JumpHead();
        }
        deliver := reset || !init.AwaitNew?;
      }
    }

    /** The first turn: starts over at the oldest frame if the one the cursor was placed on
        is gone or never was; otherwise delivers that one, unless only new ones count. The wait has
        no deadline, so it fails only when the transport is shut down. */
    method HandleFirst(looks: seq<Look>) returns (ok: bool, r: Option<Frame>)
      requires Valid() && !firstHandled && IsWait(looks)
      requires handle.Committed().high + Sessions(looks) < WORD_LIMIT
      modifies this, handle, handle.arena, handle.arena.buf
      ensures Valid() && old(handle.arena.trace) <= handle.arena.trace
      ensures start == old(start) && firstHandled == ok && startedEmpty == old(startedEmpty)
      ensures delivered == if r.Some? then [r.value.num] else []
      ensures var end := Waits(NonEmpty, old(handle.num), old(handle.arena.arenaSize), old(handle.Committed()), looks, true);
              handle.Committed() == end.1 && (ok <==> end.0.Met?)
      ensures ok ==> handle.Committed().frames != []
      ensures r.Some? ==> r.value in handle.Committed().frames
      ensures |handle.Committed().frames| <= handle.Committed().high
      ensures ok ==>
        var low := Low(handle.Committed());
        if old(startedEmpty) || old(handle.num) < low then r.Some? && r.value.num == low
        else if init.AwaitNew? then r == None
        else r.Some? && r.value.num == old(handle.num)
    {
      hide Transport.Arena.Valid, Transport.Arena.Consistent, Extends, LastView, Sane, Numbered, Waits, IsWait, Sessions;
      Enter(handle, seen);
      ghost var v0 := handle.View();
      ExtendsTransitive(start, LastView(seen), v0);
      var deliver: bool;
      ok, deliver := AlignFirst(looks);
      ghost var v := handle.View();
      ExtendsTransitive(start, v0, v);
      r := None;
      if ok {
        ResetIsNew(v);
        firstHandled := true;
      }
      if deliver {
        var f := Deliver();
        r := Some(f);
      } else {
        Leave(handle);
        seen := handle.arena.trace;
      }
    }

    /** Hands the frame under the cursor to the callback, which releases the lock. */
    method Deliver() returns (f: Frame)
      requires handle.Valid() && handle.arena.pending == []
      requires Low(handle.View()) <= handle.num && Extends(start, handle.View())
      requires Increasing(delivered) && firstHandled
      requires delivered != [] ==> delivered[|delivered| - 1] < handle.num
      requires init.AwaitNew? ==> start.high < handle.num
      requires init.AwaitNew? ==> forall i :: 0 <= i < |delivered| ==> start.high < delivered[i]
      requires startedEmpty <==> start.frames == []
      modifies this`seen, this`delivered, handle.arena
      ensures Valid() && old(handle.arena.trace) <= handle.arena.trace
      ensures handle.Committed() == old(handle.View())
      ensures f.num == handle.num && f in handle.Committed().frames
      ensures delivered == old(delivered) + [handle.num]
    {
      hide Transport.Arena.Valid, Transport.Arena.Consistent, Extends;
      var at := handle.Current();
      f := handle.Load(at.value);
      Leave(handle);
      seen := handle.arena.trace;
      AppendIncreasing(delivered, handle.num);
      delivered := delivered + [handle.num];
    }

    /** After a reset the oldest frame is one the transport did not hold at the start. */
    lemma ResetIsNew(v: View)
      requires Extends(start, v) && WellNumbered(v) && v.frames != []
      ensures start.frames == [] ==> start.high < Low(v)
    {
      assert v.frames[0] in v.frames;
    }

    /** Waits for a newer frame and steps to it. */
    method AlignNext(looks: seq<Look>) returns (ok: bool)
      requires handle.Valid() && handle.arena.pending == [] && IsWait(looks)
      requires handle.View().high + Sessions(looks) < WORD_LIMIT
      modifies handle, handle.arena, handle.arena.buf
      ensures handle.Valid() && handle.arena.pending == [] && old(handle.arena.trace) <= handle.arena.trace
      ensures Extends(old(handle.View()), handle.View())
      ensures |handle.View().frames| <= handle.View().high && handle.arena.arenaSize == old(handle.arena.arenaSize)
      ensures var end := Waits(HasNext, old(handle.num), handle.arena.arenaSize, old(handle.View()), looks, true);
              handle.View() == end.1 && (ok <==> end.0.Met?)
      ensures !ok ==> handle.num == old(handle.num)
      ensures ok ==> Low(handle.View()) <= handle.num && old(handle.num) < handle.num
      ensures ok ==> handle.num == Stepped(handle.View(), iter, old(handle.num))
    {
      hide Transport.Arena.Valid, Extends, Stepped, FrameAt, Waits, IsWait, Sessions;
      var end := Wait(handle, HasNext, looks);
      ok := end.Met?;
      handle.ViewWellNumbered();
      if ok {
        SteppedSkipsNothingLive(handle.View(), iter, handle.num);
        StepOn(handle, iter);
      }
    }

    /** Every later turn. */
    method HandleNext(looks: seq<Look>) returns (r: Option<Frame>)
      requires Valid() && firstHandled && IsWait(looks)
      requires handle.Committed().high + Sessions(looks) < WORD_LIMIT
      modifies this, handle, handle.arena, handle.arena.buf
      ensures Valid() && old(handle.arena.trace) <= handle.arena.trace
      ensures start == old(start) && firstHandled && startedEmpty == old(startedEmpty)
      ensures |handle.Committed().frames| <= handle.Committed().high
      ensures var end := Waits(HasNext, old(handle.num), old(handle.arena.arenaSize), old(handle.Committed()), looks, true);
              handle.Committed() == end.1 && (r.Some? <==> end.0.Met?)
      ensures r.Some? ==>
        && r.value in handle.Committed().frames
        && r.value.num == Stepped(handle.Committed(), iter, old(handle.num))
      ensures r.Some? ==>
        var v, num := handle.Committed(), old(handle.num);
        if iter.Newest? then r.value.num == v.high
        else num < r.value.num && forall f :: f in v.frames && num < f.num ==> r.value.num <= f.num
      ensures delivered == old(delivered) + if r.Some? then [r.value.num] else []
    {
      hide Transport.Arena.Valid, Transport.Arena.Consistent, Extends, LastView, Stepped, Sane, Waits, IsWait, Sessions;
      Enter(handle, seen);
      ghost var v0, num := handle.View(), handle.num;
      ExtendsTransitive(start, LastView(seen), v0);
      var ok := AlignNext(looks);
      ExtendsTransitive(start, v0, handle.View());
      if ok {
        handle.ViewWellNumbered();
        SteppedMeans(handle.View(), iter, num);
        var f := Deliver();
        r := Some(f);
      } else {
        Leave(handle);
        seen := handle.arena.trace;
        r := None;
      }
    }

    lemma AppendIncreasing(s: seq<nat>, n: nat)
      requires Increasing(s) && (s != [] ==> s[|s| - 1] < n)
      ensures Increasing(s + [n])
    {
    }
  }
}

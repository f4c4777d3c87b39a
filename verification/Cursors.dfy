/** The per-process handle on a shared arena: a cursor into the queue, kept while other
    processes lock, write, clear and unlock. */
module Cursors {
  import opened Bytes
  import opened Frames
  import opened Errors
  import opened Transport

  /** The sequence number of the oldest live frame, or of the next frame if none is live. */
  function Low(v: View): nat
    requires |v.frames| <= v.high
  {
    v.high + 1 - |v.frames|
  }

  ghost predicate WellNumbered(v: View) {
    && |v.frames| <= v.high
    && Numbered(v.frames, Low(v))
  }

  /** The frame with number `n`, which must be live. */
  function FrameAt(v: View, n: nat): Frame
    requires |v.frames| <= v.high && Low(v) <= n <= v.high
  {
    v.frames[n - Low(v)]
  }

  /** Where a cursor may be: on a frame at that frame's offset, or on a frame that is gone,
      or nowhere yet. */
  ghost predicate Sane(v: View, num: nat, off: nat) {
    && WellNumbered(v)
    && num <= v.high
    && (Low(v) <= num ==> FrameAt(v, num).off == off)
  }

  lemma EntryWellNumbered(e: Entry)
    requires Good(e)
    ensures WellNumbered(ViewOf(e))
  {
  }

  /** A live frame is the only one with its number. */
  lemma NumberIdentifies(v: View, f: Frame)
    requires WellNumbered(v) && f in v.frames
    ensures Low(v) <= f.num <= v.high && FrameAt(v, f.num) == f
  {
  }

  /** Whatever other processes do, a cursor stays sane, and it is on a live frame exactly
      when the very frame it was placed on is still live. */
  lemma CursorKept(a: View, b: View, num: nat, off: nat)
    requires Sane(a, num, off) && WellNumbered(b) && Extends(a, b)
    ensures Sane(b, num, off)
    ensures Low(a) <= num ==> (Low(b) <= num <==> FrameAt(a, num) in b.frames)
    ensures Low(a) <= num && Low(b) <= num ==> FrameAt(b, num) == FrameAt(a, num)
    ensures num < Low(a) ==> num < Low(b)
  {
  }

  /** A zeroed cursor is on no frame. */
  lemma ZeroedSane(v: View)
    requires WellNumbered(v)
    ensures Sane(v, 0, 0)
  {
  }

  class Handle {
    const arena: Arena
    var num: nat
    var off: nat

    /** A handle starts out zeroed, on no frame. */
    constructor (arena: Arena)
      ensures this.arena == arena && num == 0 && off == 0
    {
      this.arena := arena;
      num, off := 0, 0;
    }

    ghost function View(): View
      reads this, arena
    {
      Transport.View(arena.WorkingHigh(), arena.Working())
    }

    ghost function Committed(): View
      reads arena
    {
      Transport.View(arena.CommittedHigh(), arena.queue)
    }

    /** Between the operations of a session, with the cursor sane. */
    ghost predicate Valid()
      reads this, arena, arena.buf
    {
      arena.Valid() && Sane(View(), num, off)
    }

    /** The word of the working page that holds the lowest number, or zero before the first frame. */
    ghost function SeqLow(): nat
      reads arena
    {
      if |arena.pages| == 2 && arena.committedIdx < 2 then arena.pages[1 - arena.committedIdx].seqLow else 0
    }

    lemma ZeroedOnNothing()
      requires arena.Valid() && arena.pages[1 - arena.committedIdx] == FRESH_PAGE
      requires arena.queue == [] && arena.pending == [] && num == 0 && off == 0
      ensures Valid() && View().frames == [] && SeqLow() == 0
    {
      hide Arena.Valid, WellNumbered, Sane;
      PageView();
      ZeroedSane(View());
    }

    lemma ViewWellNumbered()
      requires arena.Valid()
      ensures WellNumbered(View())
    {
    }

    lemma PageView()
      requires arena.Valid()
      ensures WellNumbered(View()) && |arena.pages| == 2 && arena.committedIdx < 2
      ensures var p := arena.pages[1 - arena.committedIdx];
              && p.seqHigh == View().high
              && (Empty(p) <==> View().frames == [])
              && (p.seqLow == Low(View()) || (p.seqLow == 0 && View() == Transport.View(0, [])))
              && (View().frames != [] ==>
                    p.offHead == View().frames[0].off && p.offTail == Last(View().frames).off)
    {
    }

    method NonEmpty() returns (r: bool)
      requires arena.Valid()
      ensures r <==> View().frames != []
    {
      hide Transport.Arena.Valid;
      PageView();
      r := !Empty(arena.pages[1 - arena.committedIdx]);
    }

    /** On a zeroed handle and an arena never written the answer is true although there is
        no frame; otherwise it says whether the cursor's frame is live. */
    method IterValid() returns (r: bool)
      requires Valid()
      ensures r <==> Low(View()) <= num || (num == 0 && SeqLow() == 0)
      ensures num >= 1 || View().frames != [] ==> (r <==> Low(View()) <= num)
    {
      hide Transport.Arena.Valid;
      PageView();
      var state := arena.pages[1 - arena.committedIdx];
      r := state.seqLow <= num && num <= state.seqHigh;
    }

    method JumpHead() returns (r: Result<()>)
      requires arena.Valid()
      modifies this
      ensures r == if View().frames == [] then Err(Range) else Ok(())
      ensures r.Ok? ==> Valid() && num == Low(View())
      ensures r.Err? ==> num == old(num) && off == old(off)
    {
      hide Transport.Arena.Valid;
      PageView();
      var state := arena.pages[1 - arena.committedIdx];
      if Empty(state) {
        return Err(Range);
      }
      num, off := state.seqLow, state.offHead;
      r := Ok(());
    }

    method JumpTail() returns (r: Result<()>)
      requires arena.Valid()
      modifies this
      ensures r == if View().frames == [] then Err(Range) else Ok(())
      ensures r.Ok? ==> Valid() && num == View().high
      ensures r.Err? ==> num == old(num) && off == old(off)
    {
      hide Transport.Arena.Valid;
      PageView();
      var state := arena.pages[1 - arena.committedIdx];
      if Empty(state) {
        return Err(Range);
      }
      num, off := state.seqHigh, state.offTail;
      r := Ok(());
    }

    method HasNext() returns (r: bool)
      requires Valid()
      ensures r <==> View().frames != [] && num < View().high
    {
      hide Transport.Arena.Valid;
      PageView();
      var state := arena.pages[1 - arena.committedIdx];
      r := !Empty(state) && num < state.seqHigh;
    }

    /** Steps to the oldest live frame newer than the cursor. */
    method StepNext() returns (r: Result<()>)
      requires Valid()
      modifies this
      ensures r == if View().frames != [] && old(num) < View().high then Ok(()) else Err(Range)
      ensures Valid()
      ensures r.Ok? ==> num == (if old(num) + 1 >= Low(View()) then old(num) + 1 else Low(View()))
      ensures r.Ok? ==> FrameAt(View(), num).off == off
      ensures r.Err? ==> num == old(num) && off == old(off)
    {
      hide Transport.Arena.Valid, WordAt;
      PageView();
      var state := arena.pages[1 - arena.committedIdx];
      var more := HasNext();
      if !more {
        return Err(Range);
      }
      r := Ok(());
      if num < state.seqLow {
        num, off := state.seqLow, state.offHead;
        return;
      }
      ghost var i := num - Low(View());
      Neighbours(i);
      Neighbours(i + 1);
      off := WordAt(arena.buf[..], off + NEXT);
      num := WordAt(arena.buf[..], off + SEQ);
    }

    method HasPrev() returns (r: bool)
      requires Valid()
      ensures r <==> View().frames != [] && num > Low(View())
    {
      hide Transport.Arena.Valid;
      PageView();
      var state := arena.pages[1 - arena.committedIdx];
      r := !Empty(state) && num > state.seqLow;
    }

    method StepPrev() returns (r: Result<()>)
      requires Valid()
      modifies this
      ensures r == if View().frames != [] && old(num) > Low(View()) then Ok(()) else Err(Range)
      ensures Valid()
      ensures r.Ok? ==> num == old(num) - 1 && FrameAt(View(), num).off == off
      ensures r.Err? ==> num == old(num) && off == old(off)
    {
      hide Transport.Arena.Valid, WordAt;
      PageView();
      var more := HasPrev();
      if !more {
        return Err(Range);
      }
      ghost var i := num - Low(View());
      Neighbours(i);
      Neighbours(i - 1);
      off := WordAt(arena.buf[..], off + PREV);
      num := WordAt(arena.buf[..], off + SEQ);
      r := Ok(());
    }

    /** Where the frame under the cursor lies, which is where the cursor stands. On a zeroed handle and an
        arena never written the answer is offset 0, where the arena keeps its own header; otherwise it says
        whether the frame is live. */
    method Current() returns (r: Result<nat>)
      requires Valid()
      ensures r.Err? ==> r.error == BrokenPipe
      ensures r.Ok? <==> Low(View()) <= num || (num == 0 && SeqLow() == 0)
      ensures num >= 1 || View().frames != [] ==> (r.Ok? <==> Low(View()) <= num)
      ensures r.Ok? ==> r.value == off
    {
      hide Transport.Arena.Valid;
      PageView();
      var state := arena.pages[1 - arena.committedIdx];
      if num < state.seqLow {
        return Err(BrokenPipe);
      }
      r := Ok(off);
    }

    /** What lies there while the frame is live: the frame, whole. */
    method Load(at: nat) returns (f: Frame)
      requires Valid() && Low(View()) <= num && at == off
      ensures f == FrameAt(View(), num)
    {
      hide Transport.Arena.Valid, WordAt;
      Neighbours(num - Low(View()));
      var size := WordAt(arena.buf[..], at + SIZE);
      f := Frame(WordAt(arena.buf[..], at + SEQ), at, arena.buf[at + FRAME_HDR..at + FRAME_HDR + size]);
    }

    lemma Neighbours(i: nat)
      requires arena.Valid() && i < |View().frames|
      ensures WellNumbered(View())
      ensures var fs, m := View().frames, arena.buf[..];
              && End(fs[i]) <= |m|
              && fs[i].num == Low(View()) + i
              && WordAt(m, fs[i].off + SEQ) == fs[i].num
              && WordAt(m, fs[i].off + SIZE) == |fs[i].data|
              && m[fs[i].off + FRAME_HDR..End(fs[i])] == fs[i].data
              && (i < |fs| - 1 ==> WordAt(m, fs[i].off + NEXT) == fs[i + 1].off)
              && (i > 0 ==> WordAt(m, fs[i].off + PREV) == fs[i - 1].off)
    {
      hide Chronicle, Describes, WordAt;
      var p, fs, m := arena.pages[1 - arena.committedIdx], View().frames, arena.buf[..];
      PageView();
      HeaderRead(p, arena.arenaSize, m, fs, i);
      PayloadRead(p, arena.arenaSize, m, fs, i);
    }
  }

  /** A zeroed handle on an arena never written. */
  method OnNothing(buf: array<byte>) returns (h: Handle)
    requires buf.Length < WORD_LIMIT
    ensures h.arena.buf == buf && h.Valid() && h.View().frames == []
    ensures h.num == 0 && h.off == 0 && h.SeqLow() == 0
  {
    hide Arena.Valid, Arena.Consistent, Handle.Valid, Handle.View, Handle.SeqLow, OnlySince;
    var arena := new Arena(buf);
    arena.Lock();
    h := new Handle(arena);
    h.ZeroedOnNothing();
  }

  /** The one case where the answers of IterValid and Current are wrong: such a handle is said to be on a
      frame, and the frame it is given starts where the arena does. */
  method FrameOnNothing(buf: array<byte>) returns (h: Handle, valid: bool, frame: Result<nat>)
    requires buf.Length < WORD_LIMIT
    ensures h.arena.buf == buf && h.Valid() && h.View().frames == []
    ensures valid && frame == Ok(0)
  {
    hide Handle.Valid;
    h := OnNothing(buf);
    valid := h.IterValid();
    frame := h.Current();
  }
}

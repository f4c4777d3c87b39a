/** The shared arena: state pages, committed index and raw bytes, changed one store at a
    time. Every store is recorded, so what a process that dies between two stores leaves
    behind is an entry of the record. */
module Transport {
  import opened Bytes
  import opened Frames
  import opened Errors

  datatype Field = SeqLow | SeqHigh | OffHead | OffTail | HighWater

  function Put(p: Page, field: Field, v: nat): Page {
    match field
    case SeqLow => p.(seqLow := v)
    case SeqHigh => p.(seqHigh := v)
    case OffHead => p.(offHead := v)
    case OffTail => p.(offTail := v)
    case HighWater => p.(highWater := v)
  }

  /** All of the shared memory at one instant. */
  datatype Snapshot = Snapshot(pages: seq<Page>, committedIdx: nat, arenaSize: nat, mem: seq<byte>)

  /** A snapshot with the queue that its committed page describes. */
  datatype Entry = Entry(snap: Snapshot, queue: seq<Frame>)

  /** What the readers of the transport are told: the newest sequence number handed out
      so far, and the live frames. */
  datatype View = View(high: nat, frames: seq<Frame>)

  ghost predicate TwoPages(s: Snapshot) {
    |s.pages| == 2 && s.committedIdx < 2
  }

  ghost predicate Good(e: Entry) {
    && TwoPages(e.snap)
    && Describes(e.snap.pages[e.snap.committedIdx], e.snap.arenaSize, e.snap.mem, e.queue)
  }

  ghost function ViewOf(e: Entry): View {
    if TwoPages(e.snap) then View(e.snap.pages[e.snap.committedIdx].seqHigh, e.queue)
    else View(0, e.queue)
  }

  ghost function LastView(t: seq<Entry>): View
    requires t != []
  {
    ViewOf(t[|t| - 1])
  }

  /** Later views only lose old frames and gain newer ones: a sequence number already
      handed out never comes to mean a different frame. */
  ghost predicate Extends(a: View, b: View) {
    a.high <= b.high && forall f :: f in b.frames && f.num <= a.high ==> f in a.frames
  }

  lemma ExtendsTransitive(a: View, b: View, c: View)
    requires Extends(a, b) && Extends(b, c)
    ensures Extends(a, c)
  {
  }

  lemma ExtendsReflexive(a: View)
    ensures Extends(a, a)
  {
  }

  ghost predicate Chronicle(t: seq<Entry>) {
    && (forall i :: 0 <= i < |t| ==> Good(t[i]))
    && (forall i :: 0 < i < |t| ==> Extends(ViewOf(t[i - 1]), ViewOf(t[i])))
  }

  lemma {:induction false} ChronicleExtends(t: seq<Entry>, i: nat, j: nat)
    requires Chronicle(t) && i <= j < |t|
    ensures Extends(ViewOf(t[i]), ViewOf(t[j]))
    decreases j
  {
    hide Good, Extends, ViewOf;
    if i < j {
      ChronicleExtends(t, i, j - 1);
      ExtendsTransitive(ViewOf(t[i]), ViewOf(t[j - 1]), ViewOf(t[j]));
    } else {
      ExtendsReflexive(ViewOf(t[i]));
    }
  }

  lemma ChronicleAppend(t: seq<Entry>, e: Entry)
    requires Chronicle(t) && Good(e)
    requires t != [] ==> Extends(LastView(t), ViewOf(e))
    ensures Chronicle(t + [e])
  {
    hide Good, Extends, ViewOf;
    var t' := t + [e];
    forall i | 0 < i < |t'|
      ensures Extends(ViewOf(t'[i - 1]), ViewOf(t'[i]))
    {
      if i < |t| {
        assert t'[i] == t[i];
      }
      assert t'[i - 1] == t[i - 1];
    }
  }

  /** The entries of `t` after those of `t0` all hold the queue `q`. */
  ghost predicate OnlySince(t0: seq<Entry>, t: seq<Entry>, q: seq<Frame>) {
    && t0 <= t
    && forall i :: |t0| <= i < |t| ==> t[i].queue == q
  }

  /** The entries of `t` after those of `t0` all hold one of the two queues. */
  ghost predicate EitherSince(t0: seq<Entry>, t: seq<Entry>, q1: seq<Frame>, q2: seq<Frame>) {
    && t0 <= t
    && forall i :: |t0| <= i < |t| ==> t[i].queue == q1 || t[i].queue == q2
  }

  lemma OnlySinceTransitive(t0: seq<Entry>, t1: seq<Entry>, t2: seq<Entry>, q: seq<Frame>)
    requires OnlySince(t0, t1, q) && OnlySince(t1, t2, q)
    ensures OnlySince(t0, t2, q)
  {
  }

  /** The entries after `t0` hold `c`, the queue before, or `w` less 1 to `k` old frames. */
  ghost predicate EvictedSince(t0: seq<Entry>, t: seq<Entry>, c: seq<Frame>, w: seq<Frame>, k: nat)
    requires k <= |w|
  {
    && t0 <= t
    && forall i :: |t0| <= i < |t| ==>
         t[i].queue == c || exists j :: 1 <= j <= k && t[i].queue == w[j..]
  }

  lemma EvictedSinceStep(t0: seq<Entry>, t1: seq<Entry>, t2: seq<Entry>, c: seq<Frame>, w: seq<Frame>, k: nat)
    requires k < |w| && EvictedSince(t0, t1, c, w, k)
    requires EvictedSince(t1, t2, if k == 0 then c else w[k..], w[k..], 1)
    ensures EvictedSince(t0, t2, c, w, k + 1)
  {
  }

  /** The entries after `t0` hold `c` less 0 to `k` old frames, or `c` less `k` old frames
      with `f` appended. */
  ghost predicate WriteSteps(t0: seq<Entry>, t: seq<Entry>, c: seq<Frame>, k: nat, f: Frame)
    requires k <= |c|
  {
    && t0 <= t
    && forall i :: |t0| <= i < |t| ==>
         t[i].queue == c[k..] + [f] || exists j :: 0 <= j <= k && t[i].queue == c[j..]
  }

  class Arena {
    const buf: array<byte>
    var pages: seq<Page>
    var committedIdx: nat
    var arenaSize: nat

    /** The frames the committed page describes. */
    ghost var queue: seq<Frame>
    /** The frames allocated but not committed in this session. */
    ghost var pending: seq<Frame>
    /** Every state the shared memory has been in, store by store. */
    ghost var trace: seq<Entry>

    ghost function Snap(): Snapshot
      reads this, buf
    {
      Snapshot(pages, committedIdx, arenaSize, buf[..])
    }

    ghost function Now(): Entry
      reads this, buf
    {
      Entry(Snap(), queue)
    }

    ghost function Working(): seq<Frame>
      reads this`queue, this`pending
    {
      queue + pending
    }

    ghost function WorkingHigh(): nat
      reads this`pages, this`committedIdx
    {
      if |pages| == 2 && committedIdx < 2 then pages[1 - committedIdx].seqHigh else 0
    }

    ghost function CommittedHigh(): nat
      reads this`pages, this`committedIdx
    {
      if |pages| == 2 && committedIdx < 2 then pages[committedIdx].seqHigh else 0
    }

    /** Holds after every single store. */
    ghost predicate Consistent()
      reads this, buf
    {
      && |pages| == 2 && committedIdx < 2
      && Good(Now())
      && Chronicle(trace)
      && trace != []
      && LastView(trace) == ViewOf(Now())
    }

    /** Holds between the operations of a session. */
    ghost predicate Valid()
      reads this, buf
    {
      && Consistent()
      && Describes(pages[1 - committedIdx], arenaSize, buf[..], Working())
      && pages[1 - committedIdx].seqHigh == pages[committedIdx].seqHigh + |pending|
    }

    constructor (buf: array<byte>)
      requires buf.Length < WORD_LIMIT
      ensures Consistent() && this.buf == buf
      ensures queue == [] && arenaSize == buf.Length && trace == [Now()]
      ensures pages == [FRESH_PAGE, FRESH_PAGE] && committedIdx == 0
    {
      this.buf := buf;
      pages := [FRESH_PAGE, FRESH_PAGE];
      committedIdx := 0;
      arenaSize := buf.Length;
      queue, pending := [], [];
      new;
      assert WrapsAt([], 0);
      trace := [Now()];
    }

    /** The arena as a process finds it after another one has died: `t` records all that
        happened up to the store that was its last. */
    constructor Resume(buf: array<byte>, pages: seq<Page>, committedIdx: nat, arenaSize: nat, ghost t: seq<Entry>)
      requires Chronicle(t) && t != []
      requires t[|t| - 1].snap == Snapshot(pages, committedIdx, arenaSize, buf[..])
      ensures Consistent() && this.buf == buf && trace == t
      ensures queue == t[|t| - 1].queue && Snap() == t[|t| - 1].snap
    {
      this.buf := buf;
      this.pages := pages;
      this.committedIdx := committedIdx;
      this.arenaSize := arenaSize;
      queue, pending, trace := t[|t| - 1].queue, [], t;
    }

    // ----- Single stores ------------------------------------------------------------

    ghost method Record()
      requires Good(Now()) && Chronicle(trace) && trace != []
      requires Extends(LastView(trace), ViewOf(Now()))
      modifies this`trace
      ensures Consistent() && trace == old(trace) + [Now()]
    {
      hide Describes, Chronicle, Extends;
      ChronicleAppend(trace, Now());
      trace := trace + [Now()];
    }

    method StoreField(field: Field, v: nat)
      requires Consistent()
      modifies this`pages, this`trace
      ensures Consistent() && OnlySince(old(trace), trace, queue)
      ensures pages[committedIdx] == old(pages[committedIdx])
      ensures pages[1 - committedIdx] == Put(old(pages[1 - committedIdx]), field, v)
      ensures buf[..] == old(buf[..])
    {
      hide Describes, Chronicle, Extends, Put;
      ExtendsReflexive(ViewOf(Now()));
      pages := pages[1 - committedIdx := Put(pages[1 - committedIdx], field, v)];
      Record();
    }

    method StoreWord(off: nat, v: nat)
      requires Consistent()
      requires off + WORD <= buf.Length && v < WORD_LIMIT
      requires Harmless(queue, off, off + WORD)
      modifies this`trace, buf
      ensures Consistent() && OnlySince(old(trace), trace, queue)
      ensures WordAt(buf[..], off) == v
      ensures SameOutside(old(buf[..]), buf[..], off, off + WORD)
    {
      hide Describes, Chronicle, Extends, Harmless;
      ExtendsReflexive(ViewOf(Now()));
      ghost var m := buf[..];
      var b := EncodeWord(v);
      forall i | 0 <= i < WORD {
        buf[off + i] := b[i];
      }
      assert buf[off..off + WORD] == b;
      DecodeWord(v);
      QueueKept(pages[committedIdx], arenaSize, m, buf[..], queue, off, off + WORD);
      Record();
    }

    method StoreByte(off: nat, v: byte)
      requires Consistent()
      requires off < buf.Length && Harmless(queue, off, off + 1)
      modifies this`trace, buf
      ensures Consistent() && OnlySince(old(trace), trace, queue)
      ensures buf[..] == old(buf[..])[off := v]
    {
      hide Describes, Chronicle, Extends, Harmless;
      ExtendsReflexive(ViewOf(Now()));
      ghost var m := buf[..];
      buf[off] := v;
      QueueKept(pages[committedIdx], arenaSize, m, buf[..], queue, off, off + 1);
      Record();
    }

    method StoreArenaSize(size: nat)
      requires Consistent()
      requires size <= buf.Length
      requires forall i :: 0 <= i < |queue| ==> End(queue[i]) <= size
      modifies this`arenaSize, this`trace
      ensures Consistent() && OnlySince(old(trace), trace, queue)
      ensures arenaSize == size
    {
      hide Chronicle, Extends;
      ExtendsReflexive(ViewOf(Now()));
      arenaSize := size;
      Record();
    }

    /** The one store that publishes the working page. */
    method FlipCommitted(ghost q: seq<Frame>)
      requires Consistent()
      requires Describes(pages[1 - committedIdx], arenaSize, buf[..], q)
      requires Extends(ViewOf(Now()), View(pages[1 - committedIdx].seqHigh, q))
      modifies this`committedIdx, this`queue, this`pending, this`trace
      ensures Consistent() && OnlySince(old(trace), trace, q)
      ensures committedIdx == 1 - old(committedIdx) && queue == q && pending == []
    {
      hide Describes, Chronicle, Extends;
      committedIdx := 1 - committedIdx;
      queue, pending := q, [];
      Record();
    }

    // ----- Operations ---------------------------------------------------------------

    /** A structure copy into the working page, one field at a time. */
    method StorePage(p: Page)
      requires Consistent()
      modifies this`pages, this`trace
      ensures Consistent() && OnlySince(old(trace), trace, queue)
      ensures pages[committedIdx] == old(pages[committedIdx])
      ensures pages[1 - committedIdx] == p
      ensures buf[..] == old(buf[..])
    {
      hide Describes, Chronicle, Extends;
      StoreField(SeqLow, p.seqLow);
      StoreField(SeqHigh, p.seqHigh);
      StoreField(OffHead, p.offHead);
      StoreField(OffTail, p.offTail);
      StoreField(HighWater, p.highWater);
    }

    /** Copies the committed page over the working page, field by field. */
    method CopyPage()
      requires Consistent()
      modifies this`pages, this`pending, this`trace
      ensures Valid() && pending == [] && OnlySince(old(trace), trace, queue)
      ensures pages[committedIdx] == old(pages[committedIdx])
      ensures pages[1 - committedIdx] == pages[committedIdx]
    {
      hide Describes, Chronicle, Extends;
      StorePage(pages[committedIdx]);
      pending := [];
      assert queue + pending == queue;
    }

    /** Taking the lock, whatever state the previous owner died in: the committed queue
        is the queue, and the working page is made to agree with it. */
    method Lock()
      requires Consistent()
      modifies this`pages, this`pending, this`trace
      ensures Valid() && pending == [] && OnlySince(old(trace), trace, queue)
      ensures WorkingHigh() == CommittedHigh() == old(CommittedHigh())
      ensures pages[1 - committedIdx] == pages[committedIdx] == old(pages[committedIdx])
    {
      CopyPage();
    }

    method Unlock()
      requires Valid()
      modifies this`pages, this`pending, this`trace
      ensures Valid() && pending == [] && OnlySince(old(trace), trace, queue)
      ensures WorkingHigh() == CommittedHigh() == old(CommittedHigh())
    {
      CopyPage();
    }

    lemma WorkingExtends(k: nat)
      requires Valid() && k <= |Working()|
      ensures Extends(ViewOf(Now()), View(pages[1 - committedIdx].seqHigh, Working()[k..]))
    {
    }

    method Commit()
      requires Valid()
      modifies this
      ensures Valid() && queue == old(Working()) && pending == []
      ensures WorkingHigh() == CommittedHigh() == old(WorkingHigh())
      ensures arenaSize == old(arenaSize)
      ensures OnlySince(old(trace), trace, queue)
    {
      hide Describes, Chronicle, Extends;
      WorkingExtends(0);
      assert Working()[0..] == Working();
      FlipCommitted(Working());
      CopyPage();
    }

    /** The link of the oldest frame, and where the oldest and the newest end. */
    method ReadEnds() returns (next: nat, headEnd: nat, tailEnd: nat)
      requires Valid() && Working() != []
      ensures |Working()| > 1 ==> next == Working()[1].off
      ensures headEnd == End(Working()[0]) && tailEnd == End(Last(Working()))
      ensures pages[1 - committedIdx].offHead == pages[1 - committedIdx].offTail <==> |Working()| == 1
    {
      hide Chronicle, Extends, WordAt, Describes;
      var state := pages[1 - committedIdx];
      ghost var fs := Working();
      HeaderRead(state, arenaSize, buf[..], fs, 0);
      HeaderRead(state, arenaSize, buf[..], fs, |fs| - 1);
      next := WordAt(buf[..], state.offHead + NEXT);
      headEnd := EndAt(buf[..], state.offHead);
      tailEnd := EndAt(buf[..], state.offTail);
    }

    /** The stores of remove_head up to its commit. */
    method DetachHead()
      requires Valid() && Working() != []
      modifies this`pages, this`trace
      ensures Consistent() && OnlySince(old(trace), trace, queue)
      ensures pages[committedIdx] == old(pages[committedIdx])
      ensures pages[1 - committedIdx] == DropHeadPage(old(pages[1 - committedIdx]), Working())
      ensures buf[..] == old(buf[..])
    {
      hide Good, ViewOf, Describes, Chronicle, Extends, WordAt;
      var state := pages[1 - committedIdx];
      var next, headEnd, tailEnd := ReadEnds();
      if state.offHead == state.offTail {
        StoreField(OffHead, 0);
        StoreField(OffTail, 0);
        StoreField(HighWater, WORKSPACE);
      } else {
        StoreField(OffHead, next);
        if state.highWater == headEnd {
          StoreField(HighWater, tailEnd);
        }
      }
      StoreField(SeqLow, state.seqLow + 1);
    }

    method RemoveHead()
      requires Valid() && Working() != []
      modifies this
      ensures Valid() && queue == old(Working())[1..] && pending == []
      ensures WorkingHigh() == CommittedHigh() == old(WorkingHigh())
      ensures arenaSize == old(arenaSize)
      ensures EvictedSince(old(trace), trace, old(queue), old(Working()), 1)
    {
      hide Describes, Chronicle, Extends;
      ghost var fs := Working();
      WorkingExtends(1);
      DropHeadDescribes(pages[1 - committedIdx], arenaSize, buf[..], fs);
      DetachHead();
      FlipCommitted(fs[1..]);
      CopyPage();
    }

    /** Where a frame of `size` bytes, header included, goes. */
    method FindSlot(size: nat) returns (r: Result<nat>)
      requires Valid()
      ensures r.Ok? <==> WORKSPACE + size <= arenaSize
      ensures r == if Fits(Working(), arenaSize, size)
                   then Ok(SlotFor(Working(), arenaSize, size)) else Err(FrameLarge)
      ensures r.Ok? ==>
        var w := Working();
        r.value == if w != [] && Align(End(Last(w))) + size < arenaSize then Align(End(Last(w))) else WORKSPACE
    {
      hide Chronicle, Extends, Describes, EndAt;
      WorkingSlot(size);
      var state := pages[1 - committedIdx];
      PageRead(state, arenaSize, buf[..], Working());
      var off: nat := WORKSPACE;
      if !Empty(state) {
        off := Align(EndAt(buf[..], state.offTail));
        if off + size >= arenaSize {
          off := WORKSPACE;
        }
      }
      r := if off + size > arenaSize then Err(FrameLarge) else Ok(off);
    }

    method SlotEvicts(off: nat, size: nat) returns (r: bool)
      requires Valid()
      ensures r == Evicts(Working(), off, size)
    {
      hide Chronicle, Extends, Describes, EndAt;
      var state := pages[1 - committedIdx];
      PageRead(state, arenaSize, buf[..], Working());
      if Empty(state) {
        return false;
      }
      var headEnd := EndAt(buf[..], state.offHead);
      if off < headEnd && state.offHead < off + size {
        return true;
      }
      if state.offTail < state.offHead && off == WORKSPACE {
        return true;
      }
      return false;
    }

    lemma DropStep(off: nat, size: nat)
      requires Valid() && Evicts(Working(), off, size) && SlotOk(Working(), off) && size >= FRAME_HDR
      ensures SlotOk(Working()[1..], off)
    {
      DropHead(Working(), arenaSize, off, size);
    }

    /** Removes old frames until the oldest one passes the test. */
    method Evict(off: nat, size: nat) returns (ghost k: nat)
      requires Valid()
      requires SlotOk(Working(), off) && size >= FRAME_HDR
      modifies this
      ensures Valid() && arenaSize == old(arenaSize)
      ensures k == Evictions(old(Working()), off, size)
      ensures Working() == old(Working())[k..] && SlotOk(Working(), off)
      ensures queue == (if k == 0 then old(queue) else Working())
      ensures pending == (if k == 0 then old(pending) else [])
      ensures WorkingHigh() == old(WorkingHigh())
      ensures EvictedSince(old(trace), trace, old(queue), old(Working()), k)
    {
      hide Valid, EvictedSince, SlotOk, Evicts, Evictions, WorkingHigh;
      ghost var fs, c, p, t := Working(), queue, pending, trace;
      k := 0;
      NoneEvicted(t, c, fs);
      var more := SlotEvicts(off, size);
      while more
        invariant Valid() && arenaSize == old(arenaSize)
        invariant k <= |fs| && Working() == fs[k..] && SlotOk(Working(), off)
        invariant Evictions(fs, off, size) == k + Evictions(fs[k..], off, size)
        invariant more == Evicts(Working(), off, size)
        invariant queue == if k == 0 then c else fs[k..]
        invariant pending == if k == 0 then p else []
        invariant WorkingHigh() == old(WorkingHigh())
        invariant EvictedSince(t, trace, c, fs, k)
        decreases |Working()|
      {
        ghost var t1 := trace;
        DropStep(off, size);
        EvictOne(fs, k, off, size);
        RemoveHead();
        EvictedSinceStep(t, t1, trace, c, fs, k);
        k := k + 1;
        more := SlotEvicts(off, size);
      }
    }

    /** memset of a frame header, word by word. */
    method ZeroHeader(off: nat)
      requires Consistent()
      requires off + FRAME_HDR <= buf.Length
      requires forall i :: 0 <= i < |queue| ==> Apart(off, off + FRAME_HDR, queue[i].off, End(queue[i]))
      modifies this`trace, buf
      ensures Consistent() && OnlySince(old(trace), trace, queue)
      ensures SameOutside(old(buf[..]), buf[..], off, off + FRAME_HDR)
    {
      hide Good, ViewOf, Chronicle, WordAt;
      StoreWord(off + SEQ, 0);
      StoreWord(off + OFF, 0);
      StoreWord(off + NEXT, 0);
      StoreWord(off + PREV, 0);
      StoreWord(off + SIZE, 0);
    }

    /** The rest of a header whose sequence number is already in place. */
    method FillHeader(off: nat, size: nat)
      requires Consistent()
      requires off + FRAME_HDR + size <= buf.Length < WORD_LIMIT
      requires forall i :: 0 <= i < |queue| ==> Apart(off, off + FRAME_HDR, queue[i].off, End(queue[i]))
      modifies this`trace, buf
      ensures Consistent() && OnlySince(old(trace), trace, queue)
      ensures SameOutside(old(buf[..]), buf[..], off, off + FRAME_HDR)
      ensures WordAt(buf[..], off + SEQ) == old(WordAt(buf[..], off + SEQ))
      ensures WordAt(buf[..], off + OFF) == off
      ensures WordAt(buf[..], off + SIZE) == size
    {
      hide Good, ViewOf, Chronicle, WordAt;
      ghost var m1 := buf[..];
      StoreWord(off + OFF, off);
      ghost var m2 := buf[..];
      StoreWord(off + NEXT, 0);
      StoreWord(off + SIZE, size);
      WordKept(m1, buf[..], off + SEQ);
      WordKept(m2, buf[..], off + OFF);
    }

    /** slot_init: numbers the frame and fills in its header. */
    method InitSlot(off: nat, size: nat)
      requires Consistent()
      requires off + FRAME_HDR + size <= buf.Length < WORD_LIMIT && WorkingHigh() + 1 < WORD_LIMIT
      requires forall i :: 0 <= i < |queue| ==> Apart(off, off + FRAME_HDR, queue[i].off, End(queue[i]))
      modifies this`pages, this`trace, buf
      ensures Consistent() && OnlySince(old(trace), trace, queue)
      ensures SameOutside(old(buf[..]), buf[..], off, off + FRAME_HDR)
      ensures pages[committedIdx] == old(pages[committedIdx])
      ensures var p := old(pages[1 - committedIdx]);
              pages[1 - committedIdx] ==
                p.(seqHigh := p.seqHigh + 1, seqLow := if p.seqLow == 0 then p.seqHigh + 1 else p.seqLow)
      ensures WordAt(buf[..], off + SEQ) == old(WorkingHigh()) + 1
      ensures WordAt(buf[..], off + OFF) == off
      ensures WordAt(buf[..], off + SIZE) == size
    {
      hide Good, ViewOf, Chronicle, WordAt;
      ZeroHeader(off);
      var state := pages[1 - committedIdx];
      StoreField(SeqHigh, state.seqHigh + 1);
      StoreWord(off + SEQ, state.seqHigh + 1);
      if state.seqLow == 0 {
        StoreField(SeqLow, state.seqHigh + 1);
      }
      FillHeader(off, size);
    }

    /** update_tail: links the new frame behind the last one of `fs`. */
    method UpdateTail(off: nat, ghost p: Page, ghost fs: seq<Frame>)
      requires Consistent()
      requires Describes(p, arenaSize, buf[..], fs) && queue <= fs
      requires pages[1 - committedIdx].offTail == p.offTail
      requires 0 < off && off + FRAME_HDR <= buf.Length < WORD_LIMIT
      requires forall i :: 0 <= i < |fs| ==> Apart(off, off + FRAME_HDR, fs[i].off, End(fs[i]))
      modifies this`pages, this`trace, buf
      ensures Consistent() && OnlySince(old(trace), trace, queue)
      ensures Describes(p, arenaSize, buf[..], fs)
      ensures pages[committedIdx] == old(pages[committedIdx])
      ensures pages[1 - committedIdx] == old(pages[1 - committedIdx]).(offTail := off)
      ensures WordAt(buf[..], off + SEQ) == old(WordAt(buf[..], off + SEQ))
      ensures WordAt(buf[..], off + OFF) == old(WordAt(buf[..], off + OFF))
      ensures WordAt(buf[..], off + SIZE) == old(WordAt(buf[..], off + SIZE))
      ensures fs != [] ==>
        && End(Last(fs)) <= buf.Length
        && WordAt(buf[..], Last(fs).off + NEXT) == off
        && WordAt(buf[..], off + PREV) == Last(fs).off
    {
      hide Good, ViewOf, Chronicle, WordAt, Harmless, Describes;
      ghost var m0 := buf[..];
      var tail := pages[1 - committedIdx].offTail;
      PageRead(p, arenaSize, m0, fs);
      TailOffset(p, arenaSize, m0, fs, |queue|);
      assert fs[..|queue|] == queue;
      if tail != 0 {
        StoreWord(tail + NEXT, off);
        ghost var m1 := buf[..];
        QueueKept(p, arenaSize, m0, m1, fs, tail + NEXT, tail + NEXT + WORD);
        HeaderKept(m0, m1, off, tail + NEXT);
        StoreLink(off, tail, p, fs);
      }
      StoreField(OffTail, off);
    }

    /** The link back from the new frame. */
    method StoreLink(off: nat, tail: nat, ghost p: Page, ghost fs: seq<Frame>)
      requires Consistent()
      requires Describes(p, arenaSize, buf[..], fs) && queue <= fs
      requires fs != [] && tail == Last(fs).off && End(Last(fs)) <= buf.Length < WORD_LIMIT
      requires off + FRAME_HDR <= buf.Length
      requires forall i :: 0 <= i < |fs| ==> Apart(off, off + FRAME_HDR, fs[i].off, End(fs[i]))
      modifies this`trace, buf
      ensures Consistent() && OnlySince(old(trace), trace, queue)
      ensures Describes(p, arenaSize, buf[..], fs)
      ensures WordAt(buf[..], off + SEQ) == old(WordAt(buf[..], off + SEQ))
      ensures WordAt(buf[..], off + OFF) == old(WordAt(buf[..], off + OFF))
      ensures WordAt(buf[..], off + SIZE) == old(WordAt(buf[..], off + SIZE))
      ensures WordAt(buf[..], tail + NEXT) == old(WordAt(buf[..], tail + NEXT))
      ensures WordAt(buf[..], off + PREV) == tail
    {
      hide Good, ViewOf, Chronicle, WordAt, Describes;
      ghost var m0 := buf[..];
      StoreWord(off + PREV, tail);
      QueueKept(p, arenaSize, m0, buf[..], fs, off + PREV, off + PREV + WORD);
      WordKept(m0, buf[..], off + SEQ);
      WordKept(m0, buf[..], off + OFF);
      WordKept(m0, buf[..], off + SIZE);
      WordKept(m0, buf[..], tail + NEXT);
    }

    /** maybe_set_head, update_tail and update_high_water_mark. */
    method LinkSlot(off: nat, ghost p: Page, ghost fs: seq<Frame>)
      requires Consistent()
      requires Describes(p, arenaSize, buf[..], fs) && queue <= fs
      requires pages[1 - committedIdx] ==
                 p.(seqHigh := p.seqHigh + 1, seqLow := if p.seqLow == 0 then p.seqHigh + 1 else p.seqLow)
      requires p.offHead == 0 <==> fs == []
      requires 0 < off && off + FRAME_HDR <= buf.Length < WORD_LIMIT
      requires forall i :: 0 <= i < |fs| ==> Apart(off, off + FRAME_HDR, fs[i].off, End(fs[i]))
      modifies this`pages, this`trace, buf
      ensures Consistent() && OnlySince(old(trace), trace, queue)
      ensures Describes(p, arenaSize, buf[..], fs)
      ensures pages[committedIdx] == old(pages[committedIdx])
      ensures WordAt(buf[..], off + SEQ) == old(WordAt(buf[..], off + SEQ))
      ensures WordAt(buf[..], off + OFF) == old(WordAt(buf[..], off + OFF))
      ensures WordAt(buf[..], off + SIZE) == old(WordAt(buf[..], off + SIZE))
      ensures fs != [] ==>
        && End(Last(fs)) <= buf.Length
        && WordAt(buf[..], Last(fs).off + NEXT) == off
        && WordAt(buf[..], off + PREV) == Last(fs).off
      ensures pages[1 - committedIdx] ==
                Page(if p.seqLow == 0 then p.seqHigh + 1 else p.seqLow,
                     p.seqHigh + 1,
                     if fs == [] then off else p.offHead,
                     off,
                     if p.highWater < EndAt(buf[..], off) then EndAt(buf[..], off) else p.highWater)
    {
      hide Good, ViewOf, Chronicle, WordAt, Describes, Apart, EndAt;
      if pages[1 - committedIdx].offHead == 0 {
        StoreField(OffHead, off);
      }
      UpdateTail(off, p, fs);
      var end := EndAt(buf[..], off);
      if pages[1 - committedIdx].highWater < end {
        StoreField(HighWater, end);
      }
    }

    /** The part of alloc after eviction: fills the freed slot and appends it. */
    method Append(off: nat, size: nat)
      requires Valid() && WorkingHigh() + 1 < WORD_LIMIT
      requires SlotOk(Working(), off) && off + FRAME_HDR + size <= arenaSize
      requires !Evicts(Working(), off, FRAME_HDR + size)
      modifies this`pages, this`pending, this`trace, buf
      ensures Valid() && OnlySince(old(trace), trace, queue)
      ensures |pending| == old(|pending|) + 1 && pending[..old(|pending|)] == old(pending)
      ensures Last(pending).num == old(WorkingHigh()) + 1 == WorkingHigh()
      ensures Last(pending).off == off && |Last(pending).data| == size
      ensures pages[committedIdx] == old(pages[committedIdx])
    {
      hide Good, ViewOf, Chronicle, WordAt, Describes, EndAt, SlotOk, Evicts, Apart, SameOutside, Harmless;
      ghost var fs, m0 := Working(), buf[..];
      ghost var p := pages[1 - committedIdx];
      assert forall i :: 0 <= i < |queue| ==> queue[i] == fs[i];
      SlotFree(p, arenaSize, m0, fs, off, size);
      InitSlot(off, size);
      QueueKept(p, arenaSize, m0, buf[..], fs, off, off + FRAME_HDR);
      ghost var f := JoinSlot(off, size, p, fs);
      pending := pending + [f];
      assert Working() == fs + [f];
    }

    /** Links the filled slot: the working page then describes the queue with the new frame. */
    method JoinSlot(off: nat, size: nat, ghost p: Page, ghost fs: seq<Frame>) returns (ghost f: Frame)
      requires Consistent() && Describes(p, arenaSize, buf[..], fs) && queue <= fs
      requires pages[1 - committedIdx] ==
                 p.(seqHigh := p.seqHigh + 1, seqLow := if p.seqLow == 0 then p.seqHigh + 1 else p.seqLow)
      requires p.offHead == 0 <==> fs == []
      requires 0 < off && off + FRAME_HDR + size <= arenaSize <= buf.Length < WORD_LIMIT
      requires forall i :: 0 <= i < |fs| ==> Apart(off, off + FRAME_HDR, fs[i].off, End(fs[i]))
      requires SlotOk(fs, off) && !Evicts(fs, off, FRAME_HDR + size)
      requires WordAt(buf[..], off + SEQ) == p.seqHigh + 1 && WordAt(buf[..], off + OFF) == off
      requires WordAt(buf[..], off + SIZE) == size
      modifies this`pages, this`trace, buf
      ensures Consistent() && OnlySince(old(trace), trace, queue)
      ensures pages[committedIdx] == old(pages[committedIdx]) && pages[1 - committedIdx].seqHigh == p.seqHigh + 1
      ensures Describes(pages[1 - committedIdx], arenaSize, buf[..], fs + [f])
      ensures f.num == p.seqHigh + 1 && f.off == off && |f.data| == size
    {
      hide Good, ViewOf, Chronicle, WordAt, Describes, EndAt, Stored, SlotOk, Evicts, Apart, NewFrame;
      LinkSlot(off, p, fs);
      f := NewFrame(buf[..], off, size, p.seqHigh + 1);
      AppendDescribes(p, arenaSize, buf[..], fs, f);
    }

    /** Reserves a frame for `size` bytes. The result is its offset. */
    method Alloc(size: nat) returns (r: Result<nat>, ghost k: nat)
      requires Valid() && WorkingHigh() + 1 < WORD_LIMIT
      modifies this, buf
      ensures Valid() && arenaSize == old(arenaSize)
      ensures r == if Fits(old(Working()), arenaSize, FRAME_HDR + size)
                   then Ok(SlotFor(old(Working()), arenaSize, FRAME_HDR + size)) else Err(FrameLarge)
      ensures r.Ok? <==> WORKSPACE + FRAME_HDR + size <= arenaSize
      ensures r.Ok? ==>
        var w := old(Working());
        && r.value == (if w != [] && Align(End(Last(w))) + FRAME_HDR + size < arenaSize
                       then Align(End(Last(w))) else WORKSPACE)
        && Removes(w, r.value, FRAME_HDR + size, k)
      ensures r.Err? ==>
        && queue == old(queue) && pending == old(pending) && trace == old(trace)
        && Snap() == old(Snap()) && CommittedHigh() == old(CommittedHigh())
      ensures r.Ok? ==>
        && k == Evictions(old(Working()), r.value, FRAME_HDR + size)
        && queue == (if k == 0 then old(queue) else old(Working())[k..])
        && |pending| == (if k == 0 then old(|pending|) else 0) + 1
        && Working() == old(Working())[k..] + [Last(pending)]
        && Last(pending).num == old(WorkingHigh()) + 1 == WorkingHigh()
        && Last(pending).off == r.value && |Last(pending).data| == size
        && EvictedSince(old(trace), trace, old(queue), old(Working()), k)
    {
      hide Valid, WorkingHigh, EvictedSince, SlotOk, Evicts, SlotFor, Fits, Evictions, Removes, Align, End;
      ghost var w, t0 := Working(), trace;
      WorkingSlot(FRAME_HDR + size);
      k := 0;
      r := FindSlot(FRAME_HDR + size);
      if r.Ok? {
        WorkingEvictions(FRAME_HDR + size);
        k := Evict(r.value, FRAME_HDR + size);
        ghost var t1, p1 := trace, pending;
        Append(r.value, size);
        EvictedThenOnly(t0, t1, trace, old(queue), w, k, queue);
        OneAppended(p1, pending);
        OneAppendedTo(queue, p1, pending);
      }
    }

    lemma NothingPending()
      requires Valid() && pending == []
      ensures Working() == queue
    {
    }

    lemma Usable()
      requires Valid()
      ensures Consistent()
    {
    }

    lemma WorkingSlot(size: nat)
      requires Valid()
      ensures SlotOk(Working(), SlotFor(Working(), arenaSize, size))
      ensures Fits(Working(), arenaSize, size) <==> WORKSPACE + size <= arenaSize
      ensures var w := Working();
              SlotFor(w, arenaSize, size) ==
                if w != [] && Align(End(Last(w))) + size < arenaSize then Align(End(Last(w))) else WORKSPACE
    {
      hide Align;
      SlotIsOk(Working(), arenaSize, size);
      FitsBySize(Working(), arenaSize, size);
    }

    lemma WorkingEvictions(size: nat)
      requires Valid() && FRAME_HDR <= size && WORKSPACE + size <= arenaSize
      ensures var off := SlotFor(Working(), arenaSize, size);
              Removes(Working(), off, size, Evictions(Working(), off, size))
    {
      hide Chronicle, Good, SlotFor, Fits, Evictions, Removes;
      WorkingSlot(size);
      SlotFits(size);
      EvictsInTheWay(Working(), arenaSize, SlotFor(Working(), arenaSize, size), size);
    }

    lemma SlotFits(size: nat)
      requires Fits(Working(), arenaSize, size)
      ensures SlotFor(Working(), arenaSize, size) + size <= arenaSize
    {
    }

    /** Whether Alloc would evict; it fails exactly when Alloc does. */
    method AllocEvicts(size: nat) returns (r: Result<bool>)
      requires Valid()
      ensures r == if Fits(Working(), arenaSize, FRAME_HDR + size)
                   then Ok(Evictions(Working(), SlotFor(Working(), arenaSize, FRAME_HDR + size), FRAME_HDR + size) > 0)
                   else Err(FrameLarge)
      ensures r.Ok? <==> WORKSPACE + FRAME_HDR + size <= arenaSize
      ensures r.Ok? ==>
        var w := Working();
        var off := if w != [] && Align(End(Last(w))) + FRAME_HDR + size < arenaSize
                   then Align(End(Last(w))) else WORKSPACE;
        !r.value <==> forall j :: 0 <= j < |w| ==>
          (End(w[j]) <= off || off + FRAME_HDR + size <= w[j].off) && (off == WORKSPACE ==> w[j].off <= Last(w).off)
    {
      hide Valid, Evicts, Evictions, SlotFor, Removes, Align, End;
      WorkingSlot(FRAME_HDR + size);
      if WORKSPACE + FRAME_HDR + size <= arenaSize {
        WorkingEvictions(FRAME_HDR + size);
        ghost var off := SlotFor(Working(), arenaSize, FRAME_HDR + size);
        RemovesMeans(Working(), off, FRAME_HDR + size, Evictions(Working(), off, FRAME_HDR + size));
      }
      var slot := FindSlot(FRAME_HDR + size);
      if slot.Err? {
        return Err(slot.error);
      }
      var evicts := SlotEvicts(slot.value, FRAME_HDR + size);
      r := Ok(evicts);
    }

    /** The caller's store into the payload of a frame it has allocated at `off`. */
    method StorePayload(off: nat, j: nat, b: byte, ghost i: nat)
      requires Valid()
      requires i < |pending| && off == pending[i].off && j < |pending[i].data|
      modifies this`pending, this`trace, buf
      ensures Valid() && OnlySince(old(trace), trace, queue)
      ensures pending == WithByte(old(pending), i, j, b)
    {
      hide Good, ViewOf, Chronicle, Describes, WordAt;
      ghost var p, m, w := pages[1 - committedIdx], buf[..], Working();
      PendingApart(i, off + FRAME_HDR + j);
      PayloadStored(p, arenaSize, m, w, |queue| + i, j, b);
      StoreByte(off + FRAME_HDR + j, b);
      pending := WithByte(pending, i, j, b);
      assert Working() == WithByte(w, |queue| + i, j, b);
    }

    lemma PendingApart(i: nat, at: nat)
      requires Valid() && i < |pending|
      requires pending[i].off <= at < End(pending[i])
      ensures at < buf.Length && Harmless(queue, at, at + 1)
    {
      hide Chronicle, Good, Decode, Live;
      var w := Working();
      var n := |queue|;
      forall k | 0 <= k < n
        ensures Apart(at, at + 1, queue[k].off, End(queue[k]))
      {
        LiveDisjoint(pages[1 - committedIdx], arenaSize, w, k, n + i);
      }
      assert Linked(buf[..], w, n + i);
    }

    /** Copies `data` into the frame allocated last. */
    method Fill(off: nat, data: seq<byte>)
      requires Valid() && pending != []
      requires off == Last(pending).off && |data| == |Last(pending).data|
      modifies this`pending, this`trace, buf
      ensures Valid() && OnlySince(old(trace), trace, queue)
      ensures |pending| == old(|pending|)
      ensures pending[..|pending| - 1] == old(pending[..|pending| - 1])
      ensures Last(pending) == old(Last(pending)).(data := data)
    {
      hide Valid;
      ghost var n := |pending| - 1;
      var j := 0;
      while j < |data|
        invariant j <= |data| && Valid() && OnlySince(old(trace), trace, queue)
        invariant |pending| == n + 1 && pending[..n] == old(pending[..n])
        invariant Last(pending).num == old(Last(pending)).num && Last(pending).off == off
        invariant |Last(pending).data| == |data| && Last(pending).data[..j] == data[..j]
      {
        StorePayload(off, j, data[j], n);
        j := j + 1;
      }
      assert Last(pending).data == data;
    }

    lemma WorkingOffsets()
      requires Valid()
      ensures forall i :: 0 <= i < |Working()| ==> WORKSPACE <= Working()[i].off
    {
    }

    method UsedSpace() returns (used: nat)
      requires Valid()
      ensures IsHighWater(Working(), used)
    {
      used := pages[1 - committedIdx].highWater;
    }

    /** Changes the arena size unless a live frame, or one not committed yet, would no
        longer fit. */
    method Resize(size: nat) returns (r: Result<()>)
      requires Valid() && size <= buf.Length
      modifies this`arenaSize, this`trace
      ensures Valid() && OnlySince(old(trace), trace, queue)
      ensures r.Ok? <==> WORKSPACE <= size && forall f :: f in Working() ==> End(f) <= size
      ensures r == Ok(()) || r == Err(InvalidArg)
      ensures arenaSize == if r.Ok? then size else old(arenaSize)
    {
      hide Chronicle, Good, ViewOf, Describes, IsHighWater;
      ghost var p, m, w := pages[1 - committedIdx], buf[..], Working();
      WorkingOffsets();
      var used := UsedSpace();
      HighWaterBound(w, used, size);
      if size < used {
        return Err(InvalidArg);
      }
      assert forall i :: 0 <= i < |queue| ==> queue[i] == w[i];
      ResizeDescribes(p, arenaSize, size, m, w);
      StoreArenaSize(size);
      r := Ok(());
    }

    /** The stores of clear up to its commit. */
    method ClearPage()
      requires Consistent()
      modifies this`pages, this`trace
      ensures Consistent() && OnlySince(old(trace), trace, queue)
      ensures pages[committedIdx] == old(pages[committedIdx])
      ensures pages[1 - committedIdx] == Page(old(WorkingHigh()) + 1, old(WorkingHigh()), 0, 0, WORKSPACE)
    {
      hide Good, ViewOf, Chronicle;
      StoreField(SeqLow, pages[1 - committedIdx].seqHigh + 1);
      StoreField(OffHead, 0);
      StoreField(OffTail, 0);
      StoreField(HighWater, WORKSPACE);
    }

    /** Drops every frame. */
    method Clear()
      requires Valid()
      modifies this
      ensures Valid() && queue == [] && pending == []
      ensures CommittedHigh() == WorkingHigh() == old(WorkingHigh()) && arenaSize == old(arenaSize)
      ensures EitherSince(old(trace), trace, old(queue), [])
    {
      hide Chronicle, Describes;
      ghost var t, p := trace, pages[committedIdx];
      var state := pages[1 - committedIdx];
      ClearedPage(p, arenaSize, buf[..], queue, state.seqHigh);
      ClearPage();
      ghost var t1 := trace;
      FlipCommitted([]);
      CopyPage();
      OnlyEither(t, t1, trace, old(queue), []);
    }

    /** The part of a write under a lock that has just been taken: one frame reserved, filled and
        committed, and the lock given back. */
    method WriteHeld(data: seq<byte>) returns (r: Result<nat>, ghost k: nat)
      requires Valid() && pending == [] && CommittedHigh() + 1 < WORD_LIMIT
      modifies this, buf
      ensures Valid() && pending == [] && arenaSize == old(arenaSize)
      ensures CommittedHigh() == WorkingHigh() == old(CommittedHigh()) + if r.Ok? then 1 else 0
      ensures r == if Fits(old(queue), arenaSize, FRAME_HDR + |data|)
                   then Ok(SlotFor(old(queue), arenaSize, FRAME_HDR + |data|)) else Err(FrameLarge)
      ensures r.Ok? <==> WORKSPACE + FRAME_HDR + |data| <= arenaSize
      ensures r.Err? ==> queue == old(queue) && OnlySince(old(trace), trace, queue)
      ensures r.Ok? ==>
        && k == Evictions(old(queue), r.value, FRAME_HDR + |data|)
        && r.value == (if old(queue) != [] && Align(End(Last(old(queue)))) + FRAME_HDR + |data| < arenaSize
                       then Align(End(Last(old(queue)))) else WORKSPACE)
        && Removes(old(queue), r.value, FRAME_HDR + |data|, k)
        && queue == old(queue)[k..] + [Frame(old(CommittedHigh()) + 1, r.value, data)]
        && WriteSteps(old(trace), trace, old(queue), k, Frame(old(CommittedHigh()) + 1, r.value, data))
    {
      hide Consistent, Describes, OnlySince, EvictedSince, WriteSteps, Evictions, Evicts, SlotFor, Removes, Align;
      ghost var c, t1 := queue, trace;
      assert Working() == c && WorkingHigh() == CommittedHigh();
      r, k := Alloc(|data|);
      ghost var t2 := trace;
      if r.Ok? {
        ghost var f := Frame(old(CommittedHigh()) + 1, r.value, data);
        Fill(r.value, data);
        ghost var t3 := trace;
        assert Working() == c[k..] + [f];
        Commit();
        ghost var t4 := trace;
        Unlock();
        WriteRecorded(t1, t2, t3, t4, trace, c, k, f);
      } else {
        Unlock();
      }
    }

    /** One whole write, from taking the lock in whatever state the previous owner left to
        releasing it. `trace` says what a death after any of its stores leaves behind. */
    method Write(data: seq<byte>) returns (r: Result<nat>, ghost k: nat)
      requires Consistent() && CommittedHigh() + 1 < WORD_LIMIT
      modifies this, buf
      ensures Valid() && pending == [] && arenaSize == old(arenaSize)
      ensures CommittedHigh() == WorkingHigh() == old(CommittedHigh()) + if r.Ok? then 1 else 0
      ensures r == if Fits(old(queue), arenaSize, FRAME_HDR + |data|)
                   then Ok(SlotFor(old(queue), arenaSize, FRAME_HDR + |data|)) else Err(FrameLarge)
      ensures r.Ok? <==> WORKSPACE + FRAME_HDR + |data| <= arenaSize
      ensures r.Err? ==> queue == old(queue) && OnlySince(old(trace), trace, queue)
      ensures r.Ok? ==>
        && k == Evictions(old(queue), r.value, FRAME_HDR + |data|)
        && r.value == (if old(queue) != [] && Align(End(Last(old(queue)))) + FRAME_HDR + |data| < arenaSize
                       then Align(End(Last(old(queue)))) else WORKSPACE)
        && Removes(old(queue), r.value, FRAME_HDR + |data|, k)
        && queue == old(queue)[k..] + [Frame(old(CommittedHigh()) + 1, r.value, data)]
        && WriteSteps(old(trace), trace, old(queue), k, Frame(old(CommittedHigh()) + 1, r.value, data))
    {
      hide Valid, Consistent, WorkingHigh, CommittedHigh, OnlySince, EvictedSince, WriteSteps, Evictions, Evicts;
      hide SlotFor, Removes, Align;
      ghost var c, t0 := queue, trace;
      Lock();
      ghost var t1 := trace;
      r, k := WriteHeld(data);
      if r.Ok? {
        LockedThenWritten(t0, t1, trace, c, k, Frame(old(CommittedHigh()) + 1, r.value, data));
      } else {
        OnlySinceTransitive(t0, t1, trace, c);
      }
    }
  }

  lemma LockedThenWritten(t0: seq<Entry>, t1: seq<Entry>, t2: seq<Entry>, c: seq<Frame>, k: nat, f: Frame)
    requires k <= |c| && OnlySince(t0, t1, c) && WriteSteps(t1, t2, c, k, f)
    ensures WriteSteps(t0, t2, c, k, f)
  {
    assert c[0..] == c;
  }

  lemma OneAppended(s: seq<Frame>, t: seq<Frame>)
    requires |t| == |s| + 1 && t[..|s|] == s
    ensures t == s + [Last(t)]
  {
  }

  lemma OneAppendedTo(q: seq<Frame>, s: seq<Frame>, t: seq<Frame>)
    requires t != [] && t == s + [Last(t)]
    ensures q + t == q + s + [Last(t)]
  {
  }

  lemma WriteRecorded(t1: seq<Entry>, t2: seq<Entry>, t3: seq<Entry>, t4: seq<Entry>,
                      t5: seq<Entry>, c: seq<Frame>, k: nat, f: Frame)
    requires k <= |c| && EvictedSince(t1, t2, c, c, k)
    requires OnlySince(t2, t3, c[k..]) && OnlySince(t3, t4, c[k..] + [f]) && OnlySince(t4, t5, c[k..] + [f])
    ensures WriteSteps(t1, t5, c, k, f)
  {
    assert c[0..] == c;
    forall i | |t1| <= i < |t5|
      ensures t5[i].queue == c[k..] + [f] || exists j :: 0 <= j <= k && t5[i].queue == c[j..]
    {
      if i < |t2| {
        assert t5[i] == t2[i];
      } else if i < |t3| {
        assert t5[i] == t3[i];
      } else if i < |t4| {
        assert t5[i] == t4[i];
      }
    }
  }

  lemma ClearedPage(p: Page, arenaSize: nat, m: seq<byte>, fs: seq<Frame>, high: nat)
    requires Describes(p, arenaSize, m, fs)
    ensures Describes(Page(high + 1, high, 0, 0, WORKSPACE), arenaSize, m, [])
  {
    assert WrapsAt([], 0);
  }

  lemma OnlyEither(t0: seq<Entry>, t1: seq<Entry>, t2: seq<Entry>, q1: seq<Frame>, q2: seq<Frame>)
    requires OnlySince(t0, t1, q1) && OnlySince(t1, t2, q2)
    ensures EitherSince(t0, t2, q1, q2)
  {
  }

  lemma EvictedThenOnly(t0: seq<Entry>, t1: seq<Entry>, t2: seq<Entry>, c: seq<Frame>, w: seq<Frame>,
                        k: nat, q: seq<Frame>)
    requires k <= |w| && EvictedSince(t0, t1, c, w, k) && OnlySince(t1, t2, q)
    requires q == if k == 0 then c else w[k..]
    ensures EvictedSince(t0, t2, c, w, k)
  {
  }

  ghost function NewFrame(m: seq<byte>, off: nat, size: nat, num: nat): (f: Frame)
    requires off + FRAME_HDR + size <= |m|
    requires WordAt(m, off + SEQ) == num && WordAt(m, off + OFF) == off && WordAt(m, off + SIZE) == size
    ensures Stored(m, f) && f.num == num && f.off == off && |f.data| == size
    ensures End(f) == EndAt(m, off) == off + FRAME_HDR + size
  {
    Frame(num, off, m[off + FRAME_HDR..off + FRAME_HDR + size])
  }

  lemma SlotFree(p: Page, arenaSize: nat, m: seq<byte>, fs: seq<Frame>, off: nat, size: nat)
    requires Describes(p, arenaSize, m, fs)
    requires SlotOk(fs, off) && off + FRAME_HDR + size <= arenaSize
    requires !Evicts(fs, off, FRAME_HDR + size)
    ensures forall i :: 0 <= i < |fs| ==> Apart(off, off + FRAME_HDR, fs[i].off, End(fs[i]))
    ensures Harmless(fs, off, off + FRAME_HDR)
    ensures p.offHead == 0 <==> fs == []
    ensures WORKSPACE <= off && arenaSize <= |m| < WORD_LIMIT
  {
  }

  lemma TailOffset(p: Page, arenaSize: nat, m: seq<byte>, fs: seq<Frame>, n: nat)
    requires Describes(p, arenaSize, m, fs) && n <= |fs|
    ensures p.offTail == 0 <==> fs == []
    ensures fs != [] ==>
      && Harmless(fs, p.offTail + NEXT, p.offTail + NEXT + WORD)
      && Harmless(fs[..n], p.offTail + NEXT, p.offTail + NEXT + WORD)
  {
  }

  lemma HeaderKept(m: seq<byte>, m': seq<byte>, off: nat, at: nat)
    requires off + FRAME_HDR <= |m| && SameOutside(m, m', at, at + WORD)
    requires Apart(off, off + FRAME_HDR, at, at + WORD)
    ensures WordAt(m', off + SEQ) == WordAt(m, off + SEQ)
    ensures WordAt(m', off + OFF) == WordAt(m, off + OFF)
    ensures WordAt(m', off + SIZE) == WordAt(m, off + SIZE)
  {
    WordKept(m, m', off + SEQ);
    WordKept(m, m', off + OFF);
    WordKept(m, m', off + SIZE);
  }

  lemma NoneEvicted(t: seq<Entry>, c: seq<Frame>, w: seq<Frame>)
    ensures EvictedSince(t, t, c, w, 0) && w[0..] == w
  {
  }

  /** The lock taken by the first process to come after a death: the queue is the one the
      last store before the death left committed, and both pages describe it. */
  method Recover(buf: array<byte>, pages: seq<Page>, committedIdx: nat, arenaSize: nat, ghost t: seq<Entry>)
    returns (a: Arena)
    requires Chronicle(t) && t != []
    requires t[|t| - 1].snap == Snapshot(pages, committedIdx, arenaSize, buf[..])
    ensures fresh(a) && a.buf == buf && a.Valid() && a.pending == []
    ensures a.queue == t[|t| - 1].queue && t <= a.trace
  {
    a := new Arena.Resume(buf, pages, committedIdx, arenaSize, t);
    a.Lock();
  }

  /** A writer that dies after any store of its write: the next lock finds its queue less some of its
      oldest frames, or the survivors with the whole new frame behind them, and every surviving frame as
      it was. `t` is the record of the write, and `i` the store that was its last. */
  method RecoverWrite(buf: array<byte>, pages: seq<Page>, committedIdx: nat, arenaSize: nat,
                      ghost t0: seq<Entry>, ghost t: seq<Entry>, ghost i: nat,
                      ghost c: seq<Frame>, ghost k: nat, ghost f: Frame)
    returns (a: Arena)
    requires Chronicle(t) && k <= |c| && WriteSteps(t0, t, c, k, f) && |t0| <= i < |t|
    requires t[i].snap == Snapshot(pages, committedIdx, arenaSize, buf[..])
    ensures fresh(a) && a.buf == buf && a.Valid() && a.pending == []
    ensures a.queue == c[k..] + [f] || exists j :: 0 <= j <= k && a.queue == c[j..]
  {
    ghost var past := t[..i + 1];
    ChroniclePrefix(t, i + 1);
    assert past[|past| - 1] == t[i];
    a := Recover(buf, pages, committedIdx, arenaSize, past);
  }

  /** Two frames of ten bytes in a fresh arena: each gets a slot of its own, the second right after the
      first, and nothing has to go, nor would for a third. */
  method TwoWrites(buf: array<byte>, data1: seq<byte>, data2: seq<byte>) returns (a: Arena, evicts: Result<bool>)
    requires buf.Length == 4096 && |data1| == |data2| == 10
    modifies buf
    ensures a.Valid() && a.queue == [Frame(1, 144, data1), Frame(2, 208, data2)]
    ensures evicts == Ok(false)
  {
    hide Arena.Valid, Arena.Consistent, WriteSteps, OnlySince, Evictions, SlotFor, Fits, Removes, Evicts, Align;
    a := new Arena(buf);
    var r1, k1 := a.Write(data1);
    NoneRemoved([], 144, 50, k1);
    assert a.queue == [Frame(1, 144, data1)];
    a.Usable();
    NextSlots(a.queue);
    var r2, k2 := a.Write(data2);
    NoneRemoved([Frame(1, 144, data1)], 208, 50, k2);
    assert a.queue == [Frame(1, 144, data1), Frame(2, 208, data2)];
    NextSlots(a.queue);
    a.NothingPending();
    evicts := a.AllocEvicts(10);
  }

  lemma NoneRemoved(fs: seq<Frame>, off: nat, size: nat, k: nat)
    requires Removes(fs, off, size, k)
    requires off != WORKSPACE || fs == []
    requires forall j :: 0 <= j < |fs| ==> End(fs[j]) <= off
    ensures k == 0
  {
    RemovesMeans(fs, off, size, k);
  }

  lemma NextSlots(fs: seq<Frame>)
    requires fs != []
    ensures End(Last(fs)) == 194 ==> Align(End(Last(fs))) == 208
    ensures End(Last(fs)) == 258 ==> Align(End(Last(fs))) == 272
  {
  }

  lemma ChroniclePrefix(t: seq<Entry>, n: nat)
    requires Chronicle(t) && n <= |t|
    ensures Chronicle(t[..n])
  {
  }
}

/** What a state page and the arena bytes say about the queue of frames: where the
    frames lie, how they are linked, which slot a new frame gets, and why testing the
    oldest frame alone is enough to free that slot. */
module Frames {
  import opened Bytes

  /** sizeof(a0_transport_hdr_t), already a multiple of the maximal alignment. */
  const WORKSPACE: nat := 144
  const ALIGNMENT: nat := 16

  /** sizeof(a0_transport_frame_hdr_t) and the offsets of its five words. */
  const FRAME_HDR: nat := 40
  const SEQ: nat := 0
  const OFF: nat := 8
  const NEXT: nat := 16
  const PREV: nat := 24
  const SIZE: nat := 32

  /** One of the two state pages of the transport header. */
  datatype Page = Page(seqLow: nat, seqHigh: nat, offHead: nat, offTail: nat, highWater: nat)

  const FRESH_PAGE := Page(0, 0, 0, 0, WORKSPACE)

  /** A frame as its reader sees it. */
  datatype Frame = Frame(num: nat, off: nat, data: seq<byte>)

  function Align(off: nat): nat {
    (off + ALIGNMENT - 1) / ALIGNMENT * ALIGNMENT
  }

  function End(f: Frame): nat {
    f.off + FRAME_HDR + |f.data|
  }

  function Last(fs: seq<Frame>): Frame
    requires fs != []
  {
    fs[|fs| - 1]
  }

  predicate Empty(p: Page) {
    p.seqHigh == 0 || p.seqLow > p.seqHigh
  }

  // ----- Layout ---------------------------------------------------------------------

  predicate Apart(lo1: nat, hi1: nat, lo2: nat, hi2: nat) {
    hi1 <= lo2 || hi2 <= lo1
  }

  ghost predicate Placed(fs: seq<Frame>, arenaSize: nat) {
    forall i :: 0 <= i < |fs| ==>
      fs[i].off >= WORKSPACE && fs[i].off % ALIGNMENT == 0 && End(fs[i]) <= arenaSize
  }

  /** The first `w` frames ascend, the rest ascend, and all of the rest lie below all of
      the first `w`: the queue wraps at most once. */
  ghost predicate WrapsAt(fs: seq<Frame>, w: nat) {
    && (fs != [] ==> 1 <= w)
    && w <= |fs|
    && (forall i, j :: 0 <= i < j < w ==> End(fs[i]) <= fs[j].off)
    && (forall i, j :: w <= i < j < |fs| ==> End(fs[i]) <= fs[j].off)
    && (forall i, j :: 0 <= i < w <= j < |fs| ==> End(fs[j]) <= fs[i].off)
  }

  ghost predicate Wraps(fs: seq<Frame>) {
    exists w: nat :: WrapsAt(fs, w)
  }

  ghost predicate Numbered(fs: seq<Frame>, low: nat) {
    forall i :: 0 <= i < |fs| ==> fs[i].num == low + i
  }

  /** The largest end offset of any frame, or the workspace start when there is none. */
  ghost predicate IsHighWater(fs: seq<Frame>, mark: nat) {
    if fs == [] then mark == WORKSPACE
    else
      && (forall i :: 0 <= i < |fs| ==> End(fs[i]) <= mark)
      && (exists i :: 0 <= i < |fs| && End(fs[i]) == mark)
  }

  /** Page `p` of an arena of `arenaSize` bytes describes exactly the frames `fs`. */
  ghost predicate Live(p: Page, arenaSize: nat, fs: seq<Frame>) {
    && Placed(fs, arenaSize)
    && Wraps(fs)
    && IsHighWater(fs, p.highWater)
    && (if fs == [] then
          p.offHead == 0 && p.offTail == 0 &&
          (p.seqLow == p.seqHigh + 1 || (p.seqLow == 0 && p.seqHigh == 0))
        else
          && p.seqLow >= 1
          && p.seqHigh == p.seqLow + |fs| - 1
          && Numbered(fs, p.seqLow)
          && p.offHead == fs[0].off
          && p.offTail == Last(fs).off)
  }

  lemma EmptyExactly(p: Page, arenaSize: nat, fs: seq<Frame>)
    requires Live(p, arenaSize, fs)
    ensures Empty(p) <==> fs == []
  {
  }

  /** Live frames never overlap. */
  lemma LiveDisjoint(p: Page, arenaSize: nat, fs: seq<Frame>, i: nat, j: nat)
    requires Live(p, arenaSize, fs)
    requires i < j < |fs|
    ensures Apart(fs[i].off, End(fs[i]), fs[j].off, End(fs[j]))
  {
  }

  // ----- The frames in memory -------------------------------------------------------

  /** The words of the header of `f` that every reader relies on, and its payload. */
  ghost predicate Stored(m: seq<byte>, f: Frame) {
    && End(f) <= |m|
    && WordAt(m, f.off + SEQ) == f.num
    && WordAt(m, f.off + OFF) == f.off
    && WordAt(m, f.off + SIZE) == |f.data|
    && m[f.off + FRAME_HDR..End(f)] == f.data
  }

  /** Frame `i` of the queue is stored and linked to its neighbours. The link forward from
      the last frame and the one back from the first are not read and may hold anything. */
  ghost predicate Linked(m: seq<byte>, fs: seq<Frame>, i: nat)
    requires i < |fs|
  {
    && Stored(m, fs[i])
    && (i < |fs| - 1 ==> WordAt(m, fs[i].off + NEXT) == fs[i + 1].off)
    && (i > 0 ==> WordAt(m, fs[i].off + PREV) == fs[i - 1].off)
  }

  ghost predicate InMemory(m: seq<byte>, fs: seq<Frame>) {
    forall i: nat :: i < |fs| ==> Linked(m, fs, i)
  }

  ghost predicate Describes(p: Page, arenaSize: nat, m: seq<byte>, fs: seq<Frame>) {
    && arenaSize <= |m| < WORD_LIMIT
    && Live(p, arenaSize, fs)
    && InMemory(m, fs)
  }

  /** Everything a reader can see when it walks `n` frames forward from `off`. */
  ghost function WalkNext(m: seq<byte>, off: nat, n: nat): seq<Frame>
    decreases n
  {
    if n == 0 || off + FRAME_HDR > |m| then []
    else
      var size := WordAt(m, off + SIZE);
      if off + FRAME_HDR + size > |m| then []
      else
        [Frame(WordAt(m, off + SEQ), off, m[off + FRAME_HDR..off + FRAME_HDR + size])]
        + WalkNext(m, WordAt(m, off + NEXT), n - 1)
  }

  /** The same walk backwards, oldest frame first in the result. */
  ghost function WalkPrev(m: seq<byte>, off: nat, n: nat): seq<Frame>
    decreases n
  {
    if n == 0 || off + FRAME_HDR > |m| then []
    else
      var size := WordAt(m, off + SIZE);
      if off + FRAME_HDR + size > |m| then []
      else
        WalkPrev(m, WordAt(m, off + PREV), n - 1)
        + [Frame(WordAt(m, off + SEQ), off, m[off + FRAME_HDR..off + FRAME_HDR + size])]
  }

  /** The number of frames a page claims to hold. */
  function Count(p: Page): nat {
    if Empty(p) then 0 else p.seqHigh - p.seqLow + 1
  }

  lemma {:induction false} WalkNextFrom(m: seq<byte>, fs: seq<Frame>, k: nat)
    requires InMemory(m, fs) && k < |fs|
    ensures WalkNext(m, fs[k].off, |fs| - k) == fs[k..]
    decreases |fs| - k
  {
    hide Decode;
    var f := fs[k];
    assert Linked(m, fs, k);
    assert f == Frame(WordAt(m, f.off + SEQ), f.off, m[f.off + FRAME_HDR..End(f)]);
    if k + 1 < |fs| {
      WalkNextFrom(m, fs, k + 1);
      assert fs[k..] == [f] + fs[k + 1..];
    } else {
      assert fs[k..] == [f];
    }
  }

  lemma {:induction false} WalkPrevFrom(m: seq<byte>, fs: seq<Frame>, k: nat)
    requires InMemory(m, fs) && k < |fs|
    ensures WalkPrev(m, fs[k].off, k + 1) == fs[..k + 1]
    decreases k
  {
    hide Decode;
    var f := fs[k];
    assert Linked(m, fs, k);
    assert f == Frame(WordAt(m, f.off + SEQ), f.off, m[f.off + FRAME_HDR..End(f)]);
    if k > 0 {
      WalkPrevFrom(m, fs, k - 1);
      assert fs[..k + 1] == fs[..k] + [f];
    } else {
      assert fs[..k + 1] == [f];
    }
  }

  /** A page that describes `fs` leads a reader through exactly `fs`, whichever way it
      walks; in particular it describes no other queue. */
  lemma WalksVisitExactly(p: Page, arenaSize: nat, m: seq<byte>, fs: seq<Frame>)
    requires Describes(p, arenaSize, m, fs)
    ensures Count(p) == |fs|
    ensures WalkNext(m, p.offHead, Count(p)) == fs
    ensures WalkPrev(m, p.offTail, Count(p)) == fs
  {
    hide Decode, Wraps, IsHighWater, Linked;
    if fs != [] {
      WalkNextFrom(m, fs, 0);
      assert fs[0..] == fs;
      WalkPrevFrom(m, fs, |fs| - 1);
      assert fs[..|fs|] == fs;
    }
  }

  // ----- Choosing and freeing a slot ------------------------------------------------

  /** Where a frame of `size` bytes, header included, goes; nothing if it cannot fit. */
  function SlotFor(fs: seq<Frame>, arenaSize: nat, size: nat): (off: nat)
  {
    if fs == [] then WORKSPACE
    else
      var after := Align(End(Last(fs)));
      if after + size >= arenaSize then WORKSPACE else after
  }

  predicate Fits(fs: seq<Frame>, arenaSize: nat, size: nat) {
    SlotFor(fs, arenaSize, size) + size <= arenaSize
  }

  /** A size is refused exactly when it is larger than the workspace: what is in the queue does not matter. */
  lemma FitsBySize(fs: seq<Frame>, arenaSize: nat, size: nat)
    requires Placed(fs, arenaSize)
    ensures Fits(fs, arenaSize, size) <==> WORKSPACE + size <= arenaSize
  {
    if fs != [] {
      AlignUp(End(Last(fs)));
    }
  }

  /** The test of the eviction loop: it looks at the oldest frame only. */
  predicate Evicts(fs: seq<Frame>, off: nat, size: nat) {
    fs != [] &&
    (!Apart(off, off + size, fs[0].off, End(fs[0])) ||
     (Last(fs).off < fs[0].off && off == WORKSPACE))
  }

  /** How many frames the eviction loop removes. */
  function Evictions(fs: seq<Frame>, off: nat, size: nat): (k: nat)
    ensures k <= |fs|
    ensures k > 0 <==> Evicts(fs, off, size)
    ensures !Evicts(fs[k..], off, size)
  {
    if Evicts(fs, off, size) then
      var k := Evictions(fs[1..], off, size);
      assert fs[1..][k..] == fs[1 + k..];
      1 + k
    else
      assert fs[0..] == fs;
      0
  }

  lemma EvictOne(fs: seq<Frame>, k: nat, off: nat, size: nat)
    requires k <= |fs| && Evicts(fs[k..], off, size)
    ensures k < |fs| && fs[k..][1..] == fs[k + 1..]
    ensures Evictions(fs[k..], off, size) == 1 + Evictions(fs[k + 1..], off, size)
  {
    assert fs[k..][1..] == fs[k + 1..];
  }

  /** What stays true of the slot while old frames are removed. */
  ghost predicate SlotOk(fs: seq<Frame>, off: nat) {
    off == WORKSPACE || (fs != [] && off == Align(End(Last(fs))))
  }

  lemma AlignUp(x: nat)
    ensures x <= Align(x) && Align(x) % ALIGNMENT == 0
  {
  }

  /** Removing the oldest frame keeps the layout. */
  lemma DropHead(fs: seq<Frame>, arenaSize: nat, off: nat, size: nat)
    requires fs != [] && Placed(fs, arenaSize) && Wraps(fs)
    requires SlotOk(fs, off) && size >= FRAME_HDR && Evicts(fs, off, size)
    ensures Placed(fs[1..], arenaSize) && Wraps(fs[1..])
    ensures SlotOk(fs[1..], off)
  {
    DropFirst(fs, arenaSize);
    AlignUp(End(Last(fs)));
  }

  lemma DropFirst(fs: seq<Frame>, arenaSize: nat)
    requires fs != [] && Placed(fs, arenaSize) && Wraps(fs)
    ensures Placed(fs[1..], arenaSize) && Wraps(fs[1..])
  {
    var w: nat :| WrapsAt(fs, w);
    if w == 1 {
      assert WrapsAt(fs[1..], |fs| - 1);
    } else {
      assert WrapsAt(fs[1..], w - 1);
    }
  }

  /** Once the oldest frame passes the test, the slot overlaps no live frame at all and
      the queue with the new frame still wraps at most once. */
  lemma HeadTestSuffices(fs: seq<Frame>, arenaSize: nat, f: Frame)
    requires Placed(fs, arenaSize) && Wraps(fs)
    requires SlotOk(fs, f.off) && End(f) <= arenaSize
    requires !Evicts(fs, f.off, FRAME_HDR + |f.data|)
    ensures forall i :: 0 <= i < |fs| ==> Apart(f.off, End(f), fs[i].off, End(fs[i]))
    ensures Placed(fs + [f], arenaSize) && Wraps(fs + [f])
  {
    hide WrapsAt;
    if fs == [] {
      WrapsAlone(f);
    } else {
      var w: nat :| WrapsAt(fs, w);
      if f.off == WORKSPACE {
        SlotAtStart(fs, w, f);
      } else {
        SlotIsFree(fs, w, f);
        SlotAfterLast(fs, w, f);
      }
    }
  }

  /** The frame `f` overlaps the slot, or the slot is at the start and `f` is left from before the last wrap. */
  predicate InTheWay(f: Frame, last: nat, off: nat, size: nat) {
    (off < End(f) && f.off < off + size) || (off == WORKSPACE && last < f.off)
  }

  /** Of the queue `fs` the `k` oldest frames are in the way, and no other is. */
  ghost predicate Removes(fs: seq<Frame>, off: nat, size: nat, k: nat) {
    k <= |fs| && forall j :: 0 <= j < |fs| ==> (j < k <==> InTheWay(fs[j], Last(fs).off, off, size))
  }

  /** What that says in offsets. */
  lemma RemovesMeans(fs: seq<Frame>, off: nat, size: nat, k: nat)
    requires k <= |fs|
    ensures Removes(fs, off, size, k) <==>
      forall j :: 0 <= j < |fs| ==>
        (j < k <==> (off < End(fs[j]) && fs[j].off < off + size) || (off == WORKSPACE && Last(fs).off < fs[j].off))
    ensures Removes(fs, off, size, k) ==>
      (k == 0 <==> forall j :: 0 <= j < |fs| ==>
        (End(fs[j]) <= off || off + size <= fs[j].off) && (off == WORKSPACE ==> fs[j].off <= Last(fs).off))
  {
    if Removes(fs, off, size, k) && k > 0 {
      assert InTheWay(fs[0], Last(fs).off, off, size);
    }
  }

  /** The loop removes exactly the frames in the way. */
  lemma {:induction false} EvictsInTheWay(fs: seq<Frame>, arenaSize: nat, off: nat, size: nat)
    requires Placed(fs, arenaSize) && Wraps(fs) && SlotOk(fs, off)
    requires FRAME_HDR <= size && off + size <= arenaSize
    ensures Removes(fs, off, size, Evictions(fs, off, size))
    decreases |fs|
  {
    hide Placed, Wraps, SlotOk, InTheWay, Evicts;
    if Evicts(fs, off, size) {
      HeadInTheWay(fs, off, size);
      DropHead(fs, arenaSize, off, size);
      var rest := fs[1..];
      EvictsInTheWay(rest, arenaSize, off, size);
      forall j | 1 <= j < |fs|
        ensures j < Evictions(fs, off, size) <==> InTheWay(fs[j], Last(fs).off, off, size)
      {
        assert fs[j] == rest[j - 1] && Last(fs) == Last(rest);
      }
    } else {
      NoneInTheWay(fs, arenaSize, off, size);
    }
  }

  lemma HeadInTheWay(fs: seq<Frame>, off: nat, size: nat)
    ensures Evicts(fs, off, size) <==> fs != [] && InTheWay(fs[0], Last(fs).off, off, size)
  {
  }

  lemma NoneInTheWay(fs: seq<Frame>, arenaSize: nat, off: nat, size: nat)
    requires Placed(fs, arenaSize) && Wraps(fs) && SlotOk(fs, off) && !Evicts(fs, off, size)
    requires FRAME_HDR <= size && off + size <= arenaSize
    ensures forall j :: 0 <= j < |fs| ==> !InTheWay(fs[j], Last(fs).off, off, size)
  {
    hide Placed, Wraps, SlotOk, Evicts;
    HeadTestSuffices(fs, arenaSize, Frame(0, off, seq(size - FRAME_HDR, _ => 0)));
    if off == WORKSPACE {
      NoneBeforeWrap(fs, off, size);
    }
  }

  /** A queue whose oldest frame does not lie behind its newest has not wrapped. */
  lemma NoneBeforeWrap(fs: seq<Frame>, off: nat, size: nat)
    requires Wraps(fs) && !Evicts(fs, off, size) && off == WORKSPACE
    ensures forall j :: 0 <= j < |fs| ==> fs[j].off <= Last(fs).off
  {
    if fs != [] {
      var w: nat :| WrapsAt(fs, w);
      assert w == |fs|;
    }
  }

  lemma WrapsAlone(f: Frame)
    ensures WrapsAt([] + [f], 1)
  {
  }

  lemma SlotIsFree(fs: seq<Frame>, w: nat, f: Frame)
    requires fs != [] && WrapsAt(fs, w) && f.off == Align(End(Last(fs)))
    requires fs[0].off % ALIGNMENT == 0
    ensures End(Last(fs)) <= f.off && f.off % ALIGNMENT == 0
    ensures w < |fs| ==> f.off <= fs[0].off
  {
    AlignUp(End(Last(fs)));
    if w < |fs| {
      AlignBelow(End(Last(fs)), fs[0].off);
    }
  }

  lemma AlignBelow(x: nat, y: nat)
    requires x <= y && y % ALIGNMENT == 0
    ensures Align(x) <= y
  {
  }

  lemma SlotAtStart(fs: seq<Frame>, w: nat, f: Frame)
    requires fs != [] && WrapsAt(fs, w) && f.off == WORKSPACE
    requires forall i :: 0 <= i < |fs| ==> WORKSPACE <= fs[i].off
    requires !Evicts(fs, f.off, FRAME_HDR + |f.data|)
    ensures forall i :: 0 <= i < |fs| ==> Apart(f.off, End(f), fs[i].off, End(fs[i]))
    ensures WrapsAt(fs + [f], |fs|)
  {
  }

  lemma SlotAfterLast(fs: seq<Frame>, w: nat, f: Frame)
    requires fs != [] && WrapsAt(fs, w)
    requires End(Last(fs)) <= f.off && (w < |fs| ==> f.off <= fs[0].off)
    requires !Evicts(fs, f.off, FRAME_HDR + |f.data|)
    ensures forall i :: 0 <= i < |fs| ==> Apart(f.off, End(f), fs[i].off, End(fs[i]))
    ensures WrapsAt(fs + [f], if w == |fs| then w + 1 else w)
  {
    var n := |fs|;
    EndsWithLast(fs, w, f.off);
    if w < n {
      assert End(f) <= fs[0].off;
      assert forall i :: 0 < i < w ==> End(fs[0]) <= fs[i].off;
    }
  }

  /** Nothing since the last wrap reaches beyond the newest frame. */
  lemma EndsWithLast(fs: seq<Frame>, w: nat, off: nat)
    requires fs != [] && WrapsAt(fs, w) && End(Last(fs)) <= off
    ensures forall i :: (if w == |fs| then 0 else w) <= i < |fs| ==> End(fs[i]) <= off
  {
    var n := |fs|;
    forall i | (if w == n then 0 else w) <= i < n
      ensures End(fs[i]) <= off
    {
      if i < n - 1 {
        assert End(fs[i]) <= fs[n - 1].off;
      }
    }
  }

  /** The mark that remove_head leaves is exact. */
  lemma HighWaterAfterDrop(fs: seq<Frame>, arenaSize: nat, mark: nat)
    requires |fs| >= 2 && Placed(fs, arenaSize) && Wraps(fs)
    requires IsHighWater(fs, mark)
    ensures IsHighWater(fs[1..], if mark == End(fs[0]) then End(Last(fs)) else mark)
  {
  }

  /** The mark that appending a frame leaves is exact. */
  lemma HighWaterAfterAppend(fs: seq<Frame>, mark: nat, f: Frame)
    requires IsHighWater(fs, mark) && f.off >= WORKSPACE
    ensures IsHighWater(fs + [f], if mark < End(f) then End(f) else mark)
  {
    var all := fs + [f];
    assert all[|fs|] == f;
    if mark >= End(f) {
      var i :| 0 <= i < |fs| && End(fs[i]) == mark;
      assert all[i] == fs[i];
    }
  }

  // ----- Stores that a committed queue survives -------------------------------------

  /** Whether a store to [lo, hi) leaves the queue `fs` as it is: it misses every frame,
      or it hits just the forward link of the last one. */
  ghost predicate Harmless(fs: seq<Frame>, lo: nat, hi: nat) {
    || (forall i :: 0 <= i < |fs| ==> Apart(lo, hi, fs[i].off, End(fs[i])))
    || (fs != [] && lo == Last(fs).off + NEXT && hi == lo + WORD)
  }

  ghost predicate SameOutside(m: seq<byte>, m': seq<byte>, lo: nat, hi: nat) {
    |m'| == |m| && forall k :: 0 <= k < |m| && (k < lo || hi <= k) ==> m'[k] == m[k]
  }

  lemma WordKept(m: seq<byte>, m': seq<byte>, off: nat)
    requires off + WORD <= |m| == |m'|
    requires forall k :: off <= k < off + WORD ==> m[k] == m'[k]
    ensures WordAt(m', off) == WordAt(m, off)
  {
    SameRange(m, m', off, off + WORD);
  }

  /** A frame survives a store that misses it, or that hits one of its links only. */
  lemma StoredKept(m: seq<byte>, m': seq<byte>, f: Frame, lo: nat, hi: nat)
    requires Stored(m, f) && SameOutside(m, m', lo, hi)
    requires Apart(lo, hi, f.off, End(f)) || (f.off + NEXT <= lo && hi <= f.off + SIZE)
    ensures Stored(m', f)
  {
    WordKept(m, m', f.off + SEQ);
    WordKept(m, m', f.off + OFF);
    WordKept(m, m', f.off + SIZE);
    SameRange(m, m', f.off + FRAME_HDR, End(f));
  }

  lemma LinkedKept(m: seq<byte>, m': seq<byte>, fs: seq<Frame>, i: nat, lo: nat, hi: nat)
    requires i < |fs| && Linked(m, fs, i) && SameOutside(m, m', lo, hi)
    requires Apart(lo, hi, fs[i].off, End(fs[i])) ||
             (i == |fs| - 1 && lo == fs[i].off + NEXT && hi == lo + WORD)
    ensures Linked(m', fs, i)
  {
    StoredKept(m, m', fs[i], lo, hi);
    if i < |fs| - 1 {
      WordKept(m, m', fs[i].off + NEXT);
    }
    WordKept(m, m', fs[i].off + PREV);
  }

  lemma QueueKept(p: Page, arenaSize: nat, m: seq<byte>, m': seq<byte>, fs: seq<Frame>, lo: nat, hi: nat)
    requires Describes(p, arenaSize, m, fs)
    requires SameOutside(m, m', lo, hi) && Harmless(fs, lo, hi)
    ensures Describes(p, arenaSize, m', fs)
  {
    forall i: nat | i < |fs|
      ensures Linked(m', fs, i)
    {
      if i < |fs| - 1 {
        LiveDisjoint(p, arenaSize, fs, i, |fs| - 1);
      }
      assert Linked(m, fs, i);
      LinkedKept(m, m', fs, i, lo, hi);
    }
  }

  lemma PayloadRead(p: Page, arenaSize: nat, m: seq<byte>, fs: seq<Frame>, i: nat)
    requires Describes(p, arenaSize, m, fs) && i < |fs|
    ensures End(fs[i]) <= |m| && m[fs[i].off + FRAME_HDR..End(fs[i])] == fs[i].data
  {
    assert Linked(m, fs, i);
  }

  lemma InMemoryTail(m: seq<byte>, fs: seq<Frame>)
    requires fs != [] && InMemory(m, fs)
    ensures InMemory(m, fs[1..])
  {
    forall i: nat | i < |fs| - 1
      ensures Linked(m, fs[1..], i)
    {
      assert Linked(m, fs, i + 1);
    }
  }

  /** Head and tail offsets agree only when there is a single frame. */
  lemma LiveSingle(p: Page, arenaSize: nat, fs: seq<Frame>)
    requires Live(p, arenaSize, fs) && fs != []
    ensures p.offHead == p.offTail <==> |fs| == 1
  {
  }

  /** The page that remove_head leaves behind. */
  ghost function DropHeadPage(p: Page, fs: seq<Frame>): Page
    requires fs != []
  {
    if |fs| == 1 then Page(p.seqLow + 1, p.seqHigh, 0, 0, WORKSPACE)
    else
      Page(p.seqLow + 1, p.seqHigh, fs[1].off, p.offTail,
           if p.highWater == End(fs[0]) then End(Last(fs)) else p.highWater)
  }

  lemma DropHeadDescribes(p: Page, arenaSize: nat, m: seq<byte>, fs: seq<Frame>)
    requires Describes(p, arenaSize, m, fs) && fs != []
    ensures Describes(DropHeadPage(p, fs), arenaSize, m, fs[1..])
  {
    hide Wraps, InMemory;
    DropFirst(fs, arenaSize);
    InMemoryTail(m, fs);
    if |fs| > 1 {
      HighWaterAfterDrop(fs, arenaSize, p.highWater);
      assert Last(fs[1..]) == Last(fs);
    }
  }

  /** The end of the frame whose header lies at `off`. */
  function EndAt(m: seq<byte>, off: nat): nat
    requires off + FRAME_HDR <= |m|
  {
    off + FRAME_HDR + WordAt(m, off + SIZE)
  }

  /** What a page says about its queue, and the ends read through it. */
  lemma PageRead(p: Page, arenaSize: nat, m: seq<byte>, fs: seq<Frame>)
    requires Describes(p, arenaSize, m, fs)
    ensures Empty(p) <==> fs == []
    ensures fs != [] ==>
      && p.offHead == fs[0].off && p.offTail == Last(fs).off
      && End(fs[0]) <= |m| && End(Last(fs)) <= |m|
      && EndAt(m, fs[0].off) == End(fs[0])
      && EndAt(m, Last(fs).off) == End(Last(fs))
  {
    hide Decode, Wraps, IsHighWater;
    EmptyExactly(p, arenaSize, fs);
    if fs != [] {
      assert Linked(m, fs, 0) && Linked(m, fs, |fs| - 1);
    }
  }

  /** What a look at the header of a live frame finds. */
  lemma HeaderRead(p: Page, arenaSize: nat, m: seq<byte>, fs: seq<Frame>, i: nat)
    requires Describes(p, arenaSize, m, fs) && i < |fs|
    ensures WORKSPACE <= fs[i].off && End(fs[i]) <= arenaSize <= |m|
    ensures WordAt(m, fs[i].off + OFF) == fs[i].off
    ensures WordAt(m, fs[i].off + SEQ) == fs[i].num
    ensures WordAt(m, fs[i].off + SIZE) == |fs[i].data|
    ensures i < |fs| - 1 ==> WordAt(m, fs[i].off + NEXT) == fs[i + 1].off
    ensures i > 0 ==> WordAt(m, fs[i].off + PREV) == fs[i - 1].off
    ensures p.offHead == fs[0].off && p.offTail == Last(fs).off
    ensures p.offHead == p.offTail <==> |fs| == 1
  {
    assert Linked(m, fs, i);
    LiveSingle(p, arenaSize, fs);
  }

  /** Where the words of a frame's header are. */
  lemma HeaderWords(p: Page, arenaSize: nat, m: seq<byte>, fs: seq<Frame>, i: nat)
    requires Describes(p, arenaSize, m, fs) && i < |fs|
    ensures fs[i].off + 40 + |fs[i].data| <= |m|
    ensures WordAt(m, fs[i].off) == fs[i].num && WordAt(m, fs[i].off + 8) == fs[i].off
    ensures i + 1 < |fs| ==> WordAt(m, fs[i].off + 16) == fs[i + 1].off
    ensures i > 0 ==> WordAt(m, fs[i].off + 24) == fs[i - 1].off
    ensures WordAt(m, fs[i].off + 32) == |fs[i].data|
    ensures m[fs[i].off + 40..fs[i].off + 40 + |fs[i].data|] == fs[i].data
  {
    hide Live, Decode;
    assert Linked(m, fs, i);
  }

  /** The page that a successful alloc leaves behind. */
  ghost function AppendPage(p: Page, fs: seq<Frame>, f: Frame): Page {
    Page(if p.seqLow == 0 then p.seqHigh + 1 else p.seqLow,
         p.seqHigh + 1,
         if fs == [] then f.off else p.offHead,
         f.off,
         if p.highWater < End(f) then End(f) else p.highWater)
  }

  lemma AppendInMemory(m: seq<byte>, fs: seq<Frame>, f: Frame)
    requires InMemory(m, fs) && Stored(m, f)
    requires fs != [] ==>
      End(Last(fs)) <= |m| && WordAt(m, Last(fs).off + NEXT) == f.off && WordAt(m, f.off + PREV) == Last(fs).off
    ensures InMemory(m, fs + [f])
  {
    hide Decode, Stored;
    var all := fs + [f];
    forall i: nat | i < |all|
      ensures Linked(m, all, i)
    {
      if i < |fs| {
        assert Linked(m, fs, i);
      }
    }
  }

  lemma AppendLive(p: Page, arenaSize: nat, fs: seq<Frame>, f: Frame)
    requires Live(p, arenaSize, fs) && f.num == p.seqHigh + 1
    requires Placed(fs + [f], arenaSize) && Wraps(fs + [f])
    ensures Live(AppendPage(p, fs, f), arenaSize, fs + [f])
  {
    hide Wraps;
    assert (fs + [f])[|fs|] == f;
    HighWaterAfterAppend(fs, p.highWater, f);
    assert Last(fs + [f]) == f;
    if fs != [] {
      assert (fs + [f])[0] == fs[0];
      assert forall i :: 0 <= i < |fs| ==> (fs + [f])[i].num == fs[i].num;
    }
  }

  /** Appending the frame stored in its slot, once the old last frame links to it. */
  lemma AppendDescribes(p: Page, arenaSize: nat, m: seq<byte>, fs: seq<Frame>, f: Frame)
    requires Describes(p, arenaSize, m, fs)
    requires SlotOk(fs, f.off) && End(f) <= arenaSize
    requires !Evicts(fs, f.off, FRAME_HDR + |f.data|)
    requires Stored(m, f) && f.num == p.seqHigh + 1
    requires fs != [] ==>
      End(Last(fs)) <= |m| && WordAt(m, Last(fs).off + NEXT) == f.off && WordAt(m, f.off + PREV) == Last(fs).off
    ensures Describes(AppendPage(p, fs, f), arenaSize, m, fs + [f])
  {
    HeadTestSuffices(fs, arenaSize, f);
    AppendLive(p, arenaSize, fs, f);
    AppendInMemory(m, fs, f);
  }

  lemma SlotIsOk(fs: seq<Frame>, arenaSize: nat, size: nat)
    requires Placed(fs, arenaSize)
    ensures SlotOk(fs, SlotFor(fs, arenaSize, size))
    ensures SlotFor(fs, arenaSize, size) % ALIGNMENT == 0 && WORKSPACE <= SlotFor(fs, arenaSize, size)
  {
  }

  /** Frame `i` with byte `j` of its payload replaced. */
  function WithByte(fs: seq<Frame>, i: nat, j: nat, b: byte): (r: seq<Frame>)
    requires i < |fs| && j < |fs[i].data|
    ensures |r| == |fs|
    ensures forall k :: 0 <= k < |fs| ==> r[k].off == fs[k].off && r[k].num == fs[k].num && End(r[k]) == End(fs[k])
  {
    fs[i := fs[i].(data := fs[i].data[j := b])]
  }

  /** A store into the payload of one live frame changes that byte of that frame only. */
  lemma PayloadStored(p: Page, arenaSize: nat, m: seq<byte>, fs: seq<Frame>, i: nat, j: nat, b: byte)
    requires Describes(p, arenaSize, m, fs) && i < |fs| && j < |fs[i].data|
    ensures fs[i].off + FRAME_HDR + j < |m|
    ensures Describes(p, arenaSize, m[fs[i].off + FRAME_HDR + j := b], WithByte(fs, i, j, b))
  {
    assert Linked(m, fs, i);
    var at := fs[i].off + FRAME_HDR + j;
    var m', fs' := m[at := b], WithByte(fs, i, j, b);
    LiveShape(p, arenaSize, fs, fs');
    forall k: nat | k < |fs'|
      ensures Linked(m', fs', k)
    {
      assert Linked(m, fs, k);
      if k < i {
        LiveDisjoint(p, arenaSize, fs, k, i);
      } else if k > i {
        LiveDisjoint(p, arenaSize, fs, i, k);
      }
      PayloadLinked(m, fs, k, i, j, b);
    }
  }

  lemma PayloadLinked(m: seq<byte>, fs: seq<Frame>, k: nat, i: nat, j: nat, b: byte)
    requires k < |fs| && i < |fs| && j < |fs[i].data| && Linked(m, fs, k) && End(fs[i]) <= |m|
    requires k == i || Apart(fs[k].off, End(fs[k]), fs[i].off, End(fs[i]))
    ensures Linked(m[fs[i].off + FRAME_HDR + j := b], WithByte(fs, i, j, b), k)
  {
    hide Decode;
    var m' := m[fs[i].off + FRAME_HDR + j := b];
    var off := fs[k].off;
    WordKept(m, m', off + SEQ);
    WordKept(m, m', off + OFF);
    WordKept(m, m', off + SIZE);
    WordKept(m, m', off + NEXT);
    WordKept(m, m', off + PREV);
    assert m'[off + FRAME_HDR..End(fs[k])] == WithByte(fs, i, j, b)[k].data;
  }

  ghost predicate SameShape(fs: seq<Frame>, fs': seq<Frame>) {
    && |fs'| == |fs|
    && forall k :: 0 <= k < |fs| ==>
         fs'[k].off == fs[k].off && fs'[k].num == fs[k].num && End(fs'[k]) == End(fs[k])
  }

  lemma WrapsShape(fs: seq<Frame>, fs': seq<Frame>)
    requires Wraps(fs) && SameShape(fs, fs')
    ensures Wraps(fs')
  {
    var w: nat :| WrapsAt(fs, w);
    assert forall i, j :: 0 <= i < j < |fs| ==>
        (End(fs[i]) <= fs[j].off <==> End(fs'[i]) <= fs'[j].off) &&
        (End(fs[j]) <= fs[i].off <==> End(fs'[j]) <= fs'[i].off);
    assert WrapsAt(fs', w);
  }

  lemma LiveShape(p: Page, arenaSize: nat, fs: seq<Frame>, fs': seq<Frame>)
    requires Live(p, arenaSize, fs) && SameShape(fs, fs')
    ensures Live(p, arenaSize, fs')
  {
    hide WrapsAt;
    WrapsShape(fs, fs');
    if fs != [] {
      var i :| 0 <= i < |fs| && End(fs[i]) == p.highWater;
      assert End(fs'[i]) == p.highWater;
    }
  }

  /** An arena size that no live frame exceeds suits the queue. */
  lemma ResizeDescribes(p: Page, arenaSize: nat, size: nat, m: seq<byte>, fs: seq<Frame>)
    requires Describes(p, arenaSize, m, fs) && size <= |m|
    requires forall i :: 0 <= i < |fs| ==> End(fs[i]) <= size
    ensures Describes(p, size, m, fs)
  {
  }

  lemma HighWaterBound(fs: seq<Frame>, mark: nat, size: nat)
    requires IsHighWater(fs, mark) && (forall i :: 0 <= i < |fs| ==> WORKSPACE <= fs[i].off)
    ensures mark <= size <==> WORKSPACE <= size && forall f :: f in fs ==> End(f) <= size
  {
  }
}

/** Packets: an id, a chain of header blocks and a payload; their serialized form, and copies of them
    in one buffer. */
module Packet {
  import opened Bytes
  import opened Errors

  /** sizeof(a0_uuid_t): 36 characters and a NUL. */
  const ID_SIZE: nat := 37

  /** A table entry: two words, for the key and the value. */
  const ENTRY: nat := 16

  datatype Header = Header(key: seq<byte>, val: seq<byte>)

  /** The chain of header blocks. Blocks may be empty. */
  datatype Blocks = End | Block(headers: seq<Header>, next: Blocks)

  datatype Packet = Packet(id: seq<byte>, blocks: Blocks, payload: seq<byte>)

  function Headers(blocks: Blocks): seq<Header> {
    if blocks.End? then [] else blocks.headers + Headers(blocks.next)
  }

  /** What a C string can hold. */
  predicate IsText(s: seq<byte>) {
    0 !in s
  }

  predicate AreTexts(hs: seq<Header>) {
    forall i :: 0 <= i < |hs| ==> IsText(hs[i].key) && IsText(hs[i].val)
  }

  // ----- The two layouts --------------------------------------------------------------------

  function Item(h: Header): seq<byte> {
    h.key + [0] + h.val + [0]
  }

  function Content(hs: seq<Header>): seq<byte> {
    if hs == [] then [] else Content(hs[..|hs| - 1]) + Item(hs[|hs| - 1])
  }

  function Entry(h: Header, off: nat): (e: seq<byte>)
    ensures |e| == ENTRY
  {
    EncodeWord(off) + EncodeWord(off + |h.key| + 1)
  }

  /** Where the strings are, when the content starts at `off`. */
  function Table(hs: seq<Header>, off: nat): (t: seq<byte>)
    ensures |t| == ENTRY * |hs|
  {
    if hs == [] then []
    else
      var front := hs[..|hs| - 1];
      Table(front, off) + Entry(hs[|hs| - 1], off + |Content(front)|)
  }

  /** Where the content of a serialized packet starts. */
  function ContentOff(n: nat): nat {
    ID_SIZE + WORD + ENTRY * n + WORD
  }

  /** The serialized form. */
  function Flat(id: seq<byte>, hs: seq<Header>, payload: seq<byte>): (b: seq<byte>)
    requires |id| == ID_SIZE
    ensures |b| == ContentOff(|hs|) + |Content(hs)| + |payload|
  {
    var start := ContentOff(|hs|);
    id + EncodeWord(|hs|) + Table(hs, start) + EncodeWord(start + |Content(hs)|) + Content(hs) + payload
  }

  /** The buffer behind a deserialized or copied packet: its header array, then all it points to. */
  function Packed(hs: seq<Header>, payload: seq<byte>): (b: seq<byte>)
    ensures |b| == ENTRY * |hs| + |Content(hs)| + |payload|
  {
    Table(hs, ENTRY * |hs|) + Content(hs) + payload
  }

  /** The strings of one header, and its table entry. */
  lemma OneHeader(h: Header, off: nat)
    ensures Content([h]) == h.key + [0] + h.val + [0] && |Content([h])| == |h.key| + |h.val| + 2
    ensures Table([h], off) == EncodeWord(off) + EncodeWord(off + |h.key| + 1)
  {
    hide EncodeWord;
    assert [h][..0] == [];
    assert Content([h]) == Item(h) && Table([h], off) == Entry(h, off);
  }

  /** Both layouts of a packet with one header, with every offset as a number. */
  lemma OneHeaderLayout(id: seq<byte>, h: Header, payload: seq<byte>)
    requires |id| == 37
    ensures Flat(id, [h], payload) ==
              id + EncodeWord(1) + EncodeWord(69) + EncodeWord(70 + |h.key|) + EncodeWord(71 + |h.key| + |h.val|)
              + Content([h]) + payload
    ensures Packed([h], payload) == EncodeWord(16) + EncodeWord(17 + |h.key|) + Content([h]) + payload
  {
    hide EncodeWord, Content, Table;
    OneHeader(h, 69);
    OneHeader(h, 16);
    assert |[h]| == 1 && ContentOff(1) == 69 && ENTRY * 1 == 16;
    PairInside(id + EncodeWord(1), EncodeWord(69), EncodeWord(70 + |h.key|));
  }

  lemma PairInside<T>(p: seq<T>, a: seq<T>, b: seq<T>)
    ensures p + (a + b) == p + a + b
  {
  }

  /** The blocks of the chain, one after the other. */
  lemma HeadersInOrder(a: Header, b: Header, c: Header)
    ensures Headers(Block([a], Block([], Block([b, c], End)))) == [a, b, c]
  {
    assert Headers(Block([b, c], End)) == [b, c];
    assert Headers(Block([], Block([b, c], End))) == [b, c];
  }

  lemma ContentGrows(hs: seq<Header>, h: Header, off: nat)
    ensures Content(hs + [h]) == Content(hs) + Item(h)
    ensures Table(hs + [h], off) == Table(hs, off) + Entry(h, off + |Content(hs)|)
  {
  }

  // ----- Reading the layouts ------------------------------------------------------------------

  /** `m` has the string `s`, with its NUL, at `off`. */
  predicate HasText(m: seq<byte>, off: nat, s: seq<byte>) {
    off + |s| < |m| && m[off..off + |s|] == s && m[off + |s|] == 0
  }

  /** `m` has a table at `idx` for the strings it holds from `start` on. */
  predicate Laid(m: seq<byte>, idx: nat, start: nat, hs: seq<Header>) {
    && idx + ENTRY * |hs| <= start && start + |Content(hs)| <= |m| < WORD_LIMIT
    && m[idx..idx + ENTRY * |hs|] == Table(hs, start)
    && m[start..start + |Content(hs)|] == Content(hs)
  }

  /** Entry `i` of the table leads to header `i`. */
  predicate Leads(m: seq<byte>, entry: nat, h: Header) {
    && entry + ENTRY <= |m|
    && HasText(m, WordAt(m, entry), h.key)
    && HasText(m, WordAt(m, entry + WORD), h.val)
  }

  lemma LaidFront(m: seq<byte>, idx: nat, start: nat, hs: seq<Header>)
    requires Laid(m, idx, start, hs) && hs != []
    ensures Laid(m, idx, start, hs[..|hs| - 1])
    ensures var off := start + |Content(hs[..|hs| - 1])|; var entry := idx + ENTRY * (|hs| - 1);
            && off + |Item(hs[|hs| - 1])| <= |m|
            && m[entry..entry + ENTRY] == Entry(hs[|hs| - 1], off)
            && m[off..off + |Item(hs[|hs| - 1])|] == Item(hs[|hs| - 1])
  {
    hide Table, Content, Item;
    var front, h := hs[..|hs| - 1], hs[|hs| - 1];
    assert hs == front + [h];
    ContentGrows(front, h, start);
    var entry, off := idx + ENTRY * |front|, start + |Content(front)|;
    SplitSlice(m, idx, entry, entry + ENTRY, Table(front, start), Entry(h, off));
    SplitSlice(m, start, off, off + |Item(h)|, Content(front), Item(h));
  }

  /** A slice that is a concatenation, cut where the concatenation is. */
  lemma SplitSlice<T>(m: seq<T>, a: nat, b: nat, c: nat, p: seq<T>, q: seq<T>)
    requires a <= b <= c <= |m| && |p| == b - a
    requires m[a..c] == p + q
    ensures m[a..b] == p && m[b..c] == q
  {
    assert m[a..b] == m[a..c][..b - a];
    assert m[b..c] == m[a..c][b - a..];
  }

  lemma {:induction false} LaidLeads(m: seq<byte>, idx: nat, start: nat, hs: seq<Header>, i: nat)
    requires Laid(m, idx, start, hs) && i < |hs|
    ensures Leads(m, idx + ENTRY * i, hs[i])
    decreases |hs|
  {
    hide Table, Content, Entry, Item, Leads;
    LaidFront(m, idx, start, hs);
    if i < |hs| - 1 {
      LaidLeads(m, idx, start, hs[..|hs| - 1], i);
    } else {
      EntryLeads(m, idx + ENTRY * i, start + |Content(hs[..i])|, hs[i]);
    }
  }

  lemma EntryLeads(m: seq<byte>, entry: nat, off: nat, h: Header)
    requires |m| < WORD_LIMIT && entry + ENTRY <= |m| && off + |Item(h)| <= |m|
    requires m[entry..entry + ENTRY] == Entry(h, off) && m[off..off + |Item(h)|] == Item(h)
    ensures Leads(m, entry, h) && WordAt(m, entry) == off && WordAt(m, entry + WORD) == off + |h.key| + 1
  {
    hide HasText, EncodeWord, Decode;
    var v, end := off + |h.key| + 1, off + |Item(h)|;
    SplitSlice(m, entry, entry + WORD, entry + ENTRY, EncodeWord(off), EncodeWord(v));
    DecodeWord(off);
    DecodeWord(v);
    assert Item(h) == (h.key + [0]) + (h.val + [0]);
    SplitSlice(m, off, v, end, h.key + [0], h.val + [0]);
    TextAt(m, off, h.key);
    TextAt(m, v, h.val);
  }

  lemma TextAt(m: seq<byte>, off: nat, s: seq<byte>)
    requires off + |s| < |m| && m[off..off + |s| + 1] == s + [0]
    ensures HasText(m, off, s)
  {
    SplitSlice(m, off, off + |s|, off + |s| + 1, s, [0]);
    assert m[off + |s|] == m[off + |s|..off + |s| + 1][0];
  }

  /** The parts of a serialized packet, found where the accessors look for them. */
  lemma FlatParts(id: seq<byte>, hs: seq<Header>, payload: seq<byte>)
    requires |id| == ID_SIZE && |Flat(id, hs, payload)| < WORD_LIMIT
    ensures var b := Flat(id, hs, payload);
            var start := ContentOff(|hs|);
            && b[..ID_SIZE] == id
            && WordAt(b, ID_SIZE) == |hs|
            && Laid(b, ID_SIZE + WORD, start, hs)
            && WordAt(b, ID_SIZE + WORD + ENTRY * |hs|) == start + |Content(hs)|
            && b[start + |Content(hs)|..] == payload
  {
    hide Table, Content, EncodeWord, Decode;
    var b, start := Flat(id, hs, payload), ContentOff(|hs|);
    var t := ID_SIZE + WORD;
    SixSlices(id, EncodeWord(|hs|), Table(hs, start), EncodeWord(start + |Content(hs)|), Content(hs), payload);
    DecodeWord(|hs|);
    DecodeWord(start + |Content(hs)|);
  }

  lemma SixSlices<T>(p0: seq<T>, p1: seq<T>, p2: seq<T>, p3: seq<T>, p4: seq<T>, p5: seq<T>)
    ensures var b := p0 + p1 + p2 + p3 + p4 + p5;
            var i1 := |p0|; var i2 := i1 + |p1|; var i3 := i2 + |p2|; var i4 := i3 + |p3|; var i5 := i4 + |p4|;
            && b[..i1] == p0 && b[i1..i2] == p1 && b[i2..i3] == p2 && b[i3..i4] == p3 && b[i4..i5] == p4 && b[i5..] == p5
  {
  }

  /** And the other way round: a buffer with those parts is the serialized packet. */
  lemma FlatFromParts(b: seq<byte>, id: seq<byte>, hs: seq<Header>, payload: seq<byte>)
    requires |id| == ID_SIZE && |b| == ContentOff(|hs|) + |Content(hs)| + |payload|
    requires var start := ContentOff(|hs|);
            && b[..ID_SIZE] == id
            && b[ID_SIZE..ID_SIZE + WORD] == EncodeWord(|hs|)
            && Laid(b, ID_SIZE + WORD, start, hs)
            && b[start - WORD..start] == EncodeWord(start + |Content(hs)|)
            && b[start + |Content(hs)|..] == payload
    ensures b == Flat(id, hs, payload)
  {
    hide Table, Content, EncodeWord;
    var start := ContentOff(|hs|);
    var t := ID_SIZE + WORD;
    SixJoin(b, ID_SIZE, t, start - WORD, start, start + |Content(hs)|);
  }

  lemma SixJoin<T>(b: seq<T>, i1: nat, i2: nat, i3: nat, i4: nat, i5: nat)
    requires i1 <= i2 <= i3 <= i4 <= i5 <= |b|
    ensures b == b[..i1] + b[i1..i2] + b[i2..i3] + b[i3..i4] + b[i4..i5] + b[i5..]
  {
  }

  lemma PackedParts(hs: seq<Header>, payload: seq<byte>)
    requires |Packed(hs, payload)| < WORD_LIMIT
    ensures Laid(Packed(hs, payload), 0, ENTRY * |hs|, hs)
    ensures Packed(hs, payload)[ENTRY * |hs| + |Content(hs)|..] == payload
  {
    hide Table, Content;
    SixSlices([], [], Table(hs, ENTRY * |hs|), [], Content(hs), payload);
    assert Packed(hs, payload) == [] + [] + Table(hs, ENTRY * |hs|) + [] + Content(hs) + payload;
  }

  lemma PackedFromParts(b: seq<byte>, hs: seq<Header>, payload: seq<byte>)
    requires |b| == ENTRY * |hs| + |Content(hs)| + |payload|
    requires Laid(b, 0, ENTRY * |hs|, hs) && b[ENTRY * |hs| + |Content(hs)|..] == payload
    ensures b == Packed(hs, payload)
  {
  }

  // ----- One header stored ----------------------------------------------------------------------

  /** The four stores of a header: offset and text of the key, offset and text of the value. */
  function PutHeader(m: seq<byte>, entry: nat, off: nat, h: Header): (r: seq<byte>)
    requires entry + ENTRY <= off && off + |Item(h)| <= |m|
    ensures |r| == |m|
  {
    var m1 := Patch(m, entry, EncodeWord(off));
    var m2 := Patch(m1, off, h.key + [0]);
    var m3 := Patch(m2, entry + WORD, EncodeWord(off + |h.key| + 1));
    Patch(m3, off + |h.key| + 1, h.val + [0])
  }

  lemma PutHeaderIs(m: seq<byte>, entry: nat, off: nat, h: Header)
    requires entry + ENTRY <= off && off + |Item(h)| <= |m|
    ensures var r := PutHeader(m, entry, off, h);
            && r[entry..entry + ENTRY] == Entry(h, off)
            && r[off..off + |Item(h)|] == Item(h)
            && forall i :: 0 <= i < |m| && !(entry <= i < entry + ENTRY) && !(off <= i < off + |Item(h)|) ==> r[i] == m[i]
  {
  }

  /** `m` is `m0` with the headers laid out, and nothing else changed. */
  ghost predicate Extends(m0: seq<byte>, m: seq<byte>, idx: nat, start: nat, hs: seq<Header>) {
    && |m| == |m0| && Laid(m, idx, start, hs)
    && forall i :: 0 <= i < |m| && !(idx <= i < idx + ENTRY * |hs|) && !(start <= i < start + |Content(hs)|) ==>
         m[i] == m0[i]
  }

  lemma ExtendsNothing(m0: seq<byte>, idx: nat, start: nat)
    requires idx <= start <= |m0| < WORD_LIMIT
    ensures Extends(m0, m0, idx, start, [])
  {
  }

  lemma ExtendsOneMore(m0: seq<byte>, m: seq<byte>, idx: nat, start: nat, hs: seq<Header>, h: Header)
    requires Extends(m0, m, idx, start, hs)
    requires idx + ENTRY * (|hs| + 1) <= start && start + |Content(hs)| + |Item(h)| <= |m|
    ensures Extends(m0, PutHeader(m, idx + ENTRY * |hs|, start + |Content(hs)|, h), idx, start, hs + [h])
  {
    hide Table, Content, EncodeWord, Item, Entry, PutHeader;
    var entry, off := idx + ENTRY * |hs|, start + |Content(hs)|;
    var r := PutHeader(m, entry, off, h);
    PutHeaderIs(m, entry, off, h);
    ContentGrows(hs, h, start);
    SameRange(r, m, idx, entry);
    SameRange(r, m, start, off);
    JoinSlices(r, idx, entry, entry + ENTRY);
    JoinSlices(r, start, off, off + |Item(h)|);
  }

  lemma {:induction false} ContentAppend(a: seq<Header>, b: seq<Header>)
    ensures Content(a + b) == Content(a) + Content(b)
    decreases |b|
  {
    hide Content, Item;
    ContentOfNothing();
    if b == [] {
      assert a + b == a;
    } else {
      var front, h := b[..|b| - 1], b[|b| - 1];
      assert b == front + [h] && a + b == a + front + [h];
      ContentAppend(a, front);
      ContentGrows(front, h, 0);
      ContentGrows(a + front, h, 0);
    }
  }

  /** A header on the way to the last one still fits. */
  lemma RoomForNext(all: seq<Header>, done: seq<Header>, h: Header, rest: seq<Header>)
    requires all == done + [h] + rest
    ensures |Content(done)| + |Item(h)| <= |Content(all)| && |done| + 1 <= |all|
  {
    ContentAppend(done + [h], rest);
    ContentGrows(done, h, 0);
  }

  // ----- Stores -----------------------------------------------------------------------------

  /** memcpy of `s` to `out + off`. */
  method Store(out: array<byte>, off: nat, s: seq<byte>)
    requires off + |s| <= out.Length
    modifies out
    ensures out[..] == Patch(old(out[..]), off, s)
  {
    forall i | 0 <= i < |s| {
      out[off + i] := s[i];
    }
  }

  method WriteHeader(out: array<byte>, entry: nat, off: nat, h: Header) returns (end: nat)
    requires entry + ENTRY <= off && off + |Item(h)| <= out.Length
    modifies out
    ensures out[..] == PutHeader(old(out[..]), entry, off, h)
    ensures end == off + |Item(h)|
  {
    hide Patch, EncodeWord;
    end := off;
    Store(out, entry, EncodeWord(end));
    Store(out, end, h.key + [0]);
    end := end + |h.key| + 1;
    Store(out, entry + WORD, EncodeWord(end));
    Store(out, end, h.val + [0]);
    end := end + |h.val| + 1;
  }

  /** The headers of one block, after those of `done`: `entry` and `off` are the index and content
      cursors, and `stored` counts the bytes written. */
  method WriteBlock(out: array<byte>, entry0: nat, off0: nat, headers: seq<Header>,
                    ghost m0: seq<byte>, ghost idx: nat, ghost start: nat, ghost done: seq<Header>)
    returns (entry: nat, off: nat, ghost stored: nat)
    requires Extends(m0, out[..], idx, start, done)
    requires entry0 == idx + ENTRY * |done| && off0 == start + |Content(done)|
    requires entry0 + ENTRY * |headers| <= start && off0 + |Content(headers)| <= out.Length
    modifies out
    ensures Extends(m0, out[..], idx, start, done + headers)
    ensures entry == entry0 + ENTRY * |headers| && off == off0 + |Content(headers)|
    ensures stored == ENTRY * |headers| + |Content(headers)|
  {
    hide Extends, Content, Item, PutHeader;
    ContentOfNothing();
    ContentAppend(done, headers);
    entry, off, stored := entry0, off0, 0;
    ghost var now := done;
    assert headers[..0] == [] && done + [] == done;
    var i := 0;
    while i < |headers|
      invariant 0 <= i <= |headers| && now == done + headers[..i]
      invariant entry == entry0 + ENTRY * i && off == off0 + |Content(headers[..i])|
      invariant stored == ENTRY * i + |Content(headers[..i])|
      invariant Extends(m0, out[..], idx, start, now)
    {
      ghost var h := headers[i];
      assert headers == headers[..i] + [h] + headers[i + 1..];
      assert headers[..i + 1] == headers[..i] + [h] && now + [h] == done + headers[..i + 1];
      RoomForNext(headers, headers[..i], h, headers[i + 1..]);
      ContentAppend(done, headers[..i]);
      ContentGrows(headers[..i], h, start);
      LengthKept(m0, out[..], idx, start, now);
      ExtendsOneMore(m0, out[..], idx, start, now, h);
      off := WriteHeader(out, entry, off, headers[i]);
      entry, i, now := entry + ENTRY, i + 1, now + [h];
      stored := stored + ENTRY + |Item(h)|;
    }
    assert headers[..i] == headers;
  }

  /** The headers of the whole chain. */
  method WriteHeaders(out: array<byte>, idx: nat, start: nat, blocks: Blocks)
    returns (entry: nat, off: nat, ghost stored: nat)
    requires idx + ENTRY * |Headers(blocks)| <= start
    requires start + |Content(Headers(blocks))| <= out.Length < WORD_LIMIT
    modifies out
    ensures Extends(old(out[..]), out[..], idx, start, Headers(blocks))
    ensures entry == idx + ENTRY * |Headers(blocks)| && off == start + |Content(Headers(blocks))|
    ensures stored == ENTRY * |Headers(blocks)| + |Content(Headers(blocks))|
  {
    hide Extends, Content;
    ghost var m0, all := out[..], Headers(blocks);
    ghost var done: seq<Header> := [];
    var block := blocks;
    entry, off, stored := idx, start, 0;
    ContentOfNothing();
    ExtendsNothing(m0, idx, start);
    while block.Block?
      invariant all == done + Headers(block)
      invariant entry == idx + ENTRY * |done| && off == start + |Content(done)|
      invariant stored == ENTRY * |done| + |Content(done)|
      invariant Extends(m0, out[..], idx, start, done)
      decreases block
    {
      ContentAppend(done, Headers(block));
      ContentAppend(block.headers, Headers(block.next));
      ContentAppend(done, block.headers);
      ghost var more: nat;
      entry, off, more := WriteBlock(out, entry, off, block.headers, m0, idx, start, done);
      stored := stored + more;
      assert done + Headers(block) == done + block.headers + Headers(block.next);
      done := done + block.headers;
      block := block.next;
    }
    assert done == all;
  }

  lemma ContentOfNothing()
    ensures Content([]) == []
  {
  }

  lemma LengthKept(m0: seq<byte>, m: seq<byte>, idx: nat, start: nat, hs: seq<Header>)
    requires Extends(m0, m, idx, start, hs)
    ensures |m| == |m0|
  {
  }

  // ----- a0_packet_stats, a0_packet_serialize, a0_packet_deep_copy -----------------------------------

  datatype Stats = Stats(numHdrs: nat, contentSize: nat, serialSize: nat)

  function HeadersOf(pkt: Packet): seq<Header> {
    Headers(pkt.blocks)
  }

  /** A packet that can be serialized: its size fits a word. */
  predicate Sized(pkt: Packet) {
    |pkt.id| == ID_SIZE && |Flat(pkt.id, HeadersOf(pkt), pkt.payload)| < WORD_LIMIT
  }

  function FlatOf(pkt: Packet): seq<byte>
    requires |pkt.id| == ID_SIZE
  {
    Flat(pkt.id, HeadersOf(pkt), pkt.payload)
  }

  function PackedOf(pkt: Packet): seq<byte> {
    Packed(HeadersOf(pkt), pkt.payload)
  }

  method CountContent(headers: seq<Header>) returns (size: nat)
    ensures size == |Content(headers)|
  {
    size := 0;
    var i := 0;
    assert headers[..0] == [];
    while i < |headers|
      invariant 0 <= i <= |headers| && size == |Content(headers[..i])|
    {
      assert headers[..i + 1] == headers[..i] + [headers[i]];
      ContentGrows(headers[..i], headers[i], 0);
      size := size + |headers[i].key| + 1;
      size := size + |headers[i].val| + 1;
      i := i + 1;
    }
    assert headers[..i] == headers;
  }

  /** The sizes are those of the two layouts. */
  method ComputeStats(pkt: Packet) returns (stats: Stats)
    requires |pkt.id| == ID_SIZE
    ensures stats.numHdrs == |HeadersOf(pkt)|
    ensures stats.serialSize == |FlatOf(pkt)|
    ensures ENTRY * stats.numHdrs + stats.contentSize == |PackedOf(pkt)|
  {
    var num, size := 0, 0;
    var block := pkt.blocks;
    while block.Block?
      invariant num + |Headers(block)| == |HeadersOf(pkt)|
      decreases block
    {
      num := num + |block.headers|;
      block := block.next;
    }
    block := pkt.blocks;
    while block.Block?
      invariant size + |Content(Headers(block))| == |Content(HeadersOf(pkt))|
      decreases block
    {
      ContentAppend(block.headers, Headers(block.next));
      var more := CountContent(block.headers);
      size := size + more;
      block := block.next;
    }
    size := size + |pkt.payload|;
    stats := Stats(num, size, ID_SIZE + WORD + 2 * num * WORD + WORD + size);
  }

  lemma LaidKept(m: seq<byte>, m': seq<byte>, idx: nat, start: nat, hs: seq<Header>)
    requires Laid(m, idx, start, hs) && |m'| == |m|
    requires forall i :: idx <= i < idx + ENTRY * |hs| || start <= i < start + |Content(hs)| ==> m'[i] == m[i]
    ensures Laid(m', idx, start, hs)
  {
    hide Table, Content;
    SameRange(m, m', idx, idx + ENTRY * |hs|);
    SameRange(m, m', start, start + |Content(hs)|);
  }

  /** The five steps of serializing, in any memory of the right size. */
  lemma SerializeSteps(m0: seq<byte>, m3: seq<byte>, id: seq<byte>, hs: seq<Header>, payload: seq<byte>)
    requires |id| == ID_SIZE && |m0| == |Flat(id, hs, payload)| < WORD_LIMIT
    requires var m2 := Patch(Patch(m0, 0, id), ID_SIZE, EncodeWord(|hs|));
             Extends(m2, m3, ID_SIZE + WORD, ContentOff(|hs|), hs)
    ensures var start := ContentOff(|hs|);
            && |m3| == |m0|
            && Patch(Patch(m3, start - WORD, EncodeWord(start + |Content(hs)|)), start + |Content(hs)|, payload)
               == Flat(id, hs, payload)
  {
    hide Table, Content, EncodeWord, Patch, Laid;
    var start, n := ContentOff(|hs|), |hs|;
    var off := start + |Content(hs)|;
    var m1 := Patch(m0, 0, id);
    var m2 := Patch(m1, ID_SIZE, EncodeWord(n));
    var m4 := Patch(m3, start - WORD, EncodeWord(off));
    var m5 := Patch(m4, off, payload);
    assert m1[..ID_SIZE] == m1[0..ID_SIZE] == id;
    SameRange(m1, m5, 0, ID_SIZE);
    assert m5[..ID_SIZE] == m5[0..ID_SIZE];
    SameRange(m2, m5, ID_SIZE, ID_SIZE + WORD);
    LaidKept(m3, m5, ID_SIZE + WORD, start, hs);
    SameRange(m4, m5, start - WORD, start);
    assert m5[off..] == m5[off..off + |payload|];
    FlatFromParts(m5, id, hs, payload);
  }

  /** The result is the serialized form, whatever the memory held before, and as many bytes were
      stored as it has: so each was stored once. */
  method Serialize(pkt: Packet) returns (out: array<byte>, ghost stored: nat)
    requires Sized(pkt)
    ensures fresh(out) && out[..] == FlatOf(pkt) && stored == out.Length
  {
    hide Table, Content, EncodeWord, Patch, Extends, Headers, Flat;
    FlatSize(pkt);
    var stats := ComputeStats(pkt);
    out := new byte[stats.serialSize];
    ghost var m0 := out[..];
    var idxOff := 0;
    var off := ID_SIZE + WORD + 2 * stats.numHdrs * WORD + WORD;
    Store(out, idxOff, pkt.id);
    idxOff := idxOff + ID_SIZE;
    Store(out, idxOff, EncodeWord(stats.numHdrs));
    idxOff := idxOff + WORD;
    idxOff, off, stored := WriteHeaders(out, idxOff, off, pkt.blocks);
    SerializeSteps(m0, out[..], pkt.id, HeadersOf(pkt), pkt.payload);
    Store(out, idxOff, EncodeWord(off));
    Store(out, off, pkt.payload);
    stored := stored + ID_SIZE + WORD + WORD + |pkt.payload|;
  }

  lemma FlatSize(pkt: Packet)
    requires |pkt.id| == ID_SIZE
    ensures |FlatOf(pkt)| == ContentOff(|HeadersOf(pkt)|) + |Content(HeadersOf(pkt))| + |pkt.payload|
  {
  }

  // ----- Packets in one buffer --------------------------------------------------------------------

  /** What deserializing and copying return beside the buffer: the id, the number of headers, whose
      array starts the buffer and is the only block, and the place of the payload. */
  datatype Unpacked = Unpacked(id: seq<byte>, count: nat, payloadOff: nat, payloadSize: nat)

  /** `buf` holds the packet `pkt` and nothing else. */
  ghost predicate Holds(buf: seq<byte>, u: Unpacked, pkt: Packet) {
    && u.id == pkt.id && u.count == |HeadersOf(pkt)|
    && buf == PackedOf(pkt)
    && u.payloadOff + u.payloadSize == |buf| && buf[u.payloadOff..] == pkt.payload
  }

  /** Following the pointers of such a buffer gives the headers, in chain order. */
  lemma HoldsHeader(buf: seq<byte>, u: Unpacked, pkt: Packet, i: nat)
    requires Holds(buf, u, pkt) && |buf| < WORD_LIMIT && i < u.count
    ensures Leads(buf, ENTRY * i, HeadersOf(pkt)[i])
  {
    PackedParts(HeadersOf(pkt), pkt.payload);
    LaidLeads(buf, 0, ENTRY * u.count, HeadersOf(pkt), i);
  }

  /** A place in memory holds at most one text, and a table entry at most one header. */
  lemma LeadsIsUnique(m: seq<byte>, entry: nat, g: Header, h: Header)
    requires Leads(m, entry, g) && Leads(m, entry, h)
    requires IsText(g.key) && IsText(g.val) && IsText(h.key) && IsText(h.val)
    ensures g == h
  {
  }

  lemma PackedSteps(m0: seq<byte>, m1: seq<byte>, hs: seq<Header>, payload: seq<byte>)
    requires |m0| == |Packed(hs, payload)| < WORD_LIMIT
    requires Extends(m0, m1, 0, ENTRY * |hs|, hs)
    ensures |m1| == |m0|
    ensures Patch(m1, ENTRY * |hs| + |Content(hs)|, payload) == Packed(hs, payload)
  {
    hide Table, Content, Patch;
    var off := ENTRY * |hs| + |Content(hs)|;
    var m2 := Patch(m1, off, payload);
    LaidKept(m1, m2, 0, ENTRY * |hs|, hs);
    assert m2[off..] == m2[off..off + |payload|];
    PackedFromParts(m2, hs, payload);
  }

  method DeepCopy(pkt: Packet) returns (buf: array<byte>, u: Unpacked)
    requires |pkt.id| == ID_SIZE && |PackedOf(pkt)| < WORD_LIMIT
    ensures fresh(buf) && Holds(buf[..], u, pkt)
    ensures u.id == pkt.id && u.count == |HeadersOf(pkt)|
    ensures u.payloadOff + u.payloadSize == buf.Length && buf[u.payloadOff..] == pkt.payload
  {
    hide Table, Content, Patch, Extends, Headers, Packed;
    PackedSize(pkt);
    var stats := ComputeStats(pkt);
    buf := new byte[ENTRY * stats.numHdrs + stats.contentSize];
    ghost var m0 := buf[..];
    var off := ENTRY * stats.numHdrs;
    var entry: nat;
    ghost var stored: nat;
    entry, off, stored := WriteHeaders(buf, 0, off, pkt.blocks);
    PackedSteps(m0, buf[..], HeadersOf(pkt), pkt.payload);
    Store(buf, off, pkt.payload);
    u := Unpacked(pkt.id, stats.numHdrs, off, |pkt.payload|);
    assert buf[..][off..] == buf[..][off..off + |pkt.payload|];
  }

  lemma PackedSize(pkt: Packet)
    ensures |PackedOf(pkt)| == ENTRY * |HeadersOf(pkt)| + |Content(HeadersOf(pkt))| + |pkt.payload|
  {
  }

  // ----- a0_packet_deserialize ---------------------------------------------------------------------

  /** strlen of the string at `off`. */
  method StrLen(b: array<byte>, off: nat, ghost s: seq<byte>) returns (n: nat)
    requires HasText(b[..], off, s) && IsText(s)
    ensures n == |s|
  {
    n := 0;
    assert forall k :: 0 <= k < |s| ==> b[off + k] == b[..][off..off + |s|][k] && s[k] in s;
    while b[off + n] != 0
      invariant n <= |s|
      decreases |s| - n
    {
      n := n + 1;
    }
  }

  /** strcpy of the string at `src + srcOff` to `dst + off`. */
  method StrCpy(dst: array<byte>, off: nat, src: array<byte>, srcOff: nat, ghost s: seq<byte>)
    requires dst != src && HasText(src[..], srcOff, s) && IsText(s) && off + |s| < dst.Length
    modifies dst
    ensures dst[..] == Patch(old(dst[..]), off, s + [0])
  {
    assert forall k :: 0 <= k < |s| ==> src[srcOff + k] == src[..][srcOff..srcOff + |s|][k] && s[k] in s;
    hide Patch, HasText, IsText;
    ghost var m, all := dst[..], s + [0];
    var n := 0;
    PatchNothing(m, off);
    assert all[..0] == [];
    while src[srcOff + n] != 0
      invariant n <= |s| && dst[..] == Patch(m, off, all[..n])
      decreases |s| - n
    {
      PatchNext(m, off, all, n);
      dst[off + n] := src[srcOff + n];
      n := n + 1;
    }
    PatchNext(m, off, all, n);
    dst[off + n] := 0;
    assert all[..n + 1] == all;
  }

  lemma PatchNothing(m: seq<byte>, off: nat)
    requires off <= |m|
    ensures Patch(m, off, []) == m
  {
  }

  lemma PatchNext(m: seq<byte>, off: nat, s: seq<byte>, n: nat)
    requires off + |s| <= |m| && n < |s|
    ensures Patch(m, off, s[..n])[off + n := s[n]] == Patch(m, off, s[..n + 1])
  {
  }

  /** One header from the serialized packet `b` to the packed buffer. */
  method CopyHeader(buf: array<byte>, entry: nat, off: nat, b: array<byte>, from: nat, ghost h: Header)
    returns (end: nat)
    requires buf != b && Leads(b[..], from, h) && IsText(h.key) && IsText(h.val)
    requires entry + ENTRY <= off && off + |Item(h)| <= buf.Length
    modifies buf
    ensures buf[..] == PutHeader(old(buf[..]), entry, off, h)
    ensures end == off + |Item(h)|
  {
    hide Patch, HasText, EncodeWord, Decode, IsText;
    end := off;
    var keyOff := WordAt(b[..], from);
    Store(buf, entry, EncodeWord(end));
    StrCpy(buf, end, b, keyOff, h.key);
    var n := StrLen(b, keyOff, h.key);
    end := end + n + 1;
    var valOff := WordAt(b[..], from + WORD);
    Store(buf, entry + WORD, EncodeWord(end));
    StrCpy(buf, end, b, valOff, h.val);
    n := StrLen(b, valOff, h.val);
    end := end + n + 1;
  }

  /** The loop over the headers of the serialized packet. */
  method CopyHeaders(buf: array<byte>, b: array<byte>, num: nat, ghost hs: seq<Header>) returns (end: nat)
    requires buf != b && num == |hs| && AreTexts(hs) && Laid(b[..], ID_SIZE + WORD, ContentOff(num), hs)
    requires ENTRY * num + |Content(hs)| <= buf.Length < WORD_LIMIT
    modifies buf
    ensures Extends(old(buf[..]), buf[..], 0, ENTRY * num, hs)
    ensures end == ENTRY * num + |Content(hs)|
  {
    hide Extends, Content, Item, PutHeader, Laid, Leads, Table;
    ghost var m0 := buf[..];
    end := ENTRY * num;
    ContentOfNothing();
    ExtendsNothing(m0, 0, ENTRY * num);
    assert hs[..0] == [];
    var i := 0;
    while i < num
      invariant 0 <= i <= num
      invariant end == ENTRY * num + |Content(hs[..i])|
      invariant Extends(m0, buf[..], 0, ENTRY * num, hs[..i])
    {
      ghost var h := hs[i];
      assert hs == hs[..i] + [h] + hs[i + 1..] && hs[..i + 1] == hs[..i] + [h];
      RoomForNext(hs, hs[..i], h, hs[i + 1..]);
      ContentGrows(hs[..i], h, 0);
      LengthKept(m0, buf[..], 0, ENTRY * num, hs[..i]);
      ExtendsOneMore(m0, buf[..], 0, ENTRY * num, hs[..i], h);
      LaidLeads(b[..], ID_SIZE + WORD, ContentOff(num), hs, i);
      end := CopyHeader(buf, ENTRY * i, end, b, ID_SIZE + WORD + ENTRY * i, h);
      i := i + 1;
    }
    assert hs[..i] == hs;
  }

  /** The buffer is filled exactly, and holds the packet that was serialized. */
  method Deserialize(b: array<byte>, ghost pkt: Packet) returns (buf: array<byte>, u: Unpacked)
    requires Sized(pkt) && AreTexts(HeadersOf(pkt)) && b[..] == FlatOf(pkt)
    ensures fresh(buf) && Holds(buf[..], u, pkt)
    ensures u.id == pkt.id && u.count == |HeadersOf(pkt)|
    ensures u.payloadOff + u.payloadSize == buf.Length && buf[u.payloadOff..] == pkt.payload
  {
    hide Table, Content, Patch, Extends, Headers, Packed, Flat, Laid, Decode, AreTexts;
    FlatParts(pkt.id, HeadersOf(pkt), pkt.payload);
    FlatSize(pkt);
    PackedSize(pkt);
    var stats := FlatStats(b, pkt);
    buf := new byte[ENTRY * stats.numHdrs + stats.contentSize];
    ghost var m0 := buf[..];
    var end := CopyHeaders(buf, b, stats.numHdrs, HeadersOf(pkt));
    var payloadOff := WordAt(b[..], ID_SIZE + WORD + 2 * stats.numHdrs * WORD);
    PackedSteps(m0, buf[..], HeadersOf(pkt), pkt.payload);
    Store(buf, end, b[payloadOff..]);
    assert b[payloadOff..] == b[..][payloadOff..];
    u := Unpacked(b[..ID_SIZE], stats.numHdrs, end, b.Length - payloadOff);
    assert b[..ID_SIZE] == b[..][..ID_SIZE];
    assert buf[..][end..] == buf[..][end..end + |pkt.payload|];
  }

  // ----- The accessors of a serialized packet ----------------------------------------------------------

  method FlatStats(b: array<byte>, ghost pkt: Packet) returns (stats: Stats)
    requires Sized(pkt) && b[..] == FlatOf(pkt)
    ensures stats.numHdrs == |HeadersOf(pkt)|
    ensures stats.serialSize == |FlatOf(pkt)|
    ensures ENTRY * stats.numHdrs + stats.contentSize == |PackedOf(pkt)|
  {
    hide Table, Content, Headers, Packed, Flat, Laid, Decode;
    FlatParts(pkt.id, HeadersOf(pkt), pkt.payload);
    FlatSize(pkt);
    PackedSize(pkt);
    var num := WordAt(b[..], ID_SIZE);
    var contentOff := ID_SIZE + WORD + 2 * num * WORD + WORD;
    stats := Stats(num, b.Length - contentOff, b.Length);
  }

  method FlatPayload(b: array<byte>, ghost pkt: Packet) returns (off: nat, size: nat)
    requires Sized(pkt) && b[..] == FlatOf(pkt)
    ensures off + size == b.Length && b[off..off + size] == pkt.payload
  {
    hide Table, Content, Headers, Flat, Laid, Decode;
    FlatParts(pkt.id, HeadersOf(pkt), pkt.payload);
    FlatSize(pkt);
    var num := WordAt(b[..], ID_SIZE);
    off := WordAt(b[..], ID_SIZE + WORD + 2 * num * WORD);
    size := b.Length - off;
    assert b[off..off + size] == b[..][off..];
  }

  /** Offsets of the key and value of header `i` within the serialized packet. */
  method FlatHeader(b: array<byte>, i: nat, ghost pkt: Packet) returns (r: Result<(nat, nat)>)
    requires Sized(pkt) && b[..] == FlatOf(pkt)
    ensures r.Ok? <==> i < |HeadersOf(pkt)|
    ensures r.Err? ==> r.error == NotFound
    ensures r.Ok? ==> HasText(b[..], r.value.0, HeadersOf(pkt)[i].key) && HasText(b[..], r.value.1, HeadersOf(pkt)[i].val)
  {
    hide Table, Content, Headers, Flat, Laid, Decode, HasText;
    FlatParts(pkt.id, HeadersOf(pkt), pkt.payload);
    FlatSize(pkt);
    var num := WordAt(b[..], ID_SIZE);
    if i >= num {
      return Err(NotFound);
    }
    LaidLeads(b[..], ID_SIZE + WORD, ContentOff(num), HeadersOf(pkt), i);
    var keyOff := WordAt(b[..], ID_SIZE + WORD + 2 * i * WORD);
    var valOff := WordAt(b[..], ID_SIZE + WORD + (2 * i + 1) * WORD);
    r := Ok((keyOff, valOff));
  }

  // ----- Iterators ---------------------------------------------------------------------------------------

  /** The first header with the given key, or the number of headers. */
  function FirstMatch(hs: seq<Header>, key: seq<byte>): (n: nat)
    ensures n <= |hs| && (n < |hs| ==> hs[n].key == key)
    ensures forall i :: 0 <= i < n ==> hs[i].key != key
  {
    if hs == [] || hs[0].key == key then 0 else 1 + FirstMatch(hs[1..], key)
  }

  /** The headers from the given place in the chain on. */
  function HeadersFrom(block: Blocks, idx: nat): seq<Header> {
    if block.End? then [] else (if idx < |block.headers| then block.headers[idx..] else []) + Headers(block.next)
  }

  lemma NoBlock(idx: nat)
    ensures HeadersFrom(End, idx) == []
  {
  }

  lemma NextBlock(block: Blocks, idx: nat)
    requires block.Block? && idx >= |block.headers|
    ensures HeadersFrom(block, idx) == HeadersFrom(block.next, 0)
  {
  }

  lemma NextInBlock(block: Blocks, idx: nat)
    requires block.Block? && idx < |block.headers|
    ensures HeadersFrom(block, idx) == [block.headers[idx]] + HeadersFrom(block, idx + 1)
  {
  }

  class HeaderIterator {
    var block: Blocks
    var idx: nat

    constructor (pkt: Packet)
      ensures Rest() == HeadersOf(pkt)
    {
      block, idx := pkt.blocks, 0;
    }

    /** The headers still to come. */
    ghost function Rest(): seq<Header>
      reads this
    {
      HeadersFrom(block, idx)
    }

    /** The next header in chain order; empty blocks are passed over. */
    method Next() returns (r: Result<Header>)
      modifies this
      ensures old(Rest()) == [] ==> r == Err(IterDone) && Rest() == []
      ensures old(Rest()) != [] ==> r == Ok(old(Rest())[0]) && Rest() == old(Rest())[1..]
    {
      hide HeadersFrom;
      ghost var rest := Rest();
      while block.Block? && idx >= |block.headers|
        invariant HeadersFrom(block, idx) == rest
        decreases block
      {
        NextBlock(block, idx);
        block, idx := block.next, 0;
      }
      if block.End? {
        NoBlock(idx);
        return Err(IterDone);
      }
      NextInBlock(block, idx);
      r := Ok(block.headers[idx]);
      idx := idx + 1;
    }

    /** The next header with the given key, passing over the others. */
    method NextMatch(key: seq<byte>) returns (r: Result<Header>)
      modifies this
      ensures var n := FirstMatch(old(Rest()), key);
              if n == |old(Rest())| then r == Err(IterDone) && Rest() == []
              else r == Ok(old(Rest())[n]) && Rest() == old(Rest())[n + 1..]
    {
      hide HeadersFrom;
      ghost var all := Rest();
      ghost var n := FirstMatch(all, key);
      r := Next();
      ghost var i := 0;
      while r.Ok? && r.value.key != key
        invariant i <= n
        invariant i < |all| ==> r == Ok(all[i]) && Rest() == all[i + 1..]
        invariant i == |all| ==> r == Err(IterDone) && Rest() == []
        decreases |all| - i
      {
        r := Next();
        i := i + 1;
      }
    }
  }

  /** strcmp of a text with the string at `off`. */
  method SameText(key: seq<byte>, b: array<byte>, off: nat, ghost s: seq<byte>) returns (same: bool)
    requires IsText(key) && HasText(b[..], off, s) && IsText(s)
    ensures same <==> key == s
  {
    var n := StrLen(b, off, s);
    same := n == |key| && b[off..off + n] == key;
    assert b[..][off..off + |s|] == b[off..off + |s|];
  }

  class FlatIterator {
    const b: array<byte>
    ghost const pkt: Packet
    var idx: nat

    constructor (b: array<byte>, ghost pkt: Packet)
      requires Sized(pkt) && AreTexts(HeadersOf(pkt)) && b[..] == FlatOf(pkt)
      ensures this.b == b && this.pkt == pkt && idx == 0 && Valid()
    {
      this.b, this.pkt, idx := b, pkt, 0;
    }

    /** The buffer is the serialized packet. */
    ghost predicate Valid()
      reads b
    {
      Sized(pkt) && AreTexts(HeadersOf(pkt)) && b[..] == FlatOf(pkt)
    }

    ghost function Count(): nat {
      |HeadersOf(pkt)|
    }

    /** The offsets `at` are those of header `i`. */
    ghost predicate Found(at: (nat, nat), i: nat)
      reads b
    {
      i < Count() && HasText(b[..], at.0, HeadersOf(pkt)[i].key) && HasText(b[..], at.1, HeadersOf(pkt)[i].val)
    }

    /** Header `n` is the first with the given key from `from` on; there is none when it is not below
        the number of headers. */
    ghost predicate FirstFrom(from: nat, key: seq<byte>, n: nat) {
      && from <= n && (n <= Count() || n == from)
      && (n < Count() ==> HeadersOf(pkt)[n].key == key)
      && forall i :: from <= i < n && i < Count() ==> HeadersOf(pkt)[i].key != key
    }

    /** The next header, by its offsets. Past the end there is none, however often one asks. */
    method Next() returns (r: Result<(nat, nat)>)
      requires Valid()
      modifies this
      ensures idx == old(idx) + 1
      ensures old(idx) >= Count() ==> r == Err(NotFound)
      ensures old(idx) < Count() ==> r.Ok? && Found(r.value, old(idx))
      ensures r.Ok? <==> old(idx) < |HeadersOf(pkt)|
      ensures r.Ok? ==>
        HasText(b[..], r.value.0, HeadersOf(pkt)[old(idx)].key) && HasText(b[..], r.value.1, HeadersOf(pkt)[old(idx)].val)
    {
      r := FlatHeader(b, idx, pkt);
      idx := idx + 1;
    }

    lemma FoundMeans(at: (nat, nat), i: nat)
      requires Found(at, i)
      ensures i < |HeadersOf(pkt)| && HasText(b[..], at.1, HeadersOf(pkt)[i].val)
    {
    }

    /** Whether the key at the given offsets is `key`. */
    method HasKey(at: (nat, nat), ghost i: nat, key: seq<byte>) returns (same: bool)
      requires Valid() && Found(at, i) && IsText(key)
      ensures i < Count() && (same <==> HeadersOf(pkt)[i].key == key)
    {
      same := SameText(key, b, at.0, HeadersOf(pkt)[i].key);
    }

    /** The next header with the given key; none, however often one asks, past the end. */
    method NextMatch(key: seq<byte>) returns (r: Result<(nat, nat)>, ghost n: nat)
      requires Valid() && IsText(key)
      modifies this
      ensures FirstFrom(old(idx), key, n) && idx == n + 1
      ensures forall i :: old(idx) <= i < n && i < |HeadersOf(pkt)| ==> HeadersOf(pkt)[i].key != key
      ensures r.Ok? <==> n < |HeadersOf(pkt)|
      ensures r.Ok? ==> HeadersOf(pkt)[n].key == key && HasText(b[..], r.value.1, HeadersOf(pkt)[n].val)
      ensures if n < Count() then r.Ok? && Found(r.value, n) else r == Err(NotFound)
    {
      hide Valid, Found, Sized, FlatOf;
      n := idx;
      r := Next();
      while r.Ok?
        invariant Valid() && old(idx) <= n && (n <= Count() || n == old(idx)) && idx == n + 1
        invariant if n < Count() then r.Ok? && Found(r.value, n) else r == Err(NotFound)
        invariant forall i :: old(idx) <= i < n && i < Count() ==> HeadersOf(pkt)[i].key != key
        decreases Count() - n
      {
        var same := HasKey(r.value, n, key);
        if same {
          FoundMeans(r.value, n);
          return;
        }
        r := Next();
        n := n + 1;
      }
    }
  }
}

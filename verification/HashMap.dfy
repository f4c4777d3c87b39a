/** The Robin Hood hash table: what the bucket array has to satisfy, why the early exit of
    a lookup misses nothing, and the table operations as updates of a mathematical map. */
module HashMap {
  import opened Errors
  import opened Bits

  /** A bucket records how far its entry lies from the entry's home, counting from one. */
  datatype Bucket<K, V> = Vacant | Full(off: nat, key: K, val: V)

  function Off<K, V>(b: Bucket<K, V>): nat {
    if b.Full? then b.off else 0
  }

  // ----- The circle of bucket indices -----------------------------------------------

  function Succ(i: nat, n: nat): (j: nat)
    requires i < n
    ensures j < n
  {
    if i + 1 == n then 0 else i + 1
  }

  function Pred(i: nat, n: nat): (j: nat)
    requires i < n
    ensures j < n && Succ(j, n) == i
  {
    if i == 0 then n - 1 else i - 1
  }

  /** The number of steps from `h` forward to `i`. */
  function Dist(h: nat, i: nat, n: nat): (d: nat)
    requires h < n && i < n
    ensures d < n
  {
    if h <= i then i - h else i + n - h
  }

  function Home<K>(hash: K -> nat, k: K, n: nat): (h: nat)
    requires n > 0
    ensures h < n
  {
    hash(k) % n
  }

  // ----- Tables ---------------------------------------------------------------------

  ghost predicate InPlace<K, V>(hash: K -> nat, t: seq<Bucket<K, V>>) {
    forall i :: 0 <= i < |t| && t[i].Full? ==> t[i].off == Dist(Home(hash, t[i].key, |t|), i, |t|) + 1
  }

  /** No offset exceeds its predecessor's by more than one. */
  ghost predicate Gentle<K, V>(t: seq<Bucket<K, V>>) {
    forall i: nat :: i < |t| ==> Off(t[Succ(i, |t|)]) <= Off(t[i]) + 1
  }

  ghost predicate Distinct<K, V>(t: seq<Bucket<K, V>>) {
    forall i, j :: 0 <= i < |t| && 0 <= j < |t| && t[i].Full? && t[j].Full? && t[i].key == t[j].key ==> i == j
  }

  ghost predicate RobinHood<K, V>(hash: K -> nat, t: seq<Bucket<K, V>>) {
    InPlace(hash, t) && Gentle(t) && Distinct(t)
  }

  /** The table holds exactly the entries of `m`. */
  ghost predicate Represents<K, V>(t: seq<Bucket<K, V>>, m: map<K, V>) {
    && (forall i :: 0 <= i < |t| && t[i].Full? ==> t[i].key in m && m[t[i].key] == t[i].val)
    && (forall k :: k in m ==> exists i :: 0 <= i < |t| && t[i].Full? && t[i].key == k)
  }

  function Count<K, V>(t: seq<Bucket<K, V>>): (c: nat)
    ensures c <= |t|
  {
    if t == [] then 0 else (if t[0].Full? then 1 else 0) + Count(t[1..])
  }

  lemma {:induction false} CountUpdate<K, V>(t: seq<Bucket<K, V>>, i: nat, b: Bucket<K, V>)
    requires i < |t|
    ensures Count(t[i := b]) + (if t[i].Full? then 1 else 0) == Count(t) + if b.Full? then 1 else 0
  {
    if i == 0 {
      assert t[0 := b][1..] == t[1..];
    } else {
      CountUpdate(t[1..], i - 1, b);
      assert t[i := b][1..] == t[1..][i - 1 := b];
    }
  }

  /** A table that is not full has a vacant bucket. */
  lemma {:induction false} SomeVacant<K, V>(t: seq<Bucket<K, V>>) returns (e: nat)
    requires Count(t) < |t|
    ensures e < |t| && t[e].Vacant?
  {
    if t[0].Vacant? {
      e := 0;
    } else {
      e := SomeVacant(t[1..]);
      e := e + 1;
    }
  }

  lemma {:induction false} NoneFull<K, V>(t: seq<Bucket<K, V>>)
    requires forall i :: 0 <= i < |t| ==> t[i].Vacant?
    ensures Count(t) == 0
  {
    if t != [] {
      NoneFull(t[1..]);
    }
  }

  /** Going back along a probe path the offsets fall by at most one a step, so every bucket
      on the way from `h` to `p` is at least as far from its entry's home as from `h`. */
  lemma {:induction false} ProbePath<K, V>(t: seq<Bucket<K, V>>, h: nat, p: nat, i: nat)
    requires Gentle(t) && h < |t| && p < |t| && i < |t|
    requires Off(t[p]) >= Dist(h, p, |t|) + 1
    requires Dist(h, i, |t|) <= Dist(h, p, |t|)
    ensures Off(t[i]) >= Dist(h, i, |t|) + 1
    decreases Dist(h, p, |t|)
  {
    if i != p {
      var q := Pred(p, |t|);
      assert Dist(h, q, |t|) + 1 == Dist(h, p, |t|);
      ProbePath(t, h, q, i);
    }
  }

  /** The early exit of a lookup is sound: a bucket closer to its entry's home than to the
      home `h` of `k` proves that `k` lies nowhere further along. */
  lemma EarlyExit<K, V>(hash: K -> nat, t: seq<Bucket<K, V>>, k: K, i: nat, p: nat)
    requires InPlace(hash, t) && Gentle(t) && i < |t| && p < |t|
    requires t[p].Full? && t[p].key == k
    requires Off(t[i]) < Dist(Home(hash, k, |t|), i, |t|) + 1
    ensures Dist(Home(hash, k, |t|), p, |t|) < Dist(Home(hash, k, |t|), i, |t|)
  {
    var h := Home(hash, k, |t|);
    if Dist(h, i, |t|) <= Dist(h, p, |t|) {
      ProbePath(t, h, p, i);
    }
  }

  /** When a bucket is at least as far along as a carried entry with home `h` would be, and
      some bucket is vacant, the next step has not come full circle. */
  lemma NotFullCircle<K, V>(t: seq<Bucket<K, V>>, h: nat, p: nat, e: nat)
    requires Gentle(t) && h < |t| && p < |t| && e < |t| && t[e].Vacant?
    requires Off(t[p]) >= Dist(h, p, |t|) + 1
    ensures Succ(p, |t|) != h && Dist(h, Succ(p, |t|), |t|) == Dist(h, p, |t|) + 1
  {
    if Succ(p, |t|) == h {
      assert Dist(h, p, |t|) == |t| - 1;
      ProbePath(t, h, p, e);
    }
  }

  lemma SameContents<K, V>(t: seq<Bucket<K, V>>, m1: map<K, V>, m2: map<K, V>)
    requires Represents(t, m1) && Represents(t, m2)
    ensures m1 == m2
  {
  }

  // ----- Insertion ------------------------------------------------------------------

  ghost predicate Absent<K, V>(t: seq<Bucket<K, V>>, k: K) {
    forall i :: 0 <= i < |t| && t[i].Full? ==> t[i].key != k
  }

  /** The table together with the entry being carried holds exactly `m`. */
  ghost predicate RepresentsWith<K, V>(t: seq<Bucket<K, V>>, b: Bucket<K, V>, m: map<K, V>)
    requires b.Full?
  {
    && Absent(t, b.key)
    && b.key in m && m[b.key] == b.val
    && (forall i :: 0 <= i < |t| && t[i].Full? ==> t[i].key in m && m[t[i].key] == t[i].val)
    && (forall k :: k in m && k != b.key ==> exists i :: 0 <= i < |t| && t[i].Full? && t[i].key == k)
  }

  /** An entry carried to bucket `i` is as far from home as its offset says, and the bucket
      before is nearly as far along. */
  ghost predicate Carried<K, V>(hash: K -> nat, t: seq<Bucket<K, V>>, b: Bucket<K, V>, i: nat)
    requires i < |t|
  {
    && b.Full?
    && b.off == Dist(Home(hash, b.key, |t|), i, |t|) + 1
    && b.off <= Off(t[Pred(i, |t|)]) + 1
  }

  /** Putting a carried entry into a vacant bucket, or one nearer its home, keeps the table
      in order. */
  lemma PlaceOrdered<K, V>(hash: K -> nat, t: seq<Bucket<K, V>>, b: Bucket<K, V>, i: nat)
    requires |t| >= 2 && i < |t| && RobinHood(hash, t) && Carried(hash, t, b, i)
    requires Absent(t, b.key) && Off(t[i]) < b.off
    ensures RobinHood(hash, t[i := b])
  {
  }

  lemma PlaceRepresents<K, V>(t: seq<Bucket<K, V>>, b: Bucket<K, V>, i: nat, m: map<K, V>)
    requires i < |t| && b.Full? && RepresentsWith(t, b, m) && t[i].Vacant?
    ensures Represents(t[i := b], m)
  {
    var t' := t[i := b];
    forall k | k in m
      ensures exists j :: 0 <= j < |t'| && t'[j].Full? && t'[j].key == k
    {
      if k == b.key {
        assert t'[i].key == k;
      } else {
        var j :| 0 <= j < |t| && t[j].Full? && t[j].key == k;
        assert t'[j] == t[j];
      }
    }
  }

  /** Swapping the carried entry with a bucket's: the table holds one, the hand the other. */
  lemma SwapRepresents<K, V>(t: seq<Bucket<K, V>>, b: Bucket<K, V>, i: nat, m: map<K, V>)
    requires i < |t| && b.Full? && RepresentsWith(t, b, m) && t[i].Full? && Distinct(t)
    ensures RepresentsWith(t[i := b], t[i], m)
  {
    var t' := t[i := b];
    forall k | k in m && k != t[i].key
      ensures exists j :: 0 <= j < |t'| && t'[j].Full? && t'[j].key == k
    {
      if k == b.key {
        assert t'[i].key == k;
      } else {
        var j :| 0 <= j < |t| && t[j].Full? && t[j].key == k;
        assert t'[j] == t[j];
      }
    }
  }

  lemma StartCarrying<K, V>(t: seq<Bucket<K, V>>, b: Bucket<K, V>, m: map<K, V>)
    requires b.Full? && Represents(t, m) && b.key !in m
    ensures RepresentsWith(t, b, m[b.key := b.val])
  {
  }

  lemma ReplaceValue<K, V>(hash: K -> nat, t: seq<Bucket<K, V>>, i: nat, m: map<K, V>, v: V)
    requires i < |t| && t[i].Full? && RobinHood(hash, t) && Represents(t, m)
    ensures RobinHood(hash, t[i := t[i].(val := v)])
    ensures Represents(t[i := t[i].(val := v)], m[t[i].key := v])
    ensures Count(t[i := t[i].(val := v)]) == Count(t)
  {
    CountUpdate(t, i, t[i].(val := v));
    var t' := t[i := t[i].(val := v)];
    forall j: nat | j < |t|
      ensures Off(t'[Succ(j, |t|)]) <= Off(t'[j]) + 1
    {
      assert Off(t[Succ(j, |t|)]) <= Off(t[j]) + 1;
    }
    forall k | k in m
      ensures exists j :: 0 <= j < |t'| && t'[j].Full? && t'[j].key == k
    {
      var j :| 0 <= j < |t| && t[j].Full? && t[j].key == k;
      assert t'[j].key == k;
    }
  }

  /** The carried entry moves on past a bucket at least as far along. */
  lemma CarryOn<K, V>(hash: K -> nat, t: seq<Bucket<K, V>>, b: Bucket<K, V>, i: nat, e: nat)
    requires i < |t| && e < |t| && t[e].Vacant? && Gentle(t)
    requires b.Full? && b.off == Dist(Home(hash, b.key, |t|), i, |t|) + 1 <= Off(t[i])
    ensures Carried(hash, t, b.(off := b.off + 1), Succ(i, |t|))
    ensures Dist(Succ(i, |t|), e, |t|) < Dist(i, e, |t|)
  {
    NotFullCircle(t, Home(hash, b.key, |t|), i, e);
    assert Pred(Succ(i, |t|), |t|) == i;
  }

  // ----- Deletion -------------------------------------------------------------------

  /** A table in order but for the vacated bucket `i`: the bucket after it may still be one
      step too far from home. */
  ghost predicate Hole<K, V>(hash: K -> nat, t: seq<Bucket<K, V>>, i: nat)
    requires i < |t|
  {
    && InPlace(hash, t) && Distinct(t)
    && t[i].Vacant?
    && (forall j: nat :: j < |t| && j != i ==> Off(t[Succ(j, |t|)]) <= Off(t[j]) + 1)
    && Off(t[Succ(i, |t|)]) <= Off(t[Pred(i, |t|)]) + 2
  }

  lemma VacateLeavesHole<K, V>(hash: K -> nat, t: seq<Bucket<K, V>>, i: nat)
    requires |t| >= 3 && i < |t| && RobinHood(hash, t)
    ensures Hole(hash, t[i := Vacant], i)
  {
  }

  /** Shifting the next entry back one bucket moves the hole forward one. */
  lemma ShiftMovesHole<K, V>(hash: K -> nat, t: seq<Bucket<K, V>>, i: nat)
    requires |t| >= 4 && i < |t| && Hole(hash, t, i) && Off(t[Succ(i, |t|)]) > 1
    ensures var j := Succ(i, |t|);
            Hole(hash, t[i := t[j].(off := t[j].off - 1)][j := Vacant], j)
  {
    var n := |t|;
    var j := Succ(i, n);
    var t' := t[i := t[j].(off := t[j].off - 1)][j := Vacant];
    var p := Pred(i, n);
    assert Off(t[Succ(p, n)]) <= Off(t[p]) + 1;
    assert Off(t[Succ(j, n)]) <= Off(t[j]) + 1;
    assert Pred(j, n) == i;
    forall k: nat | k < n && k != j
      ensures Off(t'[Succ(k, n)]) <= Off(t'[k]) + 1
    {
      if k == i {
      } else if Succ(k, n) == i {
        assert k == p;
      } else {
        assert Off(t[Succ(k, n)]) <= Off(t[k]) + 1;
      }
    }
  }

  lemma HoleClosed<K, V>(hash: K -> nat, t: seq<Bucket<K, V>>, i: nat)
    requires i < |t| && Hole(hash, t, i) && Off(t[Succ(i, |t|)]) <= 1
    ensures RobinHood(hash, t)
  {
  }

  lemma VacateRepresents<K, V>(t: seq<Bucket<K, V>>, i: nat, m: map<K, V>)
    requires i < |t| && t[i].Full? && Distinct(t) && Represents(t, m)
    ensures Represents(t[i := Vacant], m - {t[i].key})
  {
    var t' := t[i := Vacant];
    forall k | k in m - {t[i].key}
      ensures exists j :: 0 <= j < |t'| && t'[j].Full? && t'[j].key == k
    {
      var j :| 0 <= j < |t| && t[j].Full? && t[j].key == k;
      assert t'[j] == t[j];
    }
  }

  lemma ShiftRepresents<K, V>(t: seq<Bucket<K, V>>, i: nat, j: nat, m: map<K, V>)
    requires i < |t| && j < |t| && i != j && t[i].Vacant? && t[j].Full? && t[j].off > 0
    requires Represents(t, m)
    ensures Represents(t[i := t[j].(off := t[j].off - 1)][j := Vacant], m)
    ensures Count(t[i := t[j].(off := t[j].off - 1)][j := Vacant]) == Count(t)
  {
    var b := t[j].(off := t[j].off - 1);
    CountUpdate(t, i, b);
    CountUpdate(t[i := b], j, Vacant);
    var t' := t[i := b][j := Vacant];
    forall k | k in m
      ensures exists l :: 0 <= l < |t'| && t'[l].Full? && t'[l].key == k
    {
      var l :| 0 <= l < |t| && t[l].Full? && t[l].key == k;
      assert t'[if l == j then i else l].key == k;
    }
  }

  // ----- Keys that compare equal -----------------------------------------------------

  /** The comparison is an equivalence that the hash respects: `sort` is what a key is to it, and
      `home` the hash of that. Keys of one sort need not be the same key. */
  ghost predicate Respects<K(!new), C>(hash: K -> nat, cmp: (K, K) -> int, sort: K -> C, home: C -> nat) {
    && (forall a, b :: cmp(a, b) == 0 <==> sort(a) == sort(b))
    && (forall a :: hash(a) == home(sort(a)))
  }

  /** A bucket as a table of sorts sees it, with the key as part of what is kept. */
  ghost function Cell<K, C, V>(sort: K -> C, b: Bucket<K, V>): Bucket<C, (K, V)> {
    if b.Vacant? then Vacant else Full(b.off, sort(b.key), (b.key, b.val))
  }

  ghost function Cells<K, C, V>(sort: K -> C, t: seq<Bucket<K, V>>): (u: seq<Bucket<C, (K, V)>>)
    ensures |u| == |t|
  {
    seq(|t|, i requires 0 <= i < |t| => Cell(sort, t[i]))
  }

  lemma CellsUpdate<K, C, V>(sort: K -> C, t: seq<Bucket<K, V>>, i: nat, b: Bucket<K, V>)
    requires i < |t|
    ensures Cells(sort, t[i := b]) == Cells(sort, t)[i := Cell(sort, b)]
  {
  }

  /** The map with `v` for the sort `c`, under the key that was there first. */
  ghost function Stored<K, C, V>(m: map<C, (K, V)>, c: C, k: K, v: V): map<C, (K, V)> {
    m[c := (if c in m then m[c].0 else k, v)]
  }

  // ----- The map --------------------------------------------------------------------

  class Map<K(!new), C(!new), V> {
    const hash: K -> nat
    const cmp: (K, K) -> int
    ghost const sort: K -> C
    ghost const home: C -> nat
    var size: nat
    var hash2idx: nat
    var buckets: array<Bucket<K, V>>
    /** For every sort of key in the map, the key itself and its value. */
    ghost var contents: map<C, (K, V)>

    ghost function Table(): (t: seq<Bucket<C, (K, V)>>)
      reads this`buckets, buckets
      ensures |t| == buckets.Length
      ensures forall i :: 0 <= i < |t| ==> t[i] == Cell(sort, buckets[i])
    {
      Cells(sort, buckets[..])
    }

    ghost predicate Valid()
      reads this, buckets
    {
      && Respects(hash, cmp, sort, home)
      && Shape()
      && RobinHood(home, Table())
      && Represents(Table(), contents)
      && size == Count(Table())
      && 2 * size <= buckets.Length
    }

    /** No buckets yet, or a power of two of them, at least four. */
    ghost predicate Shape()
      reads this
    {
      buckets.Length == 0 ||
      (buckets.Length >= 4 && IsPowerOfTwo(buckets.Length) && hash2idx == buckets.Length - 1)
    }

    constructor (hash: K -> nat, cmp: (K, K) -> int, ghost sort: K -> C, ghost home: C -> nat)
      requires Respects(hash, cmp, sort, home)
      ensures Valid() && fresh(buckets) && contents == map[] && buckets.Length == 0
      ensures this.hash == hash && this.cmp == cmp && this.sort == sort && this.home == home
    {
      this.hash := hash;
      this.cmp := cmp;
      this.sort := sort;
      this.home := home;
      size, hash2idx := 0, 0;
      buckets := new Bucket<K, V>[0];
      contents := map[];
    }

    /** A zeroed table of the given capacity. */
    constructor Cleared(hash: K -> nat, cmp: (K, K) -> int, ghost sort: K -> C, ghost home: C -> nat, cap: nat)
      requires Respects(hash, cmp, sort, home)
      requires cap >= 4 && IsPowerOfTwo(cap)
      ensures Valid() && fresh(buckets) && contents == map[] && size == 0 && buckets.Length == cap
      ensures this.hash == hash && this.cmp == cmp && this.sort == sort && this.home == home
    {
      this.hash := hash;
      this.cmp := cmp;
      this.sort := sort;
      this.home := home;
      size, hash2idx := 0, cap - 1;
      buckets := new Bucket<K, V>[cap](_ => Vacant);
      contents := map[];
      new;
      NoneFull(Table());
    }

    method IsEmpty() returns (r: bool)
      requires Valid()
      ensures r <==> contents == map[]
    {
      r := size == 0;
      if r {
        NoneHeld(Table(), contents);
      } else {
        SomeHeld(Table(), contents);
      }
    }

    method Size() returns (r: nat)
      requires Valid()
      ensures r == |contents|
    {
      CountIsSize(Table(), contents);
      r := size;
    }

    /** The bucket that holds a key equal to `k`, found by probing from its home. */
    method Find(k: K) returns (r: Result<nat>)
      requires Valid()
      ensures r == Err(NotFound) || r.Ok?
      ensures r.Ok? <==> sort(k) in contents
      ensures r.Ok? ==>
        r.value < buckets.Length && buckets[r.value].Full? && sort(buckets[r.value].key) == sort(k)
        && contents[sort(k)] == (buckets[r.value].key, buckets[r.value].val)
    {
      hide RobinHood, Represents, IsPowerOfTwo, And, Count, Table;
      ghost var t := Table();
      if size == 0 {
        NoneHeld(t, contents);
        return Err(NotFound);
      }
      var n := buckets.Length;
      HomeByMask(hash(k), n);
      var idx: nat := And(hash(k), hash2idx);
      ghost var h := idx;
      var off: nat := 1;
      while off <= Off(buckets[idx])
        invariant 1 <= off <= n + 1 && idx < n
        invariant if off <= n then off == Dist(h, idx, n) + 1 else idx == h
        invariant forall i :: 0 <= i < n && Dist(h, i, n) < off - 1 ==> !(t[i].Full? && t[i].key == sort(k))
        decreases n + 1 - off
      {
        OffBound(home, t, idx);
        if cmp(k, buckets[idx].key) == 0 {
          Held(t, contents, idx);
          return Ok(idx);
        }
        NextByMask(idx, n);
        idx := And(idx + 1, hash2idx);
        off := off + 1;
      }
      NotThere(home, t, contents, sort(k), idx, off);
      r := Err(NotFound);
    }

    method Has(k: K) returns (r: bool)
      requires Valid()
      ensures r <==> sort(k) in contents
    {
      var b := Find(k);
      r := b.Ok?;
    }

    method Get(k: K) returns (r: Result<V>)
      requires Valid()
      ensures r == if sort(k) in contents then Ok(contents[sort(k)].1) else Err(NotFound)
    {
      var b := Find(k);
      r := if b.Ok? then Ok(buckets[b.value].val) else Err(NotFound);
    }

    /** Adds an entry, or replaces the value of an equal key, which stays. */
    method Put(k: K, v: V)
      requires Valid()
      modifies this, buckets
      ensures Valid() && contents == Stored(old(contents), sort(k), k, v)
      ensures contents.Keys == old(contents).Keys + {sort(k)}
      ensures contents[sort(k)].1 == v
      ensures contents[sort(k)].0 == if sort(k) in old(contents) then old(contents)[sort(k)].0 else k
      ensures forall c :: c in old(contents) && c != sort(k) ==> contents[c] == old(contents)[c]
      ensures buckets == old(buckets) || fresh(buckets)
      ensures 2 * old(size) < old(buckets.Length) ==> buckets == old(buckets)
      decreases if 2 * size >= buckets.Length then 2 else 0
    {
      if 2 * size >= buckets.Length {
        Grow();
      }
      Insert(k, v);
    }

    /** Carries the new entry forward from its home, exchanging it for any entry nearer its
        own home, until a vacant bucket takes what is carried. */
    method Insert(k: K, v: V)
      requires Valid() && 2 * size < buckets.Length
      modifies this, buckets
      ensures Valid() && contents == Stored(old(contents), sort(k), k, v) && buckets == old(buckets)
      ensures contents.Keys == old(contents).Keys + {sort(k)}
      ensures contents[sort(k)].1 == v
      ensures contents[sort(k)].0 == if sort(k) in old(contents) then old(contents)[sort(k)].0 else k
      ensures forall c :: c in old(contents) && c != sort(k) ==> contents[c] == old(contents)[c]
    {
      hide RobinHood, Represents, Count, IsPowerOfTwo, And, Carrying, Table, Dist, Cells;
      ghost var n, c := buckets.Length, sort(k);
      ghost var e := SomeVacant(Table());
      HomeByMask(hash(k), n);
      var idx: nat := And(hash(k), hash2idx);
      var b := Full(1, k, v);
      ghost var p := StartInsert(home, Table(), contents, c, (k, v), idx, e);
      while buckets[idx].Full?
        invariant unchanged(this) && idx < n && b.Full? && size == Count(Table())
        invariant Carrying(home, Table(), contents, Cell(sort, b), c, (k, v), idx, e, p)
        decreases Dist(idx, e, n)
      {
        ghost var t := Table();
        if cmp(b.key, buckets[idx].key) == 0 {
          MeetEqual(home, t, contents, Cell(sort, b), c, (k, v), idx, e, p, (buckets[idx].key, b.val));
          var was := Exchange(idx, buckets[idx].(val := b.val));
          contents := Stored(contents, c, k, v);
          return;
        }
        if b.off > buckets[idx].off {
          SwapStep(home, t, contents, Cell(sort, b), c, (k, v), idx, e, p);
          b := Exchange(idx, b);
        } else {
          PassStep(home, t, contents, Cell(sort, b), c, (k, v), idx, e, p);
        }
        NextByMask(idx, n);
        idx := And(idx + 1, hash2idx);
        b := b.(off := b.off + 1);
      }
      PlaceStep(home, Table(), contents, Cell(sort, b), c, (k, v), idx, e, p);
      var was := Exchange(idx, b);
      size := size + 1;
      contents := Stored(contents, c, k, v);
      PlaceRoom(n, size);
    }

    method Del(k: K) returns (r: Result<()>)
      requires Valid()
      modifies this, buckets
      ensures Valid() && contents == old(contents) - {sort(k)} && buckets == old(buckets)
      ensures r == if sort(k) in old(contents) then Ok(()) else Err(NotFound)
    {
      hide RobinHood, Represents, Count, Table;
      var b := Find(k);
      if b.Err? {
        return Err(NotFound);
      }
      DelBucket(b.value);
      r := Ok(());
    }

    /** Removes the entry and returns its value. */
    method Pop(k: K) returns (r: Result<V>)
      requires Valid()
      modifies this, buckets
      ensures Valid() && contents == old(contents) - {sort(k)} && buckets == old(buckets)
      ensures r == if sort(k) in old(contents) then Ok(old(contents)[sort(k)].1) else Err(NotFound)
    {
      hide RobinHood, Represents, Count, Table;
      var b := Find(k);
      if b.Err? {
        return Err(NotFound);
      }
      r := Ok(buckets[b.value].val);
      DelBucket(b.value);
    }

    /** Vacates a bucket and shifts the entries after it back until one is at home. */
    method DelBucket(i: nat)
      requires Valid() && i < buckets.Length && buckets[i].Full?
      modifies this, buckets
      ensures Valid() && buckets == old(buckets)
      ensures contents == old(contents) - {sort(old(buckets[i].key))}
    {
      hide RobinHood, Represents, Count, IsPowerOfTwo, And, Hole, Table;
      ghost var t := Table();
      StartDelete(home, t, i, contents);
      ghost var e := SomeVacant(t);
      contents := contents - {sort(buckets[i].key)};
      var was := Exchange(i, Vacant);
      size := size - 1;
      CloseHole(i, e);
    }

    /** Shifts entries back into the hole at `i` until the next one is at home or vacant. */
    method CloseHole(i: nat, ghost e: nat)
      requires i < buckets.Length && e < buckets.Length && buckets[e].Vacant? && e != i
      requires Shape() && Hole(home, Table(), i) && Represents(Table(), contents)
      modifies buckets
      ensures RobinHood(home, Table()) && Represents(Table(), contents)
      ensures Count(Table()) == old(Count(Table()))
    {
      hide RobinHood, Represents, Count, IsPowerOfTwo, And, Hole, Table, Dist, Cells;
      var n := buckets.Length;
      var idx: nat := i;
      NextByMask(i, n);
      var next: nat := And(i + 1, hash2idx);
      while Off(buckets[next]) > 1
        invariant idx < n && next == Succ(idx, n)
        invariant Hole(home, Table(), idx) && Represents(Table(), contents)
        invariant Count(Table()) == old(Count(Table())) && buckets[e].Vacant? && e != idx
        decreases Dist(next, e, n)
      {
        ShiftStep(home, Table(), idx, contents);
        ShiftBack(idx, next);
        Nearer(next, e, n);
        idx := next;
        NextByMask(idx, n);
        next := And(idx + 1, hash2idx);
      }
      HoleClosed(home, Table(), idx);
    }

    /** Moves an entry one step nearer its home. */
    method ShiftBack(to: nat, from: nat)
      requires to < buckets.Length && from < buckets.Length && to != from
      requires buckets[from].Full? && buckets[from].off > 0
      modifies buckets
      ensures var b := old(Table()[from]);
              Table() == old(Table())[to := b.(off := b.off - 1)][from := Vacant]
    {
      ghost var t := buckets[..];
      CellsUpdate(sort, t, to, t[from].(off := t[from].off - 1));
      CellsUpdate(sort, t[to := t[from].(off := t[from].off - 1)], from, Vacant);
      buckets[to] := buckets[from];
      buckets[to] := buckets[to].(off := buckets[to].off - 1);
      buckets[from] := Vacant;
      assert buckets[..] == t[to := t[from].(off := t[from].off - 1)][from := Vacant];
    }

    /** Copies a bucket out and another one in. */
    method Exchange(idx: nat, b: Bucket<K, V>) returns (was: Bucket<K, V>)
      requires idx < buckets.Length
      modifies buckets
      ensures Table() == old(Table())[idx := Cell(sort, b)] && was == old(buckets[idx])
    {
      CellsUpdate(sort, buckets[..], idx, b);
      was := buckets[idx];
      buckets[idx] := b;
    }

    /** Doubles the capacity by putting every entry into a new table, which never grows. */
    method Grow()
      requires Valid() && 2 * size >= buckets.Length
      modifies this
      ensures Valid() && contents == old(contents) && fresh(buckets)
      ensures buckets.Length == if old(buckets.Length) == 0 then 4 else 2 * old(buckets.Length)
      ensures 2 * size < buckets.Length
      decreases 1
    {
      hide Valid, RobinHood, Represents, Count, IsPowerOfTwo, Found, AllVacant, Entries, Table, Respects;
      Facts();
      var cap := if buckets.Length == 0 then 4 else 2 * buckets.Length;
      DoubledShape(buckets.Length);
      var next := new Map.Cleared(hash, cmp, sort, home, cap);
      Rehash(next);
      size, hash2idx, buckets := next.size, next.hash2idx, next.buckets;
      Adopted(next);
    }

    /** Another table with room for all of this one, of keys of the same kind. */
    ghost predicate Takes(next: Map<K, C, V>)
      reads this, next
    {
      && next != this && next.buckets != buckets && next.hash == hash && next.cmp == cmp
      && next.sort == sort && next.home == home && buckets.Length < next.buckets.Length
    }

    /** Puts the entry just before bucket `idx` into the new table, which already has those before `done`. */
    method Move(next: Map<K, C, V>, e: (K, V), ghost done: nat, ghost idx: nat)
      requires Valid() && next.Valid() && Takes(next)
      requires done <= buckets.Length && Represents(Table()[..done], next.contents)
      requires Found(Table(), done, idx, (sort(e.0), e))
      modifies next, next.buckets
      ensures next.Valid() && next.buckets == old(next.buckets)
      ensures done < idx <= buckets.Length && Represents(Table()[..idx], next.contents)
      decreases 1, 0
    {
      hide Valid, RobinHood, Represents, Count, IsPowerOfTwo, Found, AllVacant, Entries, Table, Respects, Shape, Cells;
      ghost var t := Table();
      Facts();
      next.Facts();
      RehashOne(home, t, done, idx, (sort(e.0), e), next.contents, next.Table());
      next.Put(e.0, e.1);
    }

    method Rehash(next: Map<K, C, V>)
      requires Valid() && next.Valid() && next.contents == map[] && Takes(next)
      modifies next, next.buckets
      ensures next.Valid() && next.contents == contents && next.buckets == old(next.buckets)
      ensures 2 * next.size <= buckets.Length
      decreases 1, 1
    {
      hide Valid, RobinHood, Represents, Count, IsPowerOfTwo, Found, AllVacant, Entries, Table, Respects, Shape, Cells;
      Facts();
      var cells := next.buckets;
      var iter := new Iterator(this);
      ghost var t := Table();
      ghost var done: nat := 0;
      NothingYet(t);
      var e := iter.Next();
      while e.Some?
        invariant fresh(iter) && iter.m == this
        invariant done <= |t| && Represents(t[..done], next.contents)
        invariant e.Some? ==> Found(t, done, iter.idx, (sort(e.value.0), e.value))
        invariant e.None? ==> AllVacant(t, done, |t|)
        invariant next.Valid() && next.buckets == cells
        modifies iter, next, cells
        decreases if e.Some? then |t| + 1 - iter.idx else 0
      {
        Move(next, e.value, done, iter.idx);
        done := iter.idx;
        e := iter.Next();
        if e.Some? {
          FoundFacts(t, done, iter.idx, (sort(e.value.0), e.value));
        }
      }
      next.Facts();
      RehashSkip(t, done, |t|, next.contents);
      RehashRoom(home, t, |t|, next.contents, next.Table());
      assert t[..|t|] == t;
      SameContents(t, contents, next.contents);
    }

    lemma Facts()
      requires Valid()
      ensures RobinHood(home, Table()) && Represents(Table(), contents)
      ensures size == Count(Table()) && 2 * size <= buckets.Length && Shape()
      ensures Respects(hash, cmp, sort, home)
    {
    }

    /** A full bucket lies as many steps after the home of its key, the hash modulo the capacity, as its
        offset says, counting from one. */
    lemma OffsetCounts(i: nat)
      requires Valid() && i < buckets.Length && buckets[i].Full?
      ensures var home := hash(buckets[i].key) % buckets.Length + buckets[i].off - 1;
              buckets[i].off >= 1 && (home == i || home == i + buckets.Length)
    {
      assert Table()[i] == Cell(sort, buckets[i]);
    }

    lemma Adopted(next: Map<K, C, V>)
      requires next.Valid() && hash == next.hash && cmp == next.cmp && sort == next.sort && home == next.home
      requires size == next.size && hash2idx == next.hash2idx && buckets == next.buckets
      requires contents == next.contents
      ensures Valid()
    {
    }
  }

  /** The second put of a key is the one that counts, and the key it is stored under is the first. */
  method PutTwice<K(!new), C(!new), V>(m: Map<K, C, V>, k1: K, v1: V, k2: K, v2: V) returns (r: Result<V>)
    requires m.Valid() && m.sort(k1) == m.sort(k2)
    modifies m, m.buckets
    ensures m.Valid() && r == Ok(v2) && m.contents.Keys == old(m.contents).Keys + {m.sort(k1)}
    ensures m.contents[m.sort(k1)].0 == if m.sort(k1) in old(m.contents) then old(m.contents)[m.sort(k1)].0 else k1
  {
    hide Map.Valid;
    m.Put(k1, v1);
    m.Put(k2, v2);
    r := m.Get(k2);
  }

  ghost predicate AllVacant<K, V>(t: seq<Bucket<K, V>>, lo: nat, hi: nat)
    requires hi <= |t|
  {
    forall j :: lo <= j < hi ==> t[j].Vacant?
  }

  /** Entry `e` is the first one from bucket `lo` on, and lies just before bucket `idx`. */
  ghost predicate Found<K, V>(t: seq<Bucket<K, V>>, lo: nat, idx: nat, e: (K, V)) {
    && lo < idx <= |t|
    && AllVacant(t, lo, idx - 1)
    && t[idx - 1].Full? && e == (t[idx - 1].key, t[idx - 1].val)
  }

  lemma FoundFacts<K, V>(t: seq<Bucket<K, V>>, lo: nat, idx: nat, e: (K, V))
    requires Found(t, lo, idx, e)
    ensures lo < idx <= |t| && AllVacant(t, lo, idx - 1)
    ensures t[idx - 1].Full? && e == (t[idx - 1].key, t[idx - 1].val)
  {
  }

  /** The entries from bucket `lo` on, in bucket order. */
  ghost function Entries<K, V>(t: seq<Bucket<K, V>>, lo: nat): seq<(K, V)>
    decreases |t| - lo
  {
    if lo >= |t| then []
    else (if t[lo].Full? then [(t[lo].key, t[lo].val)] else []) + Entries(t, lo + 1)
  }

  class Iterator<K(!new), C(!new), V> {
    const m: Map<K, C, V>
    var idx: nat

    constructor (m: Map<K, C, V>)
      ensures this.m == m && idx == 0
    {
      this.m := m;
      idx := 0;
    }

    /** Yields the entries one after the other, each once. */
    method Next() returns (r: Option<(K, V)>)
      modifies this
      ensures r.Some? ==> Found(m.Table(), old(idx), idx, (m.sort(r.value.0), r.value))
      ensures r.None? ==> AllVacant(m.Table(), old(idx), m.buckets.Length)
      ensures Entries(m.Table(), old(idx)) ==
                if r.Some? then [(m.sort(r.value.0), r.value)] + Entries(m.Table(), idx) else []
    {
      ghost var t := m.Table();
      if idx >= m.buckets.Length {
        return None;
      }
      var b := idx;
      idx := idx + 1;
      while idx <= m.buckets.Length && m.buckets[b].Vacant?
        invariant old(idx) <= b == idx - 1 <= m.buckets.Length
        invariant AllVacant(t, old(idx), b)
        invariant Entries(t, old(idx)) == Entries(t, b)
        decreases m.buckets.Length - b
      {
        b := idx;
        idx := idx + 1;
      }
      if idx > m.buckets.Length {
        return None;
      }
      r := Some((m.buckets[b].key, m.buckets[b].val));
    }
  }

  /** Key `k` is in the table at bucket `p`, which the search for it has not passed, and
      what is carried is still the new entry for `k`. */
  ghost predicate Ahead<K, V>(hash: K -> nat, t: seq<Bucket<K, V>>, m: map<K, V>, b: Bucket<K, V>,
                              k: K, v: V, i: nat, p: nat)
  {
    && i < |t| && p < |t|
    && Represents(t, m)
    && b.Full? && b.key == k && b.val == v
    && t[p].Full? && t[p].key == k
    && Dist(Home(hash, k, |t|), i, |t|) <= Dist(Home(hash, k, |t|), p, |t|)
  }

  /** The state of an insertion of `k` and `v` into `m` that carries `b` at bucket `i`, with
      bucket `e` vacant. */
  ghost predicate Carrying<K, V>(hash: K -> nat, t: seq<Bucket<K, V>>, m: map<K, V>, b: Bucket<K, V>,
                                 k: K, v: V, i: nat, e: nat, p: nat)
  {
    && |t| >= 4 && i < |t| && e < |t| && t[e].Vacant? && b.Full?
    && RobinHood(hash, t) && Carried(hash, t, b, i)
    && if k in m then Ahead(hash, t, m, b, k, v, i, p) else RepresentsWith(t, b, m[k := v])
  }

  lemma StartInsert<K, V>(hash: K -> nat, t: seq<Bucket<K, V>>, m: map<K, V>, k: K, v: V, i: nat, e: nat)
    returns (p: nat)
    requires |t| >= 4 && i == Home(hash, k, |t|) && e < |t| && t[e].Vacant?
    requires RobinHood(hash, t) && Represents(t, m)
    ensures Carrying(hash, t, m, Full(1, k, v), k, v, i, e, p)
  {
    p := 0;
    if k in m {
      p :| p < |t| && t[p].Full? && t[p].key == k;
    } else {
      StartCarrying(t, Full(1, k, v), m);
    }
  }

  /** An equal key met: it is the new entry that is carried, and another value `w` in its place keeps the
      table in order. */
  lemma MeetEqual<K, V>(hash: K -> nat, t: seq<Bucket<K, V>>, m: map<K, V>, b: Bucket<K, V>,
                        k: K, v: V, i: nat, e: nat, p: nat, w: V)
    requires Carrying(hash, t, m, b, k, v, i, e, p) && t[i].Full? && t[i].key == b.key
    ensures k in m && t[i].val == m[k] && b.key == k && b.val == v
    ensures var t' := t[i := t[i].(val := w)];
            RobinHood(hash, t') && Represents(t', m[k := w]) && Count(t') == Count(t)
  {
    if k in m {
      ReplaceValue(hash, t, i, m, w);
    }
  }

  /** Nothing is displaced while an equal key still lies ahead. */
  lemma NotAhead<K, V>(hash: K -> nat, t: seq<Bucket<K, V>>, m: map<K, V>, b: Bucket<K, V>,
                       k: K, v: V, i: nat, e: nat, p: nat)
    requires Carrying(hash, t, m, b, k, v, i, e, p) && Off(t[i]) < b.off
    ensures k !in m
  {
    if k in m {
      EarlyExit(hash, t, k, i, p);
    }
  }

  lemma PassStep<K, V>(hash: K -> nat, t: seq<Bucket<K, V>>, m: map<K, V>, b: Bucket<K, V>,
                       k: K, v: V, i: nat, e: nat, p: nat)
    requires Carrying(hash, t, m, b, k, v, i, e, p)
    requires t[i].Full? && t[i].key != b.key && b.off <= t[i].off
    ensures Carrying(hash, t, m, b.(off := b.off + 1), k, v, Succ(i, |t|), e, p)
    ensures Dist(Succ(i, |t|), e, |t|) < Dist(i, e, |t|)
  {
    CarryOn(hash, t, b, i, e);
    NotFullCircle(t, Home(hash, b.key, |t|), i, e);
  }

  lemma SwapStep<K, V>(hash: K -> nat, t: seq<Bucket<K, V>>, m: map<K, V>, b: Bucket<K, V>,
                       k: K, v: V, i: nat, e: nat, p: nat)
    requires Carrying(hash, t, m, b, k, v, i, e, p)
    requires t[i].Full? && t[i].off < b.off
    ensures Carrying(hash, t[i := b], m, t[i].(off := t[i].off + 1), k, v, Succ(i, |t|), e, p)
    ensures Count(t[i := b]) == Count(t)
    ensures Dist(Succ(i, |t|), e, |t|) < Dist(i, e, |t|)
  {
    NotAhead(hash, t, m, b, k, v, i, e, p);
    PlaceOrdered(hash, t, b, i);
    SwapRepresents(t, b, i, m[k := v]);
    CountUpdate(t, i, b);
    CarryOn(hash, t[i := b], t[i], i, e);
  }

  lemma PlaceStep<K, V>(hash: K -> nat, t: seq<Bucket<K, V>>, m: map<K, V>, b: Bucket<K, V>,
                        k: K, v: V, i: nat, e: nat, p: nat)
    requires Carrying(hash, t, m, b, k, v, i, e, p) && t[i].Vacant?
    ensures RobinHood(hash, t[i := b]) && Represents(t[i := b], m[k := v])
    ensures Count(t[i := b]) == Count(t) + 1 && k !in m
  {
    NotAhead(hash, t, m, b, k, v, i, e, p);
    PlaceOrdered(hash, t, b, i);
    PlaceRepresents(t, b, i, m[k := v]);
    CountUpdate(t, i, b);
  }

  lemma StartDelete<K, V>(hash: K -> nat, t: seq<Bucket<K, V>>, i: nat, m: map<K, V>)
    requires |t| >= 4 && i < |t| && t[i].Full? && RobinHood(hash, t) && Represents(t, m) && 2 * Count(t) <= |t|
    ensures Hole(hash, t[i := Vacant], i) && Represents(t[i := Vacant], m - {t[i].key})
    ensures Count(t) == Count(t[i := Vacant]) + 1 && Count(t) < |t|
  {
    VacateLeavesHole(hash, t, i);
    VacateRepresents(t, i, m);
    CountUpdate(t, i, Vacant);
  }

  lemma ShiftStep<K, V>(hash: K -> nat, t: seq<Bucket<K, V>>, i: nat, m: map<K, V>)
    requires |t| >= 4 && i < |t| && Hole(hash, t, i) && Represents(t, m) && Off(t[Succ(i, |t|)]) > 1
    ensures var j := Succ(i, |t|);
            var t' := t[i := t[j].(off := t[j].off - 1)][j := Vacant];
            i != j && t[i].Vacant? && Hole(hash, t', j) && Represents(t', m) && Count(t') == Count(t)
  {
    ShiftMovesHole(hash, t, i);
    ShiftRepresents(t, i, Succ(i, |t|), m);
  }

  lemma Nearer(i: nat, e: nat, n: nat)
    requires i < n && e < n && i != e
    ensures Dist(Succ(i, n), e, n) < Dist(i, e, n)
  {
  }

  lemma PlaceRoom(n: nat, size: nat)
    requires n >= 4 && IsPowerOfTwo(n) && 2 * (size - 1) < n
    ensures 2 * size <= n
  {
    hide IsPowerOfTwo;
    HalfOf(n);
    assert size - 1 < n / 2;
  }

  lemma HalfOf(n: nat)
    requires n >= 4 && IsPowerOfTwo(n)
    ensures n == 2 * (n / 2)
  {
  }

  lemma HomeByMask(x: nat, n: nat)
    requires n > 0 && IsPowerOfTwo(n)
    ensures And(x, n - 1) == x % n
  {
    MaskIsRemainder(x, n);
  }

  lemma NextByMask(i: nat, n: nat)
    requires IsPowerOfTwo(n) && i < n
    ensures And(i + 1, n - 1) == Succ(i, n)
  {
    MaskIsRemainder(i + 1, n);
    if i + 1 == n {
      Remainder(n, n, 1, 0);
    } else {
      Remainder(i + 1, n, 0, i + 1);
    }
  }

  lemma OffBound<K, V>(hash: K -> nat, t: seq<Bucket<K, V>>, i: nat)
    requires RobinHood(hash, t) && i < |t|
    ensures Off(t[i]) <= |t|
  {
  }

  /** A lookup that stops at bucket `i` without having met `k` proves `k` absent. */
  lemma NotThere<K, V>(hash: K -> nat, t: seq<Bucket<K, V>>, m: map<K, V>, k: K, i: nat, off: nat)
    requires RobinHood(hash, t) && Represents(t, m) && i < |t| && 1 <= off <= |t| + 1
    requires Off(t[i]) < off
    requires if off <= |t| then off == Dist(Home(hash, k, |t|), i, |t|) + 1 else i == Home(hash, k, |t|)
    requires forall j :: 0 <= j < |t| && Dist(Home(hash, k, |t|), j, |t|) < off - 1 ==> !(t[j].Full? && t[j].key == k)
    ensures k !in m
  {
    if k in m {
      var p :| 0 <= p < |t| && t[p].Full? && t[p].key == k;
      if off <= |t| {
        EarlyExit(hash, t, k, i, p);
      }
    }
  }

  lemma Held<K, V>(t: seq<Bucket<K, V>>, m: map<K, V>, i: nat)
    requires Represents(t, m) && i < |t| && t[i].Full?
    ensures t[i].key in m && m[t[i].key] == t[i].val
  {
  }

  lemma NoneHeld<K, V>(t: seq<Bucket<K, V>>, m: map<K, V>)
    requires Represents(t, m) && Count(t) == 0
    ensures m == map[]
  {
  }

  lemma SomeHeld<K, V>(t: seq<Bucket<K, V>>, m: map<K, V>)
    requires Represents(t, m) && Count(t) > 0
    ensures m != map[]
  {
  }

  /** The size kept by the table is the number of keys. */
  lemma {:induction false} CountIsSize<K, V>(t: seq<Bucket<K, V>>, m: map<K, V>)
    requires Distinct(t) && Represents(t, m)
    ensures Count(t) == |m|
    decreases Count(t)
  {
    if Count(t) == 0 {
      NoneHeld(t, m);
    } else {
      SomeHeld(t, m);
      var k :| k in m;
      var i: nat :| i < |t| && t[i].Full? && t[i].key == k;
      CountUpdate(t, i, Vacant);
      VacateRepresents(t, i, m);
      CountIsSize(t[i := Vacant], m - {k});
      assert (m - {k}).Keys == m.Keys - {k};
    }
  }

  lemma DoubledShape(n: nat)
    requires n == 0 || (n >= 4 && IsPowerOfTwo(n))
    ensures IsPowerOfTwo(if n == 0 then 4 else 2 * n)
  {
    if n == 0 {
      assert IsPowerOfTwo(2);
    } else {
      assert 2 * n % 2 == 0 && 2 * n / 2 == n;
    }
  }

  lemma NothingYet<K, V>(t: seq<Bucket<K, V>>)
    ensures Represents(t[..0], map[])
  {
  }

  lemma RehashSkip<K, V>(t: seq<Bucket<K, V>>, i: nat, j: nat, m: map<K, V>)
    requires i <= j <= |t| && Represents(t[..i], m) && AllVacant(t, i, j)
    ensures Represents(t[..j], m)
  {
  }

  lemma RehashStep<K, V>(hash: K -> nat, t: seq<Bucket<K, V>>, i: nat, m: map<K, V>)
    requires RobinHood(hash, t) && i < |t| && t[i].Full? && Represents(t[..i], m)
    ensures Represents(t[..i + 1], m[t[i].key := t[i].val])
  {
    var m', u := m[t[i].key := t[i].val], t[..i + 1];
    forall k | k in m'
      ensures exists l :: 0 <= l < |u| && u[l].Full? && u[l].key == k
    {
      if k == t[i].key {
        assert u[i].key == k;
      } else {
        var l :| 0 <= l < i && t[..i][l].Full? && t[..i][l].key == k;
        assert u[l] == t[..i][l];
      }
    }
    forall l | 0 <= l < |u| && u[l].Full?
      ensures u[l].key in m' && m'[u[l].key] == u[l].val
    {
      if l < i {
        assert t[..i][l] == u[l];
      }
    }
  }

  lemma {:induction false} CountPrefix<K, V>(t: seq<Bucket<K, V>>, i: nat)
    requires i <= |t|
    ensures Count(t[..i]) <= Count(t)
  {
    if i > 0 {
      CountPrefix(t[1..], i - 1);
      assert t[..i][1..] == t[1..][..i - 1];
    }
  }

  lemma RehashOne<K, V>(hash: K -> nat, t: seq<Bucket<K, V>>, done: nat, idx: nat, e: (K, V), m: map<K, V>,
                        u: seq<Bucket<K, V>>)
    requires RobinHood(hash, t) && done <= |t| && Represents(t[..done], m) && Found(t, done, idx, e)
    requires RobinHood(hash, u) && Represents(u, m)
    ensures done < idx <= |t| && Count(u) <= Count(t)
    ensures e.0 !in m && Represents(t[..idx], m[e.0 := e.1])
  {
    FoundFacts(t, done, idx, e);
    RehashSkip(t, done, idx - 1, m);
    RehashRoom(hash, t, idx - 1, m, u);
    RehashStep(hash, t, idx - 1, m);
  }

  /** While a table is being rehashed the new one holds no more than the old one did. */
  lemma RehashRoom<K, V>(hash: K -> nat, t: seq<Bucket<K, V>>, i: nat, m: map<K, V>, u: seq<Bucket<K, V>>)
    requires RobinHood(hash, t) && i <= |t| && Represents(t[..i], m)
    requires RobinHood(hash, u) && Represents(u, m)
    ensures Count(u) <= Count(t)
  {
    CountIsSize(t[..i], m);
    CountIsSize(u, m);
    CountPrefix(t, i);
  }

  // ----- Iteration ------------------------------------------------------------------

  lemma {:induction false} EntryOrigin<K, V>(t: seq<Bucket<K, V>>, lo: nat, j: nat) returns (i: nat)
    requires j < |Entries(t, lo)|
    ensures lo <= i < |t| && t[i].Full? && Entries(t, lo)[j] == (t[i].key, t[i].val)
    ensures j == |Entries(t, lo)| - |Entries(t, i)|
    decreases |t| - lo
  {
    if t[lo].Full? && j == 0 {
      i := lo;
    } else {
      i := EntryOrigin(t, lo + 1, if t[lo].Full? then j - 1 else j);
    }
  }

  lemma {:induction false} EntryListed<K, V>(t: seq<Bucket<K, V>>, lo: nat, i: nat)
    requires lo <= i < |t| && t[i].Full?
    ensures (t[i].key, t[i].val) in Entries(t, lo)
    decreases i - lo
  {
    if lo < i {
      EntryListed(t, lo + 1, i);
    }
  }

  /** What an iterator yields from the start: every entry of the map, no key twice. */
  lemma IteratesOnce<K, V>(t: seq<Bucket<K, V>>, m: map<K, V>)
    requires Distinct(t) && Represents(t, m)
    ensures forall k, v :: (k, v) in Entries(t, 0) <==> k in m && m[k] == v
    ensures forall i, j :: 0 <= i < j < |Entries(t, 0)| ==> Entries(t, 0)[i].0 != Entries(t, 0)[j].0
  {
    forall k, v
      ensures (k, v) in Entries(t, 0) <==> k in m && m[k] == v
    {
      if (k, v) in Entries(t, 0) {
        var j: nat :| j < |Entries(t, 0)| && Entries(t, 0)[j] == (k, v);
        var i := EntryOrigin(t, 0, j);
      }
      if k in m && m[k] == v {
        var i: nat :| i < |t| && t[i].Full? && t[i].key == k;
        EntryListed(t, 0, i);
      }
    }
    forall i, j | 0 <= i < j < |Entries(t, 0)|
      ensures Entries(t, 0)[i].0 != Entries(t, 0)[j].0
    {
      var a := EntryOrigin(t, 0, i);
      var b := EntryOrigin(t, 0, j);
    }
  }
}

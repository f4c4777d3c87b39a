/** The per-thread robust list: the intrusive list of mutexes a thread holds, which the kernel walks
    when the thread dies. A ghost trace records, after every single store, what such a walk would
    meet. */
module Robust {

  /** A mutex's list links. Its futex word is not part of this module. */
  class Link {
    var next: Link?
    var prev: Link?

    constructor ()
      ensures next == null && prev == null
    {
      next, prev := null, null;
    }
  }

  /** What the kernel would find: the walk along `next` from the head, and the pending field. */
  datatype Observed = Observed(walk: seq<Link>, pending: Link?)

  /** The mutexes the kernel would release for a dead thread. */
  ghost function Handled(o: Observed): (r: set<Link>)
    ensures forall m :: m in o.walk ==> m in r
    ensures o.pending != null ==> o.pending in r
    ensures forall m :: m in r ==> m in o.walk || m == o.pending
  {
    (set m | m in o.walk) + (if o.pending == null then {} else {o.pending})
  }

  ghost predicate Distinct(w: seq<Link>) {
    forall i, j :: 0 <= i < j < |w| ==> w[i] != w[j]
  }

  ghost function Members(w: seq<Link>): (r: set<Link>)
    ensures forall m :: m in w ==> m in r
    ensures forall m :: m in r ==> m in w
  {
    set m | m in w
  }

  lemma ApartAt(w: seq<Link>, i: nat)
    requires Distinct(w) && i < |w|
    ensures forall k :: 0 <= k < |w| && k != i ==> w[k] != w[i]
  {
  }

  class RobustList {
    // The head has only a `next`: it stands in for a mutex, and its `prev` is never touched.
    const head: Link
    var pending: Link?
    ghost var list: seq<Link>
    ghost var trace: seq<Observed>

    /** What follows the first `i` elements of a walk, and what comes before the one after them. */
    ghost function At(w: seq<Link>, i: int): Link {
      if 0 <= i < |w| then w[i] else head
    }

    /** The walk along `next` from the head meets exactly `w` and comes back to the head. */
    ghost predicate Walks(w: seq<Link>)
      reads head`next, w`next
    {
      && head !in w
      && head.next == At(w, 0)
      && forall i :: 0 <= i < |w| ==> w[i].next == At(w, i + 1)
    }

    /** A walk meets no null link and never the head. */
    lemma WalkStays(w: seq<Link>)
      requires Walks(w)
      ensures head !in w && head.next == At(w, 0)
      ensures forall i :: 0 <= i < |w| ==> w[i].next == At(w, i + 1)
    {
    }

    ghost predicate BackLinked(w: seq<Link>)
      reads w`prev
    {
      forall i :: 0 <= i < |w| ==> w[i].prev == At(w, i - 1)
    }

    ghost predicate Valid()
      reads this, head, list
    {
      Distinct(list) && Walks(list) && BackLinked(list)
    }

    /** The links alone decide what a walk meets. */
    lemma {:induction false} WalkIsUnique(v: seq<Link>, w: seq<Link>)
      requires Walks(v) && Walks(w)
      ensures v == w
    {
      if v == [] || w == [] {
        return;
      }
      var i := 0;
      assert v[..1] == [v[0]] && w[..1] == [w[0]];
      while i + 1 < |v| && i + 1 < |w|
        invariant i < |v| && i < |w|
        invariant v[..i + 1] == w[..i + 1]
      {
        assert v[i] == v[..i + 1][i] == w[..i + 1][i] == w[i];
        assert v[i + 1] == v[i].next == w[i].next == w[i + 1];
        assert v[..i + 2] == v[..i + 1] + [v[i + 1]] && w[..i + 2] == w[..i + 1] + [w[i + 1]];
        i := i + 1;
      }
      assert v[i] == v[..i + 1][i] == w[..i + 1][i] == w[i];
      assert |v| == i + 1 && |w| == i + 1;
    }

    constructor ()
      ensures Valid() && list == [] && pending == null && trace == [] && fresh(head)
    {
      var h := new Link();
      head := h;
      pending := null;
      list, trace := [], [];
      new;
      head.next := head;
    }

    /** Records what a walk would meet after a store. */
    ghost method Note(w: seq<Link>)
      requires Walks(w)
      modifies this`trace
      ensures trace == old(trace) + [Observed(w, pending)]
    {
      trace := trace + [Observed(w, pending)];
    }

    method OpStart(m: Link)
      requires Valid()
      modifies this`pending, this`trace
      ensures Valid() && pending == m
      ensures trace == old(trace) + [Observed(list, m)]
    {
      pending := m;
      Note(list);
    }

    method OpEnd()
      requires Valid()
      modifies this`pending, this`trace
      ensures Valid() && pending == null
      ensures trace == old(trace) + [Observed(list, null)]
    {
      pending := null;
      Note(list);
    }

    /** Puts `m` at the front. The walk meets the old list until the store to the head, and the new
        one from then on. */
    method OpAdd(m: Link)
      requires Valid() && m != head && m !in list
      modifies this`list, this`trace, head`next, m, list`prev
      ensures Valid() && list == [m] + old(list)
      ensures var before, after := Observed(old(list), pending), Observed(list, pending);
              trace == old(trace) + [before, before, after]
                       + (if old(list) == [] then [] else [after])
    {
      hide Walks, Distinct, BackLinked;
      WalkStays(list);
      ghost var before := list;
      var oldFirst := head.next;
      m.prev := head;
      Note(list);
      LinkIn(m, oldFirst);
      assert trace == old(trace) + [Observed(before, pending), Observed(before, pending), Observed(list, pending)];
      WalkStays(list);
      LinkFront(m, oldFirst, before);
    }

    /** The store that repairs the back link of the element after the new one. */
    method LinkFront(m: Link, oldFirst: Link, ghost before: seq<Link>)
      requires list == [m] + before && oldFirst == At(before, 0) && m.prev == head
      requires Walks(list) && Distinct(list) && BackLinked(before)
      modifies this`trace, before`prev
      ensures BackLinked(list)
      ensures trace == old(trace) + (if before == [] then [] else [Observed(list, pending)])
    {
      hide Walks, Distinct;
      WalkStays(list);
      if oldFirst != head {
        ApartAt(list, 1);
        oldFirst.prev := m;
        forall k | 0 <= k < |list|
          ensures list[k].prev == At(list, k - 1)
        {
          if k > 1 {
            assert list[k] == before[k - 1];
          }
        }
        Note(list);
      }
    }

    /** The two stores that make the walk meet `m`. */
    method LinkIn(m: Link, oldFirst: Link)
      requires Distinct(list) && Walks(list) && m != head && m !in list && oldFirst == head.next
      modifies this`list, this`trace, head`next, m`next
      ensures Distinct(list) && Walks(list) && list == [m] + old(list)
      ensures trace == old(trace) + [Observed(old(list), pending), Observed(list, pending)]
    {
      m.next := oldFirst;
      Note(list);
      ghost var after := [m] + list;
      assert forall k :: 0 < k < |after| ==> after[k] == list[k - 1];
      head.next := m;
      list := after;
      Note(list);
    }

    /** Takes `m` out, wherever it is. Its first store is what removes it from the walk. */
    method OpDel(m: Link, ghost i: nat)
      requires Valid() && i < |list| && list[i] == m
      modifies this`list, this`trace, head`next, list
      ensures Valid() && list == old(list[..i] + list[i + 1..])
      ensures var after := Observed(list, pending);
              trace == old(trace) + [after] + (if i + 1 == |old(list)| then [] else [after])
    {
      hide Walks, Distinct, BackLinked;
      WalkStays(list);
      BackLinkAt(list, i);
      ghost var before := list;
      var prev, next := m.prev, m.next;
      LinkOut(prev, next, i);
      WalkStays(list);
      LinkBack(prev, next, i, before);
    }

    lemma BackLinkAt(w: seq<Link>, i: nat)
      requires BackLinked(w) && i < |w|
      ensures w[i].prev == At(w, i - 1)
    {
    }

    /** The store that repairs the back link of the element after the one at `i`. */
    method LinkBack(prev: Link, next: Link, ghost i: nat, ghost before: seq<Link>)
      requires i < |before| && list == before[..i] + before[i + 1..]
      requires Walks(list) && Distinct(list) && BackLinked(before)
      requires prev == At(before, i - 1) && next == At(list, i)
      modifies this`trace, list`prev
      ensures BackLinked(list)
      ensures trace == old(trace) + (if i == |list| then [] else [Observed(list, pending)])
    {
      hide Walks, Distinct;
      WalkStays(list);
      assert forall k :: 0 <= k < |list| ==> list[k] == before[if k < i then k else k + 1];
      assert next != head <==> i < |list|;
      if next != head {
        Repair(prev, next, i, before);
        Note(list);
      }
    }

    method Repair(prev: Link, next: Link, ghost i: nat, ghost before: seq<Link>)
      requires i < |list| == |before| - 1
      requires forall k :: 0 <= k < |list| ==> list[k] == before[if k < i then k else k + 1]
      requires Distinct(list) && BackLinked(before)
      requires prev == At(before, i - 1) && next == list[i]
      modifies next`prev
      ensures BackLinked(list)
    {
      hide Distinct;
      ApartAt(list, i);
      next.prev := prev;
    }

    /** The store that makes the walk miss the element at `i`. */
    method LinkOut(prev: Link, next: Link, ghost i: nat)
      requires Distinct(list) && Walks(list) && i < |list|
      requires prev == At(list, i - 1) && next == At(list, i + 1)
      modifies this`list, this`trace, prev`next
      ensures Distinct(list) && Walks(list) && list == old(list[..i] + list[i + 1..])
      ensures trace == old(trace) + [Observed(list, pending)]
      ensures forall k :: 0 <= k < |list| ==> list[k] == old(list[if k < i then k else k + 1])
    {
      hide Walks, Distinct;
      ghost var before, after := list, list[..i] + list[i + 1..];
      assert forall k :: 0 <= k < |after| ==> after[k] == before[if k < i then k else k + 1];
      OneOutDistinct(before, i);
      Bypass(prev, next, i, after);
      list := after;
      Note(list);
    }

    method Bypass(prev: Link, next: Link, ghost i: nat, ghost after: seq<Link>)
      requires Distinct(list) && Walks(list) && i < |list|
      requires prev == At(list, i - 1) && next == At(list, i + 1)
      requires |after| == |list| - 1
      requires forall k :: 0 <= k < |after| ==> after[k] == list[if k < i then k else k + 1]
      modifies prev`next
      ensures Walks(after)
    {
      prev.next := next;
      forall k | 0 <= k < |after|
        ensures after[k].next == At(after, k + 1)
      {
        var j := if k < i then k else k + 1;
        assert after[k] == list[j];
        assert old(list[j].next) == At(list, j + 1);
        if j + 1 == i {
          assert list[j] == prev;
        } else if i > 0 {
          assert list[j] != list[i - 1];
        }
      }
    }

    /** The list side of a lock call that takes the mutex between OpStart and OpAdd: at no store
        before the last is the mutex missing from what the kernel would handle, and none of the
        other held mutexes ever is. */
    method LockOps(m: Link, taken: bool)
      requires Valid() && m != head && m !in list
      modifies this`list, this`trace, this`pending, head`next, m, list`prev
      ensures Valid() && pending == null && list == (if taken then [m] else []) + old(list)
      ensures |old(trace)| < |trace| && trace[..|old(trace)|] == old(trace)
      ensures forall k :: |old(trace)| <= k < |trace| - 1 ==>
                Handled(trace[k]) == Members(old(list)) + {m}
      ensures Handled(trace[|trace| - 1]) == Members(list)
    {
      hide Valid, Walks, BackLinked, Distinct, Handled, Members;
      HandledIs(list, m);
      HandledIs([m] + list, m);
      HandledIs(list, null);
      HandledIs([m] + list, null);
      InFront(list, m);
      OpStart(m);
      if taken {
        OpAdd(m);
      }
      OpEnd();
    }

    /** The list side of an unlock call, which clears the word between OpDel and OpEnd: up to there
        the mutex stays among what the kernel would handle. */
    method UnlockOps(m: Link, ghost i: nat)
      requires Valid() && i < |list| && list[i] == m
      modifies this`list, this`trace, this`pending, head`next, list
      ensures Valid() && pending == null && list == old(list[..i] + list[i + 1..])
      ensures |old(trace)| < |trace| && trace[..|old(trace)|] == old(trace)
      ensures forall k :: |old(trace)| <= k < |trace| - 1 ==> Handled(trace[k]) == Members(old(list))
      ensures Handled(trace[|trace| - 1]) == Members(old(list)) - {m}
    {
      ghost var rest := list[..i] + list[i + 1..];
      UnlockHandled(list, i);
      hide Valid, Walks, BackLinked, Distinct, Handled, Members;
      ghost var t, was := trace, list;
      OpStart(m);
      OpDel(m, i);
      OpEnd();
      UnlockTrace(t, Observed(was, m), Observed(rest, m), i + 1 == |was|, Observed(rest, null), Members(was));
    }
  }

  lemma HandledIs(w: seq<Link>, pending: Link?)
    ensures Handled(Observed(w, pending)) == Members(w) + (if pending == null then {} else {pending})
  {
  }

  lemma UnlockHandled(w: seq<Link>, i: nat)
    requires Distinct(w) && i < |w|
    ensures var rest := w[..i] + w[i + 1..];
            Handled(Observed(w, w[i])) == Handled(Observed(rest, w[i])) == Members(w)
            && Handled(Observed(rest, null)) == Members(w) - {w[i]}
  {
  }

  /** Everything recorded between the first and the last store handles the same mutexes. */
  lemma UnlockTrace(t: seq<Observed>, first: Observed, after: Observed, short: bool, end: Observed, held: set<Link>)
    requires Handled(first) == Handled(after) == held
    ensures var t' := t + [first] + [after] + (if short then [] else [after]) + [end];
            && |t| < |t'| && t'[..|t|] == t && t'[|t'| - 1] == end
            && forall k :: |t| <= k < |t'| - 1 ==> Handled(t'[k]) == held
  {
  }

  lemma InFront(w: seq<Link>, m: Link)
    ensures Members([m] + w) == {m} + Members(w)
  {
  }

  lemma OneOutDistinct(w: seq<Link>, i: nat)
    requires Distinct(w) && i < |w|
    ensures Distinct(w[..i] + w[i + 1..])
  {
  }
}

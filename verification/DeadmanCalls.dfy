/** What a call of the deadman mutex goes through, and what its end means. */
module DeadmanCalls {
  import opened DeadmanMtx
  import opened DeadmanSafety
  import opened DeadmanTokens
  import opened DeadmanWakeups
  import opened Errors

  // ----- wait_locked and wait_unlocked, step by step ---------------------------------------------

  /** Inside wait_locked. */
  predicate AwaitsLock(pc: Pc) {
    pc.WlLoad? || pc.WlToken? ||
    ((pc.WaitShutdown? || pc.WaitMark? || pc.Wait? || pc.Asleep?) && pc.why.InWaitLocked?)
  }

  /** Inside wait_unlocked(k). */
  predicate AwaitsUnlock(pc: Pc, k: nat) {
    (pc.WuLoad? && pc.k == k) || (pc.WuTkn? && pc.k == k) ||
    ((pc.WaitShutdown? || pc.WaitMark? || pc.Wait? || pc.Asleep?) && pc.why == InWaitUnlocked(k))
  }

  /** Whatever happens, a thread stays in wait_locked until it has read the token, its time is up, or it
      has seen the shutdown; and it comes to read the token only from a look that found the mutex held. */
  lemma WaitLockedStep(s: State, a: Action, t: nat)
    requires Inv(s) && Enabled(s, a) && !(a.Die? && a.t == t)
    requires t in s.threads && s.threads[t].alive && AwaitsLock(s.threads[t].pc)
    ensures var th, th' := s.threads[t], Next(s, a).threads[t];
            && th'.alive && (AwaitsLock(th'.pc) || th'.pc.Idle?)
            && (th'.pc.Idle? <==>
                  (a == TimeOut(t) || (a == Run(t) && (th.pc.WlToken? || (th.pc.WaitShutdown? && th.shutdown)))))
            && (th'.pc.WlToken? && !th.pc.WlToken? <==> a == Run(t) && th.pc.WlLoad? && StatusOf(s.log).Held?)
  {
    hide ThreadOk, WellFormed, LastToken, StatusOf, Access;
    if a == Run(t) {
      WaitLockedAccess(s.word, s.tkn, t, s.threads[t]);
    } else if a.Run? {
      hide AwaitsLock;
      assert s.threads[t].pc.Asleep? || Next(s, a).threads[t] == s.threads[t];
      WokenAwaits(s.threads[t]);
    }
  }

  lemma WokenAwaits(th: Thread)
    ensures AwaitsLock(th.pc) ==> AwaitsLock(Woken(th).pc) && (Woken(th).pc.WlToken? <==> th.pc.WlToken?)
  {
  }

  lemma WaitLockedAccess(word: Word, tkn: nat, t: nat, th: Thread)
    requires AwaitsLock(th.pc) && !th.pc.Asleep?
    ensures var e := Access(word, tkn, t, th);
            && e.th.alive == th.alive && (AwaitsLock(e.th.pc) || e.th.pc.Idle?)
            && (e.th.pc.Idle? <==> (th.pc.WlToken? || (th.pc.WaitShutdown? && th.shutdown)))
            && (e.th.pc.WlToken? <==> th.pc.WlLoad? && word.tid != 0 && !word.died)
  {
    if th.pc.WlLoad? || th.pc.WlToken? {
      hide TryAccess, AcquireAccess, UnlockAccess;
    } else {
      hide WaitAccess;
      MarkStays(word, tkn, th);
    }
  }

  /** Between its looks a waiter goes on waiting for the same thing, unless it sees the shutdown. */
  lemma MarkStays(word: Word, tkn: nat, th: Thread)
    requires th.pc.WaitShutdown? || th.pc.WaitMark? || th.pc.Wait?
    ensures var th' := WaitAccess(word, tkn, th).th;
            && th'.alive == th.alive && (th'.pc.Idle? <==> th.pc.WaitShutdown? && th.shutdown)
            && (th'.pc.Idle? || th'.pc == Resume(th.pc.why) ||
                ((th'.pc.WaitMark? || th'.pc.Wait? || th'.pc.Asleep?) && th'.pc.why == th.pc.why))
  {
  }

  /** A thread stays in wait_unlocked(k) until a look finds the mutex free or another token, its time is
      up, or it has seen the shutdown. */
  lemma WaitUnlockedStep(s: State, a: Action, t: nat, k: nat)
    requires Inv(s) && Enabled(s, a) && !(a.Die? && a.t == t)
    requires t in s.threads && s.threads[t].alive && AwaitsUnlock(s.threads[t].pc, k)
    ensures var th, th' := s.threads[t], Next(s, a).threads[t];
            && th'.alive && (AwaitsUnlock(th'.pc, k) || th'.pc.Idle?)
            && (th'.pc.Idle? <==>
                  (a == TimeOut(t) ||
                   (a == Run(t) && ((th.pc.WuLoad? && StatusOf(s.log).Free?) || (th.pc.WuTkn? && s.tkn != k) ||
                                    (th.pc.WaitShutdown? && th.shutdown)))))
  {
    hide ThreadOk, WellFormed, LastToken, StatusOf, Access;
    if a == Run(t) {
      WaitUnlockedAccess(s.word, s.tkn, t, s.threads[t], k);
    }
  }

  lemma WaitUnlockedAccess(word: Word, tkn: nat, t: nat, th: Thread, k: nat)
    requires AwaitsUnlock(th.pc, k) && !th.pc.Asleep?
    ensures var e := Access(word, tkn, t, th);
            && e.th.alive == th.alive && (AwaitsUnlock(e.th.pc, k) || e.th.pc.Idle?)
            && (e.th.pc.Idle? <==>
                  ((th.pc.WuLoad? && (word.tid == 0 || word.died)) || (th.pc.WuTkn? && tkn != k) ||
                   (th.pc.WaitShutdown? && th.shutdown)))
  {
    if th.pc.WuLoad? || th.pc.WuTkn? {
      hide TryAccess, AcquireAccess, UnlockAccess;
    } else {
      hide WaitAccess;
      MarkStays(word, tkn, th);
    }
  }

  // ----- What the end of a wait means, over runs -----------------------------------------------------

  /** Somebody holds the mutex in some state of the run. */
  ghost predicate HeldDuring(s: State, actions: seq<Action>)
    decreases |actions|
  {
    StatusOf(s.log).Held? || (actions != [] && Enabled(s, actions[0]) && HeldDuring(Next(s, actions[0]), actions[1..]))
  }

  /** In some state of the run nobody holds the mutex, or another token than `k` is in memory. */
  ghost predicate MovedOnDuring(s: State, actions: seq<Action>, k: nat)
    decreases |actions|
  {
    StatusOf(s.log).Free? || s.tkn != k ||
    (actions != [] && Enabled(s, actions[0]) && MovedOnDuring(Next(s, actions[0]), actions[1..], k))
  }

  /** Thread `t` is shut down in some state of the run. */
  ghost predicate ShutDuring(s: State, actions: seq<Action>, t: nat)
    decreases |actions|
  {
    (t in s.threads && s.threads[t].shutdown) ||
    (actions != [] && Enabled(s, actions[0]) && ShutDuring(Next(s, actions[0]), actions[1..], t))
  }

  predicate Survives(actions: seq<Action>, t: nat) {
    forall i :: 0 <= i < |actions| ==> !(actions[i].Die? && actions[i].t == t)
  }

  /** A thread that comes to read the token in wait_locked has seen the mutex held since it last was
      elsewhere, in particular since it called. */
  lemma {:induction false} WaitLockedSawHold(s: State, actions: seq<Action>, s': State, t: nat)
    requires Inv(s) && Leads(s, actions, s') && Survives(actions, t)
    requires t in s.threads && s.threads[t].alive && !s.threads[t].pc.WlToken?
    requires t in s'.threads && s'.threads[t].pc.WlToken?
    ensures HeldDuring(s, actions)
    decreases |actions|
  {
    hide Inv, StatusOf;
    var a := actions[0];
    StepKeepsInv(s, a);
    ReadsAfterLook(s, a, t);
    if !Next(s, a).threads[t].pc.WlToken? {
      WaitLockedSawHold(Next(s, a), actions[1..], s', t);
    }
  }

  lemma ReadsAfterLook(s: State, a: Action, t: nat)
    requires Inv(s) && Enabled(s, a) && !(a.Die? && a.t == t)
    requires t in s.threads && s.threads[t].alive && !s.threads[t].pc.WlToken?
    ensures t in Next(s, a).threads && Next(s, a).threads[t].alive
    ensures Next(s, a).threads[t].pc.WlToken? ==> StatusOf(s.log).Held?
  {
    hide ThreadOk, WellFormed, LastToken, StatusOf, Access;
    if a == Run(t) {
      if AwaitsLock(s.threads[t].pc) {
        WaitLockedAccess(s.word, s.tkn, t, s.threads[t]);
      } else {
        ReadsNoToken(s.word, s.tkn, t, s.threads[t]);
        AccessAnnounces(s.word, s.tkn, t, s.threads[t]);
      }
    }
  }

  lemma ReadsNoToken(word: Word, tkn: nat, t: nat, th: Thread)
    requires !AwaitsLock(th.pc)
    ensures !Access(word, tkn, t, th).th.pc.WlToken?
  {
    hide TryAccess, AcquireAccess, UnlockAccess, WaitAccess, AwaitsLock;
    match PartOf(th.pc)
    case Trying => TryReadsNone(word, tkn, t, th);
    case Acquiring => AcquireReadsNone(word, tkn, t, th);
    case Unlocking => UnlockReadsNone(word, tkn, t, th);
    case Waits => WaitReadsNone(word, tkn, th);
    case Still =>
      assert !th.pc.WlToken?;
  }

  lemma TryReadsNone(word: Word, tkn: nat, t: nat, th: Thread)
    requires PartOf(th.pc).Trying?
    ensures !TryAccess(word, tkn, t, th).th.pc.WlToken?
  {
  }

  lemma AcquireReadsNone(word: Word, tkn: nat, t: nat, th: Thread)
    requires PartOf(th.pc).Acquiring?
    ensures !AcquireAccess(word, tkn, t, th).th.pc.WlToken?
  {
  }

  lemma UnlockReadsNone(word: Word, tkn: nat, t: nat, th: Thread)
    requires PartOf(th.pc).Unlocking?
    ensures !UnlockAccess(word, tkn, t, th).th.pc.WlToken?
  {
  }

  lemma WaitReadsNone(word: Word, tkn: nat, th: Thread)
    requires PartOf(th.pc).Waits? && !AwaitsLock(th.pc)
    ensures !WaitAccess(word, tkn, th).th.pc.WlToken?
  {
    if th.pc.WaitShutdown? || th.pc.WaitMark? || th.pc.Wait? {
      hide WaitAccess;
      MarkStays(word, tkn, th);
    }
  }

  /** wait_locked comes to an end only when the mutex was held at some time during the call, or the thread
      was shut down, or its time was up. */
  lemma {:induction false} WaitLockedEnds(s: State, actions: seq<Action>, s': State, t: nat)
    requires Inv(s) && Leads(s, actions, s') && Survives(actions, t)
    requires t in s.threads && s.threads[t].alive && AwaitsLock(s.threads[t].pc) && !s.threads[t].pc.WlToken?
    requires t in s'.threads && s'.threads[t].pc.Idle?
    ensures HeldDuring(s, actions) || ShutDuring(s, actions, t) || TimeOut(t) in actions
    decreases |actions|
  {
    hide Inv, StatusOf, AwaitsLock;
    if actions != [] {
      var a := actions[0];
      StepKeepsInv(s, a);
      WaitLockedStep(s, a, t);
      if AwaitsLock(Next(s, a).threads[t].pc) && !Next(s, a).threads[t].pc.WlToken? {
        WaitLockedEnds(Next(s, a), actions[1..], s', t);
      }
    } else {
      NotIdle(s.threads[t].pc, 0);
    }
  }

  /** wait_unlocked(k) comes to an end only when the mutex was free or had another token at some time during
      the call, or the thread was shut down, or its time was up. */
  lemma {:induction false} WaitUnlockedEnds(s: State, actions: seq<Action>, s': State, t: nat, k: nat)
    requires Inv(s) && Leads(s, actions, s') && Survives(actions, t)
    requires t in s.threads && s.threads[t].alive && AwaitsUnlock(s.threads[t].pc, k)
    requires t in s'.threads && s'.threads[t].pc.Idle?
    ensures MovedOnDuring(s, actions, k) || ShutDuring(s, actions, t) || TimeOut(t) in actions
    decreases |actions|
  {
    hide Inv, StatusOf, AwaitsUnlock;
    if actions != [] {
      var a := actions[0];
      StepKeepsInv(s, a);
      WaitUnlockedStep(s, a, t, k);
      if AwaitsUnlock(Next(s, a).threads[t].pc, k) {
        WaitUnlockedEnds(Next(s, a), actions[1..], s', t, k);
      }
    } else {
      NotIdle(s.threads[t].pc, k);
    }
  }

  lemma NotIdle(pc: Pc, k: nat)
    ensures AwaitsLock(pc) || AwaitsUnlock(pc, k) ==> !pc.Idle?
  {
  }

  // ----- trylock and lock, step by step ------------------------------------------------------------

  /** Inside trylock, or inside lock, before the outcome is known. */
  predicate Attempts(pc: Pc, blocking: bool) {
    || ((pc.ImplShutdown? || pc.ImplLoad? || pc.ImplCas?) && (pc.c.Lock? <==> blocking))
    || (blocking && (pc.LockLoad? || pc.LockMark? || ((pc.Wait? || pc.Asleep?) && pc.why.InLock?)))
  }

  /** What an attempt comes to. It takes the mutex exactly when the word is still the free one it looked at.
      Busy, which only trylock answers, means that another thread held the mutex at the look, or that the
      word has changed since: which a waiter's mark is enough for. The shutdown is answered when it was
      seen. The mutex is never found to be the caller's own. */
  lemma AttemptStep(s: State, t: nat, blocking: bool)
    requires Inv(s) && Enabled(s, Run(t)) && Attempts(s.threads[t].pc, blocking)
    ensures var th, s' := s.threads[t], RunStep(s, t); var pc, pc' := th.pc, s'.threads[t].pc;
            && (Attempts(pc', blocking) || pc'.SetOwner? || pc'.OpEnd?)
            && (pc'.SetOwner? <==> pc.ImplCas? && s.word == pc.was)
            && (pc'.SetOwner? ==> StatusOf(s.log) == Free(pc'.dead) && s'.log == s.log + [Took(t, pc'.dead)])
            && (pc' == OpEnd(Busy) <==>
                  (!blocking && ((pc.ImplLoad? && StatusOf(s.log).Held?) || (pc.ImplCas? && s.word != pc.was))))
            && (pc' == OpEnd(Outcome.ShutDown) <==> pc.ImplShutdown? && th.shutdown)
            && (pc'.OpEnd? ==> pc'.res == Busy || pc'.res == Outcome.ShutDown)
  {
    hide AcquireAccess, UnlockAccess, WellFormed, LastToken, StatusOf;
    assert ThreadOk(s.word, s.tkn, StatusOf(s.log), t, s.threads[t]);
  }

  // ----- Calls that nobody interrupts ------------------------------------------------------------------

  /** Only thread `t` does anything. */
  predicate OnlyBy(actions: seq<Action>, t: nat) {
    forall i :: 0 <= i < |actions| ==> !actions[i].Broadcast? && !actions[i].Die? && actions[i].t == t
  }

  /** A state reached by thread `t` alone, as another thread `u` and the memory see it. */
  ghost predicate Alone(s: State, actions: seq<Action>, s': State, t: nat, u: nat) {
    && Leads(s, actions, s') && OnlyBy(actions, t)
    && t in s'.threads && u in s'.threads && t != u
  }

  /** One more access; if it wakes, `u` wakes up. */
  lemma Goes(s: State, actions: seq<Action>, mid: State, t: nat, u: nat)
    returns (actions': seq<Action>, s': State)
    requires Alone(s, actions, mid, t, u) && Enabled(mid, Run(t)) && u in mid.threads
    ensures Alone(s, actions', s', t, u) && actions' == actions + [Run(t)] && t in s'.threads && u in s'.threads
    ensures s' == RunStep(mid, t)
    ensures var e := Access(mid.word, mid.tkn, t, mid.threads[t]);
            && s'.threads[t] == e.th && s'.word == e.word && s'.tkn == e.tkn
            && s'.log == (if e.event.Some? then mid.log + [e.event.value] else mid.log)
            && s'.threads[u] == (if e.wakes then Woken(mid.threads[u]) else mid.threads[u])
  {
    hide Access, Woken;
    LeadsOn(s, actions, mid, Run(t));
    actions', s' := actions + [Run(t)], Next(mid, Run(t));
  }

  /** One more call. */
  lemma Enters(s: State, actions: seq<Action>, mid: State, a: Action, u: nat)
    returns (actions': seq<Action>, s': State)
    requires !a.Run? && !a.Die? && !a.Broadcast? && Alone(s, actions, mid, a.t, u) && Enabled(mid, a) && u in mid.threads
    ensures Alone(s, actions', s', a.t, u) && actions' == actions + [a] && a.t in s'.threads && u in s'.threads
    ensures s'.threads[a.t] == Entered(mid.threads[a.t], a) && s'.threads[u] == mid.threads[u]
    ensures s'.word == mid.word && s'.tkn == mid.tkn && s'.log == mid.log
  {
    hide Entered;
    LeadsOn(s, actions, mid, a);
    actions', s' := actions + [a], Next(mid, a);
  }

  lemma AloneAtFirst(s: State, t: nat, u: nat)
    requires t in s.threads && u in s.threads && t != u
    ensures Alone(s, [], s, t, u)
  {
  }

  /** The attempt on a free word, */
  lemma AttemptTakes(s: State, actions: seq<Action>, mid: State, t: nat, u: nat, c: Caller)
    returns (actions': seq<Action>, s': State)
    requires Alone(s, actions, mid, t, u) && t in mid.threads && u in mid.threads && mid.word.tid == 0
    requires mid.threads[t] == Thread(true, false, false, false, true, ImplShutdown(c))
    ensures Alone(s, actions', s', t, u) && actions <= actions' && t in s'.threads && u in s'.threads
    ensures s'.threads[u] == mid.threads[u]
    ensures s'.threads[t] == Thread(true, false, false, false, true, SetOwner(mid.word.died))
    ensures s'.word == Word(t, mid.word.waiters, false) && s'.tkn == mid.tkn
    ensures s'.log == mid.log + [Took(t, mid.word.died)]
  {
    hide Alone, AcquireAccess, UnlockAccess, WaitAccess, Woken, RunStep;
    actions', s' := Goes(s, actions, mid, t, u);
    assert s'.threads[t].pc == ImplLoad(c);
    actions', s' := Goes(s, actions', s', t, u);
    assert s'.threads[t].pc == ImplCas(c, mid.word);
    actions', s' := Goes(s, actions', s', t, u);
  }

  /** the token and the wakeup, */
  lemma TakesToken(s: State, actions: seq<Action>, mid: State, t: nat, u: nat, d: bool)
    returns (actions': seq<Action>, s': State)
    requires Alone(s, actions, mid, t, u) && t in mid.threads && u in mid.threads
    requires mid.threads[t] == Thread(true, false, false, false, true, SetOwner(d))
    ensures Alone(s, actions', s', t, u) && actions <= actions' && t in s'.threads && u in s'.threads
    ensures s'.threads[t] == Thread(true, true, false, false, true, OpAdd(d)) && s'.threads[u] == Woken(mid.threads[u])
    ensures s'.word == mid.word && s'.tkn == mid.tkn + 1 && s'.log == mid.log + [Token(t, mid.tkn + 1)]
  {
    hide Alone, TryAccess, UnlockAccess, WaitAccess, Woken, RunStep;
    actions', s' := Goes(s, actions, mid, t, u);
    assert s'.threads[t].pc == TknLoad(d);
    actions', s' := Goes(s, actions', s', t, u);
    assert s'.threads[t].pc == TknStore(d, mid.tkn);
    actions', s' := Goes(s, actions', s', t, u);
    assert s'.threads[t].pc == LockWake(d);
    actions', s' := Goes(s, actions', s', t, u);
  }

  /** and the return. */
  lemma ReturnsOwner(s: State, actions: seq<Action>, mid: State, t: nat, u: nat, d: bool)
    returns (actions': seq<Action>, s': State)
    requires Alone(s, actions, mid, t, u) && t in mid.threads && u in mid.threads
    requires mid.threads[t] == Thread(true, true, false, false, true, OpAdd(d))
    ensures Alone(s, actions', s', t, u) && actions <= actions' && t in s'.threads && u in s'.threads
    ensures s'.threads[u] == mid.threads[u]
    ensures s'.threads[t] == Resting(true) && s'.word == mid.word && s'.tkn == mid.tkn
    ensures s'.log == mid.log + [Returned(t, d)]
  {
    hide Alone, TryAccess, UnlockAccess, WaitAccess, Woken, RunStep;
    actions', s' := Goes(s, actions, mid, t, u);
    assert s'.threads[t].pc == OpEnd(Acquired(d));
    actions', s' := Goes(s, actions', s', t, u);
  }

  /** A trylock, or a lock, of a free mutex that nobody interrupts takes it: the word is the caller's, the
      token is the next one, every sleeper is woken, and the call reports a death exactly when the word was
      marked with one. */
  lemma LocksAlone(s: State, t: nat, u: nat, blocking: bool) returns (actions: seq<Action>, s': State)
    requires t in s.threads && u in s.threads && t != u && s.threads[t] == Resting(false) && s.word.tid == 0
    ensures Alone(s, actions, s', t, u) && t in s'.threads && u in s'.threads
    ensures actions != [] && actions[0] == if blocking then CallLock(t) else CallTrylock(t)
    ensures s'.threads[t] == Resting(true) && s'.threads[u] == Woken(s.threads[u])
    ensures s'.word == Word(t, s.word.waiters, false) && s'.tkn == s.tkn + 1
    ensures s'.log == s.log + [Took(t, s.word.died), Token(t, s.tkn + 1), Returned(t, s.word.died)]
  {
    hide Alone, AcquireAccess, UnlockAccess, WaitAccess, Woken, RunStep;
    AloneAtFirst(s, t, u);
    var c := if blocking then Lock(s.word) else Try;
    actions, s' := Enters(s, [], s, if blocking then CallLock(t) else CallTrylock(t), u);
    if blocking {
      actions, s' := Goes(s, actions, s', t, u);
    }
    actions, s' := AttemptTakes(s, actions, s', t, u, c);
    actions, s' := TakesToken(s, actions, s', t, u, s.word.died);
    actions, s' := ReturnsOwner(s, actions, s', t, u, s.word.died);
  }

  /** A trylock of a mutex that another thread holds answers Busy and leaves everything as it was. */
  lemma BusyAlone(s: State, t: nat, u: nat) returns (actions: seq<Action>, busy: State, s': State)
    requires t in s.threads && u in s.threads && t != u && s.threads[t] == Resting(false) && s.word.tid !in {0, t}
    ensures Alone(s, actions, s', t, u) && t in s'.threads && u in s'.threads
    ensures actions != [] && actions[0] == CallTrylock(t)
    ensures Enabled(busy, Run(t)) && busy.threads[t].pc == OpEnd(Busy) && s' == RunStep(busy, t)
    ensures s'.threads[t] == Resting(false) && s'.threads[u] == s.threads[u]
    ensures s'.word == s.word && s'.tkn == s.tkn && s'.log == s.log
  {
    hide Alone, UnlockAccess, WaitAccess, Woken, RunStep;
    AloneAtFirst(s, t, u);
    actions, s' := Enters(s, [], s, CallTrylock(t), u);
    actions, s' := Goes(s, actions, s', t, u);
    actions, busy := Goes(s, actions, s', t, u);
    actions, s' := Goes(s, actions, busy, t, u);
  }

  /** A thread that sleeps in lock and is shut down and woken comes out of the call, without the mutex. */
  lemma ShutdownEndsLock(s: State, t: nat, u: nat) returns (actions: seq<Action>, out: State, s': State)
    requires t in s.threads && u in s.threads && t != u
    requires s.threads[t] == Thread(true, false, true, false, true, LockLoad)
    ensures Alone(s, actions, s', t, u) && t in s'.threads && u in s'.threads
    ensures Enabled(out, Run(t)) && out.threads[t].pc == OpEnd(Outcome.ShutDown) && s' == RunStep(out, t)
    ensures s'.threads[t].pc.Idle? && !s'.threads[t].isOwner && s'.word == s.word && s'.log == s.log
  {
    hide Alone, UnlockAccess, WaitAccess, Woken, RunStep;
    AloneAtFirst(s, t, u);
    actions, s' := Goes(s, [], s, t, u);
    actions, out := Goes(s, actions, s', t, u);
    actions, s' := Goes(s, actions, out, t, u);
  }

  /** One that was waiting for the mutex to be locked does too, whatever its look finds, */
  lemma ShutdownEndsWaitLocked(s: State, t: nat, u: nat) returns (actions: seq<Action>, s': State)
    requires t in s.threads && u in s.threads && t != u && (s.word.tid != 0 ==> !s.word.died)
    requires s.threads[t].alive && s.threads[t].shutdown && s.threads[t].pc.WlLoad?
    ensures Alone(s, actions, s', t, u) && t in s'.threads && |actions| == 2
    ensures s'.threads[t] == s.threads[t].At(Idle) && s'.word == s.word && s'.tkn == s.tkn && s'.log == s.log
  {
    hide Alone, TryAccess, AcquireAccess, UnlockAccess, Woken, RunStep;
    AloneAtFirst(s, t, u);
    actions, s' := Goes(s, [], s, t, u);
    actions, s' := Goes(s, actions, s', t, u);
  }

  /** and one that was waiting for it to be unlocked. */
  lemma ShutdownEndsWaitUnlocked(s: State, t: nat, u: nat) returns (actions: seq<Action>, s': State)
    requires t in s.threads && u in s.threads && t != u && (s.word.tid != 0 ==> !s.word.died)
    requires s.threads[t].alive && s.threads[t].shutdown && s.threads[t].pc.WuLoad?
    ensures Alone(s, actions, s', t, u) && t in s'.threads && |actions| <= 3
    ensures s'.threads[t] == s.threads[t].At(Idle) && s'.word == s.word && s'.tkn == s.tkn && s'.log == s.log
  {
    hide Alone, TryAccess, AcquireAccess, UnlockAccess, Woken, RunStep;
    AloneAtFirst(s, t, u);
    actions, s' := Goes(s, [], s, t, u);
    if s.word.tid != 0 {
      assert s'.threads[t].pc == WuTkn(s.threads[t].pc.k, s.word);
      actions, s' := Goes(s, actions, s', t, u);
      if s.tkn == s.threads[t].pc.k {
        actions, s' := Goes(s, actions, s', t, u);
      }
    }
  }

  /** An unlock that nobody interrupts frees the mutex, keeps the mark of the waiters and wakes everyone. */
  lemma UnlocksAlone(s: State, t: nat, u: nat) returns (actions: seq<Action>, s': State)
    requires t in s.threads && u in s.threads && t != u && s.threads[t] == Resting(true)
    ensures Alone(s, actions, s', t, u) && t in s'.threads && u in s'.threads
    ensures actions != [] && actions[0] == CallUnlock(t)
    ensures s'.threads[t] == Resting(false) && s'.threads[u] == Woken(s.threads[u])
    ensures s'.word == Word(0, s.word.waiters, false) && s'.tkn == s.tkn && s'.log == s.log + [Released(t)]
  {
    hide Alone, TryAccess, AcquireAccess, WaitAccess, Woken, RunStep;
    AloneAtFirst(s, t, u);
    actions, s' := Enters(s, [], s, CallUnlock(t), u);
    assert s'.threads[t].pc == UnDel;
    actions, s' := Goes(s, actions, s', t, u);
    assert s'.threads[t].pc == UnAnd;
    actions, s' := Goes(s, actions, s', t, u);
    assert s'.threads[t].pc == UnEnd;
    actions, s' := Goes(s, actions, s', t, u);
    assert s'.threads[t].pc == UnOwner;
    actions, s' := Goes(s, actions, s', t, u);
    assert s'.threads[t].pc == UnWake;
    actions, s' := Goes(s, actions, s', t, u);
  }

  /** A waiter that has decided to wait marks the word it saw and sleeps on it. */
  lemma MarksAlone(s: State, actions: seq<Action>, mid: State, t: nat, u: nat, why: Waiting)
    returns (actions': seq<Action>, s': State)
    requires Alone(s, actions, mid, t, u) && t in mid.threads && u in mid.threads
    requires mid.threads[t] == Resting(false).At(WaitShutdown(why, mid.word))
    ensures Alone(s, actions', s', t, u) && actions <= actions' && t in s'.threads && u in s'.threads
    ensures s'.threads[t] == Resting(false).At(Asleep(why, Marked(mid.word))) && s'.threads[u] == mid.threads[u]
    ensures s'.word == Marked(mid.word) && s'.tkn == mid.tkn && s'.log == mid.log
  {
    hide Alone, TryAccess, AcquireAccess, UnlockAccess, Woken, RunStep;
    actions', s' := Goes(s, actions, mid, t, u);
    assert s'.threads[t].pc == WaitMark(why, mid.word);
    actions', s' := Goes(s, actions', s', t, u);
    assert s'.threads[t].pc == Wait(why, Marked(mid.word));
    actions', s' := Goes(s, actions', s', t, u);
  }

  /** A wait_locked on a free mutex that nobody interrupts goes to sleep. */
  lemma WaitLockedSleeps(s: State, t: nat, u: nat) returns (actions: seq<Action>, s': State)
    requires t in s.threads && u in s.threads && t != u && s.threads[t] == Resting(false) && s.word.tid == 0
    ensures Alone(s, actions, s', t, u) && t in s'.threads && u in s'.threads
    ensures actions != [] && actions[0] == CallWaitLocked(t)
    ensures s'.threads[t] == Resting(false).At(Asleep(InWaitLocked, Marked(s.word))) && s'.threads[u] == s.threads[u]
    ensures s'.word == Marked(s.word) && s'.tkn == s.tkn && s'.log == s.log
  {
    hide Alone, TryAccess, AcquireAccess, UnlockAccess, Woken, RunStep;
    AloneAtFirst(s, t, u);
    actions, s' := Enters(s, [], s, CallWaitLocked(t), u);
    actions, s' := Goes(s, actions, s', t, u);
    actions, s' := MarksAlone(s, actions, s', t, u, InWaitLocked);
  }

  /** A wait_unlocked with the token in memory, on a held mutex, goes to sleep. */
  lemma WaitUnlockedSleeps(s: State, t: nat, u: nat) returns (actions: seq<Action>, s': State)
    requires t in s.threads && u in s.threads && t != u && s.threads[t] == Resting(false)
    requires s.word.tid != 0 && !s.word.died
    ensures Alone(s, actions, s', t, u) && t in s'.threads && u in s'.threads
    ensures actions != [] && actions[0] == CallWaitUnlocked(t, s.tkn)
    ensures s'.threads[t] == Resting(false).At(Asleep(InWaitUnlocked(s.tkn), Marked(s.word)))
    ensures s'.threads[u] == s.threads[u]
    ensures s'.word == Marked(s.word) && s'.tkn == s.tkn && s'.log == s.log
  {
    hide Alone, TryAccess, AcquireAccess, UnlockAccess, Woken, RunStep;
    AloneAtFirst(s, t, u);
    actions, s' := Enters(s, [], s, CallWaitUnlocked(t, s.tkn), u);
    actions, s' := Goes(s, actions, s', t, u);
    assert s'.threads[t].pc == WuTkn(s.tkn, s.word);
    actions, s' := Goes(s, actions, s', t, u);
    actions, s' := MarksAlone(s, actions, s', t, u, InWaitUnlocked(s.tkn));
  }

  ghost predicate Reaches(s: State, s': State) {
    exists actions :: Leads(s, actions, s')
  }

  lemma ReachesOn(s: State, mid: State, s': State)
    requires Reaches(s, mid) && Reaches(mid, s')
    ensures Reaches(s, s')
  {
    var a1 :| Leads(s, a1, mid);
    var a2 :| Leads(mid, a2, s');
    LeadsJoin(s, a1, mid, a2, s');
  }

  lemma AloneReaches(s: State, actions: seq<Action>, s': State, t: nat, u: nat)
    requires Alone(s, actions, s', t, u)
    ensures Reaches(s, s')
  {
  }

  /** What the mutex is for, in one run: thread 1 waits for somebody to lock it, and sleeps; thread 2 locks
      it and so wakes thread 1, which reads token 1; thread 1 waits for that very hold to end, and sleeps;
      thread 2 unlocks and so wakes thread 1, whose wait then returns. */
  lemma WatchesOneOwner() returns (asleep: State, read: State, waits: State, done: State)
    ensures Reaches(Start({1, 2}), asleep) && Sleeps(asleep, 1) && asleep.threads[1].pc.why == InWaitLocked
    ensures asleep.log == []
    ensures Reaches(asleep, read) && ReadsToken(read, 1) && read.tkn == 1
    ensures read.log == [Took(2, false), Token(2, 1), Returned(2, false)]
    ensures Reaches(read, waits) && Sleeps(waits, 1) && waits.threads[1].pc.why == InWaitUnlocked(1)
    ensures Reaches(waits, done) && ReturnsUnlocked(done, 1, 1) && done.log == read.log + [Released(2)]
  {
    hide Alone, Leads, Start, Access, Reaches;
    StartRests();
    StartToken();
    StartLog();
    var start := Start({1, 2});
    var a, s;
    a, asleep := WaitLockedSleeps(start, 1, 2);
    AloneReaches(start, a, asleep, 1, 2);
    a, s := LocksAlone(asleep, 2, 1, false);
    AloneReaches(asleep, a, s, 2, 1);
    read := ComesToRead(s, 1, 2);
    ReachesOn(asleep, s, read);
    s, waits := ReadsAndSleeps(read, 1, 2);
    a, done := UnlocksAlone(waits, 2, 1);
    AloneReaches(waits, a, done, 2, 1);
    ReturnsWhenFree(done, 1, 1);
  }

  lemma StartLog()
    ensures Start({1, 2}).log == []
  {
  }

  lemma ReturnsWhenFree(s: State, t: nat, k: nat)
    requires t in s.threads && s.threads[t] == Resting(false).At(WuLoad(k)) && s.word.tid == 0
    ensures ReturnsUnlocked(s, t, k)
  {
    hide TryAccess, AcquireAccess, UnlockAccess;
  }

  lemma ComesToRead(s: State, t: nat, u: nat) returns (read: State)
    requires t in s.threads && u in s.threads && t != u && s.threads[t] == Resting(false).At(WlLoad)
    requires s.word.tid != 0 && !s.word.died
    ensures Reaches(s, read) && ReadsToken(read, t) && t in read.threads && u in read.threads
    ensures read.threads[t] == Resting(false).At(WlToken) && read.threads[u] == s.threads[u]
    ensures read.word == s.word && read.tkn == s.tkn && read.log == s.log
  {
    hide Alone, TryAccess, AcquireAccess, UnlockAccess, Woken, Leads, Reaches;
    AloneAtFirst(s, t, u);
    var a;
    a, read := Goes(s, [], s, t, u);
    AloneReaches(s, a, read, t, u);
  }

  lemma ReadsAndSleeps(read: State, t: nat, u: nat) returns (s: State, waits: State)
    requires ReadsToken(read, t) && u in read.threads && t != u && read.threads[t] == Resting(false).At(WlToken)
    requires read.word.tid != 0 && !read.word.died
    ensures s == RunStep(read, t) && Reaches(read, waits) && t in waits.threads && u in waits.threads
    ensures waits.threads[t] == Resting(false).At(Asleep(InWaitUnlocked(read.tkn), Marked(read.word)))
    ensures waits.threads[u] == read.threads[u]
    ensures waits.word == Marked(read.word) && waits.tkn == read.tkn && waits.log == read.log
  {
    hide Alone, TryAccess, AcquireAccess, UnlockAccess, Woken, Leads, Reaches;
    AloneAtFirst(read, t, u);
    var a;
    a, s := Goes(read, [], read, t, u);
    AloneReaches(read, a, s, t, u);
    a, waits := WaitUnlockedSleeps(s, t, u);
    AloneReaches(s, a, waits, t, u);
    ReachesOn(read, s, waits);
    s := RunStep(read, t);
  }

  /** trylock can answer Busy although nobody has ever held the mutex: a thread in wait_locked marks the
      free word between its look and its exchange. */
  lemma BusyOnFreeMutex() returns (s: State)
    ensures Reaches(Start({1, 2}), s) && Enabled(s, Run(1))
    ensures s.threads[1].pc == OpEnd(Busy) && s.word.tid == 0 && s.log == []
  {
    hide Alone, Leads, Start, Reaches, AcquireAccess, UnlockAccess, Woken, RunStep;
    StartRests();
    StartLog();
    var start := Start({1, 2});
    AloneAtFirst(start, 1, 2);
    var a, looked := Enters(start, [], start, CallTrylock(1), 2);
    a, looked := Goes(start, a, looked, 1, 2);
    assert looked.threads[1].pc == ImplLoad(Try);
    a, looked := Goes(start, a, looked, 1, 2);
    AloneReaches(start, a, looked, 1, 2);
    var marked;
    a, marked := WaitLockedSleeps(looked, 2, 1);
    AloneReaches(looked, a, marked, 2, 1);
    ReachesOn(start, looked, marked);
    AloneAtFirst(marked, 1, 2);
    a, s := Goes(marked, [], marked, 1, 2);
    AloneReaches(marked, a, s, 1, 2);
    ReachesOn(start, marked, s);
  }

  /** The owner's lock and trylock, and anybody else's unlock, do nothing. */
  lemma NothingToDo(s: State, a: Action)
    requires a.CallLock? || a.CallTrylock? || a.CallUnlock?
    requires Enabled(s, a) && (s.threads[a.t].isOwner <==> !a.CallUnlock?)
    ensures Next(s, a) == s
  {
    assert s.threads[a.t := s.threads[a.t]] == s.threads;
  }

  /** When an owner dies and its word has the mark of a waiter, the kernel wakes one sleeper, who looks
      again; its own look then finds the word free and marked with the death. */
  lemma DeathWakesOne(s: State, t: nat, u: nat)
    requires Inv(s) && Enabled(s, Die(t, Some(u))) && s.word.tid == t && s.word.waiters
    requires u != t && u in s.threads && s.threads[u].alive && s.threads[u].pc.Asleep?
    ensures var s' := DieStep(s, t, Some(u));
            && u in s'.threads && s'.word.tid == 0 && s'.word.died
            && s'.threads[u].pc == match s.threads[u].pc.why
                                   case InLock => LockLoad
                                   case InWaitLocked => WlLoad
                                   case InWaitUnlocked(k) => WuLoad(k)
  {
    hide WellFormed, StatusOf, LastToken;
    DeathIsMarked(s, t, Some(u));
  }

  /** A sleeper whose time is up leaves its call, a lock call with the timeout as its answer; a broadcast
      sends every sleeper to look again; and a shutdown request is kept until it is seen. */
  lemma InterruptsMean(s: State, a: Action, t: nat)
    requires Enabled(s, a) && t in s.threads && s.threads[t].alive && (a.Broadcast? || a.TimeOut? || a.Shutdown?)
    requires !a.Broadcast? ==> a.t == t
    ensures var th, th' := s.threads[t], Next(s, a).threads[t];
            && (a.TimeOut? ==> th' == th.At(if th.pc.why.InLock? then OpEnd(Outcome.TimedOut) else Idle))
            && (a.Shutdown? ==> th'.shutdown && th'.pc == th.pc)
            && (a.Broadcast? && !th.pc.Asleep? ==> th' == th)
            && (a.Broadcast? && th.pc.Asleep? ==>
                  th' == th.At(match th.pc.why
                               case InLock => LockLoad
                               case InWaitLocked => WlLoad
                               case InWaitUnlocked(k) => WuLoad(k)))
  {
  }
}

/** Sleeping and waking on the deadman mutex in runs without deaths. */
module DeadmanWakeups {
  import opened DeadmanMtx
  import opened DeadmanSafety
  import opened Errors

  predicate DeathFree(actions: seq<Action>) {
    forall i :: 0 <= i < |actions| ==> !actions[i].Die?
  }

  /** Places with a FUTEX_WAKE of every waiter still ahead: after the word was taken and after it
      was cleared. */
  predicate Broadcasting(pc: Pc) {
    pc.SetOwner? || pc.TknLoad? || pc.TknStore? || pc.LockWake? || pc.UnEnd? || pc.UnOwner? || pc.UnWake?
  }

  ghost predicate BroadcastPending(s: State) {
    exists u :: u in s.threads && Broadcasting(s.threads[u].pc)
  }

  predicate Sleeps(s: State, t: nat) {
    t in s.threads && s.threads[t].pc.Asleep?
  }

  /** Every sleeper still sees the owner it went to sleep on, or is about to be woken. */
  ghost predicate NobodyForgotten(s: State) {
    && (forall t :: t in s.threads ==> s.threads[t].alive)
    && (forall t :: Sleeps(s, t) ==> s.word.tid == s.threads[t].pc.val.tid || BroadcastPending(s))
  }

  /** An access that changes the owner leaves its thread with a broadcast to make, until the access
      that makes it; and a thread falls asleep only on the present word. */
  predicate Announces(word: Word, th: Thread, e: Effect) {
    && e.th.alive == th.alive
    && (e.word.tid != word.tid || (Broadcasting(th.pc) && !e.wakes) ==> Broadcasting(e.th.pc))
    && (e.th.pc.Asleep? ==> e.word == word && !e.wakes && e.th.pc.val == word)
    && (e.wakes ==> e.word == word)
  }

  lemma TryAnnounces(word: Word, tkn: nat, t: nat, th: Thread)
    requires PartOf(th.pc).Trying?
    ensures Announces(word, th, TryAccess(word, tkn, t, th))
  {
    assert !Broadcasting(th.pc);
    match th.pc {
      case ImplCas(c, was) =>
      case LockMark(first) =>
      case _ =>
    }
  }

  lemma AcquireAnnounces(word: Word, tkn: nat, t: nat, th: Thread)
    requires PartOf(th.pc).Acquiring?
    ensures Announces(word, th, AcquireAccess(word, tkn, t, th))
  {
  }

  lemma UnlockAnnounces(word: Word, tkn: nat, t: nat, th: Thread)
    requires PartOf(th.pc).Unlocking?
    ensures Announces(word, th, UnlockAccess(word, tkn, t, th))
  {
  }

  lemma WaitAnnounces(word: Word, tkn: nat, th: Thread)
    requires PartOf(th.pc).Waits?
    ensures Announces(word, th, WaitAccess(word, tkn, th))
  {
  }

  lemma AccessAnnounces(word: Word, tkn: nat, t: nat, th: Thread)
    requires !PartOf(th.pc).Still?
    ensures Announces(word, th, Access(word, tkn, t, th))
  {
    hide TryAccess, AcquireAccess, UnlockAccess, WaitAccess, Announces, PartOf;
    match PartOf(th.pc)
    case Trying => TryAnnounces(word, tkn, t, th);
    case Acquiring => AcquireAnnounces(word, tkn, t, th);
    case Unlocking => UnlockAnnounces(word, tkn, t, th);
    case _ => WaitAnnounces(word, tkn, th);
  }

  lemma RunForgetsNobody(s: State, t: nat)
    requires NobodyForgotten(s) && Enabled(s, Run(t))
    ensures NobodyForgotten(RunStep(s, t))
  {
    hide Access;
    var e := Access(s.word, s.tkn, t, s.threads[t]);
    var s' := RunStep(s, t);
    AccessAnnounces(s.word, s.tkn, t, s.threads[t]);
    assert s'.threads[t] == e.th;
    if !e.wakes {
      if BroadcastPending(s) {
        var u :| u in s.threads && Broadcasting(s.threads[u].pc);
        assert u in s'.threads && Broadcasting(s'.threads[u].pc);
      }
      forall u | Sleeps(s', u)
        ensures s'.word.tid == s'.threads[u].pc.val.tid || BroadcastPending(s')
      {
        if u != t { assert Sleeps(s, u); }
      }
    }
  }

  lemma CallForgetsNobody(s: State, a: Action)
    requires NobodyForgotten(s) && Enabled(s, a) && !a.Run? && !a.Die?
    ensures NobodyForgotten(Next(s, a))
  {
    var s' := Next(s, a);
    if !a.Broadcast? {
      if BroadcastPending(s) {
        var u :| u in s.threads && Broadcasting(s.threads[u].pc);
        assert u in s'.threads && Broadcasting(s'.threads[u].pc);
      }
      forall u | Sleeps(s', u)
        ensures s'.word.tid == s'.threads[u].pc.val.tid || BroadcastPending(s')
      {
        assert Sleeps(s, u);
      }
    }
  }

  lemma {:induction false} NobodyForgottenAlongRuns(s: State, actions: seq<Action>, s': State)
    requires NobodyForgotten(s) && Leads(s, actions, s') && DeathFree(actions)
    ensures NobodyForgotten(s')
    decreases |actions|
  {
    if actions != [] {
      var a := actions[0];
      if a.Run? {
        RunForgetsNobody(s, a.t);
      } else {
        CallForgetsNobody(s, a);
      }
      NobodyForgottenAlongRuns(Next(s, a), actions[1..], s');
    }
  }

  /** No lost wakeup: in a run without deaths, once every broadcast has been made, a thread asleep
      in wait_unlocked is waiting for a live owner, a thread asleep in wait_locked for a free
      mutex, and a thread asleep in lock for the very owner it saw. */
  lemma NoLostWakeup(tids: set<nat>, actions: seq<Action>, s: State, t: nat)
    requires Leads(Start(tids), actions, s) && DeathFree(actions)
    requires Sleeps(s, t) && !BroadcastPending(s)
    ensures s.word.tid == s.threads[t].pc.val.tid
    ensures s.word.tid != 0 ==> s.word.tid in s.threads && s.threads[s.word.tid].alive
    ensures s.threads[t].pc.why.InWaitUnlocked? ==> s.word.tid != 0
    ensures s.threads[t].pc.why.InWaitLocked? ==> s.word.tid == 0
  {
    NobodyForgottenAlongRuns(Start(tids), actions, s);
    StartInv(tids);
    InvAlongRuns(Start(tids), actions, s);
    assert ThreadOk(s.word, s.tkn, StatusOf(s.log), t, s.threads[t]);
  }

  // ----- Sleeping on a free mutex --------------------------------------------------------

  /** timedlock reads the word once for itself and once more inside the attempt to take it. When the
      first look found the mutex free and the second found it taken, and it has been freed again
      since, the mark and the wait both succeed: the thread sleeps on a mutex nobody holds. With all
      broadcasts made that is the only way: a thread asleep in lock sleeps on a held mutex exactly
      when its own look found an owner. */
  lemma LockSleepersMeanHeld(tids: set<nat>, actions: seq<Action>, s: State, t: nat)
    requires Leads(Start(tids), actions, s) && DeathFree(actions)
    requires Sleeps(s, t) && s.threads[t].pc.why.InLock? && !BroadcastPending(s)
    ensures StatusOf(s.log).Held? <==> s.threads[t].pc.val.tid != 0
  {
    NoLostWakeup(tids, actions, s, t);
    StartInv(tids);
    InvAlongRuns(Start(tids), actions, s);
  }

  /** A run under construction. */
  lemma {:induction false} LeadsOn(s: State, actions: seq<Action>, mid: State, a: Action)
    requires Leads(s, actions, mid) && Enabled(mid, a)
    ensures Leads(s, actions + [a], Next(mid, a))
    decreases |actions|
  {
    if actions == [] {
      assert Leads(Next(s, a), [], Next(mid, a));
      assert (actions + [a])[1..] == [];
    } else {
      LeadsOn(Next(s, actions[0]), actions[1..], mid, a);
      assert (actions + [a])[1..] == actions[1..] + [a];
    }
  }

  /** One more step of a death-free run. */
  lemma Extend(s: State, actions: seq<Action>, mid: State, a: Action)
    returns (actions': seq<Action>, s': State)
    requires Leads(s, actions, mid) && DeathFree(actions)
    requires Enabled(mid, a) && !a.Die?
    ensures Leads(s, actions', s') && DeathFree(actions') && s' == Next(mid, a)
  {
    LeadsOn(s, actions, mid, a);
    actions', s' := actions + [a], Next(mid, a);
  }

  /** The same for an access of thread `t` beside one other thread that is awake. */
  lemma Runs(s: State, actions: seq<Action>, mid: State, t: nat, u: nat)
    returns (actions': seq<Action>, s': State)
    requires Leads(s, actions, mid) && DeathFree(actions)
    requires Enabled(mid, Run(t)) && Pair(mid, t, u)
    ensures Leads(s, actions', s') && DeathFree(actions')
    ensures Pair(s', t, u) && s'.threads[u] == mid.threads[u]
    ensures var e := Access(mid.word, mid.tkn, t, mid.threads[t]);
            s'.threads[t] == e.th && s'.word == e.word && s'.tkn == e.tkn
  {
    hide Access;
    actions', s' := Extend(s, actions, mid, Run(t));
  }

  /** The same for a call. */
  lemma Calls(s: State, actions: seq<Action>, mid: State, a: Action, u: nat)
    returns (actions': seq<Action>, s': State)
    requires Leads(s, actions, mid) && DeathFree(actions)
    requires !a.Run? && !a.Die? && !a.Broadcast? && Enabled(mid, a) && Pair(mid, a.t, u)
    ensures Leads(s, actions', s') && DeathFree(actions')
    ensures Pair(s', a.t, u) && s'.threads[u] == mid.threads[u]
    ensures s'.threads[a.t] == Entered(mid.threads[a.t], a) && s'.word == mid.word && s'.tkn == mid.tkn
  {
    hide Entered;
    actions', s' := Extend(s, actions, mid, a);
  }

  /** Two threads, of which `u` is awake. */
  predicate Pair(s: State, t: nat, u: nat) {
    t != u && s.threads.Keys == {t, u} && !s.threads[u].pc.Asleep?
  }

  /** A thread between calls. */
  function Resting(owner: bool): Thread {
    Thread(true, owner, false, owner, false, Idle)
  }

  /** A thread that calls lock on a free mutex and is not interrupted takes it, */
  lemma TakesAlone(s: State, actions: seq<Action>, mid: State, t: nat, u: nat)
    returns (actions': seq<Action>, s': State)
    requires Leads(s, actions, mid) && DeathFree(actions)
    requires Pair(mid, t, u) && mid.threads[t] == Resting(false) && mid.word == Word(0, false, false)
    ensures Leads(s, actions', s') && DeathFree(actions')
    ensures Pair(s', t, u) && s'.threads[u] == mid.threads[u] && s'.word == Word(t, false, false) && s'.tkn == mid.tkn
    ensures s'.threads[t] == Thread(true, false, false, false, true, SetOwner(false))
  {
    hide Leads, DeathFree, RunStep, AcquireAccess, UnlockAccess, WaitAccess;
    actions', s' := Calls(s, actions, mid, CallLock(t), u);
    actions', s' := Runs(s, actions', s', t, u);
    assert s'.threads[t].pc == ImplShutdown(Lock(s'.word));
    actions', s' := Runs(s, actions', s', t, u);
    assert s'.threads[t].pc.ImplLoad?;
    actions', s' := Runs(s, actions', s', t, u);
    assert s'.threads[t].pc.ImplCas? && s'.threads[t].pc.was == s'.word;
    actions', s' := Runs(s, actions', s', t, u);
  }

  /** gives itself the next token */
  lemma TokenAlone(s: State, actions: seq<Action>, mid: State, t: nat, u: nat)
    returns (actions': seq<Action>, s': State)
    requires Leads(s, actions, mid) && DeathFree(actions)
    requires Pair(mid, t, u) && mid.threads[t] == Thread(true, false, false, false, true, SetOwner(false))
    ensures Leads(s, actions', s') && DeathFree(actions')
    ensures Pair(s', t, u) && s'.threads[u] == mid.threads[u]
    ensures s'.word == mid.word && s'.tkn == mid.tkn + 1
    ensures s'.threads[t] == Thread(true, true, false, false, true, LockWake(false))
  {
    hide Leads, DeathFree, RunStep, TryAccess, UnlockAccess, WaitAccess;
    actions', s' := Runs(s, actions, mid, t, u);
    assert s'.threads[t].pc == TknLoad(false);
    actions', s' := Runs(s, actions', s', t, u);
    assert s'.threads[t].pc == TknStore(false, mid.tkn);
    actions', s' := Runs(s, actions', s', t, u);
  }

  /** and returns as the owner. */
  lemma ReturnsAlone(s: State, actions: seq<Action>, mid: State, t: nat, u: nat)
    returns (actions': seq<Action>, s': State)
    requires Leads(s, actions, mid) && DeathFree(actions)
    requires Pair(mid, t, u) && mid.threads[t] == Thread(true, true, false, false, true, LockWake(false))
    ensures Leads(s, actions', s') && DeathFree(actions')
    ensures Pair(s', t, u) && s'.threads[u] == mid.threads[u] && s'.threads[t] == Resting(true)
    ensures s'.word == mid.word && s'.tkn == mid.tkn
  {
    hide Leads, DeathFree, RunStep, TryAccess, UnlockAccess, WaitAccess;
    actions', s' := Runs(s, actions, mid, t, u);
    assert s'.threads[t].pc == OpAdd(false);
    actions', s' := Runs(s, actions', s', t, u);
    assert s'.threads[t].pc == OpEnd(Acquired(false));
    actions', s' := Runs(s, actions', s', t, u);
  }

  /** An owner that calls unlock and is not interrupted frees the mutex, */
  lemma FreesAlone(s: State, actions: seq<Action>, mid: State, t: nat, u: nat)
    returns (actions': seq<Action>, s': State)
    requires Leads(s, actions, mid) && DeathFree(actions)
    requires Pair(mid, t, u) && mid.threads[t] == Resting(true)
    ensures Leads(s, actions', s') && DeathFree(actions')
    ensures Pair(s', t, u) && s'.threads[u] == mid.threads[u] && s'.word == Word(0, mid.word.waiters, false)
    ensures s'.tkn == mid.tkn
    ensures s'.threads[t] == Thread(true, true, false, false, true, UnEnd)
  {
    hide Leads, DeathFree, RunStep, TryAccess, AcquireAccess, WaitAccess;
    actions', s' := Calls(s, actions, mid, CallUnlock(t), u);
    assert s'.threads[t].pc == UnDel;
    actions', s' := Runs(s, actions', s', t, u);
    assert s'.threads[t].pc == UnAnd;
    actions', s' := Runs(s, actions', s', t, u);
  }

  /** and wakes everyone. */
  lemma LeavesAlone(s: State, actions: seq<Action>, mid: State, t: nat, u: nat)
    returns (actions': seq<Action>, s': State)
    requires Leads(s, actions, mid) && DeathFree(actions)
    requires Pair(mid, t, u) && mid.threads[t] == Thread(true, true, false, false, true, UnEnd)
    ensures Leads(s, actions', s') && DeathFree(actions')
    ensures Pair(s', t, u) && s'.threads[u] == mid.threads[u] && s'.word == mid.word
    ensures s'.tkn == mid.tkn
    ensures s'.threads[t] == Resting(false)
  {
    hide Leads, DeathFree, RunStep, TryAccess, AcquireAccess, WaitAccess;
    actions', s' := Runs(s, actions, mid, t, u);
    assert s'.threads[t].pc == UnOwner;
    actions', s' := Runs(s, actions', s', t, u);
    assert s'.threads[t].pc == UnWake;
    actions', s' := Runs(s, actions', s', t, u);
  }

  /** Thread 1 looks at a free word, and finds it taken by thread 2 the second time it looks. */
  lemma LooksTwice(start: State) returns (actions: seq<Action>, s: State)
    requires Pair(start, 1, 2) && Pair(start, 2, 1) && start.word == Word(0, false, false)
    requires start.threads[1] == start.threads[2] == Resting(false)
    ensures Leads(start, actions, s) && DeathFree(actions)
    ensures Pair(s, 1, 2) && Pair(s, 2, 1) && s.word == Word(2, false, false)
    ensures s.threads[2] == Resting(true)
    ensures s.threads[1] == Thread(true, false, false, false, true, LockMark(Word(0, false, false)))
  {
    hide Leads, RunStep, AcquireAccess, UnlockAccess, WaitAccess;
    LeadsNowhere(start);
    actions, s := Calls(start, [], start, CallLock(1), 2);
    actions, s := Runs(start, actions, s, 1, 2);
    assert s.threads[1].pc == ImplShutdown(Lock(Word(0, false, false)));
    actions, s := TakesAlone(start, actions, s, 2, 1);
    actions, s := TokenAlone(start, actions, s, 2, 1);
    actions, s := ReturnsAlone(start, actions, s, 2, 1);
    actions, s := Runs(start, actions, s, 1, 2);
    assert s.threads[1].pc == ImplLoad(Lock(Word(0, false, false)));
    actions, s := Runs(start, actions, s, 1, 2);
  }

  /** A thread whose first look at the word still matches marks it and falls asleep. */
  lemma MarksAndSleeps(s: State, actions: seq<Action>, mid: State, t: nat, u: nat)
    returns (actions': seq<Action>, s': State)
    requires Leads(s, actions, mid) && DeathFree(actions)
    requires Pair(mid, t, u) && mid.threads[t] == Thread(true, false, false, false, true, LockMark(mid.word))
    ensures Leads(s, actions', s') && DeathFree(actions')
    ensures Pair(s', t, u) && s'.threads[u] == mid.threads[u] && s'.word == Marked(mid.word)
    ensures s'.threads[t].pc == Asleep(InLock, s'.word)
  {
    hide Leads, DeathFree, RunStep, AcquireAccess, UnlockAccess;
    actions', s' := Runs(s, actions, mid, t, u);
    assert s'.threads[t].pc == Wait(InLock, s'.word);
    actions', s' := Runs(s, actions', s', t, u);
  }

  /** The run itself: then thread 2 unlocks, and thread 1 marks the word it first saw and sleeps.
      Everybody else is idle, nothing is left to wake it, and the mutex is free. */
  lemma LockSleepsOnFreeMutex() returns (actions: seq<Action>, s: State)
    ensures Leads(Start({1, 2}), actions, s) && DeathFree(actions)
    ensures Sleeps(s, 1) && s.threads[1].pc.why.InLock? && !BroadcastPending(s)
    ensures s.threads.Keys == {1, 2} && s.threads[2] == Resting(false)
    ensures s.word.tid == 0
  {
    hide Leads, RunStep, DeathFree, Access, Start, Enabled, BroadcastPending, Broadcasting;
    var start := Start({1, 2});
    StartRests();
    actions, s := LooksTwice(start);
    actions, s := FreesAlone(start, actions, s, 2, 1);
    actions, s := LeavesAlone(start, actions, s, 2, 1);
    actions, s := MarksAndSleeps(start, actions, s, 1, 2);
    SleepsUnannounced(s, false);
  }

  lemma SleepsUnannounced(s: State, owner: bool)
    requires Pair(s, 1, 2) && s.threads[1].pc.Asleep? && s.threads[2] == Resting(owner)
    ensures Sleeps(s, 1) && !BroadcastPending(s) && s.threads.Keys == {1, 2}
  {
    assert s.threads.Keys == {1, 2};
  }

  lemma StartRests()
    ensures var start := Start({1, 2});
            Pair(start, 1, 2) && Pair(start, 2, 1) && start.word == Word(0, false, false)
            && start.threads[1] == start.threads[2] == Resting(false)
  {
  }

  lemma LeadsNowhere(s: State)
    ensures Leads(s, [], s) && DeathFree([])
  {
  }

  /** Thread 1 calls wait_locked, and sees the word taken before its owner has a token. */
  lemma SeesUnnumbered(start: State) returns (actions: seq<Action>, s: State)
    requires Pair(start, 1, 2) && Pair(start, 2, 1) && start.word == Word(0, false, false) && start.tkn == 0
    requires start.threads[1] == start.threads[2] == Resting(false)
    ensures Leads(start, actions, s) && DeathFree(actions)
    ensures Pair(s, 1, 2) && s.word.tid == 2 && s.tkn == 0
    ensures s.threads[1] == Resting(false).At(WlToken) && s.threads[2].pc.SetOwner?
  {
    hide Leads, RunStep, TryAccess, AcquireAccess, UnlockAccess;
    LeadsNowhere(start);
    actions, s := TakesAlone(start, [], start, 2, 1);
    actions, s := Calls(start, actions, s, CallWaitLocked(1), 2);
    actions, s := Runs(start, actions, s, 1, 2);
  }

  /** wait_locked can return a token that was never issued: it sees the word taken before its owner
      has incremented the token. */
  lemma WaitLockedReadsNoToken() returns (actions: seq<Action>, s: State)
    ensures Leads(Start({1, 2}), actions, s) && DeathFree(actions)
    ensures Enabled(s, Run(1)) && s.threads[1].pc == WlToken && s.word.tid == 2
    ensures HoldToken(s.log) != Some(s.tkn) && s.tkn == 0
  {
    hide Leads, DeathFree, Access, Start, HoldToken;
    StartRests();
    StartToken();
    actions, s := SeesUnnumbered(Start({1, 2}));
    WaitLockedToken({1, 2}, actions, s);
  }

  // ----- Sleeping on a later hold -----------------------------------------------------------

  /** Thread `t` is asleep in every state of the run. */
  ghost predicate SleepsThrough(s: State, actions: seq<Action>, t: nat)
    decreases |actions|
  {
    Sleeps(s, t) && (actions != [] ==> Enabled(s, actions[0]) && SleepsThrough(Next(s, actions[0]), actions[1..], t))
  }

  /** While a thread stays asleep the token stays, or a broadcast is pending: the one that announces the
      hold with the new token would wake it. */
  ghost predicate TokenKept(s: State, tkn: nat) {
    (forall u :: u in s.threads ==> s.threads[u].alive) && (s.tkn == tkn || BroadcastPending(s))
  }

  lemma AccessTokens(word: Word, tkn: nat, t: nat, th: Thread)
    requires !PartOf(th.pc).Still?
    ensures Access(word, tkn, t, th).tkn != tkn ==> Broadcasting(Access(word, tkn, t, th).th.pc)
  {
    hide TryAccess, UnlockAccess, WaitAccess;
    match PartOf(th.pc)
    case Trying => TryTokens(word, tkn, t, th);
    case Unlocking => UnlockTokens(word, tkn, t, th);
    case Waits => WaitTokens(word, tkn, th);
    case _ =>
  }

  lemma TryTokens(word: Word, tkn: nat, t: nat, th: Thread)
    ensures TryAccess(word, tkn, t, th).tkn == tkn
  {
  }

  lemma UnlockTokens(word: Word, tkn: nat, t: nat, th: Thread)
    ensures UnlockAccess(word, tkn, t, th).tkn == tkn
  {
  }

  lemma WaitTokens(word: Word, tkn: nat, th: Thread)
    ensures WaitAccess(word, tkn, th).tkn == tkn
  {
  }

  lemma StepKeepsToken(s: State, a: Action, t: nat, tkn: nat)
    requires TokenKept(s, tkn) && Enabled(s, a) && !a.Die? && Sleeps(s, t) && Sleeps(Next(s, a), t)
    ensures TokenKept(Next(s, a), tkn)
  {
    hide Access;
    var s' := Next(s, a);
    if a.Run? {
      AccessAnnounces(s.word, s.tkn, a.t, s.threads[a.t]);
      AccessTokens(s.word, s.tkn, a.t, s.threads[a.t]);
      var e := Access(s.word, s.tkn, a.t, s.threads[a.t]);
      assert s'.threads[a.t] == e.th && !e.wakes;
      if Broadcasting(e.th.pc) {
        assert BroadcastPending(s');
      }
    }
    if BroadcastPending(s) && !(a.Run? && Broadcasting(s'.threads[a.t].pc)) {
      var u :| u in s.threads && Broadcasting(s.threads[u].pc);
      assert u in s'.threads && Broadcasting(s'.threads[u].pc);
    }
  }

  lemma {:induction false} TokenSinceAsleep(s: State, actions: seq<Action>, s': State, t: nat, tkn: nat)
    requires TokenKept(s, tkn) && Leads(s, actions, s') && DeathFree(actions) && SleepsThrough(s, actions, t)
    ensures TokenKept(s', tkn)
    decreases |actions|
  {
    if actions != [] {
      StepKeepsToken(s, actions[0], t, tkn);
      TokenSinceAsleep(Next(s, actions[0]), actions[1..], s', t, tkn);
    }
  }

  lemma {:induction false} LeadsJoin(s: State, a1: seq<Action>, mid: State, a2: seq<Action>, s': State)
    requires Leads(s, a1, mid) && Leads(mid, a2, s')
    ensures Leads(s, a1 + a2, s')
    decreases |a1|
  {
    if a1 == [] {
      assert a1 + a2 == a2;
    } else {
      LeadsJoin(Next(s, a1[0]), a1[1..], mid, a2, s');
      assert (a1 + a2)[1..] == a1[1..] + a2;
    }
  }

  /** A thread that fell asleep in wait_unlocked(k), with every broadcast made since, sleeps on the hold of
      token k exactly when k was still the last token issued when it fell asleep. It had been when it
      looked, but a mutex freed and taken again by the same owner in between shows it the same word. */
  lemma UnlockSleepersMeanHold(tids: set<nat>, a1: seq<Action>, s1: State, t: nat, a2: seq<Action>, s: State)
    requires Leads(Start(tids), a1, s1) && DeathFree(a1)
    requires Enabled(s1, Run(t)) && s1.threads[t].pc.Wait? && s1.threads[t].pc.why.InWaitUnlocked?
    requires SleepsThrough(RunStep(s1, t), a2, t) && Leads(RunStep(s1, t), a2, s) && DeathFree(a2)
    requires !BroadcastPending(s) && Sleeps(s, t)
    ensures HoldToken(s.log) == Some(s1.threads[t].pc.why.k) <==> s1.tkn == s1.threads[t].pc.why.k
  {
    hide Leads, SleepsThrough, Access, RunStep, HoldToken, StatusOf;
    var s2 := RunStep(s1, t);
    LeadsOn(Start(tids), a1, s1, Run(t));
    LeadsJoin(Start(tids), a1 + [Run(t)], s2, a2, s);
    var run := a1 + [Run(t)] + a2;
    StillAsleep(s2, a2, t);
    FallsAsleep(s1, t);
    NobodyForgottenAlongRuns(Start(tids), a1, s1);
    TokenSinceAsleep(s2, a2, s, t, s1.tkn);
    SameSleeper(s2, a2, s, t);
    NoLostWakeup(tids, run, s, t);
    WaitLockedToken(tids, run, s);
    assert !Broadcasting(s.threads[s.word.tid].pc);
  }

  lemma StillAsleep(s: State, actions: seq<Action>, t: nat)
    requires SleepsThrough(s, actions, t)
    ensures Sleeps(s, t)
  {
  }

  /** Falling asleep changes neither the word nor the token. */
  lemma FallsAsleep(s: State, t: nat)
    requires Enabled(s, Run(t)) && s.threads[t].pc.Wait? && RunStep(s, t).threads[t].pc.Asleep?
    ensures var s' := RunStep(s, t);
            && s'.tkn == s.tkn && s'.threads[t].alive && s'.threads[t].pc.why == s.threads[t].pc.why
            && s'.threads.Keys == s.threads.Keys
            && forall u :: u in s.threads && u != t ==> s'.threads[u] == s.threads[u]
  {
  }

  /** A thread asleep throughout sleeps for the same reason. */
  lemma {:induction false} SameSleeper(s: State, actions: seq<Action>, s': State, t: nat)
    requires Leads(s, actions, s') && DeathFree(actions) && SleepsThrough(s, actions, t)
    ensures Sleeps(s', t) && s'.threads[t] == s.threads[t].(shutdown := s'.threads[t].shutdown)
    decreases |actions|
  {
    if actions != [] {
      SameSleeperStep(s, actions[0], t);
      SameSleeper(Next(s, actions[0]), actions[1..], s', t);
    }
  }

  lemma SameSleeperStep(s: State, a: Action, t: nat)
    requires Enabled(s, a) && !a.Die? && Sleeps(s, t) && Sleeps(Next(s, a), t)
    ensures Next(s, a).threads[t] == s.threads[t].(shutdown := Next(s, a).threads[t].shutdown)
  {
    hide Access;
    if a.Run? {
      assert a.t != t;
    } else if !a.Broadcast? && a.t == t {
      assert a.Shutdown?;
    }
  }

  /** Thread 2 holds the mutex with token 1. */
  lemma HoldsOnce(start: State) returns (actions: seq<Action>, s: State)
    requires Pair(start, 1, 2) && Pair(start, 2, 1) && start.word == Word(0, false, false) && start.tkn == 0
    requires start.threads[1] == start.threads[2] == Resting(false)
    ensures Leads(start, actions, s) && DeathFree(actions)
    ensures Pair(s, 2, 1) && s.word == Word(2, false, false) && s.tkn == 1
    ensures s.threads[1] == Resting(false) && s.threads[2] == Resting(true)
  {
    hide Leads, RunStep, Access;
    LeadsNowhere(start);
    actions, s := TakesAlone(start, [], start, 2, 1);
    actions, s := TokenAlone(start, actions, s, 2, 1);
    actions, s := ReturnsAlone(start, actions, s, 2, 1);
  }

  lemma CallsWaitUnlocked(start: State, actions: seq<Action>, mid: State) returns (actions': seq<Action>, s: State)
    requires Leads(start, actions, mid) && DeathFree(actions)
    requires Pair(mid, 1, 2) && mid.threads[1] == Resting(false)
    ensures Leads(start, actions', s) && DeathFree(actions')
    ensures Pair(s, 1, 2) && s.word == mid.word && s.tkn == mid.tkn && s.threads[2] == mid.threads[2]
    ensures s.threads[1] == Resting(false).At(WuLoad(1))
  {
    hide Leads, DeathFree;
    actions', s := Calls(start, actions, mid, CallWaitUnlocked(1, 1), 2);
  }

  /** Thread 1 calls wait_unlocked(1), and is stopped before it marks the word. */
  lemma TestsToken(start: State, actions: seq<Action>, mid: State) returns (actions': seq<Action>, s: State)
    requires Leads(start, actions, mid) && DeathFree(actions)
    requires Pair(mid, 1, 2) && mid.word == Word(2, false, false) && mid.tkn == 1
    requires mid.threads[1] == Resting(false)
    ensures Leads(start, actions', s) && DeathFree(actions')
    ensures Pair(s, 1, 2) && s.word == mid.word && s.tkn == 1 && s.threads[2] == mid.threads[2]
    ensures s.threads[1] == Resting(false).At(WaitMark(InWaitUnlocked(1), mid.word))
  {
    hide Leads, DeathFree, RunStep, TryAccess, AcquireAccess, UnlockAccess;
    actions', s := CallsWaitUnlocked(start, actions, mid);
    actions', s := Runs(start, actions', s, 1, 2);
    assert s.threads[1].pc == WuTkn(1, mid.word);
    actions', s := Runs(start, actions', s, 1, 2);
    assert s.threads[1].pc == WaitShutdown(InWaitUnlocked(1), mid.word);
    actions', s := Runs(start, actions', s, 1, 2);
  }

  /** Thread 2 lets go of the mutex and takes it again: the same word, with the next token. */
  lemma HoldsAgain(start: State, actions: seq<Action>, mid: State) returns (actions': seq<Action>, s: State)
    requires Leads(start, actions, mid) && DeathFree(actions)
    requires Pair(mid, 2, 1) && mid.word == Word(2, false, false) && mid.threads[2] == Resting(true)
    ensures Leads(start, actions', s) && DeathFree(actions')
    ensures Pair(s, 2, 1) && s.word == mid.word && s.tkn == mid.tkn + 1
    ensures s.threads[1] == mid.threads[1] && s.threads[2] == Resting(true)
  {
    hide Leads, DeathFree, RunStep, Access;
    actions', s := FreesAlone(start, actions, mid, 2, 1);
    actions', s := LeavesAlone(start, actions', s, 2, 1);
    actions', s := TakesAlone(start, actions', s, 2, 1);
    actions', s := TokenAlone(start, actions', s, 2, 1);
    actions', s := ReturnsAlone(start, actions', s, 2, 1);
  }

  /** A waiter whose look at the word still matches marks it and falls asleep. */
  lemma WaitsAndSleeps(start: State, actions: seq<Action>, mid: State, why: Waiting)
    returns (actions': seq<Action>, s: State)
    requires Leads(start, actions, mid) && DeathFree(actions)
    requires Pair(mid, 1, 2) && mid.threads[1] == Resting(false).At(WaitMark(why, mid.word))
    ensures Leads(start, actions', s) && DeathFree(actions')
    ensures Pair(s, 1, 2) && s.threads[2] == mid.threads[2] && s.word == Marked(mid.word) && s.tkn == mid.tkn
    ensures s.threads[1].pc == Asleep(why, s.word)
  {
    hide Leads, DeathFree, RunStep, TryAccess, AcquireAccess, UnlockAccess;
    actions', s := Runs(start, actions, mid, 1, 2);
    assert s.threads[1].pc == Wait(why, s.word);
    actions', s := Runs(start, actions', s, 1, 2);
  }

  /** The run itself: thread 1 looks at token 1 and at the word, thread 2 unlocks and locks again, and
      the word looks the same: thread 1 sleeps in wait_unlocked(1) although that hold has ended, and
      nothing is left to wake it before the next unlock. */
  lemma UnlockSleepsOnLaterHold() returns (actions: seq<Action>, s: State)
    ensures Leads(Start({1, 2}), actions, s) && DeathFree(actions)
    ensures Sleeps(s, 1) && s.threads[1].pc.why == InWaitUnlocked(1) && !BroadcastPending(s)
    ensures s.tkn == 2 && s.word.tid == 2 && HoldToken(s.log) != Some(1)
  {
    hide Leads, RunStep, DeathFree, Access, Start, Enabled, HoldToken, BroadcastPending, Broadcasting, WellFormed;
    var start := Start({1, 2});
    StartRests();
    StartToken();
    actions, s := HoldsOnce(start);
    actions, s := TestsToken(start, actions, s);
    actions, s := HoldsAgain(start, actions, s);
    actions, s := WaitsAndSleeps(start, actions, s, InWaitUnlocked(1));
    SleepsUnannounced(s, true);
    RunsAreWellFormed({1, 2}, actions, s);
    TokenIsLast(s.log, 1);
  }

  lemma StartToken()
    ensures Start({1, 2}).tkn == 0
  {
  }

  lemma TokenIsLast(log: seq<Event>, k: nat)
    requires LastToken(log) != k
    ensures HoldToken(log) != Some(k)
  {
  }
}

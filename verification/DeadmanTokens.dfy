/** What the token of wait_locked is worth to wait_unlocked. */
module DeadmanTokens {
  import opened DeadmanMtx
  import opened DeadmanSafety
  import opened DeadmanWakeups
  import opened Errors

  /** The hold in force after `log` ends in the rest of `log'`. */
  ghost predicate HoldEnded(log: seq<Event>, log': seq<Event>)
    requires StatusOf(log).Held?
  {
    exists n :: |log| <= n < |log'| && Ends(log'[n], StatusOf(log).t)
  }

  /** Thread `t` is about to read the token in wait_locked. */
  predicate ReadsToken(s: State, t: nat) {
    Enabled(s, Run(t)) && s.threads[t].pc == WlToken
  }

  /** However the run goes on, wait_unlocked with the token that `t` reads returns OK only after the
      hold in force at that read has ended. */
  ghost predicate TokenTells(s: State, t: nat)
    requires StatusOf(s.log).Held?
  {
    forall actions, s' :: Leads(s, actions, s') && ReturnsUnlocked(s', t, s.tkn) ==> HoldEnded(s.log, s'.log)
  }

  /** Histories only grow. */
  lemma {:induction false} LogGrows(s: State, actions: seq<Action>, s': State)
    requires Leads(s, actions, s')
    ensures s.log <= s'.log
    decreases |actions|
  {
    hide Access, Entered;
    if actions != [] {
      LogGrows(Next(s, actions[0]), actions[1..], s');
    }
  }

  /** The token of the hold in force tells when that hold ends. */
  lemma HoldTokenTells(s: State, actions: seq<Action>, s': State, t: nat)
    requires Inv(s) && HoldToken(s.log) == Some(s.tkn)
    requires Leads(s, actions, s') && ReturnsUnlocked(s', t, s.tkn)
    ensures HoldEnded(s.log, s'.log)
  {
    hide WellFormed, StatusOf, LastToken, ThreadOk, Access, Leads;
    LogGrows(s, actions, s');
    InvAlongRuns(s, actions, s');
    ReturnsOnNews(s', t, s.tkn);
    assert s'.log[..|s.log|] == s.log && s'.log[..|s'.log|] == s'.log;
    HoldEnds(s'.log, |s.log|, |s'.log|);
  }

  /** An access of thread `t` that wakes nobody, in any company. */
  lemma RunsAmong(s: State, actions: seq<Action>, mid: State, t: nat, u: nat)
    returns (actions': seq<Action>, s': State)
    requires Leads(s, actions, mid) && DeathFree(actions) && Enabled(mid, Run(t))
    requires u in mid.threads && u != t && !Access(mid.word, mid.tkn, t, mid.threads[t]).wakes
    ensures Leads(s, actions', s') && DeathFree(actions')
    ensures t in s'.threads && u in s'.threads && s'.threads[u] == mid.threads[u]
    ensures var e := Access(mid.word, mid.tkn, t, mid.threads[t]);
            s'.threads[t] == e.th && s'.word == e.word && s'.tkn == e.tkn
            && s'.log == mid.log + if e.event.Some? then [e.event.value] else []
  {
    hide Access;
    actions', s' := Extend(s, actions, mid, Run(t));
  }

  /** A hold before its token is stored. */
  predicate Unnumbered(pc: Pc) {
    pc.SetOwner? || pc.TknLoad? || pc.TknStore?
  }

  /** Its owner goes on to store it. */
  lemma {:induction false} StoresToken(s: State, actions: seq<Action>, mid: State, o: nat, t: nat)
    returns (actions': seq<Action>, s': State)
    requires Leads(s, actions, mid) && DeathFree(actions)
    requires Enabled(mid, Run(o)) && Unnumbered(mid.threads[o].pc) && t in mid.threads && t != o
    requires mid.threads[o].pc.TknStore? ==> mid.threads[o].pc.v == mid.tkn
    ensures Leads(s, actions', s') && DeathFree(actions')
    ensures t in s'.threads && s'.threads[t] == mid.threads[t] && o in s'.threads
    ensures s'.word == mid.word && s'.tkn == mid.tkn + 1
    ensures s'.log == mid.log + [Token(o, mid.tkn + 1)]
    decreases mid.threads[o].pc.SetOwner?, mid.threads[o].pc.TknLoad?
  {
    hide Leads, DeathFree, TryAccess, UnlockAccess, WaitAccess;
    actions', s' := RunsAmong(s, actions, mid, o, t);
    if !mid.threads[o].pc.TknStore? {
      actions', s' := StoresToken(s, actions', s', o, t);
    }
  }

  lemma OwnerUnnumbered(s: State)
    requires Inv(s) && StatusOf(s.log).Held? && HoldToken(s.log) != Some(s.tkn)
    ensures var o := s.word.tid;
            && Enabled(s, Run(o)) && Unnumbered(s.threads[o].pc)
            && (s.threads[o].pc.TknStore? ==> s.threads[o].pc.v == s.tkn)
            && o != 0 && !s.word.died
  {
    hide WellFormed, StatusOf, LastToken;
    assert ThreadOk(s.word, s.tkn, StatusOf(s.log), s.word.tid, s.threads[s.word.tid]);
  }

  /** A token read before the hold in force has one: wait_unlocked calls that hold ended as soon as it
      gets its own. */
  lemma ReturnsEarly(s: State, t: nat) returns (actions: seq<Action>, s': State)
    requires Inv(s) && ReadsToken(s, t) && StatusOf(s.log).Held? && HoldToken(s.log) != Some(s.tkn)
    ensures Leads(s, actions, s') && DeathFree(actions)
    ensures ReturnsUnlocked(s', t, s.tkn) && s'.word == s.word
    ensures s'.log == s.log + [Token(s.word.tid, s.tkn + 1)]
  {
    hide Leads, DeathFree, TryAccess, AcquireAccess, UnlockAccess, Inv, StatusOf, HoldToken;
    var o := s.word.tid;
    OwnerUnnumbered(s);
    actions, s' := CallsAgain(s, t, o);
    actions, s' := StoresToken(s, actions, s', o, t);
    actions, s' := RunsAmong(s, actions, s', t, o);
  }

  /** Thread `t` reads the token, returns, and calls wait_unlocked with it. */
  lemma CallsAgain(s: State, t: nat, u: nat) returns (actions: seq<Action>, s': State)
    requires ReadsToken(s, t) && u in s.threads && u != t
    ensures Leads(s, actions, s') && DeathFree(actions)
    ensures s'.threads.Keys == s.threads.Keys && s'.threads[u] == s.threads[u]
    ensures s'.threads[t] == s.threads[t].At(WuLoad(s.tkn))
    ensures s'.word == s.word && s'.tkn == s.tkn && s'.log == s.log
  {
    hide Leads, DeathFree, TryAccess, AcquireAccess, UnlockAccess;
    LeadsNowhere(s);
    actions, s' := Extend(s, [], s, Run(t));
    actions, s' := Extend(s, actions, s', CallWaitUnlocked(t, s.tkn));
  }

  /** What the pair of calls is for: the token that wait_locked reads while the mutex is held makes
      wait_unlocked wait for the end of that very hold, however the threads go on, if and only if it
      is the token of that hold. The one way to miss is a read between the owner's exchange and its
      increment. */
  lemma TokenTellsExactly(tids: set<nat>, actions: seq<Action>, s: State, t: nat)
    requires Leads(Start(tids), actions, s) && ReadsToken(s, t) && StatusOf(s.log).Held?
    ensures TokenTells(s, t) <==> HoldToken(s.log) == Some(s.tkn)
    ensures TokenTells(s, t) <==> s.word.tid in s.threads && !Unnumbered(s.threads[s.word.tid].pc)
  {
    hide Leads, ReturnsUnlocked, HoldToken;
    StartInv(tids);
    InvAlongRuns(Start(tids), actions, s);
    WaitLockedToken(tids, actions, s);
    if HoldToken(s.log) == Some(s.tkn) {
      forall more, s' | Leads(s, more, s') && ReturnsUnlocked(s', t, s.tkn)
        ensures HoldEnded(s.log, s'.log)
      {
        HoldTokenTells(s, more, s', t);
      }
    } else {
      var more, s' := ReturnsEarly(s, t);
      assert !HoldEnded(s.log, s'.log);
    }
  }

  /** Such a run: thread 1 waits until the mutex is locked and then until it is unlocked, and both calls
      return while thread 2, which it saw, holds the mutex. */
  lemma BothReturnDuringOneHold() returns (a1: seq<Action>, s1: State, a2: seq<Action>, s2: State)
    ensures Leads(Start({1, 2}), a1, s1) && DeathFree(a1)
    ensures ReadsToken(s1, 1) && s1.tkn == 0 && s1.word.tid == 2
    ensures Leads(s1, a2, s2) && DeathFree(a2)
    ensures ReturnsUnlocked(s2, 1, 0) && s2.word == s1.word && s2.log == s1.log + [Token(2, 1)]
  {
    hide Leads, DeathFree, ReturnsUnlocked, HoldToken, Start;
    a1, s1 := WaitLockedReadsNoToken();
    StartInv({1, 2});
    InvAlongRuns(Start({1, 2}), a1, s1);
    a2, s2 := ReturnsEarly(s1, 1);
  }
}

/** What every interleaving of deadman-mutex threads keeps, thread deaths included. */
module DeadmanSafety {
  import opened DeadmanMtx
  import opened Errors

  // ----- What a history means --------------------------------------------------------

  /** Who holds the mutex after a history: `issued` once the hold has its token. */
  datatype Status = Free(died: bool) | Held(t: nat, afterDeath: bool, issued: bool)

  function After(st: Status, e: Event): Status {
    match e
    case Took(t, d) => Held(t, d, false)
    case Token(t, k) => if st.Held? then st.(issued := true) else st
    case Returned(t, d) => st
    case Released(t) => Free(false)
    case Died(t) => Free(true)
  }

  function StatusOf(log: seq<Event>): Status {
    if log == [] then Free(false) else After(StatusOf(log[..|log| - 1]), log[|log| - 1])
  }

  function LastToken(log: seq<Event>): nat {
    if log == [] then 0
    else if log[|log| - 1].Token? then log[|log| - 1].k
    else LastToken(log[..|log| - 1])
  }

  /** The events a history may continue with. */
  predicate Legal(st: Status, last: nat, e: Event) {
    match e
    case Took(t, d) => st == Free(d)
    case Token(t, k) => st.Held? && st.t == t && !st.issued && last < k
    case Returned(t, d) => st == Held(t, d, true)
    case Released(t) => st.Held? && st.t == t
    case Died(t) => st.Held? && st.t == t
  }

  predicate WellFormed(log: seq<Event>) {
    log == [] ||
    (var front := log[..|log| - 1];
     WellFormed(front) && Legal(StatusOf(front), LastToken(front), log[|log| - 1]))
  }

  lemma Appended(log: seq<Event>, e: Event)
    ensures StatusOf(log + [e]) == After(StatusOf(log), e)
    ensures LastToken(log + [e]) == if e.Token? then e.k else LastToken(log)
    ensures WellFormed(log + [e]) <==> WellFormed(log) && Legal(StatusOf(log), LastToken(log), e)
  {
  }

  /** `e` ends the hold of thread `t`. */
  predicate Ends(e: Event, t: nat) {
    e == Released(t) || e == Died(t)
  }

  /** The status after the first `n` events. */
  function StatusAt(log: seq<Event>, n: nat): Status
    requires n <= |log|
  {
    StatusOf(log[..n])
  }

  lemma {:induction false} LegalAt(log: seq<Event>, n: nat)
    requires WellFormed(log) && n < |log|
    ensures Legal(StatusAt(log, n), LastToken(log[..n]), log[n])
    ensures StatusAt(log, n + 1) == After(StatusAt(log, n), log[n])
    ensures LastToken(log[..n + 1]) == if log[n].Token? then log[n].k else LastToken(log[..n])
    ensures WellFormed(log[..n])
  {
    assert log[..n + 1] == log[..n] + [log[n]];
    Appended(log[..n], log[n]);
    var front := log[..|log| - 1];
    if n < |log| - 1 {
      LegalAt(front, n);
      assert front[..n] == log[..n];
    } else {
      assert front == log[..n];
    }
  }

  /** A hold in force after `i` events and not in force, or in force for a later `Took`, after
      `j` has been ended in between. */
  lemma {:induction false} HoldEnds(log: seq<Event>, i: nat, j: nat)
    requires WellFormed(log) && i <= j <= |log|
    requires StatusAt(log, i).Held?
    ensures (exists n :: i <= n < j && Ends(log[n], StatusAt(log, i).t))
         || (StatusAt(log, j).Held? && StatusAt(log, j).t == StatusAt(log, i).t
             && StatusAt(log, j).afterDeath == StatusAt(log, i).afterDeath
             && (StatusAt(log, i).issued ==>
                   StatusAt(log, j).issued && LastToken(log[..j]) == LastToken(log[..i])))
    decreases j - i
  {
    if i < j {
      HoldEnds(log, i, j - 1);
      LegalAt(log, j - 1);
    }
  }

  /** Two lock calls never return success without the first hold ending in between. */
  lemma {:induction false} MutualExclusion(log: seq<Event>, i: nat, j: nat)
    requires WellFormed(log) && i < j < |log|
    requires log[i].Returned? && log[j].Took?
    ensures exists n :: i < n < j && Ends(log[n], log[i].t)
  {
    LegalAt(log, i);
    HoldEnds(log, i + 1, j);
    LegalAt(log, j);
  }

  /** The first acquisition after an owner's death reports it. */
  lemma {:induction false} NextTakeReportsDeath(log: seq<Event>, i: nat, j: nat)
    requires WellFormed(log) && i < j < |log|
    requires log[i].Died? && log[j].Took?
    requires forall n :: i < n < j ==> !log[n].Took?
    ensures log[j].afterDeath
  {
    LegalAt(log, i);
    LegalAt(log, i + 1);
  }

  /** An acquisition that reports a death follows one, with nothing acquired in between: so no
      death is reported twice. */
  lemma {:induction false} ReportHasDeath(log: seq<Event>, j: nat)
    requires WellFormed(log) && j < |log|
    requires log[j].Took? && log[j].afterDeath
    ensures exists i :: 0 <= i < j && log[i].Died? && forall n :: i < n < j ==> !log[n].Took?
  {
    LegalAt(log, j);
    assert log[..0] == [];
    LegalAt(log, j - 1);
    assert log[j - 1].Died?;
  }

  /** A lock call returns EOWNERDEAD exactly when the acquisition it completes followed a death. */
  lemma {:induction false} ReturnMatchesTake(log: seq<Event>, i: nat, j: nat)
    requires WellFormed(log) && i < j < |log|
    requires log[i].Took? && log[j].Returned? && log[i].t == log[j].t
    requires forall n :: i < n < j ==> !Ends(log[n], log[i].t)
    ensures log[i].afterDeath == log[j].afterDeath
  {
    LegalAt(log, i);
    HoldEnds(log, i + 1, j);
    LegalAt(log, j);
  }

  /** Tokens only grow. */
  lemma {:induction false} TokensGrow(log: seq<Event>, i: nat, j: nat)
    requires WellFormed(log) && i < j < |log|
    requires log[i].Token? && log[j].Token?
    ensures log[i].k < log[j].k
  {
    LegalAt(log, i);
    var n := i + 1;
    while n < j
      invariant i < n <= j
      invariant log[i].k <= LastToken(log[..n])
    {
      LegalAt(log, n);
      n := n + 1;
    }
    LegalAt(log, j);
  }

  // ----- The invariant ----------------------------------------------------------------

  /** The parts of the lock and unlock calls. `Outside` also covers waiting for a lock or unlock
      of somebody else. */
  datatype Place = Outside | Seeking | Won | Gaining | Gained | Dropping | Dropped | Cleared | Left

  function Waiter(why: Waiting): Place {
    if why.InLock? then Seeking else Outside
  }

  function PlaceOf(pc: Pc): Place {
    match pc
    case Idle => Outside
    case WlLoad => Outside
    case WlToken => Outside
    case WuLoad(_) => Outside
    case WuTkn(_, _) => Outside
    case WaitShutdown(why, _) => Outside
    case WaitMark(why, _) => Outside
    case Wait(why, _) => Waiter(why)
    case Asleep(why, _) => Waiter(why)
    case SetOwner(_) => Won
    case TknLoad(_) => Gaining
    case TknStore(_, _) => Gaining
    case LockWake(_) => Gaining
    case OpAdd(_) => Gaining
    case OpEnd(res) => if res.Acquired? then Gained else Seeking
    case UnDel => Gained
    case UnAnd => Dropping
    case UnEnd => Dropped
    case UnOwner => Cleared
    case UnWake => Left
    case _ => Seeking
  }

  /** Whether the mutex word carries the thread's id. */
  predicate Owns(th: Thread) {
    match PlaceOf(th.pc)
    case Outside => th.isOwner
    case Seeking => false
    case Dropped => false
    case Cleared => false
    case Left => false
    case _ => true
  }

  /** The deadman object's owner flag, the robust list and its pending field, by place in the
      code. */
  predicate Placed(th: Thread) {
    match PlaceOf(th.pc)
    case Outside => th.listed == th.isOwner && !th.pending
    case Seeking => !th.isOwner && !th.listed && th.pending
    case Won => !th.isOwner && !th.listed && th.pending
    case Gained => th.isOwner && th.listed && th.pending
    case Cleared => th.isOwner && !th.listed && !th.pending
    case Left => !th.isOwner && !th.listed && !th.pending
    case _ => th.isOwner && !th.listed && th.pending
  }

  /** What a lock call in progress will report. */
  predicate Reports(pc: Pc, st: Status)
    requires st.Held?
  {
    match pc
    case SetOwner(d) => d == st.afterDeath
    case TknLoad(d) => d == st.afterDeath
    case TknStore(d, _) => d == st.afterDeath
    case LockWake(d) => d == st.afterDeath
    case OpAdd(d) => d == st.afterDeath
    case OpEnd(Acquired(d)) => d == st.afterDeath
    case _ => true
  }

  /** What a waiter has seen of the word: a free one in wait_locked, a held one in wait_unlocked. */
  predicate Saw(why: Waiting, was: Word) {
    (why.InWaitLocked? ==> was.tid == 0) && (why.InWaitUnlocked? ==> was.tid != 0)
  }

  predicate Faces(pc: Pc) {
    && (pc.WuTkn? ==> pc.was.tid != 0)
    && (pc.WaitShutdown? || pc.WaitMark? ==> Saw(pc.why, pc.was))
    && (pc.Wait? || pc.Asleep? ==> Saw(pc.why, pc.val))
  }

  predicate ThreadOk(word: Word, tkn: nat, st: Status, t: nat, th: Thread) {
    && Placed(th)
    && (word.tid == t <==> Owns(th))
    && (Owns(th) ==>
          st.Held? && st.t == t && Reports(th.pc, st)
          && (st.issued <==> !(th.pc.SetOwner? || th.pc.TknLoad? || th.pc.TknStore?)))
    && (th.pc.TknStore? ==> th.pc.v == tkn)
    && (th.pc.ImplCas? ==> th.pc.was.tid == 0)
    && ((th.pc.WaitShutdown? || th.pc.WaitMark?) ==> !th.pc.why.InLock?)
    && Faces(th.pc)
  }

  predicate WordOk(s: State, st: Status) {
    if s.word.tid == 0 then st == Free(s.word.died)
    else !s.word.died && st.Held? && st.t == s.word.tid
         && s.word.tid in s.threads && s.threads[s.word.tid].alive
  }

  ghost predicate Inv(s: State) {
    && 0 !in s.threads
    && WellFormed(s.log)
    && s.tkn == LastToken(s.log)
    && WordOk(s, StatusOf(s.log))
    && forall t :: t in s.threads && s.threads[t].alive ==>
         ThreadOk(s.word, s.tkn, StatusOf(s.log), t, s.threads[t])
  }

  lemma StartInv(tids: set<nat>)
    ensures Inv(Start(tids))
  {
  }

  /** The threads other than `t` may only have been woken. */
  ghost predicate OthersKept(s: State, s': State, t: nat) {
    && s'.threads.Keys == s.threads.Keys
    && forall u :: u in s.threads && u != t ==>
         s'.threads[u] == s.threads[u] || s'.threads[u] == Woken(s.threads[u])
  }

  lemma WokenLives(th: Thread)
    ensures Woken(th).alive == th.alive
  {
  }

  /** A thread that is at most woken keeps its part of the invariant while the word stays its owner's, or
      passes between others and nobody. */
  lemma OtherStaysOk(word: Word, tkn: nat, st: Status, word': Word, tkn': nat, st': Status, u: nat, th: Thread)
    requires ThreadOk(word, tkn, st, u, th)
    requires (word.tid == u <==> word'.tid == u)
    requires word.tid == u ==> tkn' == tkn && st' == st
    ensures ThreadOk(word', tkn', st', u, th) && ThreadOk(word', tkn', st', u, Woken(th))
  {
  }

  /** A step of thread `t` reaches the word and the token only as their owner, or as the first to
      take a free word; then nobody else's part of the invariant notices. */
  lemma OthersStayOk(s: State, s': State, t: nat)
    requires Inv(s) && OthersKept(s, s', t)
    requires s'.word.tid == s.word.tid || (s'.word.tid in {0, t} && s.word.tid in {0, t})
    requires s.word.tid !in {0, t} ==> s'.tkn == s.tkn && s'.log == s.log
    ensures forall u :: u in s'.threads && u != t && s'.threads[u].alive ==>
              ThreadOk(s'.word, s'.tkn, StatusOf(s'.log), u, s'.threads[u])
  {
    hide WellFormed, StatusOf, LastToken, ThreadOk, Woken;
    forall u | u in s'.threads && u != t && s'.threads[u].alive
      ensures ThreadOk(s'.word, s'.tkn, StatusOf(s'.log), u, s'.threads[u])
    {
      assert Woken(s.threads[u]).alive == s.threads[u].alive by { WokenLives(s.threads[u]); }
      OtherStaysOk(s.word, s.tkn, StatusOf(s.log), s'.word, s'.tkn, StatusOf(s'.log), u, s.threads[u]);
    }
  }

  /** The part of the invariant an access of thread `t` depends on. */
  ghost predicate ReadyFor(word: Word, tkn: nat, log: seq<Event>, t: nat, th: Thread) {
    && t != 0 && th.alive
    && WellFormed(log) && tkn == LastToken(log)
    && (word.tid == 0 ==> StatusOf(log) == Free(word.died))
    && (word.tid != 0 ==> !word.died)
    && ThreadOk(word, tkn, StatusOf(log), t, th)
  }

  /** Trying to take the word keeps the invariant, */
  lemma QuietTryOk(word: Word, tkn: nat, log: seq<Event>, t: nat, th: Thread)
    requires ReadyFor(word, tkn, log, t, th)
    requires Access(word, tkn, t, th).event.None?
    requires PartOf(th.pc).Trying?
    ensures var e := Access(word, tkn, t, th);
            ReadyFor(e.word, e.tkn, log, t, e.th) && e.word.tid == word.tid && e.tkn == tkn
  {
    hide WellFormed, StatusOf, LastToken, AcquireAccess, UnlockAccess, WaitAccess;
  }

  /** so do the owner's steps to the end of the lock call, */
  lemma QuietAcquireOk(word: Word, tkn: nat, log: seq<Event>, t: nat, th: Thread)
    requires ReadyFor(word, tkn, log, t, th)
    requires Access(word, tkn, t, th).event.None?
    requires PartOf(th.pc).Acquiring?
    ensures var e := Access(word, tkn, t, th);
            ReadyFor(e.word, e.tkn, log, t, e.th) && e.word.tid == word.tid && e.tkn == tkn
  {
    hide WellFormed, StatusOf, LastToken, TryAccess, UnlockAccess, WaitAccess;
  }

  /** of the unlock call, */
  lemma QuietUnlockOk(word: Word, tkn: nat, log: seq<Event>, t: nat, th: Thread)
    requires ReadyFor(word, tkn, log, t, th)
    requires Access(word, tkn, t, th).event.None?
    requires PartOf(th.pc).Unlocking?
    ensures var e := Access(word, tkn, t, th);
            ReadyFor(e.word, e.tkn, log, t, e.th) && e.word.tid == word.tid && e.tkn == tkn
  {
    hide WellFormed, StatusOf, LastToken, TryAccess, AcquireAccess, WaitAccess;
  }

  /** and waiting. */
  lemma QuietWaitOk(word: Word, tkn: nat, log: seq<Event>, t: nat, th: Thread)
    requires ReadyFor(word, tkn, log, t, th)
    requires Access(word, tkn, t, th).event.None?
    requires PartOf(th.pc).Waits?
    ensures var e := Access(word, tkn, t, th);
            ReadyFor(e.word, e.tkn, log, t, e.th) && e.word.tid == word.tid && e.tkn == tkn
  {
    hide WaitAccess, ReadyFor;
    if th.pc.WaitShutdown? || th.pc.WaitMark? || th.pc.Wait? {
      QuietMarkOk(word, tkn, log, t, th);
    } else {
      QuietLookOk(word, tkn, log, t, th);
    }
  }

  lemma QuietLookOk(word: Word, tkn: nat, log: seq<Event>, t: nat, th: Thread)
    requires ReadyFor(word, tkn, log, t, th)
    requires th.pc.WlLoad? || th.pc.WlToken? || th.pc.WuLoad? || th.pc.WuTkn?
    ensures var e := WaitAccess(word, tkn, th);
            ReadyFor(e.word, e.tkn, log, t, e.th) && e.word.tid == word.tid && e.tkn == tkn
  {
    hide WellFormed, StatusOf, LastToken, Faces;
    LookFaces(word, tkn, th);
  }

  lemma QuietMarkOk(word: Word, tkn: nat, log: seq<Event>, t: nat, th: Thread)
    requires ReadyFor(word, tkn, log, t, th)
    requires th.pc.WaitShutdown? || th.pc.WaitMark? || th.pc.Wait?
    ensures var e := WaitAccess(word, tkn, th);
            ReadyFor(e.word, e.tkn, log, t, e.th) && e.word.tid == word.tid && e.tkn == tkn
  {
    hide WellFormed, StatusOf, LastToken, Faces;
    MarkFaces(word, tkn, th);
  }

  lemma LookFaces(word: Word, tkn: nat, th: Thread)
    requires th.pc.WlLoad? || th.pc.WlToken? || th.pc.WuLoad? || th.pc.WuTkn?
    requires Faces(th.pc) && (word.tid != 0 ==> !word.died)
    ensures Faces(WaitAccess(word, tkn, th).th.pc)
  {
  }

  lemma MarkFaces(word: Word, tkn: nat, th: Thread)
    requires (th.pc.WaitShutdown? || th.pc.WaitMark? || th.pc.Wait?) && Faces(th.pc)
    ensures Faces(WaitAccess(word, tkn, th).th.pc)
  {
  }

  /** An access that is no event changes neither owner, token nor history. */
  lemma QuietAccessOk(word: Word, tkn: nat, log: seq<Event>, t: nat, th: Thread)
    requires ReadyFor(word, tkn, log, t, th)
    requires Access(word, tkn, t, th).event.None?
    ensures var e := Access(word, tkn, t, th);
            ReadyFor(e.word, e.tkn, log, t, e.th) && e.word.tid == word.tid && e.tkn == tkn
  {
    hide TryAccess, AcquireAccess, UnlockAccess, WaitAccess, ThreadOk, WellFormed, StatusOf, LastToken;
    match PartOf(th.pc)
    case Trying => QuietTryOk(word, tkn, log, t, th);
    case Acquiring => QuietAcquireOk(word, tkn, log, t, th);
    case Unlocking => QuietUnlockOk(word, tkn, log, t, th);
    case Waits => QuietWaitOk(word, tkn, log, t, th);
    case Still =>
  }

  /** Events come from the owner or from the first to take a free word, and are legal. */
  lemma EventfulAccessOk(word: Word, tkn: nat, log: seq<Event>, t: nat, th: Thread)
    requires ReadyFor(word, tkn, log, t, th)
    requires Access(word, tkn, t, th).event.Some?
    ensures var e := Access(word, tkn, t, th);
            ReadyFor(e.word, e.tkn, log + [e.event.value], t, e.th)
            && word.tid in {0, t} && e.word.tid in {0, t}
  {
    hide WellFormed, StatusOf, LastToken, TryAccess, AcquireAccess, UnlockAccess, WaitAccess, ReadyFor;
    match PartOf(th.pc)
    case Trying => TakesOk(word, tkn, log, t, th);
    case Acquiring => NumbersOrReturnsOk(word, tkn, log, t, th);
    case Unlocking => ReleasesOk(word, tkn, log, t, th);
    case Waits => WaitsQuietly(word, tkn, th);
  }

  lemma TakesOk(word: Word, tkn: nat, log: seq<Event>, t: nat, th: Thread)
    requires ReadyFor(word, tkn, log, t, th) && PartOf(th.pc).Trying? && TryAccess(word, tkn, t, th).event.Some?
    ensures var e := TryAccess(word, tkn, t, th);
            ReadyFor(e.word, e.tkn, log + [e.event.value], t, e.th) && word.tid in {0, t} && e.word.tid in {0, t}
  {
    hide WellFormed, StatusOf, LastToken;
    Appended(log, TryAccess(word, tkn, t, th).event.value);
  }

  lemma NumbersOrReturnsOk(word: Word, tkn: nat, log: seq<Event>, t: nat, th: Thread)
    requires ReadyFor(word, tkn, log, t, th) && PartOf(th.pc).Acquiring? && AcquireAccess(word, tkn, t, th).event.Some?
    ensures var e := AcquireAccess(word, tkn, t, th);
            ReadyFor(e.word, e.tkn, log + [e.event.value], t, e.th) && word.tid in {0, t} && e.word.tid in {0, t}
  {
    hide WellFormed, StatusOf, LastToken;
    Appended(log, AcquireAccess(word, tkn, t, th).event.value);
  }

  lemma ReleasesOk(word: Word, tkn: nat, log: seq<Event>, t: nat, th: Thread)
    requires ReadyFor(word, tkn, log, t, th) && PartOf(th.pc).Unlocking? && UnlockAccess(word, tkn, t, th).event.Some?
    ensures var e := UnlockAccess(word, tkn, t, th);
            ReadyFor(e.word, e.tkn, log + [e.event.value], t, e.th) && word.tid in {0, t} && e.word.tid in {0, t}
  {
    hide WellFormed, StatusOf, LastToken;
    Appended(log, UnlockAccess(word, tkn, t, th).event.value);
  }

  lemma WaitsQuietly(word: Word, tkn: nat, th: Thread)
    ensures WaitAccess(word, tkn, th).event == None
  {
  }

  lemma RunKeepsInv(s: State, t: nat)
    requires Inv(s) && Enabled(s, Run(t))
    ensures Inv(RunStep(s, t))
  {
    hide Access, Woken, WellFormed, StatusOf, LastToken;
    var s' := RunStep(s, t);
    var e := Access(s.word, s.tkn, t, s.threads[t]);
    if e.event.Some? {
      EventfulAccessOk(s.word, s.tkn, s.log, t, s.threads[t]);
    } else {
      QuietAccessOk(s.word, s.tkn, s.log, t, s.threads[t]);
    }
    assert OthersKept(s, s', t);
    OthersStayOk(s, s', t);
    WokenAlive(s.threads);
  }

  lemma WokenAlive(threads: map<nat, Thread>)
    ensures forall t :: t in threads ==> WakeAll(threads)[t].alive == threads[t].alive
  {
  }

  lemma CallKeepsInv(s: State, a: Action)
    requires Inv(s) && Enabled(s, a) && !a.Run? && !a.Die?
    ensures Inv(Next(s, a))
  {
    hide Woken, WellFormed, StatusOf, LastToken, ThreadOk;
    var s' := Next(s, a);
    if a.Broadcast? {
      OthersStayOk(s, s', 0);
      WokenAlive(s.threads);
    } else {
      EnteredOk(s.word, s.tkn, StatusOf(s.log), s.threads[a.t], a);
      OthersStayOk(s, s', a.t);
    }
  }

  lemma EnteredOk(word: Word, tkn: nat, st: Status, th: Thread, a: Action)
    requires !a.Run? && !a.Die? && !a.Broadcast?
    requires ThreadOk(word, tkn, st, a.t, th)
    requires a.TimeOut? ==> th.pc.Asleep?
    requires !a.TimeOut? && !a.Shutdown? ==> th.pc.Idle?
    ensures ThreadOk(word, tkn, st, a.t, Entered(th, a)) && Entered(th, a).alive == th.alive
  {
    hide ThreadOk, Entered;
    if a.TimeOut? || a.Shutdown? {
      InterruptedOk(word, tkn, st, th, a);
    } else {
      CalledOk(word, tkn, st, th, a);
    }
  }

  lemma CalledOk(word: Word, tkn: nat, st: Status, th: Thread, a: Action)
    requires !a.Run? && !a.Die? && !a.Broadcast? && !a.TimeOut? && !a.Shutdown?
    requires ThreadOk(word, tkn, st, a.t, th) && th.pc.Idle?
    ensures ThreadOk(word, tkn, st, a.t, Entered(th, a)) && Entered(th, a).alive == th.alive
  {
    hide Faces;
    EnteredFaces(th, a);
  }

  lemma InterruptedOk(word: Word, tkn: nat, st: Status, th: Thread, a: Action)
    requires a.TimeOut? || a.Shutdown?
    requires ThreadOk(word, tkn, st, a.t, th) && (a.TimeOut? ==> th.pc.Asleep?)
    ensures ThreadOk(word, tkn, st, a.t, Entered(th, a)) && Entered(th, a).alive == th.alive
  {
    hide Faces;
    EnteredFaces(th, a);
  }

  lemma EnteredFaces(th: Thread, a: Action)
    requires Faces(th.pc) && (a.TimeOut? ==> th.pc.Asleep?)
    ensures Faces(Entered(th, a).pc)
  {
  }

  /** No owner death is lost: the word of a dead owner is freed and marked, because wherever the
      owner dies the mutex is on its robust list or is its pending operation; any other death
      leaves the word alone. */
  lemma DeathIsMarked(s: State, t: nat, woken: Option<nat>)
    requires Inv(s) && Enabled(s, Die(t, woken))
    ensures s.word.tid == t ==>
              (s.threads[t].listed || s.threads[t].pending)
              && DieStep(s, t, woken).word == Word(0, s.word.waiters, true)
              && DieStep(s, t, woken).log == s.log + [Died(t)]
    ensures s.word.tid != t ==>
              DieStep(s, t, woken).word == s.word && DieStep(s, t, woken).log == s.log
  {
  }

  lemma DieKeepsInv(s: State, t: nat, woken: Option<nat>)
    requires Inv(s) && Enabled(s, Die(t, woken))
    ensures Inv(DieStep(s, t, woken))
  {
    var s' := DieStep(s, t, woken);
    DeathIsMarked(s, t, woken);
    Appended(s.log, Died(t));
    OthersStayOk(s, s', t);
  }

  lemma StepKeepsInv(s: State, a: Action)
    requires Inv(s) && Enabled(s, a)
    ensures Inv(Next(s, a))
  {
    match a
    case Run(t) => RunKeepsInv(s, t);
    case Die(t, woken) => DieKeepsInv(s, t, woken);
    case _ => CallKeepsInv(s, a);
  }

  /** The invariant holds after every run of every set of threads. */
  lemma {:induction false} InvAlongRuns(s: State, actions: seq<Action>, s': State)
    requires Inv(s) && Leads(s, actions, s')
    ensures Inv(s')
    decreases |actions|
  {
    if actions != [] {
      StepKeepsInv(s, actions[0]);
      InvAlongRuns(Next(s, actions[0]), actions[1..], s');
    }
  }

  // ----- What runs promise ---------------------------------------------------------------

  /** At most one live thread is past its acquisition and before its release. */
  lemma OneOwner(tids: set<nat>, actions: seq<Action>, s: State, t: nat, u: nat)
    requires Leads(Start(tids), actions, s)
    requires t in s.threads && s.threads[t].alive && Owns(s.threads[t])
    requires u in s.threads && s.threads[u].alive && Owns(s.threads[u])
    ensures t == u && s.word.tid == t
  {
    StartInv(tids);
    InvAlongRuns(Start(tids), actions, s);
  }

  /** After any run the word names a live thread or nobody, and only a live thread's robust list or
      pending field keeps it there. */
  lemma OwnerIsAliveAndListed(tids: set<nat>, actions: seq<Action>, s: State)
    requires Leads(Start(tids), actions, s) && s.word.tid != 0
    ensures s.word.tid in s.threads && s.threads[s.word.tid].alive
    ensures s.threads[s.word.tid].listed || s.threads[s.word.tid].pending
  {
    StartInv(tids);
    InvAlongRuns(Start(tids), actions, s);
    assert ThreadOk(s.word, s.tkn, StatusOf(s.log), s.word.tid, s.threads[s.word.tid]);
  }

  /** The history of any run is a chain of holds: what MutualExclusion, NextTakeReportsDeath,
      ReportHasDeath, ReturnMatchesTake and TokensGrow say, they say of every run. */
  lemma RunsAreWellFormed(tids: set<nat>, actions: seq<Action>, s: State)
    requires Leads(Start(tids), actions, s)
    ensures WellFormed(s.log) && LastToken(s.log) == s.tkn
  {
    StartInv(tids);
    InvAlongRuns(Start(tids), actions, s);
  }

  /** wait_unlocked(k) is about to return OK. */
  predicate ReturnsUnlocked(s: State, t: nat, k: nat) {
    && Enabled(s, Run(t))
    && (s.threads[t].pc == WuLoad(k) || (s.threads[t].pc.WuTkn? && s.threads[t].pc.k == k))
    && RunStep(s, t).threads[t].pc.Idle?
  }

  /** It does so on a free word or a new token. */
  lemma ReturnsOnNews(s: State, t: nat, k: nat)
    requires ReturnsUnlocked(s, t, k)
    ensures s.word.tid == 0 || s.word.died || s.tkn != k
  {
    hide TryAccess, AcquireAccess, UnlockAccess;
  }

  /** wait_unlocked(k) returns OK only after the hold that got token `k` has ended. */
  lemma {:induction false} UnlockedMeansEnded(tids: set<nat>, actions: seq<Action>, s: State, t: nat, k: nat, i: nat)
    requires Leads(Start(tids), actions, s)
    requires ReturnsUnlocked(s, t, k)
    requires i < |s.log| && s.log[i].Token? && s.log[i].k == k
    ensures exists n :: i < n < |s.log| && Ends(s.log[n], s.log[i].t)
  {
    hide Access, ThreadOk, Leads, ReturnsUnlocked, WellFormed, StatusOf, LastToken;
    StartInv(tids);
    InvAlongRuns(Start(tids), actions, s);
    ReturnsOnNews(s, t, k);
    var log := s.log;
    LegalAt(log, i);
    HoldEnds(log, i + 1, |log|);
    assert log[..|log|] == log;
  }

  /** The other way round: while the hold that got token `k` lasts, wait_unlocked(k) does not
      return OK; and once nobody holds the mutex, its next look at the word returns. */
  lemma UnlockedIsSeen(tids: set<nat>, actions: seq<Action>, s: State, t: nat, k: nat)
    requires Leads(Start(tids), actions, s)
    requires Enabled(s, Run(t)) && s.threads[t].pc == WuLoad(k)
    ensures ReturnsUnlocked(s, t, k) <==> StatusOf(s.log).Free?
  {
    StartInv(tids);
    InvAlongRuns(Start(tids), actions, s);
  }

  /** Its counterpart: the look of wait_locked goes on to read the token exactly when somebody holds the
      mutex. */
  lemma LockedIsSeen(tids: set<nat>, actions: seq<Action>, s: State, t: nat)
    requires Leads(Start(tids), actions, s)
    requires Enabled(s, Run(t)) && s.threads[t].pc == WlLoad
    ensures RunStep(s, t).threads[t].pc == WlToken <==> StatusOf(s.log).Held?
  {
    StartInv(tids);
    InvAlongRuns(Start(tids), actions, s);
    LockedLook(s, t);
  }

  lemma LockedLook(s: State, t: nat)
    requires Inv(s) && Enabled(s, Run(t)) && s.threads[t].pc == WlLoad
    ensures RunStep(s, t).threads[t].pc == WlToken <==> StatusOf(s.log).Held?
  {
    hide TryAccess, AcquireAccess, UnlockAccess, ThreadOk, WellFormed, LastToken;
  }

  // ----- The token of wait_locked -----------------------------------------------------------

  /** The token of the hold in force, once it has one. */
  function HoldToken(log: seq<Event>): Option<nat> {
    if StatusOf(log).Held? && StatusOf(log).issued then Some(LastToken(log)) else None
  }

  /** wait_locked reads the token of the hold in force exactly when that hold has passed its
      token increment; in between it reads the token of an earlier hold, or none. */
  lemma WaitLockedToken(tids: set<nat>, actions: seq<Action>, s: State)
    requires Leads(Start(tids), actions, s) && s.word.tid != 0
    ensures s.word.tid in s.threads
    ensures HoldToken(s.log) == Some(s.tkn) <==>
              !(var pc := s.threads[s.word.tid].pc; pc.SetOwner? || pc.TknLoad? || pc.TknStore?)
  {
    StartInv(tids);
    InvAlongRuns(Start(tids), actions, s);
    assert ThreadOk(s.word, s.tkn, StatusOf(s.log), s.word.tid, s.threads[s.word.tid]);
  }
}

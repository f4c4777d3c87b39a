/** The deadman mutex: any number of threads interleaving their atomic accesses to one
    futex word and one token, with threads dying at any point. */
module DeadmanMtx {
  import opened Errors

  /** The futex word: owner, FUTEX_WAITERS and FUTEX_OWNER_DIED. */
  datatype Word = Word(tid: nat, waiters: bool, died: bool)

  datatype Caller = Try | Lock(first: Word)

  datatype Outcome = Acquired(afterDeath: bool) | Busy | Deadlock | ShutDown | TimedOut

  datatype Waiting = InLock | InWaitLocked | InWaitUnlocked(k: nat)

  /** The next atomic access of a thread. */
  datatype Pc =
    | Idle
    // trylock and timedlock
    | LockLoad
    | ImplShutdown(c: Caller)
    | ImplLoad(c: Caller)
    | ImplCas(c: Caller, was: Word)
    | SetOwner(dead: bool)
    | TknLoad(dead: bool)
    | TknStore(dead: bool, v: nat)
    | LockWake(dead: bool)
    | OpAdd(dead: bool)
    | OpEnd(res: Outcome)
    | LockMark(first: Word)
    // unlock
    | UnDel
    | UnAnd
    | UnEnd
    | UnOwner
    | UnWake
    // timedwait_locked and timedwait_unlocked
    | WlLoad
    | WlToken
    | WuLoad(k: nat)
    | WuTkn(k: nat, was: Word)
    | WaitShutdown(why: Waiting, was: Word)
    | WaitMark(why: Waiting, was: Word)
    // FUTEX_WAIT
    | Wait(why: Waiting, val: Word)
    | Asleep(why: Waiting, val: Word)

  /** A thread with its deadman object, the listing of the mutex on its robust list and the
      pending field of that list. */
  datatype Thread = Thread(alive: bool, isOwner: bool, shutdown: bool, listed: bool, pending: bool, pc: Pc) {
    function At(pc: Pc): Thread {
      Thread(alive, isOwner, shutdown, listed, pending, pc)
    }

    function Lists(listed: bool, pc: Pc): Thread {
      Thread(alive, isOwner, shutdown, listed, pending, pc)
    }

    function Pends(pending: bool, pc: Pc): Thread {
      Thread(alive, isOwner, shutdown, listed, pending, pc)
    }

    function Flags(isOwner: bool, pc: Pc): Thread {
      Thread(alive, isOwner, shutdown, listed, pending, pc)
    }
  }

  const NEW_THREAD := Thread(true, false, false, false, false, Idle)

  /** What a run has done so far. */
  datatype Event =
    | Took(t: nat, afterDeath: bool)       // the word became t's
    | Token(t: nat, k: nat)                // t stored token k
    | Returned(t: nat, afterDeath: bool)   // a lock call returned OK or EOWNERDEAD
    | Released(t: nat)                     // t cleared the word
    | Died(t: nat)                         // t died holding the word

  datatype State = State(word: Word, tkn: nat, threads: map<nat, Thread>, log: seq<Event>)

  datatype Action =
    | Run(t: nat)
    | CallTrylock(t: nat)
    | CallLock(t: nat)
    | CallUnlock(t: nat)
    | CallWaitLocked(t: nat)
    | CallWaitUnlocked(t: nat, k: nat)
    | TimeOut(t: nat)
    | Shutdown(t: nat)
    | Broadcast
    | Die(t: nat, woken: Option<nat>)

  // ----- Steps ----------------------------------------------------------------------

  function Resume(why: Waiting): Pc {
    match why
    case InLock => LockLoad
    case InWaitLocked => WlLoad
    case InWaitUnlocked(k) => WuLoad(k)
  }

  function Woken(th: Thread): Thread {
    if th.alive && th.pc.Asleep? then th.At(Resume(th.pc.why)) else th
  }

  function WakeAll(threads: map<nat, Thread>): map<nat, Thread> {
    map t | t in threads :: Woken(threads[t])
  }

  function WakeOne(threads: map<nat, Thread>, woken: Option<nat>): map<nat, Thread> {
    if woken.Some? && woken.value in threads
    then threads[woken.value := Woken(threads[woken.value])] else threads
  }

  function Marked(w: Word): Word {
    w.(waiters := true)
  }

  /** Where trylock_impl's EBUSY leads. */
  function AfterBusy(c: Caller): Pc {
    match c
    case Try => OpEnd(Busy)
    case Lock(first) => LockMark(first)
  }

  predicate Enabled(s: State, a: Action) {
    match a
    case Run(t) => t in s.threads && s.threads[t].alive && !s.threads[t].pc.Idle? && !s.threads[t].pc.Asleep?
    case CallTrylock(t) => t in s.threads && s.threads[t].alive && s.threads[t].pc.Idle?
    case CallLock(t) => t in s.threads && s.threads[t].alive && s.threads[t].pc.Idle?
    case CallUnlock(t) => t in s.threads && s.threads[t].alive && s.threads[t].pc.Idle?
    case CallWaitLocked(t) => t in s.threads && s.threads[t].alive && s.threads[t].pc.Idle?
    case CallWaitUnlocked(t, k) => t in s.threads && s.threads[t].alive && s.threads[t].pc.Idle?
    case TimeOut(t) => t in s.threads && s.threads[t].alive && s.threads[t].pc.Asleep?
    case Shutdown(t) => t in s.threads && s.threads[t].alive
    case Broadcast => true
    case Die(t, woken) => t in s.threads && s.threads[t].alive
  }

  /** What one atomic access does: to the word, the token and the thread, and whether it wakes
      every sleeper. */
  datatype Effect = Effect(word: Word, tkn: nat, th: Thread, event: Option<Event>, wakes: bool) {
    function To(th: Thread): Effect {
      Effect(word, tkn, th, event, wakes)
    }
  }

  /** timedlock's own look at the word, the attempt to take it, and the mark of a waiter. */
  function TryAccess(word: Word, tkn: nat, t: nat, th: Thread): Effect {
    var keep := Effect(word, tkn, th, None, false);
    match th.pc
    case LockLoad => keep.To(th.At(ImplShutdown(Lock(word))))
    case ImplShutdown(c) => keep.To(th.At(if th.shutdown then OpEnd(Outcome.ShutDown) else ImplLoad(c)))
    case ImplLoad(c) =>
      keep.To(th.At(if word.tid == 0 then ImplCas(c, word) else if word.tid == t then OpEnd(Deadlock) else AfterBusy(c)))
    case ImplCas(c, was) =>
      if word == was then
        Effect(Word(t, was.waiters, false), tkn, th.At(SetOwner(was.died)), Some(Took(t, was.died)), false)
      else keep.To(th.At(AfterBusy(c)))
    case LockMark(first) =>
      if word == first then Effect(Marked(first), tkn, th.At(Wait(InLock, Marked(first))), None, false)
      else keep.To(th.At(LockLoad))
    case _ => keep
  }

  /** From having the word to the return of the lock call. */
  function AcquireAccess(word: Word, tkn: nat, t: nat, th: Thread): Effect {
    var keep := Effect(word, tkn, th, None, false);
    match th.pc
    case SetOwner(d) => keep.To(th.Flags(true, TknLoad(d)))
    case TknLoad(d) => keep.To(th.At(TknStore(d, tkn)))
    case TknStore(d, v) => Effect(word, v + 1, th.At(LockWake(d)), Some(Token(t, v + 1)), false)
    case LockWake(d) => Effect(word, tkn, th.At(OpAdd(d)), None, true)
    case OpAdd(d) => keep.To(th.Lists(true, OpEnd(Acquired(d))))
    case OpEnd(res) =>
      Effect(word, tkn, th.Pends(false, Idle),
             if res.Acquired? then Some(Returned(t, res.afterDeath)) else None, false)
    case _ => keep
  }

  function UnlockAccess(word: Word, tkn: nat, t: nat, th: Thread): Effect {
    var keep := Effect(word, tkn, th, None, false);
    match th.pc
    case UnDel => keep.To(th.Lists(false, UnAnd))
    case UnAnd => Effect(Word(0, word.waiters, false), tkn, th.At(UnEnd), Some(Released(t)), false)
    case UnEnd => keep.To(th.Pends(false, UnOwner))
    case UnOwner => keep.To(th.Flags(false, UnWake))
    case UnWake => Effect(word, tkn, th.At(Idle), None, true)
    case _ => keep
  }

  /** wait_locked, wait_unlocked and FUTEX_WAIT. */
  function WaitAccess(word: Word, tkn: nat, th: Thread): Effect {
    var keep := Effect(word, tkn, th, None, false);
    match th.pc
    case WlLoad => keep.To(th.At(if word.tid == 0 || word.died then WaitShutdown(InWaitLocked, word) else WlToken))
    case WlToken => keep.To(th.At(Idle))
    case WuLoad(k) => keep.To(th.At(if word.tid != 0 && !word.died then WuTkn(k, word) else Idle))
    case WuTkn(k, was) => keep.To(th.At(if tkn == k then WaitShutdown(InWaitUnlocked(k), was) else Idle))
    case WaitShutdown(why, was) => keep.To(th.At(if th.shutdown then Idle else WaitMark(why, was)))
    case WaitMark(why, was) =>
      if word == was then Effect(Marked(was), tkn, th.At(Wait(why, Marked(was))), None, false)
      else keep.To(th.At(Resume(why)))
    case Wait(why, val) => keep.To(th.At(if word == val then Asleep(why, val) else Resume(why)))
    case _ => keep
  }

  datatype Part = Trying | Acquiring | Unlocking | Waits | Still

  function PartOf(pc: Pc): Part {
    if pc.Idle? || pc.Asleep? then Still
    else if pc.LockLoad? || pc.ImplShutdown? || pc.ImplLoad? || pc.ImplCas? || pc.LockMark? then Trying
    else if pc.SetOwner? || pc.TknLoad? || pc.TknStore? || pc.LockWake? || pc.OpAdd? || pc.OpEnd? then Acquiring
    else if pc.UnDel? || pc.UnAnd? || pc.UnEnd? || pc.UnOwner? || pc.UnWake? then Unlocking
    else Waits
  }

  /** The next atomic access of thread `t`, which finds the mutex as `word` and `tkn`. */
  function Access(word: Word, tkn: nat, t: nat, th: Thread): Effect {
    match PartOf(th.pc)
    case Trying => TryAccess(word, tkn, t, th)
    case Acquiring => AcquireAccess(word, tkn, t, th)
    case Unlocking => UnlockAccess(word, tkn, t, th)
    case Waits => WaitAccess(word, tkn, th)
    case Still => Effect(word, tkn, th, None, false)
  }

  function RunStep(s: State, t: nat): State
    requires Enabled(s, Run(t))
  {
    var e := Access(s.word, s.tkn, t, s.threads[t]);
    State(e.word, e.tkn, (if e.wakes then WakeAll(s.threads) else s.threads)[t := e.th],
          if e.event.Some? then s.log + [e.event.value] else s.log)
  }

  /** Where a call, a timeout or a shutdown request leaves its thread. */
  function Entered(th: Thread, a: Action): Thread
    requires a.TimeOut? ==> th.pc.Asleep?
  {
    match a
    case CallTrylock(_) => if th.isOwner then th else th.Pends(true, ImplShutdown(Try))
    case CallLock(_) => if th.isOwner then th else th.Pends(true, LockLoad)
    case CallUnlock(_) => if !th.isOwner then th else th.Pends(true, UnDel)
    case CallWaitLocked(_) => th.At(WlLoad)
    case CallWaitUnlocked(_, k) => th.At(WuLoad(k))
    case TimeOut(_) => th.At(if th.pc.why.InLock? then OpEnd(Outcome.TimedOut) else Idle)
    case Shutdown(_) => th.(shutdown := true)
    case _ => th
  }

  /** The kernel's walk of the robust list and the pending field of a dying thread. */
  function DieStep(s: State, t: nat, woken: Option<nat>): State
    requires Enabled(s, Die(t, woken))
  {
    var th := s.threads[t];
    var gone := s.(threads := s.threads[t := th.(alive := false)]);
    if (th.listed || th.pending) && s.word.tid == t then
      var died := gone.(word := Word(0, s.word.waiters, true), log := s.log + [Died(t)]);
      if s.word.waiters then died.(threads := WakeOne(gone.threads, woken)) else died
    else if th.pending && s.word.tid == 0 then gone.(threads := WakeOne(gone.threads, woken))
    else gone
  }

  function Next(s: State, a: Action): State
    requires Enabled(s, a)
  {
    match a
    case Run(t) => RunStep(s, t)
    case Die(t, woken) => DieStep(s, t, woken)
    case Broadcast => s.(threads := WakeAll(s.threads))
    case _ => s.(threads := s.threads[a.t := Entered(s.threads[a.t], a)])
  }

  /** Before the first access: nobody holds the mutex and no token has been given. */
  function Start(tids: set<nat>): State {
    State(Word(0, false, false), 0, map t | t in tids && t > 0 :: NEW_THREAD, [])
  }

  /** The state after a sequence of actions, each enabled when it is taken. */
  ghost predicate Leads(s: State, actions: seq<Action>, s': State)
    decreases |actions|
  {
    if actions == [] then s' == s
    else Enabled(s, actions[0]) && Leads(Next(s, actions[0]), actions[1..], s')
  }
}

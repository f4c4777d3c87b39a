# AlephZero in Dafny

AlephZero is a library for communication between processes through shared memory. This project models
the parts of it that everything else relies on, and proves what they promise.

- **The transport** (`Frames`, `Transport`). An arena is one byte array with two state pages, a committed
  index and a queue of frames that lie in the bytes, linked by offsets. `Transport.Arena` changes it one
  store at a time and records every state in a ghost `trace`; each operation's contract says which queues
  that record may hold. So a process may die after any store: `Transport.Recover` is the next process
  taking the lock. `Frames` has the layout on its own: slots, the one wrap, the high-water mark, and why
  testing the oldest frame is enough to free a slot.
- **Cursors and readers** (`Cursors`, `Readers`). A handle keeps a sequence number and an offset while
  other processes lock, write, clear and unlock. The synchronous reader and the reader thread's two
  handlers are run against any sequence of such foreign sessions, with any deadline and shutdown: a wait
  is the list of what it finds each time it has the lock.
- **The hash map** (`Bits`, `HashMap`). A Robin Hood table over a real bucket array, against a
  mathematical map; the hash and the comparison are parameters, and keys may compare equal without being
  the same, as strings at two addresses do.
- **The deadman mutex** (`DeadmanMtx`, `DeadmanSafety`, `DeadmanWakeups`, `DeadmanTokens`,
  `DeadmanCalls`). Any number of threads
  interleave their atomic accesses to one futex word and one token; sleeping, waking, timeouts, shutdown
  and death are steps too. The state keeps a history of who took, numbered, returned, released and died,
  and the safety theorems are about that history.
- **The robust list** (`Robust`). The intrusive list on the heap, with a ghost trace of what the kernel's
  walk would meet after every store.
- **Path globs** (`Glob`, `Pathglob`). One backtracking search over any relation of elements, used for bytes
  within a segment and for segments within a path, against the meaning "texts can be put for the stars".
- **Packets** (`Bytes`, `Packet`). Both memory layouts of a packet, what writes them and what reads them.
- **The write chain** (`Writers`). Trees of middleware and chains of writers, run in two phases, against the
  flat list of their leaves.
- **Packets through the transport** (`Delivery`, `Publishing`). What a writer puts into a frame is what a
  reader takes out, and a whole chain of writers run on an arena does what the flat list says.
- **Numbers and times as text** (`Strconv`, `Clock`).

`Errors` holds the error codes.

Where the code and its documentation or expectations part, the model follows the code:

- `a0_deadman_mtx_timedlock_impl` looks at the word, and the attempt it then makes looks again. If the word
  was free at the first look and taken at the second, and has been freed since, the thread marks a free
  mutex and sleeps on it with nobody left to wake it. `DeadmanWakeups.LockSleepsOnFreeMutex` is such a run;
  `DeadmanWakeups.LockSleepersMeanHeld` says this is the only way: exactly the sleepers whose own look found
  an owner sleep on a held mutex.
- `include/a0/deadman_mtx.h:77` has callers use the token of `wait_locked` to tell when that owner unlocks.
  The token is incremented after the word is taken, so `wait_locked` can return an earlier one.
  `DeadmanWakeups.WaitLockedReadsNoToken` is such a run; `DeadmanSafety.WaitLockedToken` gives the exact
  condition. With such a token `wait_unlocked` returns while the owner still holds the mutex, as in
  `DeadmanTokens.BothReturnDuringOneHold`; `DeadmanTokens.TokenTellsExactly` says when the pair of calls
  keeps its promise.
- `a0_deadman_mtx_trylock` answers EBUSY when its exchange fails, which a waiter that marks the free word is
  enough for: `DeadmanCalls.BusyOnFreeMutex` is such a run on a mutex nobody has ever held, and
  `DeadmanCalls.AttemptStep` says exactly what the answer means.
- The same marking lets `a0_deadman_mtx_timedwait_unlocked_impl` sleep on a hold it was not asked about: it
  compares the token, then exchanges the word, and a mutex freed and taken again by the same thread in
  between shows the same word. `DeadmanWakeups.UnlockSleepsOnLaterHold` is such a run;
  `DeadmanWakeups.UnlockSleepersMeanHold` gives the exact condition.
- `a0_transport_timedwait` looks at the clock before the condition, so a timed read of a transport that is
  readable reports a timeout once its deadline has passed. `Readers.ReadTooLate` is such a call;
  `Readers.ReadableIsReadInTime` says exactly when a readable transport is read.
- `a0_transport_iter_valid` is true on a zeroed handle of an arena that was never written, although there is
  no frame, and `a0_transport_frame` then returns the arena's own header as one. `Cursors.FrameOnNothing` is
  that call; `Cursors.Handle.IterValid` and `Cursors.Handle.Current` say exactly when.
- `include/a0/packet.h:252` says serializing does not keep the header order. The code keeps it, and
  `Packet.Serialize` proves it.
- `include/a0/time.h:20` describes the text of a monotonic time as 20 characters; it is 19 digits and a NUL.

Run `dafny verify dfyconfig.toml` to check the whole project.

## Model

| member | source | states |
|---|---|---|
| `Frames.LiveDisjoint` | src/transport.c:509-531 | Any two live frames occupy disjoint parts of the arena. |
| `Frames.WalksVisitExactly` | src/transport.c:293-334 | Walking the next links from the head and the prev links from the tail, each as many steps as the page counts frames, visits exactly the queue, in order; so a page describes one queue only. |
| `Frames.EmptyExactly` | src/transport.c:217-221 | The emptiness test on a page is true exactly when it describes no frame, also on a never-written page. |
| `Frames.Evictions` | src/transport.c:561-568 | The eviction loop ends; it removes some frame exactly when the head test holds of the first, and the test fails on what it leaves. |
| `Frames.HeadTestSuffices` | src/transport.c:533-559 | Once the oldest frame passes the test, the slot overlaps no live frame at all, and the queue with the new frame still wraps at most once. |
| `Frames.SlotIsFree` | src/transport.c:509-531 | The aligned slot after the newest frame lies below the oldest one of a wrapped queue, so only later frames can be in the way. |
| `Frames.SlotAtStart` | src/transport.c:509-559 | A slot at the workspace start that the head test accepts overlaps nothing, and starts the one wrap. |
| `Frames.SlotAfterLast` | src/transport.c:509-559 | A slot after the newest frame that the head test accepts overlaps nothing, wrapped queue or not. |
| `Frames.SlotIsOk` | src/transport.c:509-531 | The slot chosen for any size is aligned and inside the workspace, at its start or right after the newest frame. |
| `Frames.FitsBySize` | src/transport.c:509-531 | A size is refused exactly when header and payload are larger than the whole workspace, whatever the queue holds. |
| `Frames.AlignBelow` | src/transport.c:80-82 | The aligned offset is the least multiple of the alignment not below. |
| `Frames.EvictsInTheWay` | src/transport.c:533-568 | The eviction loop, which looks at the oldest frame only, removes exactly the frames in the way of the slot. |
| `Frames.RemovesMeans` | src/transport.c:533-568 | In the way are, in offsets, the frames that overlap the slot and, for a slot at the start, those left from before the last wrap; nothing goes exactly when there is none. |
| `Frames.DropHead` | src/transport.c:487-507 | Removing the oldest frame keeps alignment, disjointness, the single wrap and what was known of the slot. |
| `Frames.HighWaterAfterDrop` | src/transport.c:487-507 | After remove_head the mark is still the largest end of any live frame, though only the tail is looked at. |
| `Frames.HighWaterAfterAppend` | src/transport.c:607-615 | After appending a frame the mark is still the largest end of any live frame. |
| `Frames.HighWaterBound` | src/transport.c:690-700 | Comparing a size with the mark decides, both ways, whether every live frame fits in it. |
| `Frames.DropHeadDescribes` | src/transport.c:487-507 | The page left by remove_head describes the queue without its oldest frame, in the same memory. |
| `Frames.AppendDescribes` | src/transport.c:570-605 | A page with the new sequence number, head, tail and mark describes the queue with the frame appended, given its stored header and the old tail's link. |
| `Frames.QueueKept` | src/transport.c:74-77 | A store outside all live frames, or into the forward link of the last one, leaves the described queue as it was. |
| `Frames.PayloadStored` | src/transport.c:627-652 | A byte stored into a payload changes that byte of that frame and nothing else of the queue. |
| `Frames.ResizeDescribes` | src/transport.c:690-700 | A new arena size that no live frame exceeds leaves the queue described. |
| `Frames.HeaderRead` | src/transport.c:441-458 | What the header of a live frame says about its number, place, size and neighbours is right. |
| `Frames.HeaderWords` | include/a0/transport.h:149-160 | The five words of a frame header and its payload, at their offsets in numbers. |
| `Transport.ChronicleExtends` | src/transport.c:188-215 | Between any two recorded states the queue only lost old frames and gained newer ones: a number never comes to mean another frame. |
| `Transport.Arena.constructor` | src/transport.c:135-169 | A fresh arena is consistent, with an empty queue. |
| `Transport.Arena.Resume` | src/transport.c:135-169 | An initialized arena found after a death has the queue of the last recorded store. |
| `Transport.Arena.StoreField` | src/transport.c:570-586 | A store into the working page leaves the committed page and the committed queue alone. |
| `Transport.Arena.StoreWord` | src/transport.c:570-605 | A word stored where it harms no committed frame leaves the committed queue alone. |
| `Transport.Arena.FlipCommitted` | src/transport.c:669-682 | The one store that publishes the working page: before it the old queue is committed, after it the new one. |
| `Transport.Arena.CopyPage` | src/transport.c:188-215 | Copying the committed page over the working page, at every field, leaves the committed queue, and makes both pages agree. |
| `Transport.Arena.Lock` | src/transport.c:188-204 | From any consistent state, also one left by a death, the lock gives a working page equal to the committed one; every store on the way keeps the queue. |
| `Transport.Arena.Unlock` | src/transport.c:206-215 | Unlocking discards what was not committed; every store on the way keeps the committed queue. |
| `Transport.Arena.Commit` | src/transport.c:669-682 | The working queue becomes the committed one; every store on the way keeps whichever of the two is committed. |
| `Transport.Arena.RemoveHead` | src/transport.c:487-507 | The committed queue becomes the working queue without its oldest frame; every store on the way leaves one of the two committed. |
| `Transport.Arena.FindSlot` | src/transport.c:509-531 | The slot is the aligned end of the newest frame if there is room behind it, else the workspace start; a size is refused exactly when it is larger than the workspace. |
| `Transport.Arena.SlotEvicts` | src/transport.c:533-559 | The test on head offsets in memory is the test on the oldest frame of the queue. |
| `Transport.Arena.Evict` | src/transport.c:561-568 | Removes exactly the oldest frames that the test requires, with the number of live frames as measure; every store leaves the queue less some of its oldest frames. |
| `Transport.Arena.InitSlot` | src/transport.c:570-586 | Numbers the frame one above the highest number and fills in its header, harming no committed frame. |
| `Transport.Arena.UpdateTail` | src/transport.c:595-605 | Links the new frame and the old tail both ways; the old queue stays described. |
| `Transport.Arena.LinkSlot` | src/transport.c:588-615 | Head, tail, links and high-water mark of the working page, with the old queue still committed. |
| `Transport.Arena.Append` | src/transport.c:644-649 | The freed slot becomes one more frame of the working queue, numbered one above the highest. |
| `Transport.Arena.Alloc` | src/transport.c:627-652 | The frame goes right behind the newest one if there is room there, else to the start; exactly the frames in its way are removed; the rest and the new frame, with the next number, are the working queue. A size that cannot fit changes nothing; every store leaves an old queue less some of its oldest frames. |
| `Transport.Arena.AllocEvicts` | src/transport.c:617-625 | True exactly when some live frame is in the way of where alloc would go, and fails exactly when alloc fails. |
| `Transport.Arena.StorePayload` | src/transport.c:627-652 | A store into an allocated payload changes that byte only; the committed queue is untouched. |
| `Transport.Arena.Fill` | src/transport.c:654-667 | Filling the allocated payload byte by byte keeps the committed queue at every byte. |
| `Transport.Arena.UsedSpace` | src/transport.c:684-688 | Returns the largest end of any live frame, or the workspace start. |
| `Transport.Arena.Resize` | src/transport.c:690-700 | Succeeds exactly when every live frame, committed or not, stays inside; only the size changes. |
| `Transport.Arena.Clear` | src/transport.c:702-709 | Empties the queue and keeps the highest number; every store leaves the old queue or the empty one. |
| `Transport.Arena.WriteHeld` | src/transport.c:627-682 | The part of a write under the lock: alloc, fill, commit and unlock, with the same record of its stores. |
| `Transport.Arena.Write` | src/transport.c:188-682 | One whole write: the queue becomes its survivors plus the new frame, and after every single store of it the committed queue is the old one less some of its oldest frames, or that with the complete new frame appended. |
| `Transport.Recover` | src/transport.c:188-204 | After a death at any store, the next lock finds the queue that store left committed, described by both pages. |
| `Transport.RecoverWrite` | src/transport.c:188-682 | A writer that dies after any store of its write leaves, for the next process to lock, its queue less some of its oldest frames, or the survivors with the complete new frame behind them. |
| `Transport.TwoWrites` | src/transport.c:509-652 | Two small frames in a fresh arena of 4096 bytes: at offsets 144 and 208, both live, and a third would evict nothing. |
| `Cursors.NumberIdentifies` | src/transport.c:293-334 | A live frame is the only one with its sequence number. |
| `Cursors.CursorKept` | src/transport.c:229-234 | Over any foreign runs a cursor stays sane, and its number is in range exactly when the very frame it was placed on is still live at its offset. |
| `Cursors.Handle.NonEmpty` | src/transport.c:223-227 | True exactly when a frame is live. |
| `Cursors.Handle.IterValid` | src/transport.c:229-234 | True exactly when the cursor's frame is live, except on a zeroed handle of a never-written arena, where it is true with no frame at all. |
| `Cursors.Handle.JumpHead` | src/transport.c:256-268 | Lands on the oldest live frame, or fails and moves nothing when there is none. |
| `Cursors.Handle.JumpTail` | src/transport.c:270-282 | Lands on the newest live frame, or fails and moves nothing when there is none. |
| `Cursors.Handle.HasNext` | src/transport.c:284-291 | True exactly when a live frame is newer than the cursor. |
| `Cursors.Handle.StepNext` | src/transport.c:293-312 | Lands on the later of the next number and the lowest live one, at that frame's real offset; fails exactly when has_next is false. |
| `Cursors.Handle.HasPrev` | src/transport.c:314-321 | True exactly when a live frame is older than the cursor. |
| `Cursors.Handle.StepPrev` | src/transport.c:323-334 | Lands on the number before, at that frame's real offset; fails exactly when has_prev is false. |
| `Cursors.Handle.Current` | src/transport.c:441-452 | Returns where the cursor's frame lies exactly when it is live, or reports that it was evicted; except on a zeroed handle of a never-written arena, where it succeeds. |
| `Cursors.Handle.Load` | src/reader.c:109-114 | What lies there is that frame, whole: number, place and payload. |
| `Cursors.FrameOnNothing` | src/transport.c:229-452 | On an arena never written, a zeroed handle is reported valid and given a frame at offset 0, where the arena has its own header. |
| `Readers.SteppedSkipsNothingLive` | src/reader.c:121-154 | A next step skips only frames that are gone; a newest step leaves nothing newer. |
| `Readers.TargetMeans` | src/reader.c:121-154 | A reader whose frame is live and that need not move on stays on it; any other lands on the least live number above its own, or on the highest. |
| `Readers.SessionMeans` | src/transport.c:627-709 | A clear leaves nothing, a write too large leaves everything, any other write leaves newest frames and its own data under the next number. |
| `Readers.RunJoins` | src/transport.c:627-709 | Sessions of others act one after the other. |
| `Readers.HasNextKept` | src/transport.c:284-291 | A cursor with a next frame keeps one over any number of completed writes by others, whatever they evict and also when some are too large. |
| `Readers.HasNextAfterClear` | src/transport.c:702-709 | After a clear no cursor has a next frame, wherever it is and whatever ran before. |
| `Readers.Apply` | src/transport.c:627-709 | One session of another process makes the committed queue what that session is defined to: the survivors and the new frame, nothing new when it does not fit, or none at all. |
| `Readers.Yield` | src/transport.c:351-387 | Giving the lock away for any sessions of others leaves the cursor sane in exactly the queue those sessions make; has_next outlives completed writes. |
| `Readers.Wait` | src/transport.c:351-387 | Waiting ends exactly as its looks at the transport say, in the queue of that look: on each one the deadline comes before the condition, so a condition that holds too late still times out. |
| `Readers.WaitEndsAtFirst` | src/transport.c:351-387 | A wait ends at its first look that is late, sees the shutdown or finds the condition: with a timeout exactly when that look is late, unless it is the entry and sees the shutdown; with the shutdown exactly when it sees that and is not late, or is the entry; else it is met. |
| `Readers.WriteEndsWait` | src/transport.c:351-387 | Whatever it waits for, a waiter in time ends with the first write that fits. |
| `Readers.BlocksEnd` | src/reader.c:196-218 | A blocking read times out only if it was late at some look, and is stopped only if it saw the shutdown. |
| `Readers.ReadableIsReadInTime` | src/reader.c:196-218 | A readable transport is read at once, without waiting for others, exactly when neither wait of the read finds the deadline passed or the shutdown begun on entry; with no deadline and no shutdown, always. |
| `Readers.PastDeadlineFails` | src/reader.c:196-218 | A blocking read whose deadline passed before it began times out, whatever the transport holds. |
| `Readers.ReadTooLate` | src/reader.c:196-227 | A frame has been written and can_read says yes, and the timed read right after it times out: its deadline is already past. |
| `Readers.ReadsWhatComes` | src/reader.c:196-227 | A read that waits on an empty transport delivers what another process then writes. |
| `Readers.FirstRead` | src/reader.c:33-162 | The first read of a new reader on an unchanged queue delivers the oldest frame, the newest, or nothing, by the initial mode. |
| `Readers.SyncReader.constructor` | src/reader.c:33-56 | Places the cursor on the oldest or the newest frame there is, and on none in an empty transport. |
| `Readers.SyncReader.CanRead` | src/reader.c:70-85 | True exactly when a read at once would succeed, and changes nothing. |
| `Readers.SyncReader.Align` | src/reader.c:121-154 | Moves to the frame to deliver, spelt out by cases, or fails and moves nothing, exactly when there is none. |
| `Readers.SyncReader.TargetIsNew` | src/reader.c:121-154 | The frame to deliver is newer than everything delivered, and with await-new newer than everything committed at the start. |
| `Readers.SyncReader.Read` | src/reader.c:156-162 | Succeeds exactly when can_read says so. A first read not awaiting new frames delivers the frame placed on if it is live; any other the least live number above, or the highest; numbers strictly increase over all reads. |
| `Readers.SyncReader.AlignBlocking` | src/reader.c:164-218 | Ends exactly as a wait for any frame, and then, if it has to step, a wait for a newer one; when both are met the cursor is on the frame the modes demand, otherwise it has not moved. |
| `Readers.SyncReader.ReadBlocking` | src/reader.c:196-227 | Delivers exactly when its waits are met: the frame placed on if it is live and the reader need not move on, else the least live number above or the highest. Otherwise a timeout, after a late look, or a shutdown, after one that saw it, with nothing delivered. |
| `Readers.ThreadedReader.constructor` | src/reader.c:377-412 | Places the cursor as the initial mode says and remembers whether the transport was empty. |
| `Readers.ThreadedReader.HandleFirst` | src/reader.c:310-334 | The first turn waits for a frame and delivers the one placed on; the oldest one if that is gone or the transport was empty; nothing with await-new otherwise. It fails exactly when the wait is shut down. |
| `Readers.ThreadedReader.ResetIsNew` | src/reader.c:310-334 | In a transport that was empty at the start, whatever is there later is new. |
| `Readers.ThreadedReader.HandleNext` | src/reader.c:336-351 | Each later turn delivers the next or the newest frame after the last one delivered, exactly when its wait is met; delivered numbers strictly increase, and await-new never delivers a frame from before the start. |
| `HashMap.ProbePath` | src/map.c:75-101 | An entry at distance d leaves no vacant bucket and no nearer entry on the way from its home. |
| `HashMap.EarlyExit` | src/map.c:86-98 | Where the probe has gone farther than the entry it meets, the key is nowhere in the table. |
| `HashMap.NotFullCircle` | src/map.c:86-98 | A probe meets a vacant bucket before it comes round. |
| `HashMap.SomeVacant` | src/map.c:134-137 | A table with fewer entries than buckets has a vacant one. |
| `HashMap.PlaceOrdered` | src/map.c:143-179 | Putting the carried entry into a vacant bucket restores the probe-offset order. |
| `HashMap.SwapRepresents` | src/map.c:158-172 | Exchanging the carried entry with a nearer one loses nothing of the map. |
| `HashMap.NotAhead` | src/map.c:143-172 | Put never displaces an entry before it would have met an equal key. |
| `HashMap.MeetEqual` | src/map.c:156-162 | An equal key is met only with the new entry in hand, so a new value beside the old key keeps order and map. |
| `HashMap.ShiftMovesHole` | src/map.c:188-203 | Shifting one entry back keeps the order everywhere but at the hole, which moves on by one. |
| `HashMap.HoleClosed` | src/map.c:188-203 | When the entry after the hole is at home, or there is none, the order holds again everywhere. |
| `HashMap.CountIsSize` | src/map.c:55-63 | The number of full buckets is the size of the map. |
| `HashMap.IteratesOnce` | src/map.c:227-252 | The iterator's list holds exactly the entries of the map, each key once. |
| `HashMap.Map.constructor` | src/map.c:31-45 | An empty map without buckets. |
| `HashMap.Map.Cleared` | src/map.c:109-116 | A zeroed table of doubled capacity is an empty map. |
| `HashMap.Map.IsEmpty` | src/map.c:55-58 | True exactly for the empty map. |
| `HashMap.Map.Size` | src/map.c:60-63 | The number of keys that compare different. |
| `HashMap.Map.Find` | src/map.c:75-101 | Finds the bucket of a key that compares equal exactly when the map has one. |
| `HashMap.Map.Has` | src/map.c:103-107 | True exactly when the map has a key that compares equal. |
| `HashMap.Map.Get` | src/map.c:213-218 | The value, or not found, exactly as the map says. |
| `HashMap.Map.Put` | src/map.c:134-180 | Afterwards the key has the new value, under the equal key that was there first if there was one, and every other key what it had, whatever growth and displacement it took; the recursion with grow ends. |
| `HashMap.Map.Insert` | src/map.c:143-180 | The probe loop that carries and exchanges entries sets one value, keeps an equal key as it was, and changes nothing else of the map. |
| `HashMap.Map.Grow` | src/map.c:109-132 | Doubles the capacity, keeps the map, and leaves room for one more. |
| `HashMap.Map.Rehash` | src/map.c:119-128 | Putting every entry into the new table gives the same map, and none of those puts grows it. |
| `HashMap.Map.Del` | src/map.c:207-211 | The map without the key; not found exactly when it was not there. |
| `HashMap.Map.Pop` | src/map.c:220-225 | The map without the key, and the value it had. |
| `HashMap.PutTwice` | src/map.c:134-218 | Of two puts of equal keys, get gives the second value, and the first key stays. |
| `HashMap.Map.OffsetCounts` | src/map.c:143-178 | A full bucket lies as far after the hash of its key modulo the capacity as its offset says. |
| `HashMap.Map.DelBucket` | src/map.c:182-205 | The map without that bucket's key, after shifting entries back as far as needed. |
| `HashMap.Map.CloseHole` | src/map.c:188-203 | The backward shift ends, restores the order and keeps the map. |
| `HashMap.Iterator.Next` | src/map.c:235-252 | Yields the entries one after the other: its list loses its first each time and ends when it is empty. |
| `Bits.MaskIsRemainder` | src/map.c:83-96 | Masking with a power of two less one is the remainder the probe arithmetic means. |
| `DeadmanSafety.MutualExclusion` | src/deadman_mtx.c:36-139 | Between two lock calls that return success, the first hold was released or its owner died. |
| `DeadmanSafety.NextTakeReportsDeath` | src/deadman_mtx.c:36-60 | The first acquisition after an owner's death is marked as following one. |
| `DeadmanSafety.ReportHasDeath` | src/deadman_mtx.c:36-60 | An acquisition marked so follows a death with no acquisition in between: no death is reported twice. |
| `DeadmanSafety.ReturnMatchesTake` | src/deadman_mtx.c:62-119 | A lock call returns EOWNERDEAD exactly when the acquisition it completes followed a death. |
| `DeadmanSafety.TokensGrow` | src/deadman_mtx.c:48-53 | Tokens of completed acquisitions strictly increase. |
| `DeadmanSafety.HoldEnds` | src/deadman_mtx.c:36-139 | A hold goes on, with its token, until its owner releases it or dies. |
| `DeadmanSafety.QuietTryOk` | src/deadman_mtx.c:36-99 | The accesses of a lock attempt that take nothing keep the invariant of every interleaving. |
| `DeadmanSafety.QuietAcquireOk` | src/deadman_mtx.c:48-75 | So do those from the taken word to the return: owner flag, token, broadcast, list. |
| `DeadmanSafety.QuietUnlockOk` | src/deadman_mtx.c:121-139 | So do those of unlock. |
| `DeadmanSafety.QuietWaitOk` | src/deadman_mtx.c:145-208 | So do those of waiting for a lock or an unlock. |
| `DeadmanSafety.EventfulAccessOk` | src/deadman_mtx.c:36-139 | Taking, numbering, returning and releasing are done by the owner, or by the first to find the word free, in the legal order. |
| `DeadmanSafety.DeathIsMarked` | src/deadman_mtx.c:101-139 | A thread that dies while the word carries its id has the mutex on its robust list or pending, so the kernel frees and marks the word; any other death leaves it. |
| `DeadmanSafety.StepKeepsInv` | src/deadman_mtx.c:36-208 | Every step of every thread, with timeouts, shutdowns and deaths, keeps the invariant. |
| `DeadmanSafety.InvAlongRuns` | src/deadman_mtx.c:36-208 | The invariant holds after every run. |
| `DeadmanSafety.OneOwner` | src/deadman_mtx.c:62-139 | After any run at most one live thread is past its acquisition and before its release. |
| `DeadmanSafety.OwnerIsAliveAndListed` | src/deadman_mtx.c:62-139 | After any run the word names nobody or a live thread that has the mutex on its robust list or pending. |
| `DeadmanSafety.RunsAreWellFormed` | src/deadman_mtx.c:36-139 | The history of any run is a chain of holds, and the token in memory is the last one issued. |
| `DeadmanSafety.UnlockedMeansEnded` | src/deadman_mtx.c:188-208 | wait_unlocked(k) returns OK only after the hold that got token k has ended. |
| `DeadmanSafety.UnlockedIsSeen` | src/deadman_mtx.c:188-190 | At its look at the word, wait_unlocked returns at once exactly when nobody holds the mutex. |
| `DeadmanSafety.LockedIsSeen` | src/deadman_mtx.c:147-163 | The look of wait_locked goes on to the token exactly when somebody holds the mutex. |
| `DeadmanCalls.WaitLockedSawHold` | src/deadman_mtx.c:145-170 | In every run, wait_locked comes to read the token only after a state since its call in which the mutex was held. |
| `DeadmanCalls.WaitLockedEnds` | src/deadman_mtx.c:145-170 | In every run, wait_locked ends only if the mutex was held during the call, or the thread was shut down, or its time was up. |
| `DeadmanCalls.WaitUnlockedEnds` | src/deadman_mtx.c:188-208 | In every run, wait_unlocked(k) ends only if the mutex was free or had another token during the call, or the thread was shut down, or its time was up. |
| `DeadmanCalls.WaitLockedStep` | src/deadman_mtx.c:145-170 | Step by step: when a thread leaves wait_locked, and when it comes to read the token, both ways. |
| `DeadmanCalls.WaitUnlockedStep` | src/deadman_mtx.c:188-208 | Step by step: when a thread leaves wait_unlocked(k), both ways; until then it waits for the same token. |
| `DeadmanCalls.AttemptStep` | src/deadman_mtx.c:36-60 | An attempt takes the mutex exactly when the word is still the free one it saw; Busy means held by another at the look or changed since; the shutdown is answered exactly when seen; the mutex is never found to be its own. |
| `DeadmanCalls.LocksAlone` | src/deadman_mtx.c:36-119 | An uninterrupted lock or trylock of a free mutex takes it with the next token, wakes everyone and reports a death exactly when the word is marked with one. |
| `DeadmanCalls.BusyAlone` | src/deadman_mtx.c:36-76 | An uninterrupted trylock of a mutex that another holds answers Busy and changes nothing. |
| `DeadmanCalls.BusyOnFreeMutex` | src/deadman_mtx.c:36-76 | A run in which trylock answers Busy although nobody has ever held the mutex: a wait_locked marked the word in between. |
| `DeadmanCalls.UnlocksAlone` | src/deadman_mtx.c:121-139 | An uninterrupted unlock frees the mutex, keeps the mark of the waiters and wakes everyone. |
| `DeadmanCalls.WatchesOneOwner` | src/deadman_mtx.c:145-208 | One run of the whole use: a thread sleeps until another locks, reads its token, sleeps until that one unlocks, and returns. |
| `DeadmanCalls.ShutdownEndsLock` | src/deadman_mtx.c:26-34 | A thread that is shut down and woken in lock leaves the call without the mutex. |
| `DeadmanCalls.ShutdownEndsWaitLocked` | src/deadman_mtx.c:26-34 | One in wait_locked leaves it within two accesses. |
| `DeadmanCalls.ShutdownEndsWaitUnlocked` | src/deadman_mtx.c:26-34 | One in wait_unlocked leaves it within three. |
| `DeadmanCalls.InterruptsMean` | src/deadman_mtx.c:82-99 | What a timeout, a shutdown request and a broadcast do to a sleeper. |
| `DeadmanCalls.NothingToDo` | src/deadman_mtx.c:62-125 | The owner's lock and trylock, and anybody else's unlock, change nothing. |
| `DeadmanCalls.DeathWakesOne` | src/deadman_mtx.c:36-60 | After an owner's death with waiters, the sleeper the kernel wakes looks again and finds the word free and marked. |
| `DeadmanSafety.WaitLockedToken` | src/deadman_mtx.c:145-170 | While the mutex is held, the token in memory is that of the hold exactly when the owner has passed its increment. |
| `DeadmanWakeups.WaitLockedReadsNoToken` | src/deadman_mtx.c:145-170 | A run in which wait_locked sees the mutex taken and is about to return token 0, which was never issued: the increment is not one with the exchange. |
| `DeadmanTokens.TokenTellsExactly` | src/deadman_mtx.c:145-208 | The token that wait_locked reads while the mutex is held makes wait_unlocked outlast that very hold in every continuation, if and only if it is the token of that hold, that is, if the owner has passed its increment. |
| `DeadmanTokens.HoldTokenTells` | src/deadman_mtx.c:145-208 | With the token of the hold in force, wait_unlocked returns OK only after that hold has ended, however the threads go on. |
| `DeadmanTokens.ReturnsEarly` | src/deadman_mtx.c:145-208 | From every reachable state in which the token read is not the hold's, a run in which wait_unlocked returns OK while that hold lasts. |
| `DeadmanTokens.BothReturnDuringOneHold` | src/deadman_mtx.c:145-208 | Such a run of two threads from the start: wait_locked and wait_unlocked both return while the owner seen still holds the mutex. |
| `DeadmanWakeups.AccessAnnounces` | src/deadman_mtx.c:36-208 | An access that changes the owner leaves its thread with a broadcast to make; a thread falls asleep only on the present word. |
| `DeadmanWakeups.NobodyForgottenAlongRuns` | src/deadman_mtx.c:36-208 | In every run without deaths, each sleeper still sees the owner it went to sleep on, or a broadcast is pending. |
| `DeadmanWakeups.NoLostWakeup` | src/deadman_mtx.c:82-208 | With every broadcast made, a sleeper in wait_unlocked faces a live owner, one in wait_locked a free mutex, one in lock the owner it saw. |
| `DeadmanWakeups.LockSleepersMeanHeld` | src/deadman_mtx.c:82-99 | With every broadcast made, a thread asleep in lock sleeps on a held mutex exactly when its own look at the word found an owner. |
| `DeadmanWakeups.LockSleepsOnFreeMutex` | src/deadman_mtx.c:82-99 | A run of two threads after which one sleeps in lock on a free mutex and nothing is left to wake it. |
| `DeadmanWakeups.UnlockSleepsOnLaterHold` | src/deadman_mtx.c:188-208 | A run of two threads after which one sleeps in wait_unlocked(1) on the hold with token 2, with every broadcast made. |
| `DeadmanWakeups.UnlockSleepersMeanHold` | src/deadman_mtx.c:188-208 | With every broadcast made, a sleeper in wait_unlocked(k) sleeps on the hold of token k exactly when k was still the last token as it fell asleep. |
| `DeadmanWakeups.TokenSinceAsleep` | src/deadman_mtx.c:36-208 | While a thread sleeps on, no further token is issued without a broadcast still to come. |
| `Robust.RobustList.constructor` | src/robust.c:35-41 | The list starts empty. |
| `Robust.RobustList.WalkIsUnique` | src/robust.c:71-92 | The links determine what a walk from the head meets. |
| `Robust.RobustList.OpStart` | src/robust.c:54-58 | Names the pending mutex and leaves the list. |
| `Robust.RobustList.OpEnd` | src/robust.c:60-64 | Clears the pending mutex and leaves the list. |
| `Robust.RobustList.OpAdd` | src/robust.c:71-83 | Puts the mutex in front; after each of its stores the walk ends and meets exactly the old or the new list, in that order. |
| `Robust.RobustList.OpDel` | src/robust.c:85-92 | Takes the mutex out wherever it is; after each of its stores the walk meets exactly the new list. |
| `Robust.RobustList.LockOps` | src/deadman_mtx.c:62-76 | Over a lock call, at each store before the last, the kernel would handle exactly the mutexes held before and this one. |
| `Robust.RobustList.UnlockOps` | src/deadman_mtx.c:121-134 | Over an unlock call, at each store before the last, the kernel would handle exactly the mutexes held before. |
| `Glob.MatchesIffAssigned` | src/pathglob.c:62-98 | A star pattern matches exactly when texts can be assigned to its stars that make it the text. |
| `Glob.FirstPlaceSuffices` | src/pathglob.c:77-83 | Once the elements between two stars are placed, the first star need never be looked at again. |
| `Glob.MeetStar` | src/pathglob.c:77-83 | Meeting a star moves the whole question behind it; a star at the end matches everything. |
| `Glob.Advance` | src/pathglob.c:84-86 | A fitting element moves both positions on. |
| `Glob.Retreat` | src/pathglob.c:87-94 | Where the text does not fit, there is no match without a star, and with one the question moves one on behind it. |
| `Glob.Finish` | src/pathglob.c:95-97 | When the text is used up, there is a match exactly when only stars are left. |
| `Pathglob.SplitJoins` | src/pathglob.c:24-49 | Splitting at slashes loses nothing, and no segment holds a slash. |
| `Pathglob.SegmentMatchesIffAssigned` | src/pathglob.c:62-98 | A segment matches a pattern exactly when strings for its stars make the pattern the segment. |
| `Pathglob.VerbatimIsEquality` | src/pathglob.c:102-106 | Without a star, matching as a pattern is equality. |
| `Pathglob.StarsMatchAnything` | src/pathglob.c:44-49 | A final double star, which is a pattern, matches any one segment. |
| `Pathglob.StarSpansBytes` | src/pathglob.c:62-99 | A pattern with one star, byte 42, matches exactly the segments that begin and end as it does. |
| `Pathglob.DoubleStarSpansSegments` | src/pathglob.c:117-165 | A glob with one inner double star matches exactly the paths whose segments begin and end as its own. |
| `Pathglob.LastDoubleStarIsOne` | src/pathglob.c:44-49 | A double star at the end takes exactly one segment. |
| `Pathglob.SlashSplits` | src/pathglob.c:24-49 | The byte 47, and only that, ends a segment. |
| `Pathglob.PathMatchesIffAssigned` | src/pathglob.c:118-165 | A path matches a glob exactly when its segments can be dealt out to the parts: any number to an inner double star, one that matches to every other part. |
| `Pathglob.KindMeaning` | src/pathglob.c:26-48 | The star flag that is never reset changes no meaning: a part is recursive by its segment alone, and one called verbatim has no star. |
| `Pathglob.Pathglob.Init` | src/pathglob.c:17-52 | Fills in the parts and their kinds for the segments of the path, or passes on the error of a null or unresolved pattern. |
| `Pathglob.Pathglob.SplitParts` | src/pathglob.c:24-49 | The one scan finds every segment, each followed by the slash or NUL that ends later scans. |
| `Pathglob.PatternMatch` | src/pathglob.c:62-98 | The backtracking over bytes decides exactly whether the segment matches the pattern, reads no byte past the sentinel, and ends. |
| `Pathglob.PartMatch` | src/pathglob.c:100-116 | Verbatim, pattern and recursive parts match by equality, by pattern, and always. |
| `Pathglob.Pathglob.Search` | src/pathglob.c:121-164 | The backtracking over segments decides exactly whether they match the parts, and ends. |
| `Pathglob.Pathglob.Match` | src/pathglob.c:118-165 | The answer is whether the path matches the glob, or the error of splitting the path. |
| `Packet.FlatParts` | src/packet.c:232-293 | The id, header count, table, payload offset, contents and payload of the serialized form are where the accessors look. |
| `Packet.OneHeaderLayout` | src/packet.c:143-293 | Both layouts of a packet with one header, with every offset as a number. |
| `Packet.OneHeader` | src/packet.c:143-230 | The strings of a header are key, NUL, value, NUL, and its entry points to both. |
| `Packet.HeadersInOrder` | src/packet.c:18-38 | The headers of a chain are those of its blocks, one after the other. |
| `Bytes.LowestFirst` | src/packet.c:143-230 | A word is stored lowest byte first. |
| `Packet.FlatFromParts` | src/packet.c:78-141 | A buffer with those parts is the serialized form. |
| `Packet.LaidLeads` | src/packet.c:274-293 | Each table entry leads to its header's key and value. |
| `Packet.LeadsIsUnique` | src/packet.c:274-293 | A table entry leads to one header only. |
| `Packet.ComputeStats` | src/packet.c:21-48 | The header count over all blocks, empty ones included, and the sizes of the two layouts. |
| `Packet.WriteHeaders` | src/packet.c:110-132 | Lays out the headers of the whole chain in order, and changes nothing else. |
| `Packet.Serialize` | src/packet.c:78-141 | The result is the serialized form of exactly serial_size bytes, whatever was in the memory, with as many bytes stored. |
| `Packet.SerializeSteps` | src/packet.c:78-141 | In any memory of the right size, the five steps leave the serialized form. |
| `Packet.Deserialize` | src/packet.c:143-188 | From a serialized packet: the same id and payload, the headers of the whole chain in one block in chain order, in a buffer filled exactly. |
| `Packet.DeepCopy` | src/packet.c:190-230 | The same for a copy of the packet itself. |
| `Packet.HoldsHeader` | src/packet.c:143-230 | Following the pointers of such a buffer gives the headers. |
| `Packet.FlatStats` | src/packet.c:232-249 | Count and sizes read from the serialized form are those of the packet. |
| `Packet.FlatPayload` | src/packet.c:256-272 | The payload slice of the serialized form is the payload. |
| `Packet.FlatHeader` | src/packet.c:274-293 | The i-th header of the serialized form is the i-th of the chain; not found exactly past the last. |
| `Packet.StrCpy` | src/packet.c:163-172 | Copies a string up to and with its NUL and nothing else. |
| `Packet.HeaderIterator.Next` | src/packet.c:55-67 | Yields the headers in chain order, over empty blocks, and then reports the end. |
| `Packet.HeaderIterator.NextMatch` | src/packet.c:69-76 | Yields the first remaining header with the key, or reports the end. |
| `Packet.FlatIterator.Next` | src/packet.c:300-302 | Yields the headers of the serialized form in order, and then reports the end, however often asked. |
| `Packet.FlatIterator.NextMatch` | src/packet.c:304-309 | Yields the first remaining header with the key, or reports the end, also after the end was reported. |
| `Writers.LockedIsFlat` | src/writer.c:20-104 | A locked run of any chain is the run of its leaves in order. |
| `Writers.UnlockedIsFlat` | src/writer.c:20-104 | An unlocked run of any chain is the run of its leaves, the lock, and the locked run from the head. |
| `Writers.WriteIsFlat` | src/writer.c:150-157 | A write runs the unlocked handlers of all leaves in order, locks, runs their locked handlers in order, and writes. |
| `Writers.WriteLocksOnce` | src/writer.c:76-104 | A write locks once between its unlocked and its locked handlers and unlocks once at the end: after one commit of the next number, or with the transport as it was when the packet was dropped. |
| `Writers.SameLeavesSameWrite` | src/writer.c:202-220 | Only the leaves matter to a write. |
| `Writers.ComposeIsAssociative` | src/writer.c:202-234 | Compose is associative. |
| `Writers.PushIsWrap` | src/writer.c:159-173 | Pushing a middleware and wrapping with it come to the same write. |
| `Writers.Writer.Init` | src/writer.c:106-118 | A writer of its own ends in its own action. |
| `Writers.Writer.Wrap` | src/writer.c:159-169 | The new writer puts the middleware before the whole old chain, which stays as it is. |
| `Writers.Writer.Push` | src/writer.c:171-173 | The writer's action becomes the pair of the middleware and its old action. |
| `Writers.Writer.WritePacket` | src/writer.c:150-157 | Writing through a writer is the flat run of its chain as it stands. |
| `Writers.WriteIfEmptyWrites` | src/middleware.c:224-237 | On an empty transport one frame is written; otherwise the lock is taken and given back once and nothing is written. |
| `Writers.SeqHeaderIsOneLess` | src/middleware.c:163-185 | Wherever the sequence number middleware stands, with any middleware before it and header-adding middleware after it, a written frame carries the number one below its own. |
| `Writers.StandardHeadersWrite` | src/middleware.c:196-222 | The standard headers come out as transport number, monotonic time, writer number, writer id and wall time before the packet's own, and the writer counts one up. |
| `Delivery.WriteAction` | src/writer.c:76-104 | The writer's action, both phases: the queue gains one frame with the next number that carries the serialized packet, and after every store of it every frame in the committed queue carries the packet of its number. |
| `Delivery.CarriesOneMore` | src/writer.c:91-104 | A queue whose frames carry their packets still does after losing old frames and gaining the new one. |
| `Delivery.StepsCarry` | src/writer.c:76-104 | Every queue a death during the write can leave committed carries, in each frame, the packet of its number. |
| `Delivery.ReadAction` | src/reader.c:264-276 | A read succeeds exactly when one was possible, and gives the packet that was written with the number it delivers. |
| `Publishing.Look` | src/transport.c:217-439 | What a locked handler is shown of the transport is the arena's highest number and emptiness. |
| `Publishing.WriteLocked` | src/writer.c:91-104 | Serializing, committing and unlocking on the arena is the abstract write, with the packet in the new frame. |
| `Publishing.RunChain` | src/writer.c:20-43 | The recursion over a chain, run on an arena, has the abstract outcome and leaves the arena as that outcome says, from any point of the chain, locked or not. |
| `Publishing.Publish` | src/writer.c:150-157 | A write of a writer object on an arena has the outcome of its flattened chain; a packet not dropped is in the newest frame under the next number, with the number one below in its sequence header if the chain adds one; and a death after any store leaves only frames that carry their packets. |
| `Strconv.ValueOfNumeral` | src/strconv.c:23-40 | The padded numeral of a number that fits spells it. |
| `Strconv.NumeralOfValue` | src/strconv.c:54-64 | A digit string is the padded numeral of its value. |
| `Strconv.DecimalIsUnique` | src/strconv.c:23-40 | There is one digit string without leading zeros for a number. |
| `Strconv.DigitsInAscii` | src/strconv.c:23-64 | The numerals of 907, byte by byte. |
| `Strconv.LexIsNumeric` | src/strconv.c:23-40 | Digit strings of one length compare byte by byte as their numbers do. |
| `Strconv.WriteDigits` | src/strconv.c:26-33 | The backward loop over two-digit pairs, and the last single digit, write the number without leading zeros at the end of the buffer. |
| `Strconv.ToStr` | src/strconv.c:23-40 | Fills the buffer with the padded numeral, touches nothing else, and points at where the number itself starts, also for zero. |
| `Strconv.FromStr` | src/strconv.c:54-64 | Succeeds exactly on digits only, with the value modulo two to the 64th. |
| `Clock.AddIsExact` | src/clock.h:26-39 | Adding any signed delta, with truncating division, gives a normalised timestamp with the exact total. |
| `Clock.AddCarries` | src/clock.h:26-39 | Seconds are carried and borrowed at a thousand million nanoseconds. |
| `Clock.AddTwice` | src/time.c:40-42 | Deltas add up, and adding the opposite delta gives the timestamp back. |
| `Clock.ConvertKeepsDistance` | src/clock.h:41-54 | A timestamp moved to another clock keeps its distance from the present. |
| `Clock.TotalIsUnique` | src/time.c:32-38 | Normalised timestamps are equal exactly when their totals are. |
| `Clock.MonoStr` | src/time.c:25-30 | The text is the nineteen-digit numeral of the total, and a NUL. |
| `Clock.MonoParse` | src/time.c:32-38 | Succeeds exactly on nineteen digits, with the normalised timestamp of that total. |
| `Clock.ParseUndoesPrint` | src/time.c:25-38 | Parsing the text of a timestamp gives it back, for every total below ten to the 19th. |
| `Clock.PrintUndoesParse` | src/time.c:25-38 | Printing what a text parses to gives the text back. |
| `Clock.TextOrder` | src/time.c:25-30 | The texts order byte by byte as the timestamps do. |

## Left out

- Transport.Arena.Alloc: sequence numbers do not reach the end of 64 bits; the model requires room for one more. Neither do sizes: one within a frame header of the end wraps around in the sum of the two (`src/transport.c:631`) and is then accepted as a small one, while the model refuses it.
- Transport.Arena.Resize: the new size is within the real buffer; a larger one is the caller's error in the source too.
- Transport.Arena.constructor: the magic bytes and the version are not modelled, and neither is the upgrade from format 0.2.
- Transport.Arena.Lock: mutual exclusion of the transport's own lock is assumed; `src/mtx.c` is kernel priority-inheritance futexes.
- Readers.Wait: foreign sessions are whole and crash-free, because `a0_cnd_timedwait` takes the lock back without restoring the working page; when a waiter wakes, and whether its deadline has then passed, is given with each look.
- Readers.HasNextKept: for sessions that write, since a foreign clear does end has_next, as `Readers.HasNextAfterClear` says.
- HashMap.Map.Put: the comparison is an equivalence that the hash respects, and neither fails; their errors would be passed on by every operation.
- HashMap.Iterator.Next: the map does not change while it is iterated.
- DeadmanSafety.StepKeepsInv: the threads are a state machine over values with sequentially consistent accesses, one deadman object and one mutex per thread, and no thread id is used again after a death; the stores of op_add and op_del count as one access here and are single stores in `Robust`.
- DeadmanWakeups.NoLostWakeup: only for runs without deaths, after which the kernel wakes a single waiter.
- Robust.RobustList.OpAdd: registering the list with the kernel, and the kernel's limit on the length of a walk, are not modelled.
- Pathglob.Pathglob.Init: the absolute path is a parameter, since resolving one asks the environment; paths of more than 32 parts, which the source does not guard against, are excluded.
- Packet.Serialize: allocation succeeds, as the source also assumes, and the packet's size fits a word.
- Delivery.WriteAction: the packet fits the arena, since the source ignores a failed allocation; it is serialized beside the frame and then copied in, which orders the stores into the payload differently.
- Publishing.Publish: nobody else writes between the call and its lock, and the packet that the handlers make fits the arena, as in `Delivery.WriteAction`.
- Packet.Deserialize: for buffers that are serialized packets; other bytes are not checked by the source either.
- Packet.LeadsIsUnique: pointers into a packet's own buffer are offsets in it.
- Writers.WriteIsFlat: handlers run the rest of the chain once, as their contract asks, or drop the packet with the lock given back; the transport is its highest number, emptiness and lock, which `Publishing.RunChain` shows the arena to be.
- Writers.StandardHeadersWrite: the times and the writer's id are parameters; the writer's number is below ten to the 19th, as its buffer requires.
- Strconv.ToStr: the number fits the buffer, which the source leaves to its callers.
- Clock.AddIsExact: seconds do not overflow.
- Clock.MonoStr: totals from zero to ten to the 19th, which fit the text.
- EXCLUSIVE and READONLY arenas, a0_transport_jump to a raw offset, a0_read_random_access, shutdown of a transport and debugstr.
- Files, memory mapping, directories, discovery, environment, random numbers and ids: input and output.
- The C++ wrappers, pubsub, log, cfg, rpc, prpc, topic, event, latch, deadman and ref_cnt: thin layers over the modelled parts.
- JSON merge patch and wall-clock text, which live in libraries that are not part of this model.
- Concrete hash and comparison functions.

# Verified core of a C++ service library

A Dafny 4.11 model of the stateful core of a C++ library for network services:
its indexed heap and scheduler queue, blocking queues, socket server, calendar,
binary serialization, HTTP request handling, counted pointers and rotating log.
`dafny verify dfyconfig.toml` checks the whole project.

Objects whose methods change their fields are classes, each method proved
against a function on values; the properties a user relies on are lemmas about
those functions, or invariants every method keeps.  Concurrent parts are state
machines whose runs are all interleavings.

| file | what it covers |
|---|---|
| HeapOrder.dfy, HeapRuns.dfy, IndexedHeap.dfy | the heap: why sifting restores order, that every run refines a map with best-first removal, and the object whose lookup of iterators stays an exact inverse of its vector |
| Scheduler.dfy | the earliest-deadline queue, and that the schedule thread never sleeps on a stale deadline unsignalled |
| BlockingQueue.dfy | ThdQueue and ThdDeque over all interleavings, semaphore included: permits, delivery order and priorities, shutdown |
| SocketServer.dfy | start, stop and shutdown between controller and worker, what each has achieved when it returns, and the session table |
| Calendar.dfy, DayNumbers.dfy, EarlyDates.dfy | day numbers and dates and which survive conversion either way, before year 1 too; weekdays against a plain count; month arithmetic, n-th weekdays |
| ByteCodecs.dfy, Serialization.dfy, SerialFailures.dfy, SerialStreams.dfy | elements, vectors and maps on byte streams, what refused or broken streams leave, and the size counters |
| Tokenizer.dfy, FormEncoding.dfy, HttpFraming.dfy, HttpHeaders.dfy, HttpRequests.dfy | tokens, URL-encoded forms (section 8.2.1 of RFC 1866), request framing over a socket that delivers in pieces and headers (sections 4.2 and 7.2.2 of RFC 1945), up to the round trip of a whole form request; requests as any client spells them |
| RefCounting.dfy | the counted pointer over a world of handles and counters |
| RotatingLog.dfy | the ring of log files, and new runs over it |
| Collections.dfy | options and string search, shared |

Where code and documentation disagree the model follows the code.  Several
promises turn out to hold only under a condition, which is proved exact:

- `abandon` is to release every waiting thread, and does so exactly when it
  finds the removers between their first check and being counted covered by
  permits (`AbandonReleasesExactly`, `LostWakeup`);
- a stop is to return, and fails to exactly while the worker reads from a client
  that sends no header end (`WaitsForeverExactly`, `StopMayWaitForever`);
- dates and day numbers survive conversion both ways except on named days
  (`RoundTrip`, `NumberRoundTrip`, `EarlyRoundTrip`), and day numbers and weekdays are
  one low in January and February of centuries that are no leap years
  (`DayNumberCounts`, `WeekdaysCount`);
- vectors of strings and maps with string keys come back changed, since every
  non-empty string gains a NUL (`StringVectorRestores`, `StringMapRestores`);
- forms come back unchanged exactly when nothing in them contains '+'
  (`FormRequestRoundTrip`), and requests exactly when the body's length fits an
  int (`RequestRoundTrip`);
- a new run of the log goes on keeping the most recent lines exactly when it
  does not misjudge which file is newest (`RestartKeepsExactly`, `TieLosesLines`).

Clocks, file attributes, the pieces in which a socket delivers, and the
network's answers are parameters or actions of the environment.

## Model

| member | source | states |
|---|---|---|
| HeapOrder.Parent | h/util/UtilHeapInlines.h:504-508 | the slot `up` compares with is the one whose left or right child, as `down` computes them, is the given slot |
| HeapOrder.DownPermutes | h/util/UtilHeapInlines.h:436-495 | sifting down loses, duplicates and invents no entry |
| HeapOrder.UpPermutes | h/util/UtilHeapInlines.h:498-521 | neither does sifting up |
| HeapOrder.FixPermutes | h/util/UtilHeapInlines.h:254-269 | neither does heapify |
| HeapOrder.DownStep | h/util/UtilHeapInlines.h:470-489 | one exchange of `down`, with a child that is greater or merely equal, confines all disorder to the child's slot, its children still not outranking its parent |
| HeapOrder.DownSinks | h/util/UtilHeapInlines.h:436-495 | after `down`, at most the place where the entry came to rest and its parent are out of order |
| HeapOrder.UpStep | h/util/UtilHeapInlines.h:510-514 | one exchange of `up` moves that single disorder to the parent |
| HeapOrder.UpRises | h/util/UtilHeapInlines.h:498-521 | `up` from there restores heap order everywhere |
| HeapOrder.FixRestoresOrder | h/util/UtilHeapInlines.h:254-269 | overwriting any one slot of an ordered heap with any entry is repaired by heapify at that slot, under every strict weak order |
| HeapOrder.HeadOutranksAll | h/util/UtilHeapInlines.h:213-219 | no entry of an ordered heap outranks the head |
| HeapRuns.AddGains | h/util/UtilHeapInlines.h:405-433 | an insertion adds exactly its entry |
| HeapRuns.RemoveLoses | h/util/UtilHeapInlines.h:359-402 | a removal loses exactly the entry of the slot |
| HeapRuns.AddKeepsOrder | h/util/UtilHeapInlines.h:405-433 | an insertion keeps heap order |
| HeapRuns.RemoveKeepsOrder | h/util/UtilHeapInlines.h:359-402 | so does removing any slot, which moves the last entry into it |
| HeapRuns.StepKeepsOrder | h/util/UtilHeapInlines.h:108-269 | every operation (add, push, remove, pop, a write through find followed by heapify, heapify) keeps heap order |
| HeapRuns.StepDefined | h/util/UtilHeapInlines.h:231-240 | only taking the head of an empty heap is undefined |
| HeapRuns.HeapifyRepairs | h/util/UtilHeapInlines.h:254-269 | after a write through the pointer of find, the heapify operation restores order and keeps all entries |
| HeapRuns.StepRepresents | h/util/UtilHeapInlines.h:108-269 | every operation changes the stored key-value pairs exactly as a map would |
| HeapRuns.StepDraws | h/util/UtilHeapInlines.h:108-269 | no entry appears that was not there or written by the operation |
| HeapRuns.HeadIsBest | h/util/UtilHeapInlines.h:213-219 | the head carries a value no stored value outranks |
| HeapRuns.StepRefines | h/util/UtilHeapInlines.h:108-269 | every operation is a step of the abstract heap: a map whose pop removes some key of a best value |
| HeapRuns.RunRefines | h/util/UtilHeapInlines.h:108-269 | every run that pops no empty heap keeps heap order and ends at a map the abstract heap reaches by the same operations |
| HeapRuns.DrainKeepsEntries | h/util/UtilHeapInlines.h:231-240 | popping until empty yields every entry exactly as often as it was stored |
| HeapRuns.DrainSorts | h/util/UtilHeapInlines.h:231-240 | popping until empty never yields an entry that outranks an earlier one |
| IndexedHeap.Heap.constructor | h/util/UtilHeapInlines.h:84-88 | an empty heap is in step |
| IndexedHeap.Heap.LookupFindsSlot | h/util/UtilHeapInlines.h:154-162 | looking a key up in the map finds the slot a search of the vector would |
| IndexedHeap.Heap.Exchange | h/util/UtilHeapInlines.h:524-543 | swaps two entries and keeps lookup and vector exact inverses |
| IndexedHeap.Heap.LargestFrom | h/util/UtilHeapInlines.h:445-481 | the slot `down` exchanges with: a child that is at least as great, the right one if it is at least as great as the left, or none |
| IndexedHeap.Heap.DownFrom | h/util/UtilHeapInlines.h:436-495 | the loop ends, is `Down` on the vector, and keeps the lookup an exact inverse through live iterators |
| IndexedHeap.Heap.UpFrom | h/util/UtilHeapInlines.h:498-521 | the loop ends, is `Up` on the vector, and keeps the lookup an exact inverse |
| IndexedHeap.Heap.HeapifyAt | h/util/UtilHeapInlines.h:254-269 | down, then up through the iterator the lookup now holds, is `Fix`; nothing for an absent key |
| IndexedHeap.Heap.Heapify | h/util/UtilHeapInlines.h:254-269 | is the heapify step of the specification and keeps heap order |
| IndexedHeap.Heap.Insert | h/util/UtilHeapInlines.h:405-433 | appends and sifts up; when the buffer is replaced every key ends with an iterator of the new one |
| IndexedHeap.Heap.Vacate | h/util/UtilHeapInlines.h:368-389 | drops a slot from vector and lookup, the last entry and its iterator taking its place |
| IndexedHeap.Heap.Erase | h/util/UtilHeapInlines.h:359-402 | removes exactly the slot and re-establishes the lookup |
| IndexedHeap.Heap.Add | h/util/UtilHeapInlines.h:108-125 | adds an absent key and says so, refuses a present one unchanged; order and lookup kept |
| IndexedHeap.Heap.Push | h/util/UtilHeapInlines.h:243-251 | as add |
| IndexedHeap.Heap.Remove | h/util/UtilHeapInlines.h:127-145 | removes a present key and says so, leaves the heap alone for an absent one; order and lookup kept |
| IndexedHeap.Heap.Pop | h/util/UtilHeapInlines.h:231-240 | returns the head's value and removes its key; order and lookup kept |
| IndexedHeap.Heap.Find | h/util/UtilHeapInlines.h:148-163 | a pointer is live and at the entry of the key; no pointer means that no entry of the heap has the key |
| IndexedHeap.Heap.Store | src/thd/ThdScheduler.cpp:168-172 | a write through that pointer changes one value and leaves the lookup exact |
| Scheduler.ComparatorIsStrictWeakOrder | h/thd/ThdScheduler.h:178-200 | the scheduler's comparator is a strict weak order |
| Scheduler.DrainsByDeadline | h/thd/ThdScheduler.h:178-200 | draining the scheduler's queue yields every entry once, by time ascending and, at equal times, priority descending |
| Scheduler.EarliestIsMinimal | src/thd/ThdScheduler.cpp:249-250 | the earliest deadline is the time of some item queued and no item's time is less; without items there is none |
| Scheduler.RemoveKeepsEarliest | src/thd/ThdScheduler.cpp:146-153 | removing an item that is not at the head leaves the earliest deadline alone, so not signalling is right |
| Scheduler.AddMovesEarliest | src/thd/ThdScheduler.cpp:119-132 | adding moves the earliest deadline only when the queue was empty or the new one is earlier, which is when add signals |
| Scheduler.AddedIsHead | src/thd/ThdScheduler.cpp:119-132 | an item added to an empty queue, or due before all others, is at the head |
| Scheduler.StepKeepsReady | src/thd/ThdScheduler.cpp:105-182 | no operation files an entry under another item or breaks heap order |
| Scheduler.NothingDue | src/thd/ThdScheduler.cpp:249-261 | when the head is not due nothing is |
| Scheduler.ThdScheduler.constructor | src/thd/ThdScheduler.cpp:76-93 | an empty scheduler keeps the no-stale-sleep invariant |
| Scheduler.ThdScheduler.Add | src/thd/ThdScheduler.cpp:104-135 | changes the queue as the specification says unless down; signals exactly if the item was added and is at the head now, whatever the three tests say; never leaves the thread asleep on a stale deadline unsignalled |
| Scheduler.ThdScheduler.Remove | src/thd/ThdScheduler.cpp:138-157 | the same for remove, with its result; signals exactly if the item was at the head |
| Scheduler.ThdScheduler.Signal | src/thd/ThdScheduler.cpp:160-182 | makes a present item due now by a write through find and heapify, and signals exactly then; same invariant |
| Scheduler.ThdScheduler.Wake | src/thd/ThdScheduler.cpp:224-225 | the wait returns, consuming the signal if there was one |
| Scheduler.ThdScheduler.Hand | src/thd/ThdScheduler.cpp:252-253 | the head leaves the heap and joins the request queue |
| Scheduler.ThdScheduler.MoveDue | src/thd/ThdScheduler.cpp:235-262 | the loop ends; what it hands over is the first due part of the drained order, the rest stays, and nothing due remains |
| Scheduler.ThdScheduler.Shutdown | src/thd/ThdScheduler.cpp:278-285 | sets the flag and wakes the thread, so that its next round leaves |
| Scheduler.ThdScheduler.Schedule | src/thd/ThdScheduler.cpp:227-271 | one round leaves, touching nothing, when the scheduler is down; else it hands over exactly the due items in order and sleeps until the earliest remaining deadline, or for ever when none remains |
| BlockingQueue.StepOrderly | src/thd/ThdSemaphore.cpp:84-98 | every step keeps the lock exclusive, the waiter count exact and abandon after down |
| BlockingQueue.StepInv | h/thd/ThdDeque.h:102-188 | every step of every thread keeps the permit balance while the queue is up, and never takes from an empty container |
| BlockingQueue.RunInv | h/thd/ThdDeque.h:102-188 | so every state of every interleaving satisfies it |
| BlockingQueue.QueuePermitsExact | h/thd/ThdQueue.h:126-199 | ThdQueue before down: queue length equals permits plus removers past decrement plus the inserter mid-section; a remover about to take an item finds one, and front, top and pop never meet an empty container |
| BlockingQueue.DequePermitsCover | h/thd/ThdDeque.h:102-179 | ThdDeque before down: the surplus of permits and removers over items equals successful removals minus empty probes, so every item has a permit or remover coming and retries are bounded by removals |
| BlockingQueue.TakeConserves | h/thd/ThdQueue.h:158-170 | handing out an item moves it from the queue to what was delivered and changes neither order nor multiplicity |
| BlockingQueue.RemoveConserves | h/thd/ThdDeque.h:119-137 | removeItem leaves the remaining items in insertion order |
| BlockingQueue.StepConserves | h/thd/ThdQueue.h:126-189 | every step conserves items |
| BlockingQueue.RunConserves | h/thd/ThdQueue.h:126-189 | in every run: FIFO mode, delivered then queued is the insertion sequence; priority mode loses and duplicates nothing; the deque delivers in insertion order what was not removed |
| BlockingQueue.DeliversBest | h/thd/ThdQueue.h:158-170 | a step hands out at most one item, and in priority mode one that no item queued, before or after, outranks |
| BlockingQueue.TakeExactly | h/thd/ThdQueue.h:158-170 | a remover that reaches the queue can be handed its front, or in priority mode any of its greatest items, and no other |
| BlockingQueue.PriorityFalls | h/thd/ThdQueue.h:158-170 | in every run, what priority mode hands out between two insertions never rises in priority, and nothing left in the queue outranks any of it |
| BlockingQueue.RemovesFirst | h/thd/ThdDeque.h:119-137 | removeItem takes out the first of the items equal to the one named, and changes nothing when there is none |
| BlockingQueue.RemoveReturns | h/thd/ThdDeque.h:141-179 | remove comes back with an item of the queue unless it was interrupted or the queue is down |
| BlockingQueue.QueueGuarded | h/thd/ThdDeque.h:102-179 | the queue changes only while the lock is free to be taken |
| BlockingQueue.LockFreeGoesOn | h/thd/ThdDeque.h:119-179 | with the lock free, removeItem and a remover past decrement can go on whether there is an item or not |
| BlockingQueue.HandsOver | h/thd/ThdQueue.h:126-189 | on any open queue found empty and unlocked, a thread that inserts an item and removes one gets its own, and everything but the history is as before |
| BlockingQueue.DownFreezes | h/thd/ThdQueue.h:158-199 | once down is set no remove succeeds and no insert takes effect for the rest of the run |
| BlockingQueue.ClosedRun | src/thd/ThdSemaphore.cpp:84-98 | after abandon returns the debt (removers still needing a permit, less permits) never grows and only interrupts lower it |
| BlockingQueue.DebtAtShutdown | src/thd/ThdSemaphore.cpp:84-98 | when abandon returns the debt is the removers past their first check but not yet counted as waiters, less the permits left |
| BlockingQueue.ShutdownReleases | src/thd/ThdSemaphore.cpp:84-98 | in every run: if the removers between their first check and being counted were covered by permits as abandon set its flag, then once abandon is done every waiting remover finds a permit |
| BlockingQueue.ShutdownStrands | src/thd/ThdSemaphore.cpp:84-98 | in every run: after abandon returns, and without interrupts, the removers that need a permit outnumber the permits by exactly those it did not count, less the permits it left |
| BlockingQueue.StrandedStays | src/thd/ThdSemaphore.cpp:266-283 | a stranded remover stays in its wait, without a permit, whatever anybody does but interrupt it |
| BlockingQueue.AbandonedStep | src/thd/ThdSemaphore.cpp:84-98 | once the flag is set neither the removers not yet counted, nor those let into the queue, nor the debt grow |
| BlockingQueue.AbandonLoops | src/thd/ThdSemaphore.cpp:88-95 | the loop of abandon goes on exactly while some remover is counted as waiting, and else ends |
| BlockingQueue.LoopStrands | src/thd/ThdSemaphore.cpp:88-95 | from the loop of abandon, with such a remover and a debt, some continuation without interrupts strands a remover |
| BlockingQueue.AbandonReleasesExactly | src/thd/ThdSemaphore.cpp:84-98 | abandon releases all waiting threads exactly when, as it sets its flag, no remover is between its first check and being counted or there are permits for all of those and the waiters: then no continuation strands a remover, else one does |
| BlockingQueue.RunReleasesExactly | src/thd/ThdSemaphore.cpp:84-98 | the same at every such moment of every run of either queue |
| BlockingQueue.LostWakeup | src/thd/ThdSemaphore.cpp:266-283 | the uncovered case does arise: a complete run that leaves a remover stranded after down |
| SocketServer.StepInv | src/net/NetSocketServer.cpp:242-338 | every step of controller, worker and responders keeps the joint protocol invariant |
| SocketServer.RunInv | src/net/NetSocketServer.cpp:242-338 | so every state of every interleaving satisfies it |
| SocketServer.NoDeadlock | src/net/NetSocketServer.cpp:242-338 | whenever the controller waits for started, stopped or shutdown in vain, the worker is neither gone nor waiting at an unsignalled trigger |
| SocketServer.WorkerProgress | src/net/NetSocketServer.cpp:673-735 | each worker step then signals the awaited event or comes nearer to it, but for a vain header read: one that brings nothing, or text that ends no header |
| SocketServer.WaitsEnd | src/net/NetSocketServer.cpp:673-735 | in any run, any stretch in which the controller waits in vain has at most 13 worker steps besides vain header reads |
| SocketServer.WorkDriesUp | src/net/NetSocketServer.cpp:344-375 | in a wait without end the worker takes, after some point, no step but vain header reads |
| SocketServer.WaitsForeverExactly | src/net/NetSocketServer.cpp:344-375 | in every endless run in which the worker thread keeps running, a wait of the controller never ends exactly when from some moment on it is the wait of a stop, the worker stays in processRequest, and all it does is read in vain |
| SocketServer.EndlessWaitIsStop | src/net/NetSocketServer.cpp:242-338 | as long as the worker thread keeps running, a wait that never ends is that of a stop, or of the stop a shutdown begins with |
| SocketServer.OtherWaitsEnd | src/net/NetSocketServer.cpp:242-338 | so in every such run each wait for the start event and for the shutdown event ends |
| SocketServer.StopWaitsOut | src/net/NetHttpSerPost.cpp:85-100 | for every number of vain header reads there is a run in which a stop waits through that many, because a connected client sends no header end |
| SocketServer.StopMayWaitForever | src/net/NetHttpSerPost.cpp:85-100 | and an endless run in which it waits for ever although the worker keeps running |
| SocketServer.StopReturns | src/net/NetSocketServer.cpp:278-304 | a stop that found the server started and returns leaves the worker out of processRequest and the status Stopped |
| SocketServer.StopLasts | src/net/NetSocketServer.cpp:278-304 | and that lasts until the next control, whatever else happens |
| SocketServer.StartReturns | src/net/NetSocketServer.cpp:255-271 | a start that returns leaves the server serving with status Started, or on its way out with Error or Shutdown |
| SocketServer.ControlAchieves | src/net/NetSocketServer.cpp:242-338 | every control that returns has done its work, in every run: a start of a server not started has it serving or on its way out, a stop of a started one has the worker at the trigger, and a shutdown has it gone with nothing pending, unless the server was shut down or in error before |
| SocketServer.ShutdownAbsorbs | src/net/NetSocketServer.cpp:447-454 | once reached, status Shutdown is never left |
| SocketServer.AddAccounted | src/net/NetSocketServer.cpp:457-464 | adding a fresh session keeps the accounts: every added session is pending or claimed once |
| SocketServer.RespondAccounted | src/net/NetSocketServer.cpp:624-633 | a response claims the session it names, if that is pending, so that it is claimed once and pending no more, and nothing else |
| SocketServer.AbortAccounted | src/net/NetSocketServer.cpp:741-749 | aborting claims every pending session in one step |
| SocketServer.StepSessions | src/net/NetSocketServer.cpp:457-482 | every step keeps the accounts |
| SocketServer.RunSessions | src/net/NetSocketServer.cpp:457-482 | so they hold throughout every run |
| SocketServer.QueuedIsPending | src/net/NetSocketServer.cpp:395-399 | a session id handed to queueMessage is pending at that moment and was never handed over before |
| SocketServer.ReadIsQueued | src/net/NetSocketServer.cpp:374-399 | a request whose header was read has, when the worker accepts again, become one new session that was added and handed to a responder |
| SocketServer.RunAddsRead | src/net/NetSocketServer.cpp:374-399 | in every run the sessions added are as many as the requests read, but for one the worker is still at, and so are those handed to responders |
| SocketServer.ClaimedAtMostOnce | src/net/NetSocketServer.cpp:467-482 | pending and claims together account for each added session exactly once, and for no other id, in any run |
| SocketServer.StaysSettled | src/net/NetSocketServer.cpp:316-323 | once the worker is gone and the pending table empty, both stay so |
| SocketServer.ShutdownSettles | src/net/NetSocketServer.cpp:273-323 | in every run, a shutdown that found the server neither shut down nor in error leaves it, when it returns and for good, shut down, its worker gone, nothing pending and every session ever added claimed exactly once |
| Calendar.DaysSoFar | src/lang/Date.cpp:163-168 | each column of the cumulative table lies between 28 and 31 days a month |
| Calendar.MonthOf | src/lang/Date.cpp:399-404 | the month search ends at the only month whose table range contains the day |
| Calendar.MonthFound | src/lang/Date.cpp:399-402 | any month whose range contains the day is the one found |
| Calendar.CountDivides | src/lang/Date.cpp:382-385 | the two truncating divisions land on the year and day a count was made of, except that day 365 on spills into the next quotient |
| Calendar.Decodes | src/lang/Date.cpp:382-410 | from an every-fourth-year count: the date it was made of, the last two days of December in fourth years excepted |
| Calendar.CorrectionDrifts | src/lang/Date.cpp:374-380 | the estimated century correction differs from the exact one by the drift, for every Gregorian date up to year 32767 |
| Calendar.RoundTrip | src/lang/Date.cpp:367-458 | for every valid date of years 1 to 32767, converting to a day number and back gives the date if and only if it is not one `Misread` names: 30 December of fourth years, 4 to 13 October 1582, and the days of centuries the correction drifts on |
| Calendar.JulianRoundTrip | src/lang/Date.cpp:367-458 | the same on the Julian side of the cutover |
| Calendar.GregorianRoundTrip | src/lang/Date.cpp:367-458 | the same on the Gregorian side |
| Calendar.TableMonth | src/lang/Date.cpp:605-608 | for every year from 1 on, the table's month lengths are those of daysInMonth, but for February of Gregorian centuries that are no leap years |
| Calendar.DayNumberAdvances | src/lang/Date.cpp:425-458 | for every date, across the change of calendars and before year 1: the day number advances by one a day as isLeapYear and daysInMonth count, being one low exactly in January and February of non-leap centuries, and before year 1 off by one after February of the years that table and isLeapYear disagree on |
| Calendar.DayNumberCounts | src/lang/Date.cpp:425-458 | over any number of days |
| Calendar.WeekdaysCount | src/lang/Date.cpp:350-353 | for every n, the weekday of the n-th day after Saturday, 1 January of year 1, is the n-th after Saturday if and only if that day is not in January or February of a non-leap century |
| Calendar.CarriedExactly | src/lang/Date.cpp:616-628 | year and month carried in 16 bits are those of the exact sum if and only if the year reached fits and the months wrap by whole multiples of 65536 years |
| Calendar.AddMonthsMoves | src/lang/Date.cpp:612-641 | for every date and count addMonths gives a day that exists; it moves by exactly the months asked, plus the one overflow month when the day does not exist, which then carries over the missing days, if and only if the 16-bit fields hold the sums |
| Calendar.WeeksKeepWeekday | src/lang/Date.cpp:350-353 | moving by whole weeks keeps the weekday |
| Calendar.Date.JulianToWday | src/lang/Date.cpp:350-353 | sets the weekday of the day number, which WeekdaysCount ties to a plain count of days |
| Calendar.Date.MdyToJulian | src/lang/Date.cpp:425-458 | sets the unsigned day number, wrapped for dates before day 0, and its weekday as the specification says, years before 1 included |
| Calendar.Date.FindMonth | src/lang/Date.cpp:399-402 | the loop ends at the month of the specification, inside the table |
| Calendar.Date.CountFromJulian | src/lang/Date.cpp:373-380 | the head of the conversion is the specification's count |
| Calendar.Date.SplitYears | src/lang/Date.cpp:382-385 | quotient and remainder of the reduced count |
| Calendar.Date.SplitDays | src/lang/Date.cpp:387-408 | year, month and day as specified, with month and day in range of a short |
| Calendar.Date.JulianToMdy | src/lang/Date.cpp:367-413 | sets all fields from the day number as the specification says, the year cut to 16 bits |
| Calendar.Date.FromFields | src/lang/Date.cpp:195-205 | fields, day number and weekday agree |
| Calendar.Date.FromNumber | src/lang/Date.cpp:187-191 | fields are those of the day number |
| Calendar.Date.CarryMonths | src/lang/Date.cpp:618-628 | both loops end with the month in range and year and month carried exactly, with 16-bit wrap-around of the year |
| Calendar.Date.ShiftMonths | src/lang/Date.cpp:614-636 | month, year and day become those of the specification's month arithmetic |
| Calendar.Date.AddMonths | src/lang/Date.cpp:612-641 | is the specification's month arithmetic and renews day number and weekday |
| Calendar.Date.AddWeeks | src/lang/Date.cpp:645-649 | moves the day number by whole weeks and renews the fields |
| Calendar.Date.MoveTo | src/lang/Date.cpp:249-255 | from a given day, lands on the wanted weekday inside the wanted week |
| Calendar.Date.NthWeekday | src/lang/Date.cpp:230-257 | lands on the wanted weekday inside the n-th seven days of the month, or, for 0, inside the seven days before the next month, whenever there is such a day number |
| DayNumbers.ReadsAs | src/lang/Date.cpp:367-413 | the date a day number is read as: its day of the table, moved by the drift of the century correction, the last two days of fourth years merged |
| DayNumbers.NextStart | src/lang/Date.cpp:425-458 | a year of day numbers is the table's year or one day shorter |
| DayNumbers.NumberSurvives | src/lang/Date.cpp:367-458 | a day number comes back from its date if and only if its day is not 30 December of a fourth year and no day the correction drifts on |
| DayNumbers.EveryNumberIsADay | src/lang/Date.cpp:367-458 | every day number of years 1 to 32767 is that of some day of the table |
| DayNumbers.NumberRoundTrip | src/lang/Date.cpp:367-458 | so for every such number: converting it to a date and back gives it if and only if its day survives |
| DayNumbers.NumberInMonth | src/lang/Date.cpp:367-413 | the number k days after the first of a month is read as its day k + 1 shifted by the drift, or by the ten skipped days of October 1582 |
| DayNumbers.NthWeekdayDate | src/lang/Date.cpp:230-257 | for every month of years 1 to 32767 and weeks 1 to 4: the date left is the very day counted to if and only if nothing shifts it, and one of the n-th seven days of that month if and only if the shift keeps it there |
| DayNumbers.NthWeekdayOf | src/lang/Date.cpp:230-257 | the constructor for the n-th weekday leaves that date, on the wanted weekday |
| EarlyDates.EarlyNumber | src/lang/Date.cpp:425-446 | dates before year 1, from 4713 BC on, have day numbers from 0 on, by the row of the table for the following year |
| EarlyDates.EarlyDivides | src/lang/Date.cpp:382-385 | where the two truncating divisions land on such a number: a day too late but in leap years |
| EarlyDates.EarlyDecodes | src/lang/Date.cpp:367-410 | so the date such a number is read as |
| EarlyDates.EarlyRoundTrip | src/lang/Date.cpp:367-458 | a date of the years 4713 to 1 BC comes back from its day number if and only if it lies in January or February of a leap year or of the first year, or is the last day of a leap year |
| EarlyDates.FirstYearFirst | src/lang/Date.cpp:425-458 | a date before year 1 has a non-negative day number if and only if it is not before 4713 BC |
| EarlyDates.YearZero | src/lang/Date.cpp:431-434 | a year 0, which there is not, counts as 1 BC |
| ByteCodecs.BytesRoundTrip | h/ser/SerOutputters.h:91-106 | the bytes of an integer that fits its width spell that integer |
| SerialFailures.ValueJoins | h/ser/SerInputters.h:94-105 | bytes further on weigh 256 times as much each |
| ByteCodecs.NativeUndoes | h/ser/SerInputters.h:91-106 | reading a native value undoes writing it, leaves the bytes after it, and fails on any part of it |
| ByteCodecs.StringUndoes | h/ser/SerInputters.h:167-194 | reading a written string leaves its characters and one NUL, or the old target for an empty one, and the bytes after it; any part of it fails the stream |
| Serialization.HeaderReads | h/ser/SerUtils.h:248-270 | a written prologue reads back as its count |
| Serialization.HeaderNeedsAll | h/ser/SerUtils.h:248-270 | part of a prologue fails the stream |
| Serialization.ItemsRoundTrip | h/ser/SerUtils.h:285-295 | elements written in turn read back in turn, each merged into its slot |
| Serialization.VectorRoundTrip | h/ser/SerUtils.h:234-299 | reading a written vector merges element by element, into the old slots or after the old contents, and leaves exactly the trailing bytes |
| Serialization.VectorRestores | h/ser/SerUtils.h:234-299 | for elements that overwrite their target: the vector itself, or the old one with it appended |
| Serialization.VectorNeedsAll | h/ser/SerUtils.h:234-299 | every strict prefix of a written vector leaves the stream failed |
| Serialization.StringVectorRestores | h/ser/SerInputters.h:173-193 | vectors of strings come back as written if and only if every string is empty and read over an empty one; otherwise exactly what each slot holds |
| Serialization.EntriesRoundTrip | h/ser/SerUtils.h:610-628 | for any element types: map entries written in turn are read in turn, each key merged into a fresh one and its value into the slot of the key that results |
| Serialization.MapRoundTrip | h/ser/SerUtils.h:566-632 | reading a written map merges its entries into the map read into, and leaves exactly the trailing bytes |
| Serialization.LaidApart | h/ser/SerUtils.h:610-628 | as long as no two keys are read as the same key: each slot holds the merged value, nothing else is added, and untouched entries stay |
| Serialization.MapRestores | h/ser/SerUtils.h:566-632 | keys and values that overwrite their target: the map itself, or laid over the old one, and exactly the trailing bytes |
| Serialization.StringMapRestores | h/ser/SerStdLib.h:247-271 | every map with string keys, whatever its values: it comes back with a NUL after every non-empty key, and as written if and only if it has no key but the empty one, with a value that survives being read into a new slot |
| Serialization.MapNeedsAll | h/ser/SerUtils.h:566-632 | for any element types, string keys included, every strict prefix of a written map leaves the stream failed |
| SerialFailures.VectorRefused | h/ser/SerUtils.h:248-263 | bytes that do not start with 00 01 BE BE fail the stream and leave the vector read into as it was |
| SerialFailures.MapRefused | h/ser/SerUtils.h:579-594 | the same for maps and 00 02 BE BE |
| SerialFailures.MapIsNoVector | h/ser/SerUtils.h:248-263 | no written map is read as a vector, whatever its entries and whatever follows |
| SerialFailures.VectorIsNoMap | h/ser/SerUtils.h:579-594 | and no written vector as a map |
| SerialFailures.VectorBreaksOff | h/ser/SerUtils.h:282-296 | a written vector that breaks off inside an element fails the stream with the elements before it read and the slots behind it as they were |
| SerialFailures.MapBreaksOff | h/ser/SerUtils.h:607-628 | a written map that breaks off inside an entry fails the stream with the entries before it read; only the slot of that entry may have come into being or changed, and only if its key was whole |
| SerialFailures.NativeCut | h/ser/SerInputters.h:94-105 | a native value cut short takes the place of the first bytes of its target |
| SerialFailures.StringCut | h/ser/SerInputters.h:173-193 | a string cut short has its full length already: what came, then the old contents, then NULs |
| SerialStreams.OutStream.Write | h/ser/SerOutputters.h:98-104 | a write puts all its bytes or fails the stream after some prefix of them |
| SerialStreams.InStream.Read | h/ser/SerInputters.h:98-104 | a read takes all its bytes or fails and exhausts the stream |
| SerialStreams.WriteHeader | h/ser/SerUtils.h:197-208 | sentinel and count, or a prefix of them on a failed stream |
| SerialStreams.WriteVector | h/ser/SerUtils.h:184-223 | puts exactly the vector's encoding; on failure a prefix of it, and nothing on a stream that had failed |
| SerialStreams.ReadInto | h/ser/SerUtils.h:285-295 | fills the slots in order until done or failed |
| SerialStreams.ReadVector | h/ser/SerUtils.h:234-299 | leaves vector, stream and its state as specified, bad sentinel and truncation included |
| SerialStreams.WriteMap | h/ser/SerUtils.h:509-555 | puts exactly the map's encoding, or a prefix of it on failure |
| SerialStreams.ReadPairs | h/ser/SerUtils.h:610-628 | fills the slots key by key until done or failed |
| SerialStreams.ReadMap | h/ser/SerUtils.h:566-632 | leaves map, stream and its state as specified, bad sentinel and truncation included |
| SerialStreams.NativeVectorSize | h/ser/SerUtils.h:156-175 | the size counted for native vectors is the number of bytes written |
| SerialStreams.StringsSize | h/ser/SerCounters.h:196-225 | the bytes counted for strings are those written |
| SerialStreams.StringVectorSize | h/ser/SerUtils.h:156-175 | so is the size of string vectors |
| SerialStreams.GetMapSize | h/ser/SerUtils.h:474-500 | the size counted for maps, from counters exact on elements, is the number of bytes written |
| SerialStreams.NativeMapSize | h/ser/SerStdLib.h:118-124 | the size counted for maps from strings to native values is the number of bytes written |
| SerialStreams.StringMapSize | h/ser/SerStdLib.h:117-117 | so is that of maps from strings to strings |
| Tokenizer.FindFirstOf | h/util/UtilStringTokenizer.h:161-161 | the first delimiter from a position on, or npos when there is none |
| Tokenizer.NoDelimiterOneField | h/util/UtilStringTokenizer.h:132-147 | text without delimiters is one field |
| Tokenizer.FieldsAtDelimiter | h/util/UtilStringTokenizer.h:132-147 | fields of a text around a delimiter are the fields of its two sides: with the previous row this determines what splitting means |
| Tokenizer.KeptTokens | h/util/UtilStringTokenizer.h:148-201 | without skipping, the tokens are the fields but for an empty one at the end |
| Tokenizer.SkippedTokens | h/util/UtilStringTokenizer.h:148-201 | with skipping, the fields with text, after an empty first one if the text starts with a delimiter |
| Tokenizer.TailFrom | h/util/UtilStringTokenizer.h:167-195 | from the start of a token, the tokens are that one and those after its delimiter |
| Tokenizer.StringTokenizer.constructor | h/util/UtilStringTokenizer.h:83-96 | a new tokenizer has all tokens of the string before it |
| Tokenizer.StringTokenizer.Locate | h/util/UtilStringTokenizer.h:153-192 | the loop ends with the two positions at the next token, or past the end |
| Tokenizer.StringTokenizer.Advance | h/util/UtilStringTokenizer.h:148-201 | finds out whether a token is left and consumes none |
| Tokenizer.StringTokenizer.HasMoreTokens | h/util/UtilStringTokenizer.h:107-110 | true exactly when tokens remain; asking again changes nothing |
| Tokenizer.StringTokenizer.GetNextToken | h/util/UtilStringTokenizer.h:117-130 | returns and consumes the first remaining token, or the empty string when none remains |
| Tokenizer.AllTokens | h/util/UtilStringTokenizer.h:107-130 | the client loop ends on every string; without skipping it yields the fields less a trailing empty one, with skipping the non-empty fields, after one empty token if the string starts with a delimiter |
| FormEncoding.EncodeCharDecodes | src/net/NetHttpUtils.cpp:212-260 | each encoded character decodes to itself, '+' to a space, whatever follows |
| FormEncoding.UrlRoundTrip | src/net/NetHttpUtils.cpp:180-260 | decoding an encoded 7-bit text gives it with every '+' a space; encoded text has no '&' and no '=' |
| FormEncoding.PlusToSpaceIs | src/net/NetHttpUtils.cpp:193-195 | so it is unchanged exactly when it has no '+' |
| FormEncoding.SentAsIs | src/net/NetHttpUtils.cpp:216-260 | a 7-bit text is sent as it is if and only if it has only letters, digits and $-_.+!*'(), |
| FormEncoding.EscapeReads | src/net/NetHttpUtils.cpp:166-174 | an escape is read by the places of its two characters in the digit table, letters in either case, the NUL behind the table included |
| FormEncoding.EscapeFails | src/net/NetHttpUtils.cpp:166-174 | an escape with any other character has no value |
| FormEncoding.DanglingPercent | src/net/NetHttpUtils.cpp:197-205 | a percent sign without two characters after it is dropped |
| Collections.IndexOf | src/util/UtilStringUtils.cpp:601-627 | a split is at the first occurrence of its character |
| FormEncoding.BodyFields | src/net/NetHttpContent.cpp:181-199 | a generated body, cut at '&', is exactly its pairs |
| FormEncoding.BodyTokens | src/net/NetHttpContent.cpp:634-638 | so are the tokens setRequestBody sees |
| FormEncoding.PairParses | src/net/NetHttpContent.cpp:638-648 | a generated pair parses to its key and value, '+' as space |
| FormEncoding.FormReads | src/net/NetHttpContent.cpp:625-650 | what any 7-bit form comes back as |
| FormEncoding.FormRoundTrip | src/net/NetHttpContent.cpp:625-650 | a form of 7-bit pairs comes back unchanged if and only if no key and no value contains '+' |
| FormEncoding.EncodeUrl | src/net/NetHttpUtils.cpp:212-260 | the encoding loop computes the specified text |
| FormEncoding.DecodeUrl | src/net/NetHttpUtils.cpp:180-208 | the decoding loop computes the specified text wherever it is defined |
| FormEncoding.HttpContent.AppendPair | src/net/NetHttpContent.cpp:191-196 | appends encoded key, '=' and encoded value |
| FormEncoding.HttpContent.GenerateBody | src/net/NetHttpContent.cpp:174-203 | the body of a form, or the stored body |
| FormEncoding.HttpContent.AddPair | src/net/NetHttpContent.cpp:636-648 | one token changes the queries as specified; without '=' not at all |
| FormEncoding.HttpContent.SetRequestBody | src/net/NetHttpContent.cpp:625-655 | the loop leaves the queries as specified; a body that is no form is stored |
| HttpFraming.FindEnd | src/net/NetHttpSerPost.cpp:89-89 | the first blank line from a position on, or none |
| HttpFraming.EndReached | src/net/NetHttpSerPost.cpp:85-100 | what was read holds a blank line exactly when it reaches the end of the first one of the stream, and it is that one |
| HttpFraming.ReceiveTakes | src/net/NetSocket.cpp:275-316 | without NULs a read appends exactly what it takes off the stream, in whatever pieces that arrives |
| HttpFraming.HeaderReadIs | src/net/NetHttpSerPost.cpp:85-100 | the header loop stops with exactly the text no longer on the stream, the blank line in it; it fails exactly when a read fails before that, empty reads tolerated |
| HttpFraming.BodyReadIs | src/net/NetHttpSerPost.cpp:131-146 | the body loop succeeds exactly when the missing characters come without a failing or empty read, and then appends exactly those |
| HttpFraming.AnswerIs | src/net/NetHttpSerPost.cpp:103-165 | on every NUL-free stream and every behaviour of the network the server serves what the stream frames if the reads deliver it, and rejects otherwise, parseBody's length check included |
| HttpFraming.SegmentationMatters | src/net/NetSocket.cpp:275-316 | for every stream, NULs included: all ways of cutting it into pieces show the reader the same text if and only if nothing but NULs follows its first NUL |
| HttpFraming.NulAnswersDiffer | src/net/NetHttpSerPost.cpp:103-165 | and it decides answers: one stream with a NUL is rejected in one cut and served in another |
| HttpFraming.RejectedUnlessDelivered | src/net/NetHttpSerPost.cpp:103-165 | a framed request is rejected if and only if a read fails before the blank line, or a body read fails or comes back empty before the announced length is there |
| HttpFraming.SegmentationIrrelevant | src/net/NetHttpSerPost.cpp:103-165 | any two ways of cutting a stream into pieces that deliver it give the same header and body |
| HttpFraming.FlowingDelivers | src/net/NetHttpSerPost.cpp:103-165 | a framed request is delivered whenever its characters keep flowing, in pieces of any sizes |
| HttpFraming.SilenceChangesNothing | src/net/NetHttpSerPost.cpp:85-100 | any number of empty reads before the header changes nothing |
| HttpFraming.ClosedIsRejected | src/net/NetSocket.cpp:260-317 | a socket that was closed gives no request, whatever would still arrive |
| HttpFraming.Socket.Read | src/net/NetSocket.cpp:260-317 | the loop takes piece after piece until enough, silence, shutdown or failure, and leaves count, buffer and socket as specified, NULs and partial failure included |
| HttpFraming.Socket.Stop | src/net/NetSocket.cpp:288-302 | nothing more arrives: silence keeps the socket open, shutdown and failure close it, and only failure is an error |
| HttpFraming.GetHttpHeader | src/net/NetHttpSerPost.cpp:85-100 | ends on every finite behaviour of the network with the text and socket of the specification, or its failure |
| HttpFraming.CompleteBody | src/net/NetHttpSerPost.cpp:125-153 | the body of the specification for the announced length, or its failure |
| HttpFraming.ReadRequest | src/net/NetHttpSerPost.cpp:103-165 | the answer of the specification, on every stream and every behaviour of the network |
| HttpFraming.HeaderEnds | src/net/NetHttpSerPost.cpp:113-115 | header text followed by a blank line is cut there if and only if it holds no blank line itself and does not end in a line end |
| HttpFraming.FramedIs | src/net/NetHttpSerPost.cpp:103-165 | a closed header is framed with as many characters as it announces, whatever follows, and rejected when it announces more than there are or fewer than none |
| HttpFraming.FramedRoundTrip | src/net/NetHttpSerPost.cpp:103-165 | a well-formed message is framed as it was put together, whatever follows it on the stream |
| HttpHeaders.ToIntUndoes | src/util/UtilStringUtils.cpp:110-170 | reading a printed int gives it back, negative ones included |
| HttpHeaders.GenerateHeader | src/net/NetHttpContent.cpp:280-297 | the loop puts each field on a line of its own |
| HttpHeaders.FieldParses | src/net/NetHttpContent.cpp:466-523 | a generated header line parses to its key and value, trimmed |
| HttpHeaders.JoinedTokens | src/net/NetHttpContent.cpp:316-322 | lines joined by line ends are the tokens parseHeader sees |
| HttpHeaders.JoinedIsClosed | src/net/NetHttpContent.cpp:158-222 | joined lines hold no blank line and do not end in a line end |
| HttpHeaders.CommandIsParsed | src/net/NetHttpContent.cpp:369-457 | a generated command line parses |
| HttpHeaders.HeaderParses | src/net/NetHttpContent.cpp:308-360 | a generated header parses to exactly its fields, trimmed, and then the length |
| HttpHeaders.LengthReads | src/net/NetHttpContent.cpp:206-210 | whatever fields are sent, a Content-Length of their own included, the length read is the int printed last |
| HttpHeaders.RequestRoundTrip | src/net/NetHttpContent.cpp:158-222 | a generated request, whatever follows it on the stream, is framed with its own header and body if and only if the length of the body fits the int it is printed from |
| HttpHeaders.FormAnnounced | src/net/NetHttpContent.cpp:480-486 | a generated header is recognized as a form's if and only if one of its fields spells Content-Type, in any case, and names the form type |
| HttpHeaders.FormRequestRoundTrip | src/net/NetHttpContent.cpp:158-222 | for a generated request with a form body on any connection, the map the server reads of it is the 7-bit map it was generated from if and only if its fields announce a form, the reads deliver it, and no key and no value contains '+' |
| HttpHeaders.CaselessSpells | src/util/UtilStringUtils.cpp:86-95 | field names are the same exactly when they agree letter by letter, upper or lower case 32 codes apart |
| HttpRequests.LookupFinds | src/net/NetHttpContent.cpp:466-475 | looking up a name finds the value of the last field that spells it, in any case |
| HttpRequests.LookupFails | src/net/NetHttpContent.cpp:466-475 | and nothing when none does |
| HttpRequests.TrimIs | src/util/UtilStringUtils.cpp:549-597 | trimming takes exactly the spaces at both ends |
| HttpRequests.NumberReads | src/util/UtilStringUtils.cpp:161-169 | a number is read off the front of a text: blanks, a sign or none, digits up to the first other character |
| HttpRequests.NoNumberReads | src/util/UtilStringUtils.cpp:161-169 | a text that starts with none of these is read as 0 |
| HttpRequests.PrintedPlainly | src/util/UtilStringUtils.cpp:109-125 | numbers are printed without leading zeros, and signed only if negative |
| HttpRequests.ContainsHolds | src/net/NetHttpContent.cpp:482-486 | finding a text is that text occurring |
| HttpRequests.CommandTaken | src/net/NetHttpContent.cpp:369-457 | a command line of words is taken exactly if it is POST, a path and a word with a slash, or a word that starts with HTTP and has a slash, and one more |
| HttpRequests.ColonNeeded | src/net/NetHttpContent.cpp:466-523 | a header line without a colon fails |
| HttpRequests.LineReads | src/net/NetHttpContent.cpp:466-523 | any other is split at its first colon and trimmed, and fails exactly when it announces a content type whose parameter has no equals sign |
| HttpRequests.FieldsFail | src/net/NetHttpContent.cpp:333-348 | one failing line fails the header |
| HttpRequests.WrittenParses | src/net/NetHttpContent.cpp:308-360 | a command and fields written on lines parse to exactly the fields, trimmed, if the command is taken |
| HttpRequests.RequestFramed | src/net/NetHttpSerPost.cpp:103-165 | a request, however its client spells the names of its fields, is framed with as many characters as the last Content-Length announces, 0 without one, and rejected exactly when its command is not taken or there are fewer |
| HttpRequests.FormRecognized | src/net/NetHttpContent.cpp:480-486 | its body is taken for a form's if and only if a field that spells Content-Type, in any case, holds the form type |
| RefCounting.World.constructor | h/util/UtilRefCountedPtr.h:115-124 | the empty world satisfies the invariant |
| RefCounting.World.Register | h/util/UtilRefCountedPtrInlines.h:77-86 | a new counter's pointee is owned by it alone |
| RefCounting.World.Retire | h/util/UtilRefCountedPtrInlines.h:278-282 | the pointee of a freed counter is deleted, and that once |
| RefCounting.Handle.Release | h/util/UtilRefCountedPtrInlines.h:272-286 | drops one reference; the last one deletes pointee and counter, once; no handle is left on a freed counter |
| RefCounting.Handle.Acquire | h/util/UtilRefCountedPtrInlines.h:261-270 | adds one reference, and counts stay exact |
| RefCounting.Handle.Adopt | h/util/UtilRefCountedPtrInlines.h:115-124 | takes a fresh counter of one on a pointee |
| RefCounting.Handle.FromPointer | h/util/UtilRefCountedPtrInlines.h:77-86 | a new handle on a pointer not adopted before; none for null |
| RefCounting.Handle.Copy | h/util/UtilRefCountedPtrInlines.h:94-99 | a new handle on the same pointee |
| RefCounting.Handle.Assign | h/util/UtilRefCountedPtrInlines.h:101-113 | refers to the other's pointee afterwards, self-assignment and shared counters included |
| RefCounting.Handle.AssignPointer | h/util/UtilRefCountedPtrInlines.h:115-127 | refers to the pointer afterwards; nothing changes if it already did |
| RefCounting.Handle.Destroy | h/util/UtilRefCountedPtrInlines.h:88-92 | the handle is gone and the invariant holds without it |
| RefCounting.CountsHandles | h/util/UtilRefCountedPtrInlines.h:261-286 | each counter equals the number of handles on it |
| RefCounting.DeletedWhenUnreferenced | h/util/UtilRefCountedPtrInlines.h:272-286 | an adopted pointee is undeleted exactly while some handle refers to it, and never deleted twice |
| RotatingLog.Printed | src/log/LogStdFileImpl.cpp:285-285 | of a message only what precedes its first NUL is written |
| RotatingLog.WriteExtendsKept | src/log/LogStdFileImpl.cpp:283-286 | a written line becomes the last line kept |
| RotatingLog.RotateDropsOldest | src/log/LogStdFileImpl.cpp:288-306 | moving on loses exactly the lines of the oldest file |
| RotatingLog.WriteStacks | src/log/LogStdFileImpl.cpp:283-288 | writing to a file within the limit keeps every file within the limit before its last line |
| RotatingLog.TurnSettles | src/log/LogStdFileImpl.cpp:288-306 | moving on from a full file leaves n-1 files full behind the new empty one, and before the first wrap drops an empty file |
| RotatingLog.FileLog.constructor | src/log/LogStdFileImpl.cpp:186-211 | empty files satisfy the invariant |
| RotatingLog.FileLog.Rotate | src/log/LogStdFileImpl.cpp:288-306 | the next file of the ring, emptied, becomes current; invariant kept |
| RotatingLog.FileLog.WriteLogEntry | src/log/LogStdFileImpl.cpp:277-309 | accepts exactly the lines of the configured levels; what the ring holds stays a suffix of the accepted lines, everything until the first wrap; files left behind exceed the limit |
| RotatingLog.NewestIsOne | src/log/LogStdFileImpl.cpp:214-230 | the first of the files modified last is unique |
| RotatingLog.RestartSettles | src/log/LogStdFileImpl.cpp:233-261 | a new run that continues the ring keeps the whole invariant |
| RotatingLog.RestartKeepsExactly | src/log/LogStdFileImpl.cpp:201-261 | a new run keeps the most recent lines if and only if the file it judges newest is the current one, or the current one was just emptied after that; a tie in whole seconds otherwise loses lines |
| RotatingLog.TieLosesLines | src/log/LogStdFileImpl.cpp:201-261 | the losing case arises: in a ring in order and untouched, with a tie in whole seconds, a new run does not keep the most recent lines |
| RotatingLog.FileLog.Reopen | src/log/LogStdFileImpl.cpp:186-262 | whatever the files hold by then: a missing first file is started, else the file judged newest is opened while it has room, or the next one emptied; when the files are untouched and this continues the ring, the invariant lives on |
| RotatingLog.ChooseFile | src/log/LogStdFileImpl.cpp:201-261 | of the files present the first modified last is reopened while it has room, else the one after it is emptied; a missing first file is started |
| RotatingLog.AtMostOneLineOver | src/log/LogStdFileImpl.cpp:288-306 | no file exceeds the limit by more than its last line |
| RotatingLog.KeepsEnough | src/log/LogStdFileImpl.cpp:277-309 | the ring holds all accepted lines, or their most recent at least (n-1) times the limit characters |

## Left out

- Heap::build, the Heap copy constructor, first/next and the printing functions are not modelled: build counts down the wrong variable, and a copied heap keeps iterators into the vector it was copied from (h/util/UtilHeapInlines.h:91-98, 203-210).
- IndexedHeap.Heap.Pop: requires a non-empty heap, because front() of an empty vector is undefined.
- Scheduler: the worker threads that execute handed-over items, and clock conversions; the current time is a parameter, and the wake-up event is auto-reset.
- BlockingQueue: timed waits, failures of the operating system other than an interrupted wait (returning and being uncounted is one step there), the Windows semaphore, isDown, and size (ThdDeque::size never returns the length, h/thd/ThdDeque.h:197-206).
- BlockingQueue.ShutdownReleases: the header promises the release outright (h/thd/ThdSemaphore.h:105), which LostWakeup shows false; this is the release under the condition that AbandonReleasesExactly proves exact.
- BlockingQueue.ShutdownStrands: likewise the other side of that promise, which counts the threads that are not released.
- SocketServer: failing waits, the client side (sendRequest, abortAllClientPosts), several controllers at once, wrap-around of the session counter, and the content of requests and replies; responders answer only ids they were given.  When listening fails the worker leaves without aborting posts still pending.
- Calendar.Date.AddWeeks: for moves to day numbers whose successor a signed long holds, as JulianToMdy and FromNumber; beyond, a wrapped number included, the conversion indexes the month table with a negative number, undefined in the code.
- Calendar.Date.MoveTo: for the same reason the day it moves to must have a day number.
- Calendar.Date.NthWeekday: likewise the first day counted from and the day reached must have day numbers, so that the weeks just after day number 0 and the last weekday of December 32767, after which the year wraps, are included only as far as they do.
- Calendar: isDST, addYears and the week-of-year functions, and Date::set for a weekday, whose test differs from the constructor's (src/lang/Date.cpp:595 against 252); `int` and signed `long` are unbounded, `unsigned long` has 64 bits, 16-bit fields wrap.
- Calendar.RoundTrip: for years 1 to 32767, as DayNumbers.NumberRoundTrip; EarlyDates.EarlyRoundTrip is the one before year 1.  The repository's comments suggest conversions that undo each other; the code misreads the dates `Misread` lists, so the law is an equivalence.
- Serialization: iSerializable elements, wide strings (h/ser/SerInputters.h), pointer vectors and sets; a string has one byte a character; the byte order is little-endian and size_t has 8 bytes; a vector resize too large to allocate; an element is written or read as one operation of its stream.
- SerialStreams.OutStream.Write: a failing write puts nothing in the model, any prefix by its contract.
- Tokenizer: the mode that matches the whole pattern, which makes no progress on a string that starts with it (h/util/UtilStringTokenizer.h:181-188).
- FormEncoding.EncodeUrl: for 7-bit text; a character from 128 on is a negative index into the digit table, undefined in the code.
- FormEncoding.DecodeUrl: for text whose escapes are hexadecimal, or end in NULs, which the digit search finds; any other is a difference of null pointers in the code, and `UrlDecode` yields nothing for it.  AddPair and SetRequestBody inherit this.
- HttpFraming.AnswerIs: for streams without NUL characters; the socket drops what follows a NUL in a piece.  For which streams the cut then matters is SegmentationMatters, and that answers can differ NulAnswersDiffer.
- HttpFraming: the network's behaviour is a finite script, at whose end the connection breaks; sending the 400 reply is left out.
- HttpHeaders.FormRequestRoundTrip: for form bodies of fewer than 2^31 characters; from there on the generated length is not the body's (RequestRoundTrip), and what such a request's truncated form parses to is left open.  `atoi` beyond the range of an int is unbounded here.
- HttpHeaders.HeaderParses: for fields a line can carry (no line ends, no ':' in a key, something but spaces in key and value; trimming a text of spaces is undefined in the code); the effect of a content type on the stored one, response codes and header lookups other than the length are left out.
- RefCounting.Handle.FromPointer: the pointer was not adopted before, as is AssignPointer's unless the handle holds it already; adopting one twice deletes it twice.
- RefCounting: concurrent counting, pointee destructors that touch handles, REFCOUNTED_CAST, and the comparison operators.
- RotatingLog.RestartKeepsExactly: its `only if` takes accepted lines to be distinct, so that the wrong lines cannot look right.
- RotatingLog: configuration, file names, I/O errors and clocks; file sizes and ages are parameters of ChooseFile, sizes unbounded.
- Not modelled at all, as thin or resting on foreign libraries: XML, RPC client and dispatcher, factories, configuration, threads and critical sections themselves.

# Ham, verified

Ham is a C++11 reactor library in the style of muduo; it carries its own copies of
spdlog, fmt and a Boost thread pool. This project models the parts of it that are hard
to get right and proves what they promise, in Dafny 4.11. `dafny verify dfyconfig.toml`
checks everything.

| file | what it models |
|---|---|
| `Words.dfy`, `Columns.dfy`, `Bigint.dfy` | fmt's arbitrary-precision integer: 32-bit bigits with a shared exponent, updated in place |
| `FixedDigits.dfy`, `FallbackFormat.dfy` | fixed-precision decimal output of a binary floating-point number |
| `Threads.dfy`, `EventLoop.dfy`, `BoundedQueue.dfy`, `Pool.dfy` | concurrent protocols as atomic steps of any number of threads |
| `TimerQueue.dfy`, `TcpConnection.dfy`, `Epoll.dfy` | the reactor's state machines |
| `Integers.dfy`, `Buffer.dfy`, `HttpSyntax.dfy`, `HttpContext.dfy` | the byte buffer, typed integers and the incremental HTTP parser |
| `RotatingSink.dfy`, `CircularQ.dfy` | the rotating log files and the ring behind the asynchronous logger |

## Main results

**Decimal output is correctly rounded.** `FallbackFormat.FallbackFixed` runs the whole
fixed-digit path of `fallback_format`: three set-up branches, powers of ten by squaring,
division by repeated subtraction, the carry loop on characters. For every significand,
exponent and number of digits the text denotes the value rounded half to even, and it is
the only text of that length that does (`FallbackFormat.RoundedUnique`). On the way two
flaws of the building blocks are pinned down exactly:

- `compare` decides ties by stored length, so two equal values with different exponents
  (a *hidden tie*) compare as unequal. `divmod_assign` is wrong for exactly that family,
  and digit generation is wrong if and only if it meets one before its last digit
  (`FixedDigits.DigitsCorrectIff`). `FallbackFormat.NeverHidden` shows that the operands
  `fallback_format` builds never meet one.
- `subtract_aligned` does not advance in its borrow loop. It is exact if and only if the
  borrow stops at the first bigit above the overlap; `divmod_assign` never leaves that
  range when the quotient fits an int.

**Protocols.** In every interleaving of the event loop with its producers the functors run
so far are a prefix of those queued, none twice; functors still pending when the loop
stops do not run. No wakeup is lost except for functors queued on the loop thread
before `loop()` starts; `EventLoop.EarlyQueueIsLost` says exactly, over all runs, when
those are safe. The two bounded queues never strand a waiter, whether they notify before
or after unlocking. The thread pool's active count is exact in every state, so `wait(k)`
returns only with at most k tasks unfinished. The one step that can leave a thread asleep
in `wait` with nobody on the way to notify it is `clear()` on a pool without workers; with
a live worker the notification still comes, though for k > 0 possibly late
(`Pool.OverdueIff`).

**State machines.** No timer is forgotten and cancelled timers never come back, whatever
callbacks add or cancel during a batch; a timer cancelled by an earlier callback of its
own batch still runs that once, and no other cancelled timer does. With expirations after
the epoch the alarm is never late. A connection's wire bytes followed by its output buffer
are the accepted messages in order, and `TcpConnection.ForceCloseIff` says exactly when
`forceClose()` is sure to work. The epoll registry agrees with the kernel after every
call, and no kernel call is refused.

**Data.** The gap buffer refines a byte sequence, HTTP parsing inverts rendering, and for
a request in any number of arrivals the harmless cuts are characterised exactly; the
rotating files are a suffix of the log, and the ring is a bounded queue that drops its
oldest item.

## Reading the model

- Sequential objects are classes with the source's fields; a `Valid()` predicate and a
  ghost abstract value tie them to specification functions. Concurrent protocols are
  step machines on values: a step is one region under the mutex, or one system call.
- A bigint's `|` of disjoint halves and `exp & bitmask` are written as arithmetic.
  `basic_memory_buffer::move` (thirdParty/spdlog/fmt/bundled/format.h:682-697) copies the
  contents and leaves the moved-from size, which is why `square` can read it afterwards.
- System calls are parameters or environment steps: what `write` took, whether a rename
  succeeded, which events epoll reports. Writes to the eventfd, `timerfd_settime` and
  legal `epoll_ctl` calls succeed. All clock readings are integers on one clock.
- A timer is identified by its serial number, which also breaks ties in the ordered set
  where the source uses the address.

## Where the code and its intent differ

The model follows the code.

- `sendInLoop` appends only inside the branch that found the connection idle, so a message
  sent while output is waiting is dropped (ham/net/TcpConnection.cc:206-255).
- `shutdownInLoop` sets the state to disconnected, after which `forceClose` and a queued
  `forceCloseInLoop` do nothing (ham/net/TcpConnection.cc:62-69, 258-275). A write that
  drains the buffer, a queued shutdown or a queued send can come in between.
- `destoryConnection` on a connection that is disconnecting, or disconnected by a shutdown,
  calls `remove()` with read interest on, against its assertion
  (ham/net/TcpConnection.cc:48-60, ham/net/Epoller.cc:98).
- `getExpired` steps past one entry equal to `now`; with two such timers its assertion
  fails (ham/net/TimerQueue.cc:164-166). The alarm is not late even then.
- A request line with a known method but no second space, or with nothing after it, makes
  `std::string` throw on a negative range (ham/net/http/HttpContext.cc:85-86); that outcome
  is `Thrown`, and `HttpSyntax.ThrowsIff` is its exact condition.
- `disableAll()` on a channel without events adds it back to the kernel set with an empty
  mask (ham/net/Epoller.cc:57-72).
- A push on a default-constructed ring is silently ignored
  (thirdParty/spdlog/details/circular_q.h:51-52).
- An arrival that ends inside the request line is reported as an error rather than as
  "more to come" (ham/net/http/HttpContext.cc:19), and one that ends inside the body is
  taken for the whole request (ham/net/http/HttpContext.cc:53-59).
- `HttpContext::reset` restores neither the parse state nor query and body
  (ham/net/http/HttpContext.h:30-35, ham/net/http/HttpRequest.h:57-65), so one context does
  not serve a second request.
- A timer cancelled by an earlier callback of its own batch still runs in that batch
  (ham/net/TimerQueue.cc:108-111); one cancelled before its queued insertion is not
  cancelled (ham/net/TimerQueue.cc:86-96).
- Neither `clear()` nor a worker that fetches a task notifies threads in `wait`
  (pool_core.hpp:219-223, 433-434 under
  benchmarks/threadPool_benchmark/threadpool/detail).

## Model

| member | source | states |
|---|---|---|
| `Columns.ValProduct` | thirdParty/spdlog/fmt/bundled/format-inl.h:1423-1440 | the column coefficients of a schoolbook product denote the product of the two numbers, for any lengths |
| `Columns.ProductIsColumns` | thirdParty/spdlog/fmt/bundled/format-inl.h:1424-1428 | column k of the product is the sum of the cross products n[i] * n[k - i] |
| `Columns.ColumnBound` | thirdParty/spdlog/fmt/bundled/format-inl.h:1426-1437 | a column of n bigits is at most n * (2^32 - 1)^2, so the two-word accumulator does not overflow |
| `Columns.Accumulator.Add` | thirdParty/spdlog/fmt/bundled/format-inl.h:1226-1229 | the two 64-bit words hold the exact 128-bit sum; the carry test `lower < n` is right |
| `Columns.Accumulator.ShiftRight32` | thirdParty/spdlog/fmt/bundled/format-inl.h:1230-1235 | the shift of the two words is exact division by 2^32 |
| `Columns.Accumulator.Low32` | thirdParty/spdlog/fmt/bundled/format-inl.h:1224 | the conversion gives the accumulated value modulo 2^32 |
| `Bigints.SubtractBigit` | thirdParty/spdlog/fmt/bundled/format-inl.h:1255-1259 | the wrapped 64-bit difference and its sign bit are the difference digit and the next borrow |
| `Bigints.Bigint.RemoveLeadingZeros` | thirdParty/spdlog/fmt/bundled/format-inl.h:1261-1265 | the value is unchanged and more than one bigit is left only under a nonzero top bigit |
| `Bigints.Bigint.SubtractAligned` | thirdParty/spdlog/fmt/bundled/format-inl.h:1268-1277 | for an aligned minuend that is not smaller, the result is the difference if and only if a borrow out of the overlap meets a nonzero bigit (or there is none) |
| `Bigints.Bigint.BorrowAt` | thirdParty/spdlog/fmt/bundled/format-inl.h:1275 | the borrow loop, which stays at one bigit, terminates, and is exact if and only if BorrowStops |
| `Bigints.LostBorrowExample` | thirdParty/spdlog/fmt/bundled/format-inl.h:1275 | [0, 0, 1] minus [1] is a legal call that loses the borrow |
| `Bigints.Bigint.Multiply32` | thirdParty/spdlog/fmt/bundled/format-inl.h:1279-1288 | scales the value exactly and keeps a nonzero top bigit; every 64-bit intermediate fits |
| `Bigints.Bigint.Multiply64` | thirdParty/spdlog/fmt/bundled/format-inl.h:1290-1305 | scales the value exactly by any 64-bit factor |
| `Bigints.WideStep` | thirdParty/spdlog/fmt/bundled/format-inl.h:1296-1298 | the 64-bit carry of the wide multiplication never overflows |
| `Bigints.Bigint.Assign` | thirdParty/spdlog/fmt/bundled/format-inl.h:1323-1331 | the bigits denote the 64-bit argument, with a nonzero top bigit unless it is zero |
| `Bigints.Bigint.ShiftLeft` | thirdParty/spdlog/fmt/bundled/format-inl.h:1335-1348 | multiplies the value by 2^shift for every shift, splitting it between exponent and bits |
| `Bigints.Bigint.Compare` | thirdParty/spdlog/fmt/bundled/format-inl.h:1356-1370 | the result is the sign of the difference if and only if the operands are not a hidden tie |
| `Bigints.HiddenTieIff` | thirdParty/spdlog/fmt/bundled/format-inl.h:1368 | hidden ties are exactly the equal values stored with different exponents |
| `Bigints.HiddenTieExample` | thirdParty/spdlog/fmt/bundled/format-inl.h:1368 | [0, 1] and [1] with exponent 1 are equal and compare as unequal |
| `Bigints.Bigint.AddCompare` | thirdParty/spdlog/fmt/bundled/format-inl.h:1373-1394 | the exact sign of lhs1 + lhs2 - rhs for any exponents, also when the scan stops early |
| `Bigints.ScanStep` | thirdParty/spdlog/fmt/bundled/format-inl.h:1384-1392 | a running difference below zero or above one already decides the comparison |
| `Bigints.Bigint.AssignPow10` | thirdParty/spdlog/fmt/bundled/format-inl.h:1397-1414 | the value is exactly 10^exp for every 0 <= exp < 2^30 |
| `Bigints.Bigint.RaiseFive` | thirdParty/spdlog/fmt/bundled/format-inl.h:1406-1412 | binary exponentiation by squaring gives exactly 5^exp |
| `Bigints.Bigint.Square` | thirdParty/spdlog/fmt/bundled/format-inl.h:1416-1444 | the value is the square of the old value, for any number of bigits whose doubled count fits an int |
| `Bigints.Bigint.WriteColumns` | thirdParty/spdlog/fmt/bundled/format-inl.h:1417-1440 | the two column loops write the bigits of the square, and no carry is left over |
| `Bigints.Bigint.Align` | thirdParty/spdlog/fmt/bundled/format-inl.h:1448-1457 | the value is unchanged and the exponent is no larger than that of the other operand |
| `Bigints.Bigint.DivModAssign` | thirdParty/spdlog/fmt/bundled/format-inl.h:1461-1472 | returns the floor quotient and leaves the remainder, unless the dividend equals the divisor and hides it behind a larger exponent; in that family it returns 0 and changes nothing |
| `FixedDigits.EmitExact` | thirdParty/spdlog/fmt/bundled/format-inl.h:2402-2406 | the digit loop is long division: digits and remainder recompose the scaled numerator |
| `FixedDigits.PropagateValue` | thirdParty/spdlog/fmt/bundled/format-inl.h:2414-2417 | carry propagation keeps the number and ends in proper digits, or in a 10 followed by zeros |
| `FixedDigits.FinishValue` | thirdParty/spdlog/fmt/bundled/format-inl.h:2409-2426 | the finished digits, with the exponent bump, denote the digits read plus the rounding unit; the bump comes exactly when that needs one digit more |
| `FixedDigits.RoundedQuotient` | thirdParty/spdlog/fmt/bundled/format-inl.h:2407-2409 | the last division step and the add_compare test round half to even |
| `FixedDigits.DigitsCorrectIff` | thirdParty/spdlog/fmt/bundled/format-inl.h:2401-2426 | for every N < 10 * D and every number of digits: correctly rounded, with the exponent bumped exactly at 10^count, if and only if no hidden tie is met before the last digit |
| `FixedDigits.EmitDigits` | thirdParty/spdlog/fmt/bundled/format-inl.h:2402-2406 | the loop over the character buffer writes the digits of the division and leaves the scaled remainder |
| `FixedDigits.PropagateInPlace` | thirdParty/spdlog/fmt/bundled/format-inl.h:2414-2417 | the carry loop on characters computes the propagated digits |
| `FixedDigits.FormatFixed` | thirdParty/spdlog/fmt/bundled/format-inl.h:2394-2426 | the buffer and exp10 are those of the digit specification, and are correct if and only if no hidden tie is met |
| `FallbackFormat.NeverHidden` | thirdParty/spdlog/fmt/bundled/format-inl.h:2329-2361 | no hidden tie can be met from the operands that the three set-up branches build |
| `FallbackFormat.Prepare` | thirdParty/spdlog/fmt/bundled/format-inl.h:2327-2361 | numerator / denominator equals f * 2^e / 10^exp10 in every branch, and both operands are canonical |
| `FallbackFormat.RoundCommonFactor` | thirdParty/spdlog/fmt/bundled/format-inl.h:2322-2328 | the extra shift of both operands does not change the rounded quotient |
| `FallbackFormat.FallbackFixed` | thirdParty/spdlog/fmt/bundled/format-inl.h:2313-2426 | for every significand, binary exponent, usable decimal estimate and number of digits (zero included) the text has that many decimal digits and denotes, at the returned place, the value rounded half to even; the place is one higher exactly when the rounded value has a digit more |
| `FallbackFormat.RoundedUnique` | thirdParty/spdlog/fmt/bundled/format-inl.h:2394-2426 | that determines text and exponent: there is only one correct result |
| `BoundedQueue.StepInOrder` | thirdParty/spdlog/details/mpmc_blocking_q.h:32-67 | every step keeps: items leave in entry order, each once, within the capacity (overruns included) |
| `BoundedQueue.StepNoneStranded` | ham/base/BoundedBlockingQueue.h:40-76 | every step keeps: with a parked consumer, queued items are covered by woken consumers and notifications in flight; dually for producers and free slots |
| `BoundedQueue.EveryRun` | thirdParty/spdlog/details/mpmc_blocking_q.h:32-67 | both invariants hold in every interleaving, with timeouts, spurious wakeups and both orders of unlock and notify |
| `BoundedQueue.RunEntered` | thirdParty/spdlog/details/mpmc_blocking_q.h:32-50 | what entered over a run is what the puts that found room, and the overrunning ones, put in, in the order of the steps |
| `BoundedQueue.RunLeft` | thirdParty/spdlog/details/mpmc_blocking_q.h:43-67 | what left is the oldest item at each take and at each overrun |
| `BoundedQueue.RunPuts` | ham/base/BoundedBlockingQueue.h:40-62 | the items a thread puts enter once each and in that order, except for the one it may still be waiting to put |
| `BoundedQueue.RunTakes` | thirdParty/spdlog/details/mpmc_blocking_q.h:54-67 | every take of a thread ends with an item or, if timed, by running out of time, or is still waiting |
| `BoundedQueue.NowaitDropsOldest` | thirdParty/spdlog/details/mpmc_blocking_q.h:43-50 | an overrunning put on a full queue loses its oldest item and keeps the new one |
| `BoundedQueue.NoDeadlock` | ham/base/BoundedBlockingQueue.h:40-76 | with nothing in flight consumers wait only on an empty queue, producers only on a full one, never both |
| `EventLoop.StepInv` | ham/net/EventLoop.cc:102-116 | every step of the loop and of other threads keeps the exactly-once, flag, wakeup and service invariants |
| `EventLoop.ExactlyOnceFifo` | ham/net/EventLoop.cc:198-244 | in every interleaving the executed functors are a prefix of the lock-order enqueue history, none is lost or doubled, and a quit is never slept through |
| `EventLoop.EverythingEnqueued` | ham/net/EventLoop.cc:198-203 | the enqueue history is what callers on any thread handed to queueInLoop, in order |
| `EventLoop.QueuedRunsInOrder` | ham/net/EventLoop.cc:198-244 | after any run the functors executed are the first so many of those queued, and the rest is in the batch or pending |
| `EventLoop.QuitIff` | ham/net/EventLoop.cc:121-128 | quit is set if and only if some thread asked for it |
| `EventLoop.EventfdCounts` | ham/net/EventLoop.cc:212-229 | the eventfd counts the wakeups since it was last read |
| `EventLoop.NoLostWakeup` | ham/net/EventLoop.cc:198-220 | a loop at epoll_wait with pending functors has a positive eventfd or a producer on its way to wakeup, if the loop thread queues only from handlers and functors |
| `EventLoop.EarlyQueueIsLost` | ham/net/EventLoop.cc:198-220 | before loop() the condition is exact over all runs: no run without further early queueing loses a wakeup if and only if nothing is pending, the eventfd is positive, a producer is on its way, or quit was asked for |
| `EventLoop.RunCovered` | ham/net/EventLoop.cc:102-116 | once covered, pending functors stay announced, about to run, or overtaken by a quit, along every run |
| `EventLoop.LostWakeupExample` | ham/net/EventLoop.cc:204 | a functor queued by the loop thread before loop() leaves the loop asleep |
| `EventLoop.RunsBeforeSleeping` | ham/net/EventLoop.cc:231-244 | everything queued when epoll_wait returns has run when the loop sleeps again or stops |
| `Pool.StepCounted` | benchmarks/threadPool_benchmark/threadpool/detail/pool_core.hpp:329-445 | m_active_worker_count is always the number of live workers outside the task wait, through resize, death and termination |
| `Pool.StepAccounted` | benchmarks/threadPool_benchmark/threadpool/detail/pool_core.hpp:182-195 | every scheduled task is done or cleared, pending, or running on a worker |
| `Pool.EveryScheduleAccounted` | benchmarks/threadPool_benchmark/threadpool/detail/pool_core.hpp:182-195 | the task of every schedule() call so far is finished, cleared, pending or running |
| `Pool.RunRunsOnce` | benchmarks/threadPool_benchmark/threadpool/detail/pool_core.hpp:433-441 | a task runs on one worker only, and only after it was started |
| `Pool.FetchOutcome` | benchmarks/threadPool_benchmark/threadpool/detail/pool_core.hpp:401-435 | a worker takes the oldest pending task, leaves or parks, with the exact condition of each |
| `Pool.TaskEnds` | benchmarks/threadPool_benchmark/threadpool/detail/pool_core.hpp:437-444 | a finished or throwing task is done; its worker looks for more or dies |
| `Pool.ResizeEffect` | benchmarks/threadPool_benchmark/threadpool/detail/pool_core.hpp:329-365 | resize sets the target; growing starts the new threads, shrinking wakes the parked ones |
| `Pool.TerminateEffect` | benchmarks/threadPool_benchmark/threadpool/detail/pool_core.hpp:296-304 | termination wakes every parked worker and lets no more be created |
| `Pool.DeathEffect` | benchmarks/threadPool_benchmark/threadpool/detail/pool_core.hpp:369-385 | a worker that died is gone, and is replaced unless the pool is terminating |
| `Pool.Quiescence` | benchmarks/threadPool_benchmark/threadpool/detail/pool_core.hpp:241-260 | whenever the condition of wait(0) holds every task scheduled so far has finished or been cleared; tasks start in scheduling order |
| `Pool.WaitReturnsIff` | benchmarks/threadPool_benchmark/threadpool/detail/pool_core.hpp:241-260 | a thread comes out of wait(k) exactly when its condition holds, and otherwise sleeps |
| `Pool.WaitReturnsQuiescent` | benchmarks/threadPool_benchmark/threadpool/detail/pool_core.hpp:241-260 | so when wait(k) returns at most k of the tasks scheduled so far are unfinished |
| `Pool.ThresholdQuiescence` | benchmarks/threadPool_benchmark/threadpool/detail/pool_core.hpp:241-260 | the unfinished tasks are never more than active plus pending, so wait(k) leaves its loop with at most k unfinished |
| `Pool.OverdueIff` | benchmarks/threadPool_benchmark/threadpool/detail/pool_core.hpp:253-259 | a sleeper in wait(k) becomes overdue if and only if a worker that was already active fetches the task that was one too many, or clear() drops the tasks that were |
| `Pool.OverdueExample` | benchmarks/threadPool_benchmark/threadpool/detail/pool_core.hpp:416-434 | one worker, two tasks, wait(1): the thread sleeps on when the worker fetches the second task |
| `Pool.OnlyClearStrands` | benchmarks/threadPool_benchmark/threadpool/detail/pool_core.hpp:219-223 | a step leaves a thread asleep in wait with its condition true and no worker running or coming to notify it if and only if it is clear() on a pool without workers and with a sleeper |
| `Pool.StepCovered` | benchmarks/threadPool_benchmark/threadpool/detail/pool_core.hpp:182-195 | while a worker is parked every pending task has a woken worker coming for it; every step keeps this |
| `Pool.WokenWorkerNotifies` | benchmarks/threadPool_benchmark/threadpool/detail/pool_core.hpp:416-431 | a woken worker that finds no task notifies every thread in wait(0), at the latest when it ends |
| `Pool.StrandedExample` | benchmarks/threadPool_benchmark/threadpool/detail/pool_core.hpp:219-223 | a task scheduled without workers, waited for and cleared leaves the waiter asleep |
| `Pool.NoWaiterStranded` | benchmarks/threadPool_benchmark/threadpool/detail/pool_core.hpp:241-260 | if clear() is called only while the pool has a worker, no run strands a thread in wait |
| `TimerQueue.ExpiredAssertion` | ham/net/TimerQueue.cc:160-166 | the assertion of getExpired holds if and only if at most one timer is due exactly at now |
| `TimerQueue.TwoDueExample` | ham/net/TimerQueue.cc:164-166 | of two timers due exactly at now the second stays behind and the assertion fails |
| `TimerQueue.HowMuchTimeFromNow` | ham/net/TimerQueue.cc:27-39 | seconds and nanoseconds recompose the delay, at least 100 microseconds |
| `TimerQueue.ResetAllEffect` | ham/net/TimerQueue.cc:175-185 | after reset exactly the repeating, uncancelled timers of the batch are back, one interval later; the rest of the list stays |
| `TimerQueue.ResetAllKeeps` | ham/net/TimerQueue.cc:175-193 | reset keeps order, keys, punctuality and cancellations |
| `TimerQueue.BackInList` | ham/net/TimerQueue.cc:127-140 | a timer of the batch is in the list again if and only if it repeats and was not cancelled |
| `TimerQueue.CancelKeeps` | ham/net/TimerQueue.cc:127-140 | cancelling keeps the invariant that a cancelled timer is out of the list and will not come back |
| `TimerQueue.RunSilences` | ham/net/TimerQueue.cc:108-111 | a callback that starts after its cancellation was still due in the batch of that cancellation, and does not start again |
| `TimerQueue.TimerQueue.AddTimerInLoop` | ham/net/TimerQueue.cc:117-125 | the timer is stored as asked for and enters the list at its place; between events the alarm is still not late |
| `TimerQueue.TimerQueue.CancelTimerInLoop` | ham/net/TimerQueue.cc:127-140 | exactly that timer leaves the list, and it is recorded as cancelled also in the middle of a batch; a timer not yet inserted is not affected |
| `TimerQueue.EarlyCancelExample` | ham/net/TimerQueue.cc:86-96 | a timer cancelled before its queued insertion is inserted all the same |
| `TimerQueue.TimerQueue.GetExpired` | ham/net/TimerQueue.cc:160-173 | splits the list at the expired prefix |
| `TimerQueue.TimerQueue.Reset` | ham/net/TimerQueue.cc:175-193 | the contents are those of the reset specification and the alarm is set for the earliest timer |
| `TimerQueue.TimerQueue.HandleRead` | ham/net/TimerQueue.cc:98-115 | runs each expired timer once, in order and not early, also when the alarm was set anew before it was read; each is back in the list if and only if it repeats and was not cancelled; exactly the timers that callbacks ask for are added, and what they cancel is marked; with times after the epoch the alarm is not late |
| `TimerQueue.TimerQueue.Deliver` | ham/net/TimerQueue.cc:98-140 | one loop event: what a request or a batch does to the contents, and that times after the epoch keep the alarm promise |
| `TimerQueue.Rests` | ham/net/TimerQueue.cc:98-193 | between events every uncancelled timer that repeats or has not run is in the list, and a cancelled one has started since exactly if it was still due in the batch of its cancellation |
| `TimerQueue.AddedNext` | ham/net/TimerQueue.cc:117-125 | the timers asked for by callbacks and requests are inserted, all of them and in order, and keep interval and repetition |
| `TimerQueue.BatchNext` | ham/net/TimerQueue.cc:108-140 | a timer cancelled in a batch points to a callback that cancels it, and was due exactly if it comes later in the batch |
| `TimerQueue.TimerQueue.RunEvents` | ham/net/TimerQueue.cc:98-193 | over every sequence of events, each delivered in turn: keys are expirations, no callback starts early, one-shot timers run at most once, no uncancelled timer is forgotten, a cancelled timer starts exactly once more if it was still due in the running batch and otherwise never; and if every requested expiration is after the epoch the alarm is never late |
| `TcpConnection.TcpConnection.SendInLoop` | ham/net/TcpConnection.cc:198-256 | an idle connection accepts the message: bytes on the wire plus output buffer grow by exactly it; a busy or broken one drops it whole |
| `TcpConnection.TcpConnection.HandleWrite` | ham/net/TcpConnection.cc:141-176 | moves a prefix of the output buffer to the wire; on empty it drops write interest and performs a deferred shutdown |
| `TcpConnection.TcpConnection.ShutdownInLoop` | ham/net/TcpConnection.cc:258-266 | the write side is shut only with every accepted byte on the wire |
| `TcpConnection.TcpConnection.DoShutdown` | ham/net/TcpConnection.cc:109-117 | shuts at once when idle on the loop thread; with output waiting the state becomes disconnecting, and from another thread a shutdown functor is queued as well |
| `TcpConnection.ShutdownTakesEffect` | ham/net/TcpConnection.cc:109-117 | along every run after shutdown() the connection is never connected again, and once idle with no shutdown or close functor queued it is shut with everything on the wire, or torn down |
| `TcpConnection.RunNeverReconnects` | ham/net/TcpConnection.cc:109-117 | a connection that left the connected state does not come back to it |
| `TcpConnection.StepTakes` | ham/net/TcpConnection.cc:198-220 | the wire grows by exactly what the kernel took of the write an event makes |
| `TcpConnection.CallbacksIff` | ham/net/TcpConnection.cc:212-246 | the high water mark callback is queued exactly when the waiting output reaches the mark, the write complete callback exactly when a write leaves nothing waiting |
| `TcpConnection.TcpConnection.DoForceClose` | ham/net/TcpConnection.cc:62-69 | the connection is then bound to be torn down if and only if it was live and idle with nothing queued ahead that can forestall it |
| `TcpConnection.ForceCloseIff` | ham/net/TcpConnection.cc:62-69 | after forceClose() no run leaves the connection disconnected but open if and only if it was live and idle with no shutdown and no non-empty send queued ahead of the first forceCloseInLoop |
| `TcpConnection.RunDoomed` | ham/net/TcpConnection.cc:258-275 | a doomed connection stays doomed until it is torn down, along every run |
| `TcpConnection.DoomedCloses` | ham/net/TcpConnection.cc:268-275 | running the queued functors tears a doomed connection down |
| `TcpConnection.ForestalledByWriteExample` | ham/net/TcpConnection.cc:141-165 | forceClose() with output waiting: the draining write shuts down first and the functor does nothing |
| `TcpConnection.ForestalledByShutdownExample` | ham/net/TcpConnection.cc:109-117 | forceClose() after a shutdown() queued by another thread does nothing |
| `TcpConnection.VoidForceCloseExample` | ham/net/TcpConnection.cc:258-275 | after a shutdown that found nothing to write, forceClose() leaves the connection open |
| `TcpConnection.DroppedSendExample` | ham/net/TcpConnection.cc:206-255 | a message sent while output waits is not accepted and never reaches the wire |
| `TcpConnection.TcpConnection.Step` | ham/net/TcpConnection.cc:37-275 | one event: the message it gets accepted is the one that reaches sendInLoop on an idle, unbroken connection; it tears the connection down exactly by peer, destroy or forceCloseInLoop; the invariant is kept |
| `TcpConnection.StepOk` | ham/net/TcpConnection.cc:37-275 | every event keeps: wire plus output buffer is the concatenation of accepted messages, until teardown write interest is on exactly when output waits, and disconnected but open means shut with everything on the wire |
| `TcpConnection.RunAccepts` | ham/net/TcpConnection.cc:198-256 | over every run the accepted messages are exactly those that reached an idle, unbroken connection |
| `TcpConnection.AcceptedInOrder` | ham/net/TcpConnection.cc:198-256 | they are a subsequence of the messages that reached it |
| `TcpConnection.RunQueue` | ham/net/TcpConnection.cc:71-107 | messages sent by other threads reach the connection once each and in order, or are still queued |
| `TcpConnection.StepCloses` | ham/net/TcpConnection.cc:178-185 | the connection is torn down exactly by the peer, by destroying it while connected, or by forceCloseInLoop while live |
| `TcpConnection.RunStaysOpen` | ham/net/TcpConnection.cc:178-185 | a run without peer close, destroy and forceClose() does not tear it down |
| `TcpConnection.RunStaysDisconnected` | ham/net/TcpConnection.cc:258-275 | once disconnected only the peer can still tear it down |
| `TcpConnection.RemovalIff` | ham/net/TcpConnection.cc:48-60 | remove() finds no events left if and only if the connection is connected, not yet established, or torn down and not written to since |
| `TcpConnection.IllegalRemovalExample` | ham/net/TcpConnection.cc:48-60 | destroying a connection that was shut down calls remove() with read interest on |
| `TcpConnection.TcpConnection.RunEvents` | ham/net/TcpConnection.cc:37-275 | over every sequence of events the contents are those of the specification: the invariant holds, new accepted messages are a subsequence of those that reached sendInLoop, and teardown happens only through the closing events |
| `TcpConnection.Accept` | ham/net/TcpConnection.cc:236-254 | what was written and what was buffered of a message recompose it after the earlier ones |
| `Buffers.FindCRLFFirst` | ham/net/Buffer.cc:40-46 | the result is the first CR LF at or after the start, and none is missed |
| `Buffers.FindFirst` | ham/net/http/HttpContext.cc:37 | the result is the first occurrence, or the end |
| `Buffers.Buffer.MakeSpace` | ham/net/Buffer.cc:265-284 | growth and compaction keep the readable bytes and make room; both assertions hold |
| `Buffers.Buffer.Append` | ham/net/Buffer.cc:201-206 | readable bytes are extended by the data |
| `Buffers.Buffer.Prepend` | ham/net/Buffer.cc:218-224 | readable bytes are preceded by the data |
| `Buffers.Buffer.Retrieve` | ham/net/Buffer.cc:143-154 | readable bytes lose exactly the first len |
| `Buffers.Buffer.RetrieveAsString` | ham/net/Buffer.cc:170-176 | returns the first len readable bytes and drops them |
| `Buffers.Buffer.Shrink` | ham/net/Buffer.cc:192-199 | readable bytes are unchanged and the reserve is writable |
| `Buffers.Buffer.ReadFd` | ham/net/Buffer.cc:230-263 | readable bytes are extended by what readv delivered, across the free space and the extra block |
| `Buffers.Buffer.Swap` | ham/net/Buffer.cc:28-33 | exchanges the readable bytes of two buffers |
| `Buffers.Buffer.ReadInt` | ham/net/Buffer.cc:115-141 | decodes and drops the leading integer |
| `Integers.ByteSwapTwice` | ham/net/Endian.h:16-38 | the host and network conversions are inverse on every word of any width |
| `Integers.EncodeIsBigEndian` | ham/net/Buffer.cc:92-113 | what is appended is the two's complement word, most significant byte first |
| `Integers.DecodeEncode` | ham/net/Buffer.cc:61-113 | peeking an appended signed integer gives it back |
| `Integers.ReadBack` | ham/net/Buffer.cc:61-141 | any list of typed integers is read back unchanged by the matching reads of its bytes |
| `Buffers.AppendThenRead` | ham/net/Buffer.cc:61-141 | typed integers appended to a buffer one by one, followed by other data, are read back unchanged through every growth and compaction, and that data is left |
| `HttpSyntax.Chunked` | ham/net/http/HttpContext.cc:14-60 | input that stops inside the header section can be parsed in two pieces with the same result |
| `HttpSyntax.ParseInvertsRender` | ham/net/http/HttpContext.cc:9-106 | for every well-formed request laid out as in sections 2.1, 3 and 5 of RFC 9112, parsing gives back method, target, query, version, fields and body in the final state |
| `HttpSyntax.ParseInTwoPieces` | ham/net/http/HttpContext.cc:9-64 | the same for a request cut anywhere between its request line and the end of its blank line |
| `HttpSyntax.CutInLine` | ham/net/http/HttpContext.cc:18-19 | input that ends inside the request line is an error and changes nothing |
| `HttpSyntax.CutInBody` | ham/net/http/HttpContext.cc:53-59 | input that ends after the blank line is taken for the whole request, with the body cut short |
| `HttpSyntax.CutIff` | ham/net/http/HttpContext.cc:14-60 | the parser waits for more exactly inside the header section and has the whole request exactly at the end |
| `HttpSyntax.ReceivesPrefix` | ham/net/http/HttpContext.cc:14-60 | parsing after every arrival gives what the first pieces that leave the header section give at once |
| `HttpSyntax.ReceivedWholeIff` | ham/net/http/HttpContext.cc:9-64 | a request in any number of arrivals is read back whole if and only if every cut is inside the header section or after the last byte |
| `HttpSyntax.TwoPiecesIff` | ham/net/http/HttpContext.cc:9-64 | the same for two arrivals, by the position of the cut |
| `HttpSyntax.CutLineRejected` | ham/net/http/HttpContext.cc:18-19 | a first arrival that ends inside the request line is rejected whatever follows |
| `HttpSyntax.ThrowsIff` | ham/net/http/HttpContext.cc:70-88 | parseRequestLine throws if and only if a known method and a space are followed by no second space, or by one with nothing after it |
| `HttpSyntax.ParsedIff` | ham/net/http/HttpContext.cc:66-106 | a line is accepted if and only if it is one of the five methods, a target without spaces and HTTP/1.0 or HTTP/1.1, with single spaces between them |
| `HttpSyntax.MethodNames` | ham/net/http/HttpRequest.cc:32-61 | the five method names and the two versions as they are spelled |
| `HttpSyntax.ShortLines` | ham/net/http/HttpContext.cc:85-88 | method and target alone throw; with a version of the wrong length the line is rejected |
| `HttpSyntax.ResetIff` | ham/net/http/HttpContext.h:30-35 | reset() restores a fresh context if and only if nothing has been parsed, so never after a complete request |
| `HttpSyntax.SecondRequestIff` | ham/net/http/HttpRequest.h:57-65 | even with the parse state put back, a second request is read as itself if and only if it has a query or the first had none |
| `HttpContexts.HttpRequest.Swap` | ham/net/http/HttpRequest.h:57-65 | exchanges everything but query and body |
| `HttpContexts.ResetExample` | ham/net/http/HttpContext.h:30-35 | after a complete request and reset() the state is still kGotAll and query and body are still there |
| `HttpSyntax.CutHeaders` | ham/net/http/HttpContext.cc:32-52 | a header section short of its blank line leaves the context expecting headers |
| `HttpSyntax.TrimBlank` | ham/net/http/HttpRequest.cc:69-78 | the trimming loops remove exactly the blanks around a value |
| `HttpSyntax.TrimLiteral` | ham/net/http/HttpRequest.cc:69-78 | spaces and tabs around a value are removed, and nothing of a value that starts and ends with other characters |
| `HttpContexts.HttpRequest.SetMethod` | ham/net/http/HttpRequest.cc:32-61 | recognises exactly the five methods |
| `HttpContexts.HttpRequest.AddHeaderLine` | ham/net/http/HttpRequest.cc:64-80 | the loops store the trimmed value under the field name |
| `HttpContexts.HttpContext.ParseRequestLine` | ham/net/http/HttpContext.cc:66-106 | agrees with the line specification on every line, including rejected ones that have already set some parts |
| `HttpContexts.HttpContext.ParseRequest` | ham/net/http/HttpContext.cc:9-64 | the loop terminates and its result, context and remaining input are those of the specification |
| `HttpContexts.ReceiveWhole` | ham/net/http/HttpContext.cc:9-106 | a rendered request appended to a fresh buffer and parsed gives back its parts |
| `HttpContexts.ReceiveInTwoPieces` | ham/net/http/HttpContext.cc:9-106 | the same in two arrivals, cut inside the header section |
| `HttpContexts.ReceiveInPieces` | ham/net/http/HttpContext.cc:9-106 | the same through one context and buffer in any number of arrivals, as long as every cut is harmless |
| `RotatingSink.DecimalInjective` | thirdParty/spdlog/sinks/rotating_file_sink-inl.h:53 | different indices have different decimal texts |
| `RotatingSink.DecimalDenotes` | thirdParty/spdlog/sinks/rotating_file_sink-inl.h:53 | the digits of an index denote it, without leading zeros |
| `RotatingSink.IndexBeforeExtension` | thirdParty/spdlog/sinks/rotating_file_sink-inl.h:41-54 | for a name with an extension the index goes before it, as in logs/mylog.3.txt |
| `RotatingSink.IndexAtEnd` | thirdParty/spdlog/sinks/rotating_file_sink-inl.h:43-54 | for a name without one it goes to the end |
| `RotatingSink.CalcFilenameInjective` | thirdParty/spdlog/sinks/rotating_file_sink-inl.h:43-54 | different indices give different file names, for every base name |
| `RotatingSink.ShiftStep` | thirdParty/spdlog/sinks/rotating_file_sink-inl.h:94-117 | one rename moves the shifting loop from one index to the next |
| `RotatingSink.ShiftedKept` | thirdParty/spdlog/sinks/rotating_file_sink-inl.h:89-119 | a rotation keeps the order of all messages and loses only those of the oldest file |
| `RotatingSink.RotatedOrderly` | thirdParty/spdlog/sinks/rotating_file_sink-inl.h:89-119 | a rotation keeps the files a gapless, bounded, size-limited suffix of the log |
| `RotatingSink.WrittenOrderly` | thirdParty/spdlog/sinks/rotating_file_sink-inl.h:64-76 | so does a write that fits or that goes to an empty file |
| `RotatingSink.RotatingFileSink.ShiftAll` | thirdParty/spdlog/sinks/rotating_file_sink-inl.h:94-117 | with granted renames the loop shifts all files; never more than max_files + 1 exist, even if a rename fails |
| `RotatingSink.RotatingFileSink.MoveUp` | thirdParty/spdlog/sinks/rotating_file_sink-inl.h:96-116 | moves one file up, trying twice; files of other names are untouched |
| `RotatingSink.RotatingFileSink.RenameFile` | thirdParty/spdlog/sinks/rotating_file_sink-inl.h:123-128 | deletes the target and renames; a failed rename has still deleted it |
| `RotatingSink.RotatingFileSink.Rotate` | thirdParty/spdlog/sinks/rotating_file_sink-inl.h:89-119 | the files are shifted and the base is empty; a rename refused twice truncates the base and is reported |
| `RotatingSink.RotatingFileSink.SinkIt` | thirdParty/spdlog/sinks/rotating_file_sink-inl.h:64-76 | appends the message, rotating first exactly when it does not fit; the size counter stays the size of the base file |
| `RotatingSink.RotatingFileSink.LogAll` | thirdParty/spdlog/sinks/rotating_file_sink-inl.h:63-128 | from a directory without log files, after any messages the files read from the highest index down to 0 are a suffix of the log, each within max_size or holding one message |
| `Epoll.Epoller.UpdateChannel` | ham/net/Epoller.cc:51-88 | the registry and the kernel set agree with the channel again, no call is refused and the assertions hold |
| `Epoll.Epoller.Register` | ham/net/Epoller.cc:57-72 | the ADD branch is legal for new and dismissed channels |
| `Epoll.Epoller.Change` | ham/net/Epoller.cc:74-86 | the MOD and DEL branch is legal; no events means dismissed |
| `Epoll.Epoller.RemoveChannel` | ham/net/Epoller.cc:90-110 | the channel leaves map and kernel set and is new again; the assertions hold |
| `Epoll.Epoller.Update` | ham/net/Epoller.cc:112-134 | the kernel set after an operation, refused ones included |
| `Epoll.Epoller.FillActiveChannels` | ham/net/Epoller.cc:138-154 | the reported channels are appended in order, each ends with the mask of its last event, and the assertions hold |
| `Epoll.Epoller.Wait` | ham/net/Epoller.cc:25-49 | the event list is again longer than what was reported |
| `Epoll.Channel.Perform` | ham/net/Channel.h:49-58 | each enable, disable or remove call moves status and mask as specified and keeps the agreement |
| `Epoll.Epoller.Run` | ham/net/Epoller.cc:51-110 | for every sequence of calls on channels with distinct descriptors: descriptor in the map if and only if not kNew, in the kernel set with mask event_ if and only if kAdded, and no refused call |
| `Epoll.DisableAllAlternates` | ham/net/Channel.h:53 | repeated disableAll() alternates between deleting the descriptor and adding it back with an empty mask |
| `Epoll.EnableReadingBits` | ham/net/Channel.h:49 | enableReading() sets EPOLLIN and EPOLLPRI and leaves the other bits alone |
| `Epoll.EnableWritingBits` | ham/net/Channel.h:50 | enableWriting() sets EPOLLOUT and leaves the other bits alone |
| `Epoll.DisableWritingBits` | ham/net/Channel.h:52 | disableWriting() clears EPOLLOUT and leaves the other bits alone |
| `Epoll.DisableAllBits` | ham/net/Channel.h:53 | disableAll() clears every bit |
| `Epoll.Serve` | ham/net/Epoller.cc:51-110 | from an empty poller, with channels opened on distinct descriptors: every permitted sequence of calls is accepted by the kernel and leads each channel where its own calls lead |
| `CircularQueue.PushDenotes` | thirdParty/spdlog/details/circular_q.h:49-62 | a push extends the sequence, and when the tail meets the head drops exactly the oldest item |
| `CircularQueue.PopDenotes` | thirdParty/spdlog/details/circular_q.h:99-102 | a pop drops the oldest item |
| `CircularQueue.CircularQ.PushBack` | thirdParty/spdlog/details/circular_q.h:49-62 | the ring denotes the bounded overrun queue after the push; entered items are those left followed by those held; a disabled queue ignores the push |
| `CircularQueue.CircularQ.PopFront` | thirdParty/spdlog/details/circular_q.h:99-102 | the oldest item leaves |
| `CircularQueue.CircularQ.Size` | thirdParty/spdlog/details/circular_q.h:77-87 | the size is that of the sequence, and pushes minus pops minus overruns |
| `CircularQueue.CircularQ.At` | thirdParty/spdlog/details/circular_q.h:91-95 | the item at that position of the sequence |
| `CircularQueue.CircularQ.Empty` | thirdParty/spdlog/details/circular_q.h:104-107 | true if and only if the sequence is empty |
| `CircularQueue.CircularQ.Full` | thirdParty/spdlog/details/circular_q.h:109-117 | true if and only if the sequence has the requested capacity; never on a disabled queue |
| `CircularQueue.CircularQ.CopyMoveable` | thirdParty/spdlog/details/circular_q.h:126-139 | the contents and counters move and the source is left disabled |
| `CircularQueue.Replay` | thirdParty/spdlog/details/circular_q.h:49-122 | for every run of pushes and pops: popped items and contents are those of the bounded queue, contents are a suffix of the pushed items, and pushes = pops + overruns + size |

## Left out

- FallbackFormat.FallbackFixed: takes the decimal estimate exp10 as a parameter with N < 10 * D, because Grisu, which computes it, is not modelled; the decoding of IEEE bits into significand and exponent is left out too.
- FixedDigits.FormatFixed: the length of a character buffer is unbounded, and characters above '0' + 11 do not occur.
- Bigints.Bigint.Square: the inline capacity of 32 bigits and its destructor assertion (thirdParty/spdlog/fmt/bundled/format-inl.h:1310) are not modelled.
- Bigints.Bigint.DivModAssign: requires a quotient below 2^31, since the source counts in an int.
- BoundedQueue.EveryRun: fairness and liveness are not stated; a capacity of zero is covered but blocks every put.
- Pool.Quiescence: scheduling is first in, first out; lifo and priority schedulers, convergence after shrinking, the list of terminated workers and joining them are left out.
- Pool.OverdueIff: liveness is not stated; when an overdue sleeper wakes depends on how long the running tasks take.
- EventLoop.NoLostWakeup: the 64-bit limit of the eventfd counter, failed writes to it and the epoll timeout length are left out; a return of epoll_wait without events is a step.
- TimerQueue.TimerQueue.RunEvents: the alarm clause asks that requested expirations are after the epoch, since reset skips an invalid timestamp (ham/net/TimerQueue.cc:191); intervals are integer microseconds.
- TcpConnection.TcpConnection.RunEvents: `establishConnection` is taken only while connecting; reading and the callbacks' own bodies are left out, and of the removal of the channel only its assertion is considered.
- Buffers.Buffer.ReadInt: one method for the four widths, on a little-endian host; `findEOL` and `retrieveUtil` are the same searches and drops.
- HttpContexts.HttpContext.ParseRequest: excludes entry in kGotAll, where the loop of the source makes no progress.
- RotatingSink.RotatingFileSink.SinkIt: a message that is refused because a rotation failed is not retried; `rotate_on_open` is left out, Ham passes false (ham/base/Log.cc:37).
- Epoll.Epoller.Run: channels have distinct descriptors and `remove` is called only on a registered channel with no events, as the source asserts; closing a descriptor behind the kernel's back is left out.
- CircularQueue.CircularQ.PushBack: counters are unbounded integers.
- The shortest-output branch of `fallback_format`, Dragonbox, Grisu and `snprintf_float`.
- `Connector`, `TcpClient`, `TcpServer`, `Acceptor`, sockets and addresses: their state machines have no invariant beyond what callbacks do.
- `ThreadPool` of ham/base: the same protocol as the bounded queue.
- `HttpServer`: its `onMessage` parses with a copy of the connection's context (ham/net/http/HttpServer.cc:44), so what a context keeps between arrivals is lost there; only the context itself is modelled.
- `HttpResponse`, formatters, the other sinks, the logger registry, `Timestamp` formatting: plumbing around the parts modelled here, without state of their own to get wrong.

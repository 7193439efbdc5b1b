# Verified model of the network-programming examples

The repository is a course of Linux network programs. This project models the parts of it that
keep state over long runs, and proves what they keep:

- **Timers** (`81_timer`): the ascending timer list, the hashed timing wheel, the min-heap with lazy
  deletion, and the server that closes idle clients. The wheel fires exactly as a plain list of
  countdown counters does; list and heap fire the same timers at every tick; idle clients are closed
  exactly when they are due.
- **HTTP parsing** (`78_server_framework`, `85_process_pool_thread_pool/http_conn.h`): the parser that
  is fed arbitrary chunks and cuts its buffer up in place. Chunking does not matter; what it accepts is
  a grammar written down without the parser; no carriage return is ever skipped; each header line sets
  what its text says, and reading recovers what the header writer wrote; for requests with a body,
  exactly when a cutting is answered as the whole.
- **Thread pools** (`thread_pool.h`, `04_thread`): a semaphore pool and a condition-variable pool as
  systems of atomic steps, with any number of threads and any interleaving. Nothing is lost, and without
  new calls every schedule ends with everything done.
- **Connection ownership** (`85_process_pool_thread_pool`): one-shot epoll, event loop, queue and
  workers hand connections around; each connection has one owner at any time.
- **Tables edited in place** (`process_pool.h`, `83_multi_process`, `79_io_reuse`, `cgi_conn.h`):
  round-robin dispatch to children that die, the pid index with swap-with-last removal, the poll array
  that shrinks and grows while it is scanned, and the receive loop that looks for a line end.

Code that changes things in place is modelled by classes and loops over arrays and lists; each such
method is tied to a function on values, and the theorems are about those functions and about runs of
them. Protocols of several threads are step relations with invariants over all runs. What the operating
system and the C and C++ libraries promise (epoll, poll, mutexes, semaphores, condition variables,
`fork`, `waitpid`, `accept`, `recv`, the string functions) is stated in preconditions, step relations
or small functions of its own (`CStrings`, `Lists`).

`dafny verify dfyconfig.toml` checks the project. One file is one module: `CStrings`, `Lists` and
`Tally` hold what several modules share, the others follow the components named above.

The comments of `81_timer/main.cpp:378-379` put a timer of timeout t into the slot t/si places ahead of
the cursor. The code serves the cursor's slot before it moves the cursor, so such a timer survives t/si ticks
and fires on the next one; the model follows the code.

## Model

| member | source | states |
|---|---|---|
| TimingWheel.WheelRefinesCounters | 81_timer/main.cpp:417-464 | over every interleaving of add, delete and tick, for every wheel size and slot interval, the wheel fires the same timers at the same ticks in the same order as a list of countdown counters |
| TimingWheel.FiresOnce | 81_timer/main.cpp:417-440 | a timer that is not deleted fires once, on the (k+1)-th later tick, and at no other tick, where k is 1 for a timeout below the interval and else the number with k * interval <= timeout < (k + 1) * interval |
| TimingWheel.DeletedDoesNotFire | 81_timer/main.cpp:442-448 | with k as above, a timer deleted before its tick never fires; one deleted later has fired just once, on the (k+1)-th tick |
| TimingWheel.DueTogetherFireInOrder | 81_timer/main.cpp:453-462 | of two timers that are due at the same tick, whatever their timeouts, the one added first fires first |
| TimingWheel.StepRefines | 81_timer/main.cpp:429-463 | every operation keeps the relation: slot s holds, in insertion order, the counters equal to circle_num * N + distance of s from the cursor |
| TimingWheel.AtCountDown | 81_timer/main.cpp:453-463 | one tick: counters of the served slot lose a circle and stand a full turn away, all others come one slot nearer |
| TimingWheel.TimeWheel.AddTimer | 81_timer/main.cpp:417-440 | NULL and no change for a negative timeout; else a new timer at the end of its slot's list, at a place whose distance from the cursor plus full turns is the number of whole intervals in the timeout, and at least one |
| TimingWheel.TimeWheel.DelTimer | 81_timer/main.cpp:442-448 | looking into the timer's own slot only removes it from the whole wheel; NULL is ignored |
| TimingWheel.TimeWheel.ServeSlot | 81_timer/main.cpp:453-462 | the loop that erases from the list it walks calls back exactly the timers with no circle left, in list order, and takes one circle off each of the others |
| TimingWheel.TimeWheel.TickOnce | 81_timer/main.cpp:451-464 | the current slot is served, then the cursor moves on; no other slot changes |
| TimerList.SortIsStable | 81_timer/main.cpp:150-154 | the sort orders by expiry, keeps all timers, and keeps the order of timers with equal expiry |
| TimerList.StableSortIsUnique | 81_timer/main.cpp:150-154 | no other list has these properties, so any stable sort gives the same list |
| TimerList.SortTimerList.SortFlush | 81_timer/main.cpp:150-154 | the list becomes its stable sort, whatever order it was in |
| TimerList.SortTimerList.AddTimer | 81_timer/main.cpp:98-101 | the list becomes the stable sort of itself and the new timer; when it was in order the new timer goes behind those that are not later, and nothing else changes |
| TimerList.SortTimerList.AdjustTimer | 81_timer/main.cpp:104-116 | after a timer's expiry was changed in place the list is in order again, with the same timers, or with the timer added when it was missing |
| TimerList.SortTimerList.DelTimer | 81_timer/main.cpp:118-120 | exactly this timer is removed, the others keep their order |
| TimerList.SortTimerList.Tick | 81_timer/main.cpp:123-147 | fires exactly the timers with expire <= now, once each, in list order, and keeps exactly the later ones |
| TimerHeap.PushKeepsOrder | 81_timer/main.cpp:520-525 | push adds the timer and restores heap order |
| TimerHeap.PopMembers | 81_timer/main.cpp:579 | pop takes the top away and nothing else, keeps heap order, and the top was not later than what is left |
| TimerHeap.TickFiresDue | 81_timer/main.cpp:558-581 | tick fires exactly the non-deleted timers with expire <= now, once each, in nondecreasing order of expiry |
| TimerHeap.TickKeepsLater | 81_timer/main.cpp:558-581 | tick leaves a heap whose live timers are exactly the later ones |
| TimerHeap.PurgeFindsEarliest | 81_timer/main.cpp:535-542 | dropping deleted tops loses no live timer; then the top is an earliest live timer, or the heap is empty and nothing is live |
| TimerHeap.MinHeapTimer.DelTimer | 81_timer/main.cpp:527-532 | the array stays as it is, and exactly this timer is no longer live |
| TimerHeap.MinHeapTimer.AddTimer | 81_timer/main.cpp:520-525 | NULL changes nothing; else exactly this timer is live in addition, unless it was deleted before |
| TimerHeap.MinHeapTimer.Top | 81_timer/main.cpp:535-542 | an earliest live timer, NULL iff none is live; no live timer is lost |
| TimerHeap.MinHeapTimer.PopTimer | 81_timer/main.cpp:545-556 | one earliest live timer is removed, nothing when none is live |
| TimerHeap.MinHeapTimer.Tick | 81_timer/main.cpp:558-581 | the loop takes off what is due among the live timers, keeps the later ones, and calls the callback of each that has one, once, in the order of firing |
| TimerAgreement.ListAndHeapAgree | 81_timer/main.cpp:98-156 | over every shared run of add, delete and tick, list and heap fire the same multiset of timers at every tick, with the same sequence of expiries |
| TimerAgreement.ListIsLegal | 81_timer/main.cpp:123-147 | every tick of every run of the list fires what is due among the timers added and not deleted |
| TimerAgreement.HeapIsLegal | 81_timer/main.cpp:558-581 | every tick of every run of the heap fires what is due among the timers added and not deleted |
| TimerAgreement.LegalTracesAgree | 81_timer/main.cpp:123-147 | any two queues that fire what is due differ at most in the order among equal expiries |
| IdleServer.Server.Accept | 81_timer/main.cpp:249-267 | a new client gets its one timer, set 3 * TIMESLOT (15 seconds) after now |
| IdleServer.Server.Event | 81_timer/main.cpp:290-319 | data pushes the client's timer back; end of stream or an error other than EAGAIN closes the client and removes its timer; EAGAIN changes nothing |
| IdleServer.Server.EndOfRound | 81_timer/main.cpp:322-325 | when the alarm rang, exactly the clients last accepted or received from 3 * TIMESLOT ago or earlier are closed, once each; otherwise none |
| IdleServer.TickClosesIdle | 81_timer/main.cpp:123-147 | firing the due timers closes exactly the idle clients, and the clients left still have exactly one timer each |
| IdleServer.Run | 81_timer/main.cpp:241-326 | over every legal run of connections, events, alarms and ends of rounds, each end of a round closes exactly the clients that the plain map of last activity says are idle, each once |
| IdleServer.SilentClientIsClosedOnce | 81_timer/main.cpp:322-325 | a client that falls silent is closed once, by the first round with an alarm that ends 15 seconds or more after its last activity |
| RequestParser.ChunksDoNotMatter | 78_server_framework/main.cpp:282-304 | feeding chunks one by one gives the code, indices, phase and buffer that parsing the whole stream at once gives |
| RequestParser.SplitsAgree | 78_server_framework/main.cpp:282-304 | two ways of cutting up the same stream are answered alike |
| RequestParser.ContentParseExtend | 78_server_framework/main.cpp:219-259 | a verdict on a prefix is the verdict on every extension; without a verdict the parser can be resumed |
| RequestParser.LineParseExtend | 78_server_framework/main.cpp:122-157 | a finished line is not affected by later bytes, an unfinished one is resumed, also between CR and LF |
| RequestParser.LineFeedBranchIsDead | 78_server_framework/main.cpp:143-152 | when the byte before the check index is no CR, the success case of the LF branch is not reached, and a line that is found ends in CR LF |
| RequestParser.ReachableIsClean | 78_server_framework/main.cpp:282-304 | in every reachable state the byte before the check index is no CR and the unfinished line up to it holds no CR and no LF |
| RequestGrammar.RequestLineMeetsGrammar | 78_server_framework/main.cpp:160-201 | the in-place splitter accepts exactly GET in any case of letters, blanks or tabs, a target, blanks or tabs, HTTP/1.1 in any case |
| RequestGrammar.PartsAreCutOut | 78_server_framework/main.cpp:161-182 | in a line that is split into method, blanks, target, blanks and version, the NULs that are written leave these three as C strings where the pointers point |
| RequestGrammar.ParserDecidesGrammar | 78_server_framework/main.cpp:219-259 | on every stream GET_REQUEST iff a prefix is a valid request line, nonempty CR/LF-free lines and an empty line, each read up to its first NUL; BAD_REQUEST iff the first line is invalid or a stray CR or LF comes before that; NO_REQUEST otherwise |
| RequestGrammar.FeedDecidesGrammar | 78_server_framework/main.cpp:282-304 | the same however the stream is cut into chunks |
| RequestReader.Reader.ParseLine | 78_server_framework/main.cpp:122-157 | the loop over the buffer finds the line that the specification finds, and writes its NULs and no other byte |
| RequestReader.Reader.ParseRequestLine | 78_server_framework/main.cpp:160-201 | the line is cut and judged as specified, the phase moves on iff it is valid, and no byte outside the line changes |
| RequestReader.Reader.ParseContent | 78_server_framework/main.cpp:219-259 | the loop over complete lines in the array computes the specified code, indices, phase and buffer |
| RequestReader.ReceiveAll | 78_server_framework/main.cpp:282-304 | the receive loop answers as the parser does on as much of the stream as the buffer holds, for every stream and every chunking |
| HttpConnection.NoCarriageReturnIsSkipped | 85_process_pool_thread_pool/http_conn.h:199-243 | over every sequence of received chunks, turns of process_read's loop and resets, bad lines that are read again included: the byte before the check index is no CR, the unfinished line holds no CR and no LF, and the next parse_line equals the splitter without the success case of the LF branch |
| HttpConnection.ConnReachableIsClean | 85_process_pool_thread_pool/http_conn.h:409-438 | the same between the chunks of a connection's life, over all its requests |
| HttpConnection.LifeIsEvents | 85_process_pool_thread_pool/http_conn.h:160-173 | the life of a connection, a reset after each answered request with keep-alive included, is a sequence of such receives, turns and resets |
| HttpConnection.ReadingIsTurning | 85_process_pool_thread_pool/http_conn.h:204-240 | a call of process_read is a sequence of such turns |
| HttpConnection.ReadExtend | 85_process_pool_thread_pool/http_conn.h:199-243 | before the body, a verdict stands on every extension, and without one reading resumes as if all had come at once, behind a bad line too |
| HttpChunks.ChunksAreAnswered | 85_process_pool_thread_pool/http_conn.h:199-243 | for every stream and every cutting, from any connection that waits for a head: BAD_REQUEST iff the request line is invalid, GET_REQUEST iff the header lines reach an empty one and announce no body, or one of the reads completes the body, NO_REQUEST otherwise |
| HttpChunks.HeadMeetsGrammar | 85_process_pool_thread_pool/http_conn.h:199-243 | the head of a stream ends iff the stream is one that the grammar accepts, and is invalid iff its first line is complete and no request line |
| HttpChunks.HeadSays | 85_process_pool_thread_pool/http_conn.h:343-373 | the head of an accepted stream says what its header lines say one after the other, and the body begins behind the empty line |
| HttpChunks.ChunksAreAnsweredAsAtOnceIff | 85_process_pool_thread_pool/http_conn.h:199-243 | chunks are answered as the whole stream at once iff the head announces no body, or some read completes the body, or all chunks together bring fewer than content-length bytes of it |
| HttpChunks.RequestChunksDoNotMatter | 85_process_pool_thread_pool/http_conn.h:199-243 | when the header lines of the stream before the first empty line leave the content length at 0, code, indices, phase, fields and buffer are the same however it is cut |
| HttpChunks.BodyIsFoundIff | 85_process_pool_thread_pool/http_conn.h:375-382 | a read in the content state answers GET_REQUEST iff content-length bytes stand behind the check index as it begins, whatever the bytes are |
| HttpChunks.BodyChunks | 85_process_pool_thread_pool/http_conn.h:228-235 | chunks of body bytes of any kind complete the request iff, for one of them, what the line splitter had left unread before it and the chunk together make content-length bytes |
| HttpChunks.OneReadBringsTheBody | 85_process_pool_thread_pool/http_conn.h:228-235 | in a body without line ends the read that completes it brings content-length bytes of it by itself |
| HttpChunks.SplitBodyIsMissed | 85_process_pool_thread_pool/http_conn.h:375-382 | every body without line ends that is found complete when it comes at once is missed when it comes in two reads |
| HttpConnection.HeadersRoundTrip | 85_process_pool_thread_pool/http_conn.h:343-373 | for every int n and both linger flags, reading what add_headers wrote recovers n and the flag, consumes it all, and ends in the content state iff n is not 0 |
| HttpHeaders.HeadersFit | 85_process_pool_thread_pool/http_conn.h:448-488 | the text "Content-Length: n", "Connection: keep-alive" or "Connection: close", and a blank line are written whole iff they leave at least two bytes of the write buffer free |
| HttpHeaders.HeaderMeans | 85_process_pool_thread_pool/http_conn.h:354-370 | a line that is Host:, Content-Length: or Connection: in any case of letters, blanks or tabs, and a value sets the host to the value, the content length to its number, or keep-alive if the value is that word in any case; the other two fields stay |
| HttpHeaders.OtherLinesMeanNothing | 85_process_pool_thread_pool/http_conn.h:368-370 | a line with none of the three names changes nothing |
| HttpHeaders.ContentLengthOf | 85_process_pool_thread_pool/http_conn.h:360-363 | of the Content-Length lines of a head the last one counts; without one the content length stays |
| HttpHeaders.HostOf | 85_process_pool_thread_pool/http_conn.h:364-367 | of the Host lines of a head the last one counts; without one the host stays |
| HttpHeaders.LingerOf | 85_process_pool_thread_pool/http_conn.h:354-359 | a head asks for keep-alive iff one of its lines does |
| HttpHeaders.AtolReads | 85_process_pool_thread_pool/http_conn.h:363 | the number of a value is that of the digits behind white space and a sign, 0 without digits, and the nearest long beyond the range |
| HttpHeaders.DecimalRoundTrip | 85_process_pool_thread_pool/http_conn.h:360-363 | every int printed with %d and read back with atol into an int is unchanged |
| HttpConnection.HttpConn.AddResponse | 85_process_pool_thread_pool/http_conn.h:448-461 | text is appended whole when it fits and the write index stays where it was when it does not |
| HttpConnection.HttpConn.AddHeaders | 85_process_pool_thread_pool/http_conn.h:471-488 | content length, connection and blank line, each added only if it fits; always true |
| HttpConnection.HttpConn.ProcessRead | 85_process_pool_thread_pool/http_conn.h:199-243 | the loop over request line, headers and content ends where the specification ends, with the same code, buffer, indices and fields, and leaves the write buffer alone |
| HttpConnection.FoundBodyIsTerminated | 85_process_pool_thread_pool/http_conn.h:377-379 | a complete body is found, the NUL is written content-length bytes behind its start, and no other byte changes |
| HttpWriter.AllWentOutIff | 85_process_pool_thread_pool/http_conn.h:137-175 | an answer that write says is done has gone out whole, each byte once and in order, iff the first writev that sent anything sent all of it |
| HttpWriter.FinishesAtHalf | 85_process_pool_thread_pool/http_conn.h:160-162 | without an error write says that it is done iff half of the write buffer's count has gone out, whatever the size of the answer |
| HttpWriter.WriteOnce | 85_process_pool_thread_pool/http_conn.h:137-175 | the loop sends and ends as specified, and after EAGAIN the next call counts anew |
| HttpWriter.AgainCountsAnew | 85_process_pool_thread_pool/http_conn.h:150-155 | after EAGAIN the next call sends from the front of the answer and counts from 0, whatever has gone out |
| HttpWriter.ErrorEnds | 85_process_pool_thread_pool/http_conn.h:156-157 | any other error ends the answer: nothing goes out behind it, and it is never said to be done |
| SemaphorePool.RunsAreSafe | 85_process_pool_thread_pool/thread_pool.h:44-81 | in every state of every run, whenever the stop flag is set: queue length = semaphore value + tokens in the hands of threads, accepted requests = popped requests followed by the queue, one lock holder, each popped request finished or in the hand of the worker that popped it, the queue at most max_request + 1 long, no worker gone before the flag is set; front() is never called on an empty queue and the empty-queue branch is never taken |
| SemaphorePool.RefusesIffFull | 85_process_pool_thread_pool/thread_pool.h:47-50 | append refuses exactly when the queue holds max_request + 1 requests |
| SemaphorePool.QueuedMeansEnabled | 85_process_pool_thread_pool/thread_pool.h:65-81 | while some worker has not left, a queued request always leaves some thread of the pool with an enabled step |
| SemaphorePool.TokenMeansNonempty | 85_process_pool_thread_pool/thread_pool.h:67-69 | a worker that got past wait finds the queue nonempty |
| SemaphorePool.StepKeepsWork | 85_process_pool_thread_pool/thread_pool.h:73-79 | a step moves a popped request from one worker's hand to the log of finished ones, never to two workers |
| SemaphorePool.LeavesIffStopped | 85_process_pool_thread_pool/thread_pool.h:66 | a step of a worker makes it leave iff it stands at the top of the loop and the flag is set |
| SemaphorePool.AcceptedGetsFinished | 85_process_pool_thread_pool/thread_pool.h:44-81 | from every reachable state with the flag unset and a worker there is a continuation without new calls in which everything queued or on its way is finished |
| SemaphorePool.InsideRunsAreShort | 85_process_pool_thread_pool/thread_pool.h:44-81 | every continuation without new calls, whatever the schedule, ends within a number of steps given by its first state |
| SemaphorePool.RestMeansFinished | 85_process_pool_thread_pool/thread_pool.h:65-81 | where such a continuation can go no further and the flag is unset, the queue is empty, every accepted request is finished and every worker waits |
| ConditionPool.RunsAreSafe | 04_thread/main.cpp:624-650 | in every state of every run, shutdown included: the counter equals the list length whenever the mutex is free, front() is only called on nonempty lists, jobs are popped in the order they were added, the jobs called for are those added and those still on their way, each popped job has been run or is in the hand of the worker that popped it; until shutdown there are no more queued jobs than awake workers and signals to come, or nobody sleeps |
| ConditionPool.StepKeepsEnough | 04_thread/main.cpp:668-682 | no step, the signal after the unlock included, leaves more queued jobs than awake workers and signals to come while somebody sleeps |
| ConditionPool.NoLostWakeup | 04_thread/main.cpp:629-631 | until shutdown a queued job always finds a worker awake or a signal still to come |
| ConditionPool.ShutdownIsHeardIff | 04_thread/main.cpp:684-696 | after the destructor's broadcast nobody sleeps in any continuation iff, as it was sent, no worker stood between finding the queue empty and going to sleep |
| ConditionPool.BroadcastUnderMutexIsHeard | 04_thread/main.cpp:689-692 | a broadcast sent while no worker holds the mutex is heard by everybody, for good |
| ConditionPool.FlagUnderMutexIsHeard | 04_thread/main.cpp:689-692 | a flag set while no worker holds the mutex suffices: every later broadcast is heard by everybody |
| ConditionPool.HeardMeansEnabled | 04_thread/main.cpp:694-696 | when everybody has heard, some thread can move until the last worker has left |
| ConditionPool.ShutdownCanBeMissed | 04_thread/main.cpp:684-696 | a run in which the broadcast is not heard: a worker sleeps on, and nobody is left to wake it |
| ConditionPool.QueuedMeansEnabled | 04_thread/main.cpp:624-650 | until shutdown, while a job is queued some thread of the pool can move |
| ConditionPool.StepKeepsWork | 04_thread/main.cpp:640-646 | a step moves a job from the hand of the worker that popped it to the log of jobs that were run, and no worker runs a job that it did not pop |
| ConditionPool.ShutdownTakesNoMore | 04_thread/main.cpp:633-637 | after shutdown no worker goes to take another job: at the test behind the wait it unlocks and leaves |
| ConditionPool.NobodyQuitsBeforeShutdown | 04_thread/main.cpp:633-637 | until shutdown no worker leaves |
| ConditionPool.AcceptedGetsRun | 04_thread/main.cpp:624-682 | from every reachable state before shutdown with a worker there is a continuation without new calls in which every job called for is run |
| ConditionPool.InsideRunsAreShort | 04_thread/main.cpp:624-682 | every continuation without new calls, whatever the schedule and whomever the signals wake, ends within a number of steps given by its first state |
| ConditionPool.RestMeansRun | 04_thread/main.cpp:629-631 | where such a continuation can go no further before shutdown, every job called for has been run, and every call has returned |
| ConditionPool.RestMeansLeft | 04_thread/main.cpp:694-696 | where it can go no further after a broadcast that everybody has heard, every worker has left, so that the joins return |
| ConnectionOwnership.EveryConnectionHasOneOwner | 85_process_pool_thread_pool/main.cpp:80-118 | in every state of every run each open connection is in exactly one of armed, delivered, event loop, queue, one worker, dropped by a refused append; a closed one is in none |
| ConnectionOwnership.OwnersExclude | 85_process_pool_thread_pool/thread_pool.h:65-81 | the queue holds no connection twice, no two workers process the same one, and one being processed is neither armed, nor queued, nor with the event loop |
| ConnectionOwnership.ClosingIsSafe | 85_process_pool_thread_pool/http_conn.h:87-93 | the event loop closes only connections nobody else holds |
| ConnectionOwnership.PoolStep | 85_process_pool_thread_pool/http_conn.h:96-108 | a connection enters the pool when append is called with it, and leaves it when append refuses it or its processing ends |
| ConnectionOwnership.EventsAreAnsweredByKind | 85_process_pool_thread_pool/main.cpp:101-117 | a hang-up is answered by closing, readiness to read by append or closing, readiness to write by arming again or closing |
| ConnectionOwnership.AnswersArePossible | 85_process_pool_thread_pool/main.cpp:101-117 | in every reachable state each of these answers to the next event is possible |
| ConnectionOwnership.PollCanDeliver | 85_process_pool_thread_pool/main.cpp:81-87 | any of the armed connections can be delivered with any event, and is then not armed any more |
| ConnectionOwnership.AcceptCanTake | 85_process_pool_thread_pool/main.cpp:88-100 | an accepted connection is open and armed, a refused one changes nothing |
| RoundRobin.RoundRobinIsFair | 85_process_pool_thread_pool/process_pool.h:239-254 | over every run, two children alive at its end differ by at most one connection, whatever other children died |
| RoundRobin.DispatchAlternates | 85_process_pool_thread_pool/process_pool.h:241-254 | a dispatch serves a child only when the scan reaches it before every other live child, and puts it behind them |
| RoundRobin.ChosenFindsALiveChild | 85_process_pool_thread_pool/process_pool.h:241-252 | the scan finds nobody iff no child is alive |
| RoundRobin.ProcessPool.Scan | 85_process_pool_thread_pool/process_pool.h:241-247 | the do-while loop ends within one round, at the first live child, or back at the start when all are dead |
| RoundRobin.ProcessPool.Dispatch | 85_process_pool_thread_pool/process_pool.h:239-259 | the chosen child is announced and the next scan starts behind it; with nobody left the parent stops |
| RoundRobin.ProcessPool.ReapChildren | 85_process_pool_thread_pool/process_pool.h:269-290 | exactly the entries of the reaped pids are cleared and their pipes closed, each once, and the parent stops iff no child is left |
| RoundRobin.ProcessPool.Terminate | 85_process_pool_thread_pool/process_pool.h:291-301 | SIGTERM goes to exactly the live children, once each, in order |
| ProcessTable.TableRefinesRegistry | 83_multi_process/main.cpp:311-393 | over every run of connections and child exits the dense table holds exactly the processes that are alive, each found through its pid, at most five of them |
| ProcessTable.ReapRefines | 83_multi_process/main.cpp:380-391 | reaping a pid removes exactly its record, and every other process is still found through its pid |
| ProcessTable.ReapFindsTheOthers | 83_multi_process/main.cpp:390-391 | moving the last record into the hole leaves every other pid with its own record |
| ProcessTable.AcceptRefines | 83_multi_process/main.cpp:314-362 | a new process is entered under its pid; a failed accept, a full table or a failed fork leaves the table as it was |
| ProcessTable.RefusesIffFiveAreAlive | 83_multi_process/main.cpp:319-323 | an established connection leaves the table as it was exactly when five processes are alive, and is entered otherwise |
| ProcessTable.DeadEntryIsClearedUnlessLast | 83_multi_process/main.cpp:381-391 | the index entry of a dead pid is -1 afterwards iff its record was not the last one |
| ProcessTable.RelayReachesTheOthers | 83_multi_process/main.cpp:418-432 | a message goes to every live process but its sender, once each, and to nobody else |
| ProcessTable.Server.AcceptClient | 83_multi_process/main.cpp:314-362 | the branches over the arrays do what the table specifies, and refuse exactly when five are served |
| ProcessTable.Server.ReapChild | 83_multi_process/main.cpp:381-391 | the updates of users, user_cnt and sub_map_idx do what the table specifies, and the pipe closed is the dead process's |
| ProcessTable.Server.ChildSignal | 83_multi_process/main.cpp:376-398 | all reaped children are gone from the table, and a terminating server stops iff nobody is left |
| ProcessTable.Server.StopSignal | 83_multi_process/main.cpp:400-414 | every live process is signalled once, and the server stops at once iff there is none |
| ProcessTable.Server.Relay | 83_multi_process/main.cpp:428-432 | the loop sends to the pipes that the specification lists |
| SharedSegments.RunStaysApartIff | 83_multi_process/main.cpp:342 | over every run, no two children write to the same shared-memory segment iff no fork finds the segment of the next free place taken |
| SharedSegments.NewChildIsApartIff | 83_multi_process/main.cpp:342 | a new child gets a segment of its own iff no living child was forked with the present number of users |
| SharedSegments.ForkAfterReapSharesIff | 83_multi_process/main.cpp:390 | while children are in place, a reaping and then a fork keep them apart iff the reaped record was the last one |
| PollTable.TableRefinesOpenSet | 79_io_reuse/main.cpp:458-546 | over every run of polls the array edited during its own scans holds exactly the open clients, each once, at most five: a client leaves when it has no POLLERR and either hung up or is readable with a recv that fails for good |
| PollTable.RoundOutcome | 79_io_reuse/main.cpp:464-546 | one pass removes a client iff its events hold no POLLERR and either POLLRDHUP or POLLIN with a recv that fails other than by EAGAIN, and admits a new client iff the listening socket is readable, accept succeeds and fewer than five were there as the pass began; each client stands there once |
| PollTable.RoundHandlesEachOnce | 79_io_reuse/main.cpp:464-546 | one pass handles every client present at its start, and the new one, exactly once |
| PollTable.PassKeepsSurvivors | 79_io_reuse/main.cpp:498-520 | whatever the swaps do, exactly the slots that are not to be closed are kept |
| PollTable.PassHandlesEachOnce | 79_io_reuse/main.cpp:498-520 | stepping back after a removal, the scan misses no slot and sees none twice |
| PollTable.ChatRoom.Visit | 79_io_reuse/main.cpp:465-544 | one slot: the listening socket admits or refuses a client; a client's slot is filled with the last one iff it has no POLLERR and either POLLRDHUP or POLLIN with a recv that fails other than by EAGAIN, and kept otherwise |
| PollTable.ChatRoom.Scan | 79_io_reuse/main.cpp:464-546 | the loop whose bound and index change while it runs ends, with the specified array and the specified order of handling |
| PollTable.ChatRoom.Turn | 79_io_reuse/main.cpp:459-546 | poll and pass together are one round of the run |
| CgiReader.FeedIsVerdict | 85_process_pool_thread_pool/cgi_conn.h:29-58 | the loop stops at the first CRLF of the stream iff its LF is among the first 1023 bytes; otherwise it closes the connection iff the stream is longer or has ended or failed; otherwise it waits |
| CgiReader.ChunksDoNotMatter | 85_process_pool_thread_pool/cgi_conn.h:29-58 | the outcome is the same for every split of the stream, between CR and LF and between calls of process included |
| CgiReader.FileNameIsTheLine | 85_process_pool_thread_pool/cgi_conn.h:56-58 | the file name is exactly the bytes before the first CRLF iff they hold no NUL |
| CgiReader.ScanFindsTheFirst | 85_process_pool_thread_pool/cgi_conn.h:45-49 | scanning only the new bytes, and the one before them, finds the first CRLF of everything received |
| CgiReader.CgiConn.TakeBytes | 85_process_pool_thread_pool/cgi_conn.h:41-58 | one recv and its scan in the buffer find the line end and the file name that the specification finds |
| CgiReader.CgiConn.Process | 85_process_pool_thread_pool/cgi_conn.h:25-81 | one call of process takes the arrivals as specified, keeps what it has read when it has to wait, and starts the program iff a line was found, the program exists and fork succeeds |
| CgiReader.CgiConn.Serve | 85_process_pool_thread_pool/cgi_conn.h:25-81 | over all its calls a connection comes to the verdict on the whole stream |

## Left out

- System calls, sockets, `fork`, signals, clocks and printing are inputs or assumptions; so are the semantics of epoll, poll, mutexes, semaphores and condition variables.
- The layout and internal moves of `std::priority_queue` and `std::list::sort`: heap and sort are the model's own, with what the C++ standard promises of them proved; memory is not freed.
- Which events of a batch are handled: `81_timer/main.cpp:272` and `83_multi_process/main.cpp:368` overwrite the bound of the loop over events, so the events that are handled are arbitrary inputs.
- TimingWheel.TimeWheel.constructor: wheel size and slot interval are parameters, where the source fixes 60 and 1.
- IdleServer.Server.Accept: assumes that accept succeeded, which `81_timer/main.cpp:252-265` does not check.
- INTERNAL_ERROR of the parsers: their phases have no other value that would lead there.
- `http_conn` cuts and splits lines with the same code as `78_server_framework` (`http_conn.h:310-341`, `http_conn.h:409-438`); the model uses one set of functions for both.
- HttpConnection.HttpConn.ProcessRead: the NUL behind a complete body is written within the received bytes only; `do_request` and what it makes of a complete request are left out; `atol` of a number beyond `long` saturates as strtol does, where C leaves it undefined.
- ConnectionOwnership.EveryConnectionHasOneOwner: covers the runs in which `process_write` succeeds; the close by a worker (`http_conn.h:103-105`) is not modelled.
- A connection refused by append is never armed again (`85_process_pool_thread_pool/main.cpp:107`), so no eventual service is claimed.
- SemaphorePool.RunsAreSafe: what happens once the destructor has gone on to destroy queue, mutex and semaphore under running workers (`thread_pool.h:38-41`).
- ConditionPool.RunsAreSafe: the joins of the destructor and what it frees after them (`04_thread/main.cpp:694-703`).
- RoundRobin.ProcessPool.constructor: assumes that every fork succeeded.
- The child side of the process pool and of the chat server, and the contents of the shared-memory segments.
- ProcessTable.Server.ReapChild: covers pids that are in the table or whose index entry is -1; a dead pid's own entry may be left pointing at a place that is not in use any more (`83_multi_process/main.cpp:390-391`), and waitpid does not return such a pid.
- PollTable.ChatRoom.Scan: event masks, the buffers behind `write_buf` and the per-client data in `users` are left out, the slots and their order are kept; poll reports only POLLIN and POLLERR of what is looked at for the listening socket.
- The remaining chapters: echo servers, file transfer, IPC demonstrations and API notes.

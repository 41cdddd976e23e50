# SLAMROS networking core in Dafny

This project models the sequential logic beneath the asio- and
thread-driven programs of SLAMROS, and proves properties of that logic:

- **`Queues`** (`concurrent_queue.dfy`) is the bounded FIFO work queue
  `MathLib::ConcurrentQueue<T>`. It is a class with the fields `queue`,
  `size` and `capacity`. Each method is tied to a pure `Step` function, and
  lemmas over traces of steps prove FIFO order and the capacity bound of the
  timed push path.
- **`Worker`** (`worker.dfy`) models the following classes:
  - `MathLib::WorkerItem<T>`, which holds a completion record;
  - `MathLib::WorkerThread<T>`, which holds the loop that drains the queue,
    the choice between the two push paths, and the destructor's shutdown
    protocol;
  - `MathLib::WorkerThreadClientBase<T>`.

  The owner type `T` is the client class itself.
- **`ControllerServer`** (`server.dfy`) models the fixed-length command
  server. It covers `trim`, the whitelist and the reply built by
  `Service::processCmd`, and the 7-byte command frame of
  `onAsyncCallResume`. It also covers the accept loop of `Acceptor`, with
  its stop flag.
- **`ControllerClient`** (`client.dfy`) models the asynchronous command
  client. A request runs connect, then write, then read. A cancellation
  check guards each step. The client keeps a registry of active sessions.
  `onRequestComplete` computes the final status and invokes the callback.
- **`PrototypeClient`** (`prototype_client.dfy`) models the upload client
  in `asio.sync.fixedlength/main.cpp`. It covers:
  - the payload, which ends in a sentinel;
  - its registry, and the way it cancels a request;
  - the accounting of partial writes in `handler`.
- **`AsioTypes`** (`common.dfy`) holds the error codes the core tests for,
  the `unsigned int` and `unsigned long` widths, and an `Option`.

Each locked region of the source is one atomic step. Some waits block
until a condition holds: the untimed `pop`, and `wait(-1)` on a work item.
Each such wait is a precondition. For a timed wait, `wait_for` with a
predicate returns that predicate's value. So `timedPop` fails exactly when
the queue is empty at that step, and `timedPush` fails exactly when
`size >= capacity`. Every completion of an asio operation is an event. The
event carries the error code, and where it matters the byte count or the
received text.

Where the code and its documentation disagree, the model follows the code:

- The read-error reply is written with the array form of `asio::buffer`.
  That form covers the whole string literal, so the reply is the text
  `"Error reading CMD\n"` followed by the literal's terminating NUL.
  `ControllerServer.ReadErrorReply` has both.
- `WorkerItem::wait` never reports a timeout; see Findings.

## Model

| member | source | states |
|---|---|---|
| Queues.Step | src/libs/ConcurrentQueue.h:25-98 | One locked operation. What was queued, plus what entered, equals what left followed by what remains. `push` always succeeds. `timedPush` succeeds exactly when the size is below capacity. A successful push appends its item at the back and takes nothing. Both pops succeed exactly on a non-empty queue and take its front. A failed call changes nothing. |
| Queues.RunIsFifo | src/libs/ConcurrentQueue.h:25-98 | Over any trace of operations, the initial items followed by everything that entered equals everything that left followed by what remains. This holds whichever push path was used. |
| Queues.LeftIsPrefixOfEntered | src/libs/ConcurrentQueue.h:25-98 | The items taken are always a prefix of the initial items followed by the items pushed. |
| Queues.TimedPushKeepsBound | src/libs/ConcurrentQueue.h:78-98 | If only `timedPush` adds items, a queue that starts within its capacity stays within it. |
| Queues.PushExceedsCapacity | src/libs/ConcurrentQueue.h:64-76 | `push` on a full queue still grows it past the capacity: no capacity check is made. |
| Queues.ConcurrentQueue.constructor | src/libs/ConcurrentQueue.h:100-103 | The new queue is empty, with size 0 and the given capacity. |
| Queues.ConcurrentQueue.Default | src/libs/ConcurrentQueue.h:105-108 | The new queue is empty, with size 0 and capacity 100. |
| Queues.ConcurrentQueue.Pop | src/libs/ConcurrentQueue.h:25-40 | On a non-empty queue it returns the front, removes it and decrements the size. The size still counts the items. |
| Queues.ConcurrentQueue.TimedPop | src/libs/ConcurrentQueue.h:42-62 | It succeeds exactly when the queue is non-empty. It then yields the front, removes it and decrements the size. Otherwise the queue, the size and the out-argument are unchanged. |
| Queues.ConcurrentQueue.Push | src/libs/ConcurrentQueue.h:64-76 | It appends at the back and increments the size, whatever the capacity. |
| Queues.ConcurrentQueue.TimedPush | src/libs/ConcurrentQueue.h:78-98 | It succeeds exactly when `size < capacity`, and then appends and increments the size. On failure the queue and the size are unchanged. |
| Worker.Processed | src/libs/WorkerItem.h:139-144 | The number of items the loop takes: up to and including the first stop item, or all of them when there is none. |
| Worker.WorkerItem.constructor | src/libs/WorkerItem.h:16 | A fresh item is neither completed nor successful. |
| Worker.WorkerItem.Act | src/libs/WorkerItem.h:69-74 | The stop action calls the owner's `stop`, which sets the worker thread's `stopping` flag, and returns true. A user action returns its own result. |
| Worker.WorkerItem.Invoke | src/libs/WorkerItem.h:207-216 | It runs the action once, stores its result in `success` and sets `completed`. |
| Worker.WorkerItem.Wait | src/libs/WorkerItem.h:222-246 | It returns only for a completed item, and then returns `success`. |
| Worker.WorkerThreadClient.constructor | src/libs/WorkerItem.h:102-118 | The thread pointer is unset until `setThreadObj` records one. |
| Worker.WorkerThreadClient.SetThreadObj | src/libs/WorkerItem.h:106 | It records the worker thread. |
| Worker.WorkerThreadClient.Stop | src/libs/WorkerItem.h:107 | It sets the worker thread's `stopping` flag. |
| Worker.WorkerThreadClient.QueueWorkerItem | src/libs/WorkerItem.h:109-112 | It forwards to the worker thread with a default timeout of 10 s. It gives the same result and the same effect on the queue. |
| Worker.WorkerThread.constructor | src/libs/WorkerItem.h:121-129 | `stopping` starts false. The queue is empty, with capacity `queueSize` (default 100). The thread registers itself with its owner. |
| Worker.WorkerThread.Stop | src/libs/WorkerItem.h:64 | It sets `stopping`. |
| Worker.WorkerThread.QueueWorkerItem | src/libs/WorkerItem.h:185-204 | With a negative timeout it takes the unbounded `push` and returns true. Otherwise it returns exactly what `timedPush` returns. The item is appended exactly when the call succeeds. |
| Worker.Taken | src/libs/WorkerItem.h:139-144 | One run of the loop takes no more items than are queued, and a thread parked in `pop` takes at least the item that arrives. |
| Worker.WorkerThread.TakeNext | src/libs/WorkerItem.h:140-142 | One pass of the loop body: the front item is popped and invoked once, and it sets `stopping` exactly when it is the stop item. |
| Worker.WorkerThread.WorkerThreadMain | src/libs/WorkerItem.h:132-147 | While `stopping` is false it pops and invokes items in FIFO order, each exactly once. It goes up to and including the first stop item, and then the loop is left. Items behind the stop item stay queued and are not invoked. Without a stop item it drains the queue and then waits (is parked) in `pop`. A parked thread resumes inside `pop`: it takes and invokes the next item before it tests `stopping` again, and stays parked while the queue is empty. A thread that is stopping and not parked leaves at once: nothing is popped or invoked and no item changes. |
| Worker.WorkerThread.Destroy | src/libs/WorkerItem.h:151-181 | For a thread still in its loop (not stopping, or parked in `pop` on an empty queue): the stop item is queued on the unbounded path, so queuing succeeds. Every item queued before it is invoked, and then the stop item is. The wait returns true, the thread is joined, and the queue is left empty. |
| Worker.WaitRound | src/libs/WorkerItem.h:223-246 | One pass of `wait`'s loop as written: it returns exactly when the item is completed, and then returns `success`. |
| Worker.WaitRoundDocumented | src/libs/WorkerItem.h:219-221 | The documented behaviour: once a non-negative timeout is reached it returns false, and otherwise it returns the action's result. |
| Worker.TimeoutIsNotReported | src/libs/WorkerItem.h:228-239 | When the item is incomplete and the wait timed out, the code keeps waiting where the documentation promises `false`. |
| Worker.WaitRoundsAgreeWhenUnbounded | src/libs/WorkerItem.h:236-238 | With a negative timeout, which is what the destructor uses, the code and its documentation agree. |
| ControllerServer.FindFirstNotBlank | asio.async.fixedlength.server/asio.async.fixedlength.server/ControllerAsyncServer.cpp:126 | The first character that is neither space nor tab, with only blanks before it. `None` (npos) exactly when the string is all blanks. |
| ControllerServer.FindLastNotBlank | asio.async.fixedlength.server/asio.async.fixedlength.server/ControllerAsyncServer.cpp:129 | The last character that is neither space nor tab, with only blanks after it. `None` (npos) exactly when the string is all blanks. |
| ControllerServer.FirstNotBlankAt | asio.async.fixedlength.server/asio.async.fixedlength.server/ControllerAsyncServer.cpp:126 | A non-blank character preceded only by blanks is the one that `find_first_not_of` finds. |
| ControllerServer.LastNotBlankAt | asio.async.fixedlength.server/asio.async.fixedlength.server/ControllerAsyncServer.cpp:129 | A non-blank character followed only by blanks is the one that `find_last_not_of` finds. |
| ControllerServer.Trim | asio.async.fixedlength.server/asio.async.fixedlength.server/ControllerAsyncServer.cpp:123-133 | The result is no longer than the input. It is empty exactly when the input is all blanks. Otherwise it starts and ends with a non-blank. |
| ControllerServer.TrimPadded | asio.async.fixedlength.server/asio.async.fixedlength.server/ControllerAsyncServer.cpp:123-133 | Any core with blank padding on both sides trims to exactly that core. The core's interior, blanks included, is unchanged. |
| ControllerServer.TrimIsSlice | asio.async.fixedlength.server/asio.async.fixedlength.server/ControllerAsyncServer.cpp:123-133 | For a string that is not all blanks, the result is the slice starting at the first non-blank, with only blanks before and after it. |
| ControllerServer.TrimDecomposes | asio.async.fixedlength.server/asio.async.fixedlength.server/ControllerAsyncServer.cpp:123-133 | Every string that is not all blanks is its trimmed form with blank padding on both sides. This is the converse of `TrimPadded`. |
| ControllerServer.TrimAllBlank | asio.async.fixedlength.server/asio.async.fixedlength.server/ControllerAsyncServer.cpp:126-131 | An all-blank or empty string trims to the empty string. |
| ControllerServer.TrimIdempotent | asio.async.fixedlength.server/asio.async.fixedlength.server/ControllerAsyncServer.cpp:123-133 | `trim(trim(s)) == trim(s)`. |
| ControllerServer.ProcessCmd | asio.async.fixedlength.server/asio.async.fixedlength.server/ControllerAsyncServer.cpp:136-163 | `executeCmd` is called exactly when the trimmed command is one of UP, DOWN, LEFT, RIGHT. The reply is the untrimmed command followed by " EXECUTED\n", " FAILED\n" (when `executeCmd` throws) or " NOT SUPPORTED\n". |
| ControllerServer.ParseReply | asio.async.fixedlength.server/asio.async.fixedlength.server/ControllerAsyncServer.cpp:148-159 | A reader of replies. Whatever it accepts is a command followed by the suffix of the status it returns. |
| ControllerServer.ParseSuffixed | asio.async.fixedlength.server/asio.async.fixedlength.server/ControllerAsyncServer.cpp:148-159 | A command followed by the suffix of a status reads back as that command and that status. The three reply forms cannot be confused. |
| ControllerServer.ProcessCmdReplyParses | asio.async.fixedlength.server/asio.async.fixedlength.server/ControllerAsyncServer.cpp:136-163 | Every reply of `processCmd` reads back as the raw command and the status that the whitelist and `executeCmd` decided. |
| ControllerServer.OnAsyncCallResume | asio.async.fixedlength.server/asio.async.fixedlength.server/ControllerAsyncServer.cpp:68-91 | A read error gives the fixed error reply. Otherwise the command is all 7 bytes of the frame, whatever the byte count, and the reply reads back as that frame with its status. |
| ControllerServer.PaddedCommandReply | asio.async.fixedlength.server/asio.async.fixedlength.server/ControllerAsyncServer.cpp:88-89 | Take a 7-byte frame that is a name followed by blanks. The name alone decides the status, and the reply echoes the whole frame, padding included. |
| ControllerServer.AcceptorStep | asio.async.fixedlength.server/asio.async.fixedlength.server/ControllerAsyncServer.cpp:179-236 | `Stop` only sets the flag. After an accept completes, the acceptor re-arms while not stopped and closes once stopped. A good accept starts one handler. |
| ControllerServer.AtMostOneAcceptAfterStop | asio.async.fixedlength.server/asio.async.fixedlength.server/ControllerAsyncServer.cpp:226-235 | Once stopped, at most one more accept completes. After it the acceptor is closed and nothing is outstanding. |
| ControllerServer.NothingAfterClose | asio.async.fixedlength.server/asio.async.fixedlength.server/ControllerAsyncServer.cpp:232-235 | A closed acceptor with nothing outstanding completes no further accepts. |
| ControllerServer.AcceptsUntilStopped | asio.async.fixedlength.server/asio.async.fixedlength.server/ControllerAsyncServer.cpp:212-231 | Until `Stop`, an accept is always outstanding after each completion, failed or not. The handlers started equal the successful accepts. |
| ControllerServer.Acceptor.constructor | asio.async.fixedlength.server/asio.async.fixedlength.server/ControllerAsyncServer.cpp:171-177 | The acceptor starts bound, not stopped and with no accept outstanding. |
| ControllerServer.Acceptor.Start | asio.async.fixedlength.server/asio.async.fixedlength.server/ControllerAsyncServer.cpp:179-184 | It issues the first accept. |
| ControllerServer.Acceptor.Stop | asio.async.fixedlength.server/asio.async.fixedlength.server/ControllerAsyncServer.cpp:186-189 | It sets the stop flag and nothing else. |
| ControllerServer.Acceptor.InitAccept | asio.async.fixedlength.server/asio.async.fixedlength.server/ControllerAsyncServer.cpp:200-210 | An accept is outstanding afterwards, and nothing else changes. |
| ControllerServer.Acceptor.OnAccept | asio.async.fixedlength.server/asio.async.fixedlength.server/ControllerAsyncServer.cpp:212-236 | It performs one `AcceptorStep`: a handler for a good connection, then a re-arm unless stopped, otherwise a close. |
| ControllerClient.FinalStatus | asio.sync.fixedlength/asio.sync.fixedlength/ControllerAsyncClient.cpp:202-207 | The status is success exactly when there was no error and no cancellation. It is `operation_aborted` when nothing failed but the request was cancelled, and otherwise the recorded error. |
| ControllerClient.FirstLine | asio.sync.fixedlength/asio.sync.fixedlength/ControllerAsyncClient.cpp:145-146 | `getline` gives the prefix before the first newline. The result has no newline and is followed by a newline or the end. |
| ControllerClient.FirstLineOfLine | asio.sync.fixedlength/asio.sync.fixedlength/ControllerAsyncClient.cpp:145-146 | A line followed by a newline reads back exactly, whatever comes after it. |
| ControllerClient.ReadsServerReply | asio.sync.fixedlength/asio.sync.fixedlength/ControllerAsyncClient.cpp:136-146 | The client's response to a server reply is that reply without its newline. |
| ControllerClient.ReadsServerErrorReply | asio.sync.fixedlength/asio.sync.fixedlength/ControllerAsyncClient.cpp:142-146 | The server's read-error reply reads as "Error reading CMD". |
| ControllerClient.Deliver | asio.sync.fixedlength/asio.sync.fixedlength/ControllerAsyncClient.cpp:100-167 | Only the pending operation's completion is accepted. A connect or write error is recorded and ends the request without a further operation. A set flag ends the request before the write or the read: a cancelled request's connect or write completion always fires the callback. A good connect or write of a request not cancelled moves it to the write or the read and changes nothing else. Only a failed completion changes the recorded error code. A read, good or failed, always fires the callback; it stores the first line or the error and ends the request. The callback fires exactly when the request ends. Only `cancelRequest` sets the flag, and it changes nothing else: the pending operation, the error and the response stay, and the callback does not fire. |
| ControllerClient.CallbackFiresOnce | asio.sync.fixedlength/asio.sync.fixedlength/ControllerAsyncClient.cpp:100-150 | On every path, `onRequestComplete` runs at most once, and exactly once when the request finishes. |
| ControllerClient.CancelledNeverAdvances | asio.sync.fixedlength/asio.sync.fixedlength/ControllerAsyncClient.cpp:109-134 | A cancelled request never issues another operation. It stays cancelled, either waiting for the operation it had issued or finished. |
| ControllerClient.NothingAfterCompletion | asio.sync.fixedlength/asio.sync.fixedlength/ControllerAsyncClient.cpp:159-167 | A finished request is out of the registry, so no event changes it or fires its callback again. |
| ControllerClient.CancelBeforeConnect | asio.sync.fixedlength/asio.sync.fixedlength/ControllerAsyncClient.cpp:109-115 | A request cancelled before its connect completes never writes or reads and has no response. If it finishes, it reports a failure. |
| ControllerClient.CancelledRequestAborts | asio.sync.fixedlength/asio.sync.fixedlength/ControllerAsyncClient.cpp:109-130 | A cancelled request whose pending connect or write then succeeds is completed there; the callback fires and reports `operation_aborted`. |
| ControllerClient.CancelledReadAborts | asio.sync.fixedlength/asio.sync.fixedlength/ControllerAsyncClient.cpp:136-147 | A cancelled request whose read then succeeds keeps the line it read, fires the callback, and reports `operation_aborted`. |
| ControllerClient.CancelThenConnect | asio.sync.fixedlength/asio.sync.fixedlength/ControllerAsyncClient.cpp:109-115 | Cancel, then a good connect: the request ends with one callback, no response and `operation_aborted`. |
| ControllerClient.NoResponseUnlessRead | asio.sync.fixedlength/asio.sync.fixedlength/ControllerAsyncClient.cpp:142-147 | A cancelled request that is not waiting for its read keeps its response unchanged. |
| ControllerClient.HappyPath | asio.sync.fixedlength/asio.sync.fixedlength/ControllerAsyncClient.cpp:100-150 | Connect, write and read with no error or cancellation fire the callback once, with the first line received and a success status. |
| ControllerClient.Session.constructor | asio.sync.fixedlength/asio.sync.fixedlength/ControllerAsyncClient.cpp:20-34 | A session starts at the connect with no error, no response and no cancellation. |
| ControllerClient.ControllerAsyncClient.constructor | asio.sync.fixedlength/asio.sync.fixedlength/ControllerAsyncClient.cpp:60-65 | The registry starts empty. |
| ControllerClient.ControllerAsyncClient.StartControllerTCPClient | asio.sync.fixedlength/asio.sync.fixedlength/ControllerAsyncClient.cpp:72-100 | The new session is mapped from `request_id`, and any session already filed there is overwritten. |
| ControllerClient.ControllerAsyncClient.CancelRequest | asio.sync.fixedlength/asio.sync.fixedlength/ControllerAsyncClient.cpp:154-168 | Only the session under the `unsigned int` id, if present, has its flag set; its stage, error and response stay as they were. Every other session is untouched. |
| ControllerClient.ControllerAsyncClient.OnRequestComplete | asio.sync.fixedlength/asio.sync.fixedlength/ControllerAsyncClient.cpp:184-212 | Exactly the session's id leaves the registry, and all other entries are unchanged. The callback gets the id, the response and `FinalStatus`. |
| ControllerClient.ControllerAsyncClient.Complete | asio.sync.fixedlength/asio.sync.fixedlength/ControllerAsyncClient.cpp:100-150 | It applies one completion as `Deliver` does. It erases the id and notifies exactly when the request finished. |
| ControllerClient.ControllerAsyncClient.OnConnect | asio.sync.fixedlength/asio.sync.fixedlength/ControllerAsyncClient.cpp:101-116 | The connect handler, as `Deliver` describes it. |
| ControllerClient.ControllerAsyncClient.OnWrite | asio.sync.fixedlength/asio.sync.fixedlength/ControllerAsyncClient.cpp:119-135 | The write handler, as `Deliver` describes it. |
| ControllerClient.ControllerAsyncClient.OnRead | asio.sync.fixedlength/asio.sync.fixedlength/ControllerAsyncClient.cpp:139-150 | The read handler always completes the request: it erases the id and notifies once. |
| PrototypeClient.Decimal | asio.sync.fixedlength/asio.sync.fixedlength/main.cpp:80-84 | The decimal text is non-empty, all digits, and has no leading zero. |
| PrototypeClient.DecimalRoundTrip | asio.sync.fixedlength/asio.sync.fixedlength/main.cpp:80-84 | Reading the decimal text of a number back gives that number. |
| PrototypeClient.Payload | asio.sync.fixedlength/asio.sync.fixedlength/main.cpp:78-86 | The payload's length is the timestamp's digits + 1 + 768000 + 1 + the duration's digits + 25. |
| PrototypeClient.PayloadHead | asio.sync.fixedlength/asio.sync.fixedlength/main.cpp:78-86 | The index of every field: the timestamp occupies the first `|t|` characters, '@' is at `|t|`, the fill runs up to the newline before `DurationStart`, the duration's digits follow, and the mark is the suffix. The framing lemmas below read the fields back through these positions. |
| PrototypeClient.TimestampRecoverable | asio.sync.fixedlength/asio.sync.fixedlength/main.cpp:80 | The text before the first '@' is all digits and reads back as the timestamp. |
| PrototypeClient.DurationRecoverable | asio.sync.fixedlength/asio.sync.fixedlength/main.cpp:83-85 | The text between the newline and the mark has no newline and reads back as the duration. |
| PrototypeClient.MarkOnlyAtEnd | asio.sync.fixedlength/asio.sync.fixedlength/main.cpp:82-85 | The termination mark occurs only at the very end of the payload. |
| PrototypeClient.SentIsContiguous | asio.sync.fixedlength/asio.sync.fixedlength/main.cpp:203-218 | After each partial write the unwritten rest is issued again. So the bytes sent are exactly `content[start..end]` in order, with none skipped or repeated. |
| PrototypeClient.ProtoSession.constructor | asio.sync.fixedlength/asio.sync.fixedlength/main.cpp:21-35 | A session starts with 0 bytes written, no error and no cancellation. |
| PrototypeClient.AsyncTCPClient.constructor | asio.sync.fixedlength/asio.sync.fixedlength/main.cpp:62-68 | The registry starts empty. |
| PrototypeClient.AsyncTCPClient.EmulateLongComputationOp | asio.sync.fixedlength/asio.sync.fixedlength/main.cpp:70-112 | The session holds the payload and is mapped from `request_id`, overwriting any earlier entry. The first write covers the whole content. |
| PrototypeClient.AsyncTCPClient.CancelRequest | asio.sync.fixedlength/asio.sync.fixedlength/main.cpp:115-129 | The flag is set only for an id that is present. No other session field changes. |
| PrototypeClient.AsyncTCPClient.OnRequestComplete | asio.sync.fixedlength/asio.sync.fixedlength/main.cpp:142-170 | Exactly the session's id leaves the registry. The status follows `FinalStatus`. |
| PrototypeClient.FailureCounter.constructor | asio.sync.fixedlength/asio.sync.fixedlength/main.cpp:180 | `failureCounts` starts at 0. |
| PrototypeClient.Handler | asio.sync.fixedlength/asio.sync.fixedlength/main.cpp:183-219 | Any error, aborted or not, adds 1 to `failureCounts` and leaves the byte count alone. A success adds exactly the bytes transferred. The request is then done when the count reaches the content length, and otherwise the next write covers exactly `content[total..]`. |

## Left out

- Sockets, endpoints, `io_service` and its `work` object, `async_connect`,
  `async_write`, `async_write_some`, `async_read_some`, `async_read_until`,
  `socket.cancel` and `shutdown`. These are foreign I/O. Their completions
  are events or parameters carrying an error code, a byte count or the
  received text.
- Mutexes, condition variables and `std::atomic`. Each locked region is one
  atomic step. Real interleavings between threads are not modelled.
- `Server::Start` and `Server::Stop` with their thread pool,
  `ControllerAsyncClient::close` and `AsyncTCPClient::close`,
  `Service::onFinish`'s `delete this`, and the `workerThreadMainWrapper`
  trampoline. These are thread lifecycle and memory management.
- `Acceptor::executeCmd` is only a 20 ms sleep. It is opaque here: whether
  it throws is a parameter of `ProcessCmd`.
- `Service::onResponseSent` logs a write error and then calls `onFinish`,
  whose `delete this` is memory management; the write of the reply itself
  is I/O. Where the server listens, and the `d_acceptor.listen()` call, are
  also I/O.
- Worker.WorkerThreadClient.constructor: the source declares no constructor
  and leaves `v_workerThread` uninitialised until `setThreadObj`; the model
  starts it as `null`.
- The server and client `main` functions. They are demos driven by console
  input or by a sleep loop.
- All console logging.
- The SLAM files (`SlamProcessEngine.h`, `Executor.h`, `ExecutorImpl.h`,
  `SlamListener.cpp` and the example engine). They are unfinished stubs or
  ROS glue with no logic to model.
- The user callback of `ControllerAsyncClient` is not modelled. Its
  invocations are recorded as a list in `notified`.
- `PrototypeClient.AsyncTCPClient.OnRequestComplete`: the callback call in
  main.cpp does not match its own `Callback` type, and nothing calls it. The
  model only erases the entry and returns the status.
- The clock reading of `emulateLongComputationOp` is a parameter.
- Worker.WorkerItem.Act: a user action's effect on the owner is not
  modelled. Only its boolean result is, fixed when the item is made.
- Worker.WorkerThread.WorkerThreadMain: it models the background thread's
  progress from one call. It runs until the loop is left, or until `pop`
  would block on an empty queue, in which case it returns `false` and sets
  `parked`; the next call resumes inside `pop`.
- Worker.WorkerThread.Destroy: it requires no stop item already queued, and
  a thread that has not left the loop: `!stopping`, or parked in `pop` on an
  empty queue. Otherwise the source's `wait(-1)` never returns. The wait is
  where the worker loop runs.
- Worker.WorkerItem.Wait: its blocking is a precondition (`completed`). The
  re-waiting loop is described by `WaitRound`.
- Queues.ConcurrentQueue.Pop: the wait while the queue is empty is a
  precondition.
- Queues.ConcurrentQueue.TimedPush: the `int` counters `v_size` and
  `v_capacity` are unbounded here. Overflow past 2^31 - 1 is not modelled.
- PrototypeClient.FailureCounter: the `long` counter is unbounded here.
- PrototypeClient.Handler: it requires that a successful write reports no
  more bytes than the rest of the content, which asio guarantees for a
  buffer of that size.
- ControllerClient.ControllerAsyncClient.CancelRequest: when a caller
  passes an `unsigned long` id, the caller narrows it to the `unsigned int`
  parameter. That narrowing happens outside the member. The member takes
  the `u32` and looks it up as a `u64` key.

## Findings

| source | as written | input that shows it | evidently intended | confidence | as-written member | corrected member |
|---|---|---|---|---|---|---|
| src/libs/WorkerItem.h:219-246 | The `while (!v_completed)` loop waits again after a `wait_for` that timed out, so `wait(ms)` with `ms >= 0` never returns before the item completes. | `wait(0)` on an item whose action has not run: the first `wait_for` times out and the loop waits again. | Return `false` once the timeout is reached, as the doc comment says. | medium, not executed | Worker.WaitRound (shown by Worker.TimeoutIsNotReported) | Worker.WaitRoundDocumented |

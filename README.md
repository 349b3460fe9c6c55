# Simulated download engine — Dafny model

This project models the engine of a small JavaFX demo that simulates file
downloads. The model has four parts:

- **`DownloadItem`** is the immutable descriptor of a download: name, size in bytes, speed in KB/s.
- **`DownloadTask`** is one download. It runs a chunked transfer loop on a worker thread. It can be paused, resumed and cancelled. It holds one permit of a counting semaphore while it transfers.
- **The semaphore** (`java.util.concurrent.Semaphore`) bounds how many tasks transfer at once.
- **`DownloadManager`** creates tasks and binds each one to its *current* semaphore. It keeps an append-only registry of tasks. It changes the limit by installing a new semaphore rather than resizing the old one. It cancels every task on shutdown.

The real code uses threads. The model is sequential:

- The semaphore is a counter. `Acquire` requires a free permit, which is the moment a blocked `acquire` returns.
- Other threads act on a task only through `pause`, `resumeTask` and `cancel`. While `call` runs, those calls are an input, `env: nat -> Turn`. Turn `k` gives four things:
  - the requests that reach the task before check point `k`. Check point `k` is the top of iteration `k`, or the completion check once the loop has ended.
  - how a pause wait in iteration `k` ends: resumed or cancelled.
  - whether a cancel arrives after the top check of iteration `k` and before the re-check that follows the pause wait (line 77 of `DownloadTask.java`). The re-check then stops the loop without showing "Cancelado", whether or not the task was paused.
  - whether a cancel arrives during iteration `k`'s pacing sleep. That interrupts the sleep, so an `InterruptedException` leaves `call`.
- One iteration is the function `Transfer.Iterate`, which either stops the loop or yields the state at the next check point; `Transfer.Loop` repeats it.

Files and modules:

- `items.dfy` (`Items`): the descriptor, plus the Java `int` and `long` ranges as subset types. Because of these types, the verifier also checks that no `long` arithmetic in the loop overflows.
- `permits.dfy` (`Permits`): the semaphore class. A ghost count `held` records the permits taken, and ghost counters record how many times `acquire` and `release` have returned.
- `transfer.dfy` (`Transfer`): the loop of `call` as a pure reference model (`Loop`, `Run`), the speed, chunk and pacing arithmetic, and the lemmas about every run.
- `tasks.dfy` (`Tasks`): the `DownloadTask` class. Its `Call` method is proved to compute exactly `Transfer.Run`, to acquire exactly once and release exactly once, and to run the whole transfer while holding the permit it acquired.
- `manager.dfy` (`Manager`): the `DownloadManager` class and two client scenarios about the semaphore swap.

Two points where the intended behaviour differs from what the code does; the model follows the code:

- One would expect a release to refill permits only up to the initial count. Java's `Semaphore.release` has no cap, so `Release` always adds one.
- One would expect a size never to be negative. The input layer (`App.java`) parses sizes with `Long.parseLong` and accepts a negative number. With a negative size, the loop never runs and `call` "completes" with `downloaded == totalBytes < 0` (`Transfer.RunNegativeSize`). The bounds lemmas therefore assume `totalBytes >= 0`.

## Model

| member | source | states |
|---|---|---|
| `Items.GettersReturnConstructorArguments` | src/main/java/demo/downloads/DownloadItem.java:8-16 | `getName`, `getSizeBytes` and `getSpeedKBps` return exactly the constructor's arguments; the speed is not clamped here |
| `Transfer.ClampSpeed` | src/main/java/demo/downloads/DownloadTask.java:23 | the task's speed is at least 1 KB/s, and a speed that is already positive is kept |
| `Transfer.BytesPerSecond` | src/main/java/demo/downloads/DownloadTask.java:57 | the speed in bytes per second is 1024 times the KB/s value, fits a `long`, and is at least 1024, so dividing by it is safe |
| `Transfer.ChunkSize` | src/main/java/demo/downloads/DownloadTask.java:58 | the chunk is the larger of 8192 and a tenth of the byte speed |
| `Transfer.Step` | src/main/java/demo/downloads/DownloadTask.java:79-80 | one step is positive, at most a chunk, never more than what remains, and is a whole chunk unless it is the last piece |
| `Transfer.SleepMillis` | src/main/java/demo/downloads/DownloadTask.java:95 | the pacing sleep is at least 10 ms and at least the step's share of a second |
| `Transfer.FullChunkPacedAtTenPerSecond` | src/main/java/demo/downloads/DownloadTask.java:95-96 | when the chunk is a tenth of the speed, a whole chunk sleeps 99 to 100 ms: about ten updates per second, as the comment at line 58 intends |
| `Transfer.PauseIdempotent` | src/main/java/demo/downloads/DownloadTask.java:36-39 | pausing twice has the same effect as pausing once |
| `Transfer.ResumeWhenNotPausedIsNoOp` | src/main/java/demo/downloads/DownloadTask.java:41-49 | `resumeTask` on a task that is not paused changes nothing |
| `Transfer.PauseThenResume` | src/main/java/demo/downloads/DownloadTask.java:36-49 | pause followed by resume clears the flag, shows "Reanudando..." and leaves the cancel flag as it was |
| `Transfer.AfterAllCancelled` | src/main/java/demo/downloads/DownloadTask.java:64-77 | after any run of requests, the task is cancelled exactly when it already was or one of the requests cancels it |
| `Transfer.Apply` | src/main/java/demo/downloads/DownloadTask.java:36-49 | the effect of one `pause`, `resumeTask` or `cancel` call: the cancel flag is set exactly by a cancel and never cleared; the task is paused afterwards exactly when the call was `pause`, or it was paused and the call was not `resumeTask`; no call makes the message "Cancelado" or "Completado" |
| `Transfer.AfterAll` | src/main/java/demo/downloads/DownloadTask.java:36-49 | the effect of several such calls in order; none of them makes the message "Cancelado" or "Completado" |
| `Transfer.EndWait` | src/main/java/demo/downloads/DownloadTask.java:70-76 | the pause wait: it ends with the task unpaused or cancelled, and cancelled exactly when it was already or the wait was ended by a cancel |
| `Transfer.Recheck` | src/main/java/demo/downloads/DownloadTask.java:69-77 | the state the re-check at line 77 sees: unpaused or cancelled, and cancelled exactly when the task already was, a cancel ended its pause wait, or a cancel arrived after the top check; the message is still not "Cancelado" or "Completado" |
| `Transfer.Iterate` | src/main/java/demo/downloads/DownloadTask.java:64-96 | one iteration from the top check: it either stops the loop, leaving the task cancelled and not completed, or goes on with the counter strictly larger, at most the total, and equal to the `downloaded` property |
| `Transfer.Loop` | src/main/java/demo/downloads/DownloadTask.java:63-103 | the loop from check point `k`: it never reports fewer than `k` steps; it completes exactly when the task ends uncancelled; a completed run has `downloaded == totalBytes` and shows "Completado" |
| `Transfer.Run` | src/main/java/demo/downloads/DownloadTask.java:56-103 | a whole run of `call`'s `try` block: it completes exactly when the task ends uncancelled, and then `downloaded == totalBytes` and "Completado" is shown |
| `Transfer.LoopBounds` | src/main/java/demo/downloads/DownloadTask.java:63-85 | from any check point, `downloadedSoFar` only grows and stays within `0..totalBytes`, the `downloaded` property stays within `0..totalBytes`, and once the loop has moved the property equals the counter; a run that takes no step leaves the counter, and unless it completes the property, as they were |
| `Transfer.LoopExits` | src/main/java/demo/downloads/DownloadTask.java:63-103 | "Completado" is shown iff the task completes, and then the counter has reached the total; "Cancelado" is shown iff the cancel was seen at the top of an iteration; a cancel seen at the top or at the re-check leaves the count short of the total |
| `Transfer.LoopQuiet` | src/main/java/demo/downloads/DownloadTask.java:63-103 | with no cancel, the loop ends with counter and property at `totalBytes`, shows "Completado", and takes one step per chunk of what remained (the measure `totalBytes - downloadedSoFar` falls each iteration) |
| `Transfer.LoopCancelAt` | src/main/java/demo/downloads/DownloadTask.java:63-85 | a first cancel reaching check point j, while a whole chunk is still missing, stops the loop there with exactly j - k more chunks done and "Cancelado" shown |
| `Transfer.LoopPausingNeutral` | src/main/java/demo/downloads/DownloadTask.java:69-77 | if every pause wait ends with a resume, pausing changes neither the exit, nor the step count, nor the counts, nor the cancel flag, compared with the same run without pauses |
| `Transfer.RunBounds` | src/main/java/demo/downloads/DownloadTask.java:56-103 | a whole run of `call` on a non-negative size keeps `0 <= downloaded <= totalBytes` |
| `Transfer.RunExits` | src/main/java/demo/downloads/DownloadTask.java:63-103 | for a whole run from `call`'s start: the task completes iff it ends uncancelled; "Completado" is shown iff it completes, and then `downloaded == totalBytes`; "Cancelado" iff the cancel was seen at a top check; a cancel seen at a top check or at the re-check leaves the count short of the total |
| `Transfer.RunQuiet` | src/main/java/demo/downloads/DownloadTask.java:99-103 | a task nobody cancels completes with `downloaded == totalBytes` and "Completado" in `ceil(total / chunk)` steps; a size of 0 completes with no iteration |
| `Transfer.RunCancelledAtFirstCheck` | src/main/java/demo/downloads/DownloadTask.java:64-67 | a task whose cancel flag is already set when `acquire` returns, or is set before the first check, stops at that check, with no progress and "Cancelado" shown |
| `Transfer.RunCancelledAtRecheck` | src/main/java/demo/downloads/DownloadTask.java:77 | a cancel that arrives after the first top check and before the re-check stops the task there: no step, cancelled and unpaused, the `downloaded` property unchanged, and neither "Cancelado" nor "Completado" shown |
| `Transfer.RunCancelAt` | src/main/java/demo/downloads/DownloadTask.java:63-84 | a first cancel at check point j >= 1, while j chunks are still short of the total, stops the task with exactly j chunks downloaded and "Cancelado" shown |
| `Transfer.RunPausingNeutral` | src/main/java/demo/downloads/DownloadTask.java:36-77 | if every pause wait ends with a resume, pause and resume requests do not change how far a download gets or how it ends |
| `Transfer.RunNegativeSize` | src/main/java/demo/downloads/DownloadTask.java:63-103 | with a negative size, no iteration runs and an uncancelled task completes with a negative downloaded count |
| `Transfer.OneMebibyteAtOneMebibytePerSecond` | src/main/java/demo/downloads/DownloadTask.java:57-63 | 1 MiB at 1024 KB/s uses chunks of 104857 bytes and completes in 11 steps |
| `Permits.Semaphore.constructor` | src/main/java/demo/downloads/DownloadManager.java:15 | a new semaphore has all its permits free, none taken, and no `acquire` or `release` yet |
| `Permits.Semaphore.Acquire` | src/main/java/demo/downloads/DownloadTask.java:54 | `acquire` needs a free permit, takes exactly one, and counts one more `acquire` |
| `Permits.Semaphore.Release` | src/main/java/demo/downloads/DownloadTask.java:104-106 | `release` gives back exactly one permit, with no cap, and counts one more `release` |
| `Permits.HoldersWithinCapacity` | src/main/java/demo/downloads/DownloadTask.java:54 | on one semaphore, at most `capacity` holders hold permits at a time |
| `Tasks.DownloadTask.constructor` | src/main/java/demo/downloads/DownloadTask.java:20-29 | the task copies the descriptor, clamps the speed, binds the given semaphore, and starts unpaused and uncancelled, with 0 bytes and "En cola..." |
| `Tasks.DownloadTask.GetTotalBytes` | src/main/java/demo/downloads/DownloadTask.java:32 | returns the total size |
| `Tasks.DownloadTask.GetDownloadedBytes` | src/main/java/demo/downloads/DownloadTask.java:33 | returns the current value of the `downloaded` property |
| `Tasks.DownloadTask.Pause` | src/main/java/demo/downloads/DownloadTask.java:36-39 | sets the pause flag and "Pausado"; leaves the cancel flag and the count alone |
| `Tasks.DownloadTask.ResumeTask` | src/main/java/demo/downloads/DownloadTask.java:41-49 | if paused, clears the flag and shows "Reanudando..."; otherwise changes nothing; never touches the count |
| `Tasks.DownloadTask.Cancel` | src/main/java/demo/downloads/DownloadManager.java:47 | sets the cancel flag and nothing else |
| `Tasks.DownloadTask.Deliver` | src/main/java/demo/downloads/DownloadTask.java:36-49 | the `pause`, `resumeTask` and `cancel` calls other threads make between two check points, applied in order; the count is unchanged |
| `Tasks.DownloadTask.AwaitWake` | src/main/java/demo/downloads/DownloadTask.java:70-76 | the pause wait ends unpaused or cancelled, with the count unchanged |
| `Tasks.DownloadTask.Iteration` | src/main/java/demo/downloads/DownloadTask.java:63-96 | one iteration (the top check, the pause wait, a cancel before the re-check, the re-check, one step, the sleep, the requests before the next check point) leaves the counter, the `downloaded` property, the flags and the message exactly as `Transfer.Iterate` gives, and stops the loop exactly when that stops, with its exit |
| `Tasks.DownloadTask.Transfer` | src/main/java/demo/downloads/DownloadTask.java:56-103 | the `try` block leaves the `downloaded` property, flags and message, and takes the exit path, exactly as `Transfer.Run` gives; it runs only while the semaphore's held count is one more than before `acquire`, and leaves that count alone |
| `Tasks.DownloadTask.Call` | src/main/java/demo/downloads/DownloadTask.java:52-108 | `call` ends in the state `Transfer.Run` gives. It calls `acquire` exactly once and `release` exactly once, before and after the transfer, which needs the permit taken, and returns the semaphore's free and held counts to their values before `acquire`. It completes iff not cancelled, and then `downloaded == totalBytes` and "Completado" is shown. It keeps `0 <= downloaded <= totalBytes`. It always completes when nobody cancels |
| `Manager.DownloadManager.constructor` | src/main/java/demo/downloads/DownloadManager.java:14-21 | the first semaphore has `max(1, maxConcurrent)` permits, all free; the registry is empty |
| `Manager.DownloadManager.SetMaxConcurrent` | src/main/java/demo/downloads/DownloadManager.java:23-27 | installs a fresh semaphore with `max(1, newMax)` permits, all free; the old semaphore, the registry and every task stay unchanged |
| `Manager.DownloadManager.CurrentSemaphore` | src/main/java/demo/downloads/DownloadManager.java:30-32 | returns the semaphore most recently installed |
| `Manager.DownloadManager.CreateAndSubmit` | src/main/java/demo/downloads/DownloadManager.java:34-39 | returns a new task bound to the current semaphore, built from the item, and appended as the last registry entry; earlier entries and the semaphore are unchanged |
| `Manager.DownloadManager.GetTasks` | src/main/java/demo/downloads/DownloadManager.java:41-43 | returns the registry |
| `Manager.DownloadManager.Shutdown` | src/main/java/demo/downloads/DownloadManager.java:45-50 | every registered task is cancelled and none is removed; pause flags, messages and counts are unchanged |
| `Manager.OverSubscriptionAcrossSwap` | src/main/java/demo/downloads/DownloadManager.java:23-27 | a task holding the only permit of the old semaphore keeps it across `setMaxConcurrent(1)`, and a task created afterwards finds a free permit on the new semaphore |
| `Manager.SecondWaitsForFirst` | src/main/java/demo/downloads/DownloadManager.java:34-36 | under an unchanged limit of 1, a second task shares the first task's semaphore and finds no free permit while the first holds it |

## Left out

- Threads, the cached thread pool, `pool.submit` and `pool.shutdownNow`: the model is sequential. Other threads' calls are the input `env`. A worker running a task is a call to `DownloadTask.Call`.
- Blocking `Semaphore.acquire`: `Acquire` requires a free permit. An interrupt while waiting for the first permit is not modelled (no permit is held then, and `finally` is not reached).
- A task cancelled before its worker starts: `DownloadTask` is a JavaFX `Task`, a `FutureTask`, whose `run` skips `call` altogether once the task is cancelled, so no permit is taken and the message stays as it was; a cancel while blocked in `acquire` interrupts it, as above. The model has no such path: `Call` always acquires, and a cancel flag already set on entry stands for a cancel that arrived after `acquire` returned, which line 64 then catches.
- The liveness of the pause wait: in the model, a wait always ends with a resume or a cancel. A task paused forever, which in Java holds its permit forever, is not represented.
- A cancel during `wait(200)` throws `InterruptedException` in Java. The model ends that wait through the re-check after the pause instead. Both leave the same state: cancelled, the count frozen, the message unchanged, the permit released.
- JavaFX `Task` internals: `updateProgress`, `updateTitle`, the worker `State`, and `cancel()`'s refusal to cancel a task that has already finished. Cancellation is the plain `cancelled` flag.
- The text of the progress message: the `String.format` of percent and ETA, built from wall-clock time and floating point. It is the opaque constructor `Progress(bytes)`.
- Time itself: the two `System.nanoTime` readings and `Thread.sleep`. Only the integer length of the sleep is modelled.
- `Transfer.SleepMillis`: uses integer division, where Java truncates a `double` quotient; rounding of the `double` is not modelled.
- `volatile`, `synchronized`, `notifyAll` and the synchronized registry list: visibility and atomicity have no sequential counterpart.
- `Manager.DownloadManager.GetTasks`: Java returns the live synchronized list itself, so a caller can add or remove entries and the registry is not append-only in Java. The model returns the registry as a `seq` value, so callers cannot change it, and the registry only ever grows by `CreateAndSubmit`. The aliasing is not modelled.
- `downloadedBytesProperty` (the JavaFX property object itself) and the whole presentation layer (`App.java`), including `parseLongOrDefault` and the ETA label.

/** The transfer algorithm of `DownloadTask.call` (DownloadTask.java) as a pure
    reference model: the speed and chunk arithmetic, the pause, resume and
    cancel requests other threads make, and the loop itself as a function of
    the task's starting state and of what other threads do while it runs.
    The method `Tasks.DownloadTask.Call` is proved to compute exactly `Run`;
    the lemmas here say what every run does. */
module Transfer {
  import opened Items

  function Max(a: int, b: int): int { if a >= b then a else b }

  function Min(a: int, b: int): int { if a <= b then a else b }

  // ---------------------------------------------------------------------------
  // Arithmetic of the transfer
  // ---------------------------------------------------------------------------

  /** The task constructor's `Math.max(1, speedKBps)`: the speed a task uses is
      never below 1 KB/s, and a speed that is already positive is kept. */
  function ClampSpeed(kbps: int32): (r: int32)
    ensures r >= 1 && r >= kbps
    ensures r == 1 || r == kbps
  {
    Max(1, kbps)
  }

  /** `(long) speedKBps * 1024L`: the speed in bytes per second. It fits a Java
      `long` and is at least 1024, so dividing by it is safe. */
  function BytesPerSecond(kbps: int32): (r: int64)
    requires kbps >= 1
    ensures r >= 1024 && r % 1024 == 0 && r / 1024 == kbps
  {
    kbps * 1024
  }

  /** `Math.max(8 * 1024L, bytesPerSecond / 10L)`: the bytes added per
      iteration, about a tenth of a second's worth and never less than 8 KB. */
  function ChunkSize(bytesPerSecond: int64): (c: int64)
    requires bytesPerSecond > 0
    ensures c >= 8192 && c >= bytesPerSecond / 10
    ensures c == 8192 || c == bytesPerSecond / 10
  {
    Max(8192, bytesPerSecond / 10)
  }

  /** `Math.min(chunk, remaining)`: one iteration's progress. It is positive,
      a whole chunk unless it is the last piece, and never overshoots. */
  function Step(chunk: int, remaining: int): (s: int)
    requires chunk > 0 && remaining > 0
    ensures 0 < s <= remaining && s <= chunk
    ensures s == chunk || s == remaining
  {
    Min(chunk, remaining)
  }

  /** The pacing pause after a step, `Math.max(10, 1000 * step / bytesPerSecond)`
      milliseconds (integer division stands for Java's truncated double). */
  function SleepMillis(step: int, bytesPerSecond: int): (ms: int)
    requires step >= 0 && bytesPerSecond > 0
    ensures ms >= 10 && ms >= 1000 * step / bytesPerSecond
    ensures ms == 10 || ms == 1000 * step / bytesPerSecond
  {
    Max(10, 1000 * step / bytesPerSecond)
  }

  /** When the chunk is a tenth of the speed, a whole chunk is paced at about
      100 ms: roughly ten progress updates per simulated second. */
  lemma FullChunkPacedAtTenPerSecond(bytesPerSecond: int64)
    requires bytesPerSecond / 10 >= 8192
    ensures 99 <= SleepMillis(ChunkSize(bytesPerSecond), bytesPerSecond) <= 100
  {
    var b := bytesPerSecond as int;
    var c := b / 10;
    assert ChunkSize(bytesPerSecond) == c;
    assert 10 * c <= b < 10 * c + 10;
    assert 1000 * c <= 100 * b < 101 * b;
    assert 99 * b <= 1000 * c by {
      assert 1000 * c > 100 * b - 1000;
      assert b >= 1000;
    }
    DivBetween(1000 * c, b, 99, 100);
  }

  /** Bounds on a quotient from bounds on the dividend. */
  lemma DivBetween(a: int, b: int, lo: int, hi: int)
    requires b > 0 && lo >= 0 && lo * b <= a < (hi + 1) * b
    ensures lo <= a / b <= hi
  {
    var q := a / b;
    assert q * b <= a < (q + 1) * b;
    MulLess(lo, q + 1, b);
    MulLess(q, hi + 1, b);
  }

  /** Cancelling a positive factor in a strict comparison. */
  lemma MulLess(x: int, y: int, b: int)
    requires b > 0 && x * b < y * b
    ensures x < y
  {
    assert (y - x) * b == y * b - x * b;
  }

  /** n + 1 chunks are one chunk more than n chunks. */
  lemma MulSucc(n: nat, c: int)
    requires c > 0
    ensures (n + 1) * c == c + n * c && n * c >= 0
  {
  }

  /** The number of chunks of size `c` that cover `r` bytes. */
  function CeilDiv(r: nat, c: int): nat
    requires c > 0
  {
    (r + c - 1) / c
  }

  /** Removing one step from what remains removes one chunk from the count. */
  lemma CeilDivStep(r: nat, c: int)
    requires c > 0 && r > 0
    ensures CeilDiv(r, c) == 1 + CeilDiv(r - Step(c, r), c)
  {
    if r <= c {
      DivBetween(r + c - 1, c, 1, 1);
      DivBetween(c - 1, c, 0, 0);
    } else {
      var x := r - c + c - 1;
      assert r + c - 1 == x + c;
      assert (x + c) / c == x / c + 1 by {
        var q, m := x / c, x % c;
        assert x + c == (q + 1) * c + m;
        DivBetween(x + c, c, q + 1, q + 1);
      }
    }
  }

  // ---------------------------------------------------------------------------
  // What other threads do to a task: pause, resume, cancel
  // ---------------------------------------------------------------------------

  /** The status message a task shows. */
  datatype Message =
    | Queued                 // "En cola..."
    | Downloading            // "Descargando..."
    | Progress(bytes: int)   // "Descargando <percent>% | ETA ~ <seconds>s"
    | Paused                 // "Pausado"
    | Resuming               // "Reanudando..."
    | Cancelled              // "Cancelado"
    | Completed              // "Completado"

  /** Only the transfer loop itself writes "Cancelado" or "Completado". */
  predicate Final(m: Message)
  {
    m.Cancelled? || m.Completed?
  }

  /** The part of a task that other threads write: the cooperative pause flag,
      the cancellation flag and the status message. */
  datatype Control = Control(paused: bool, cancelled: bool, message: Message)

  /** A call another thread makes on the task. */
  datatype Request =
    | PauseRequest    // DownloadTask.pause()
    | ResumeRequest   // DownloadTask.resumeTask()
    | CancelRequest   // Task.cancel()

  /** The effect of one request. `pause` always sets the flag and the message;
      `resumeTask` does something only while paused. Cancelling sets the flag
      and leaves the message alone. Only a cancel sets the cancel flag, and
      no request ever clears it or shows "Cancelado" or "Completado". */
  function Apply(c: Control, r: Request): (a: Control)
    ensures a.cancelled <==> c.cancelled || r == CancelRequest
    ensures a.paused <==> r == PauseRequest || (c.paused && r != ResumeRequest)
    ensures !Final(c.message) ==> !Final(a.message)
  {
    match r
    case PauseRequest => c.(paused := true, message := Paused)
    case ResumeRequest => if c.paused then c.(paused := false, message := Resuming) else c
    case CancelRequest => c.(cancelled := true)
  }

  /** The effect of several requests, in order: requests never make the
      message "Cancelado" or "Completado"; only the transfer loop does. */
  function AfterAll(c: Control, rs: seq<Request>): (a: Control)
    ensures !Final(c.message) ==> !Final(a.message)
    decreases |rs|
  {
    if rs == [] then c else AfterAll(Apply(c, rs[0]), rs[1..])
  }

  /** Pausing twice is pausing once. */
  lemma PauseIdempotent(c: Control)
    ensures Apply(Apply(c, PauseRequest), PauseRequest) == Apply(c, PauseRequest)
  {
  }

  /** Resuming a task that is not paused changes nothing. */
  lemma ResumeWhenNotPausedIsNoOp(c: Control)
    requires !c.paused
    ensures Apply(c, ResumeRequest) == c
  {
  }

  /** Pause then resume clears the flag again and keeps the cancel flag. */
  lemma PauseThenResume(c: Control)
    ensures Apply(Apply(c, PauseRequest), ResumeRequest) == c.(paused := false, message := Resuming)
  {
  }

  /** Cancellation is sticky: after a run of requests the task is cancelled
      exactly when it was before or one of the requests cancelled it. */
  lemma {:induction false} AfterAllCancelled(c: Control, rs: seq<Request>)
    ensures AfterAll(c, rs).cancelled <==> c.cancelled || CancelRequest in rs
    decreases |rs|
  {
    if rs != [] {
      AfterAllCancelled(Apply(c, rs[0]), rs[1..]);
      assert rs == [rs[0]] + rs[1..];
    }
  }

  // ---------------------------------------------------------------------------
  // The transfer loop
  // ---------------------------------------------------------------------------

  /** How a cooperative pause wait ends: someone resumes the task or cancels it. */
  datatype WaitEnd = WokenByResume | WokenByCancel

  /** What other threads do during iteration k of the loop: the requests that
      reach the task before check point k (the top of iteration k, or the
      completion check if the loop has ended), how a pause wait in iteration k
      ends, whether a cancel arrives after the top check and before the
      re-check that follows the pause wait, and whether a cancel arrives
      during iteration k's pacing sleep, which interrupts the sleep. */
  datatype Turn = Turn(arrivals: seq<Request>, wake: WaitEnd, cancelBeforeRecheck: bool, cancelInSleep: bool)

  /** The pause wait `while (paused && !isCancelled()) wait(200)`, ended by the
      given request: afterwards the task is unpaused or cancelled, and it is
      cancelled exactly when it was already or the wait ended by a cancel. */
  function EndWait(c: Control, w: WaitEnd): (e: Control)
    ensures !e.paused || e.cancelled
    ensures e.cancelled <==> c.cancelled || w == WokenByCancel
  {
    match w
    case WokenByResume => Apply(c, ResumeRequest)
    case WokenByCancel => Apply(c, CancelRequest)
  }

  /** The control state at the re-check after the pause wait: a paused task
      has waited until resumed or cancelled, and a cancel may have arrived
      since the top check. The task is then unpaused or cancelled, it is
      cancelled exactly when one of those cancels happened, and the message
      is still not "Cancelado" or "Completado". */
  function Recheck(c: Control, t: Turn): (r: Control)
    ensures !r.paused || r.cancelled
    ensures r.cancelled <==> c.cancelled || (c.paused && t.wake == WokenByCancel) || t.cancelBeforeRecheck
    ensures !Final(c.message) ==> !Final(r.message)
  {
    var waited := if c.paused then EndWait(c, t.wake) else c;
    if t.cancelBeforeRecheck then Apply(waited, CancelRequest) else waited
  }

  /** The loop's counter `downloadedSoFar`, the observable `downloaded`
      property and the task's control state, at a check point. */
  datatype Snapshot = Snapshot(soFar: int, downloaded: int, control: Control)

  /** Which way `call` leaves the transfer. */
  datatype Exit =
    | Finished           // the loop ran out and the task completed
    | StoppedAtTop       // cancel seen at the top of an iteration ("Cancelado")
    | StoppedAtRecheck   // cancel seen at the re-check after the pause wait
    | StoppedAtEnd       // loop ran out, but cancel seen at the completion check
    | Interrupted        // a cancel interrupted the pacing sleep (InterruptedException)

  /** The state `call` leaves, how it left, and how many steps it took. */
  datatype Outcome = Outcome(final: Snapshot, exit: Exit, steps: nat)

  /** How one iteration ends: the loop stops with the given outcome, or it
      reaches the next check point in state `next`. */
  datatype Stage = Stop(outcome: Outcome) | Go(next: Snapshot)

  /** One iteration of the loop from the top check of iteration k
      (DownloadTask.java lines 64-96, and the requests that arrive before the
      next check point). An iteration that goes on makes progress without
      passing the total, and leaves the property equal to the counter; one
      that stops leaves the task cancelled. */
  function Iterate(total: int, chunk: int, env: nat -> Turn, k: nat, s: Snapshot): (st: Stage)
    requires chunk > 0 && s.soFar < total
    ensures st.Go? ==> s.soFar < st.next.soFar <= total && st.next.downloaded == st.next.soFar
    ensures st.Stop? ==> st.outcome.final.control.cancelled && !st.outcome.exit.Finished? && !st.outcome.exit.StoppedAtEnd?
  {
    if s.control.cancelled then
      Stop(Outcome(s.(control := s.control.(message := Cancelled)), StoppedAtTop, k))
    else
      var woken := Recheck(s.control, env(k));
      if woken.cancelled then Stop(Outcome(s.(control := woken), StoppedAtRecheck, k))
      else
        var soFar := s.soFar + Step(chunk, total - s.soFar);
        var shown := woken.(message := Progress(soFar));
        if env(k).cancelInSleep then
          Stop(Outcome(Snapshot(soFar, soFar, Apply(shown, CancelRequest)), Interrupted, k + 1))
        else
          Go(Snapshot(soFar, soFar, AfterAll(shown, env(k + 1).arrivals)))
  }

  /** The loop from check point k on (DownloadTask.java lines 63-103). Every
      way out other than completion leaves the task cancelled; completion
      leaves it uncancelled, at its total, showing "Completado". */
  function Loop(total: int, chunk: int, env: nat -> Turn, k: nat, s: Snapshot): (o: Outcome)
    requires chunk > 0
    ensures o.steps >= k
    ensures o.exit == Finished <==> !o.final.control.cancelled
    ensures o.exit == Finished ==> o.final.downloaded == total && o.final.control.message == Completed
    decreases total - s.soFar
  {
    if s.soFar >= total then
      if s.control.cancelled then Outcome(s, StoppedAtEnd, k)
      else Outcome(s.(downloaded := total, control := s.control.(message := Completed)), Finished, k)
    else
      match Iterate(total, chunk, env, k, s)
      case Stop(o) => o
      case Go(next) => Loop(total, chunk, env, k + 1, next)
  }

  /** A whole run of `call` after the permit is acquired, for a task of `total`
      bytes at `kbps` KB/s whose control state is `start` and whose
      `downloaded` property is `downloaded` (DownloadTask.java lines 56-103). */
  function Run(total: int, kbps: int32, env: nat -> Turn, start: Control, downloaded: int): (o: Outcome)
    requires kbps >= 1
    ensures o.exit == Finished <==> !o.final.control.cancelled
    ensures o.exit == Finished ==> o.final.downloaded == total && o.final.control.message == Completed
  {
    var chunk := ChunkSize(BytesPerSecond(kbps));
    Loop(total, chunk, env, 0, Snapshot(0, downloaded, AfterAll(start.(message := Downloading), env(0).arrivals)))
  }

  /** Nobody cancels during this turn. */
  predicate Calm(t: Turn)
  {
    CancelRequest !in t.arrivals && t.wake == WokenByResume && !t.cancelBeforeRecheck && !t.cancelInSleep
  }

  /** Nobody cancels from turn k on. */
  ghost predicate Quiet(env: nat -> Turn, k: nat)
  {
    forall j: nat :: k <= j ==> Calm(env(j))
  }

  /** Every pause wait from turn k on ends with a resume. */
  ghost predicate AlwaysResumed(env: nat -> Turn, k: nat)
  {
    forall j: nat :: k <= j ==> env(j).wake == WokenByResume
  }

  /** The same environment with every pause and resume request dropped: only
      whether a turn cancels is kept. */
  function Steady(env: nat -> Turn): nat -> Turn
  {
    (j: nat) => Turn(if CancelRequest in env(j).arrivals then [CancelRequest] else [],
                     WokenByResume, env(j).cancelBeforeRecheck, env(j).cancelInSleep)
  }

  // ---------------------------------------------------------------------------
  // Properties of the loop
  // ---------------------------------------------------------------------------

  /** `0 <= downloaded <= totalBytes` throughout: the counter only grows and
      never passes the total, the property follows it once it has moved, and
      the step count only grows. */
  lemma {:induction false} LoopBounds(total: int, chunk: int, env: nat -> Turn, k: nat, s: Snapshot)
    requires chunk > 0
    requires 0 <= s.soFar <= total && 0 <= s.downloaded <= total
    ensures var o := Loop(total, chunk, env, k, s);
      && s.soFar <= o.final.soFar <= total
      && 0 <= o.final.downloaded <= total
      && (o.steps == k ==> o.final.soFar == s.soFar && (o.exit == Finished || o.final.downloaded == s.downloaded))
      && ((o.steps > k || o.exit == Finished) ==> o.final.downloaded == o.final.soFar)
    decreases total - s.soFar
  {
    if s.soFar < total {
      var st := Iterate(total, chunk, env, k, s);
      if st.Go? {
        LoopBounds(total, chunk, env, k + 1, st.next);
      }
    }
  }

  /** How the exits relate to the final flags and message: "Completado" is
      shown exactly when the task completes, "Cancelado" exactly when the
      cancel was seen at the top of an iteration, and a cancel seen at the
      top or at the re-check leaves the download short of its total. */
  lemma {:induction false} LoopExits(total: int, chunk: int, env: nat -> Turn, k: nat, s: Snapshot)
    requires chunk > 0 && !Final(s.control.message)
    ensures var o := Loop(total, chunk, env, k, s);
      && (o.exit == Finished <==> o.final.control.message == Completed)
      && (o.exit == StoppedAtTop <==> o.final.control.message == Cancelled)
      && (o.exit == Finished ==> o.final.soFar >= total)
      && (o.exit == StoppedAtTop || o.exit == StoppedAtRecheck ==> o.final.soFar < total)
    decreases total - s.soFar
  {
    if s.soFar < total {
      var st := Iterate(total, chunk, env, k, s);
      if st.Go? {
        LoopExits(total, chunk, env, k + 1, st.next);
      }
    }
  }

  /** If nobody cancels, the loop runs out and the task completes: the count
      reaches the total, "Completado" is shown, and it took one step per
      chunk of what remained. */
  lemma {:induction false} LoopQuiet(total: int, chunk: int, env: nat -> Turn, k: nat, s: Snapshot)
    requires chunk > 0 && s.soFar <= total
    requires Quiet(env, k) && !s.control.cancelled
    ensures var o := Loop(total, chunk, env, k, s);
      && o.exit == Finished
      && o.final.soFar == total && o.final.downloaded == total
      && o.final.control.message == Completed
      && o.steps == k + CeilDiv(total - s.soFar, chunk)
    decreases total - s.soFar
  {
    if s.soFar == total {
      assert CeilDiv(0, chunk) == 0 by { DivBetween(chunk - 1, chunk, 0, 0); }
    } else {
      var st := Iterate(total, chunk, env, k, s);
      assert st.Go? && !st.next.control.cancelled by {
        assert Calm(env(k)) && Calm(env(k + 1));
        var woken := Recheck(s.control, env(k));
        var shown := woken.(message := Progress(s.soFar + Step(chunk, total - s.soFar)));
        AfterAllCancelled(shown, env(k + 1).arrivals);
      }
      LoopQuiet(total, chunk, env, k + 1, st.next);
      assert CeilDiv(total - s.soFar, chunk) == 1 + CeilDiv(total - st.next.soFar, chunk) by {
        CeilDivStep(total - s.soFar, chunk);
      }
    }
  }

  /** A cancel that first reaches the task at check point j, while a whole
      chunk or more is still missing, stops it there: "Cancelado" is shown
      and the count stays at exactly j - k chunks past where it was. */
  lemma {:induction false} LoopCancelAt(total: int, chunk: int, env: nat -> Turn, k: nat, s: Snapshot, j: nat)
    requires chunk > 0 && k < j && !s.control.cancelled
    requires forall i: nat :: k <= i < j ==> env(i).wake == WokenByResume && !env(i).cancelBeforeRecheck && !env(i).cancelInSleep
    requires forall i: nat :: k < i < j ==> CancelRequest !in env(i).arrivals
    requires CancelRequest in env(j).arrivals
    requires s.soFar + (j - k) * chunk < total
    ensures var o := Loop(total, chunk, env, k, s);
      && o.exit == StoppedAtTop
      && o.final.soFar == s.soFar + (j - k) * chunk
      && o.final.downloaded == o.final.soFar
      && o.final.control.message == Cancelled
      && o.steps == j
    decreases j - k
  {
    var n: nat := j - (k + 1);
    MulSucc(n, chunk);
    assert (j - k) * chunk == chunk + n * chunk;
    assert Step(chunk, total - s.soFar) == chunk;
    assert env(k).wake == WokenByResume && !env(k).cancelBeforeRecheck && !env(k).cancelInSleep;
    var shown := Recheck(s.control, env(k)).(message := Progress(s.soFar + chunk));
    AfterAllCancelled(shown, env(k + 1).arrivals);
    var st := Iterate(total, chunk, env, k, s);
    assert st == Go(Snapshot(s.soFar + chunk, s.soFar + chunk, AfterAll(shown, env(k + 1).arrivals)));
    if k + 1 < j {
      LoopCancelAt(total, chunk, env, k + 1, st.next, j);
    }
  }

  /** Pausing never changes how a download ends, provided every pause wait ends
      with a resume: the run takes the same exit, the same number of steps and
      reaches the same counts as the run in which nobody paused at all. */
  lemma {:induction false} LoopPausingNeutral(total: int, chunk: int, env: nat -> Turn, k: nat, s: Snapshot, t: Snapshot)
    requires chunk > 0 && AlwaysResumed(env, k)
    requires s.soFar == t.soFar && s.downloaded == t.downloaded
    requires s.control.cancelled == t.control.cancelled && !t.control.paused
    ensures var o, p := Loop(total, chunk, env, k, s), Loop(total, chunk, Steady(env), k, t);
      && o.exit == p.exit && o.steps == p.steps
      && o.final.soFar == p.final.soFar && o.final.downloaded == p.final.downloaded
      && o.final.control.cancelled == p.final.control.cancelled
    decreases total - s.soFar
  {
    if s.soFar < total && !s.control.cancelled {
      assert env(k).wake == WokenByResume;
      var e, e' := env(k), Steady(env)(k);
      assert e'.cancelBeforeRecheck == e.cancelBeforeRecheck && e'.cancelInSleep == e.cancelInSleep;
      var st, st' := Iterate(total, chunk, env, k, s), Iterate(total, chunk, Steady(env), k, t);
      if st.Go? {
        var soFar := st.next.soFar;
        assert Recheck(t.control, e') == t.control;
        var shown := Recheck(s.control, e).(message := Progress(soFar));
        var shown' := t.control.(message := Progress(soFar));
        var rs, rs' := env(k + 1).arrivals, Steady(env)(k + 1).arrivals;
        assert st.next.control == AfterAll(shown, rs);
        assert st' == Go(Snapshot(soFar, soFar, AfterAll(shown', rs')));
        AfterAllCancelled(shown, rs);
        AfterAllCancelled(shown', rs');
        assert !AfterAll(shown', rs').paused by {
          if CancelRequest in rs {
            assert AfterAll(shown', rs') == AfterAll(Apply(shown', CancelRequest), []);
          }
        }
        LoopPausingNeutral(total, chunk, env, k + 1, st.next, st'.next);
      }
    }
  }

  // ---------------------------------------------------------------------------
  // Properties of a whole run
  // ---------------------------------------------------------------------------

  /** A task of non-negative size keeps `0 <= downloaded <= totalBytes`. */
  lemma RunBounds(total: int, kbps: int32, env: nat -> Turn, start: Control, downloaded: int)
    requires kbps >= 1 && total >= 0 && 0 <= downloaded <= total
    ensures var o := Run(total, kbps, env, start, downloaded);
      0 <= o.final.soFar <= total && 0 <= o.final.downloaded <= total
  {
    var chunk := ChunkSize(BytesPerSecond(kbps));
    LoopBounds(total, chunk, env, 0, Snapshot(0, downloaded, AfterAll(start.(message := Downloading), env(0).arrivals)));
  }

  /** The exits of a whole run (see LoopExits). */
  lemma RunExits(total: int, kbps: int32, env: nat -> Turn, start: Control, downloaded: int)
    requires kbps >= 1
    ensures var o := Run(total, kbps, env, start, downloaded);
      && (o.exit == Finished <==> !o.final.control.cancelled)
      && (o.exit == Finished <==> o.final.control.message == Completed)
      && (o.exit == StoppedAtTop <==> o.final.control.message == Cancelled)
      && (o.exit == Finished ==> o.final.downloaded == total)
      && (o.exit == StoppedAtTop || o.exit == StoppedAtRecheck ==> o.final.soFar < total)
  {
    var chunk := ChunkSize(BytesPerSecond(kbps));
    var c := start.(message := Downloading);
    LoopExits(total, chunk, env, 0, Snapshot(0, downloaded, AfterAll(c, env(0).arrivals)));
  }

  /** A task nobody cancels completes with `downloaded == totalBytes` and the
      message "Completado", in one step per chunk; a task of size 0 completes
      without a single iteration. */
  lemma RunQuiet(total: int, kbps: int32, env: nat -> Turn, start: Control, downloaded: int)
    requires kbps >= 1 && total >= 0 && Quiet(env, 0) && !start.cancelled
    ensures var o := Run(total, kbps, env, start, downloaded);
      && o.exit == Finished && o.final.downloaded == total
      && o.final.control.message == Completed
      && o.steps == CeilDiv(total, ChunkSize(BytesPerSecond(kbps)))
      && (total == 0 ==> o.steps == 0)
  {
    var chunk := ChunkSize(BytesPerSecond(kbps));
    var c := start.(message := Downloading);
    assert Calm(env(0));
    AfterAllCancelled(c, env(0).arrivals);
    LoopQuiet(total, chunk, env, 0, Snapshot(0, downloaded, AfterAll(c, env(0).arrivals)));
  }

  /** A task whose cancel flag is set by the time it reaches the first check
      (a cancel that arrives after `acquire` returns) stops there: no
      progress, "Cancelado". */
  lemma RunCancelledAtFirstCheck(total: int, kbps: int32, env: nat -> Turn, start: Control, downloaded: int)
    requires kbps >= 1 && total > 0 && (start.cancelled || CancelRequest in env(0).arrivals)
    ensures var o := Run(total, kbps, env, start, downloaded);
      && o.exit == StoppedAtTop && o.steps == 0
      && o.final.downloaded == downloaded
      && o.final.control.message == Cancelled
  {
    AfterAllCancelled(start.(message := Downloading), env(0).arrivals);
  }

  /** A cancel that arrives after the first top check and before the re-check
      that follows the pause wait stops the task there: no step is taken, the
      task is cancelled and unpaused, and "Cancelado" is not shown. */
  lemma RunCancelledAtRecheck(total: int, kbps: int32, env: nat -> Turn, start: Control, downloaded: int)
    requires kbps >= 1 && total > 0 && !start.cancelled && CancelRequest !in env(0).arrivals
    requires env(0).wake == WokenByResume && env(0).cancelBeforeRecheck
    ensures var o := Run(total, kbps, env, start, downloaded);
      && o.exit == StoppedAtRecheck && o.steps == 0
      && o.final.soFar == 0 && o.final.downloaded == downloaded
      && o.final.control.cancelled && !o.final.control.paused
      && !Final(o.final.control.message)
  {
    AfterAllCancelled(start.(message := Downloading), env(0).arrivals);
  }

  /** A first cancel at check point j >= 1 stops the task after exactly j
      whole chunks, when that is still short of the total. */
  lemma RunCancelAt(total: int, kbps: int32, env: nat -> Turn, start: Control, downloaded: int, j: nat)
    requires kbps >= 1 && j >= 1 && !start.cancelled
    requires forall i: nat :: i < j ==> env(i).wake == WokenByResume && !env(i).cancelBeforeRecheck && !env(i).cancelInSleep
    requires forall i: nat :: i < j ==> CancelRequest !in env(i).arrivals
    requires CancelRequest in env(j).arrivals
    requires j * ChunkSize(BytesPerSecond(kbps)) < total
    ensures var o := Run(total, kbps, env, start, downloaded);
      && o.exit == StoppedAtTop
      && o.final.downloaded == j * ChunkSize(BytesPerSecond(kbps))
      && o.final.control.message == Cancelled
      && o.steps == j
  {
    var chunk := ChunkSize(BytesPerSecond(kbps));
    var c := start.(message := Downloading);
    assert CancelRequest !in env(0).arrivals;
    AfterAllCancelled(c, env(0).arrivals);
    LoopCancelAt(total, chunk, env, 0, Snapshot(0, downloaded, AfterAll(c, env(0).arrivals)), j);
  }

  /** Pause and resume requests never change how far a download gets or how it
      ends, as long as each pause wait ends with a resume. */
  lemma RunPausingNeutral(total: int, kbps: int32, env: nat -> Turn, start: Control, downloaded: int)
    requires kbps >= 1 && AlwaysResumed(env, 0)
    ensures var o, p := Run(total, kbps, env, start, downloaded),
                        Run(total, kbps, Steady(env), start.(paused := false), downloaded);
      && o.exit == p.exit && o.steps == p.steps
      && o.final.soFar == p.final.soFar && o.final.downloaded == p.final.downloaded
  {
    var chunk := ChunkSize(BytesPerSecond(kbps));
    var c := start.(message := Downloading);
    var c' := start.(paused := false).(message := Downloading);
    var rs, rs' := env(0).arrivals, Steady(env)(0).arrivals;
    AfterAllCancelled(c, rs);
    AfterAllCancelled(c', rs');
    assert !AfterAll(c', rs').paused by {
      if CancelRequest in rs {
        assert AfterAll(c', rs') == AfterAll(Apply(c', CancelRequest), []);
      }
    }
    LoopPausingNeutral(total, chunk, env, 0,
      Snapshot(0, downloaded, AfterAll(c, rs)), Snapshot(0, downloaded, AfterAll(c', rs')));
  }

  /** With a negative size (the input layer does not forbid one) the loop never
      runs and an uncancelled task "completes" with a negative downloaded
      count: the bounds above need `totalBytes >= 0`. */
  lemma RunNegativeSize(total: int, kbps: int32, env: nat -> Turn, start: Control, downloaded: int)
    requires kbps >= 1 && total < 0 && !start.cancelled && CancelRequest !in env(0).arrivals
    ensures var o := Run(total, kbps, env, start, downloaded);
      o.exit == Finished && o.steps == 0 && o.final.downloaded == total < 0
  {
    AfterAllCancelled(start.(message := Downloading), env(0).arrivals);
  }

  /** One MiB at 1024 KB/s: chunks of 104857 bytes, eleven steps, completed. */
  lemma OneMebibyteAtOneMebibytePerSecond(env: nat -> Turn, start: Control)
    requires Quiet(env, 0) && !start.cancelled
    ensures var o := Run(1048576, 1024, env, start, 0);
      o.exit == Finished && o.final.downloaded == 1048576 && o.steps == 11
  {
    assert ChunkSize(BytesPerSecond(1024)) == 104857;
    RunQuiet(1048576, 1024, env, start, 0);
    assert CeilDiv(1048576, 104857) == 11;
  }
}

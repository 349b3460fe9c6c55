/** One simulated download (DownloadTask.java): its progress, its cooperative
    pause and cancel flags, its status message, and `call`, the transfer loop
    it runs on a worker thread while holding one permit of the semaphore it
    was given at creation.

    Other threads reach the task only through `Pause`, `ResumeTask` and
    `Cancel`. Inside `Call`, what they do is an input: the turn `env(k)` says
    which requests reach the task before check point k, how a pause wait ends,
    whether a cancel slips in before the re-check after it, and whether a
    cancel interrupts the pacing sleep. */
module Tasks {
  import opened Items
  import opened Permits
  import opened Transfer

  class DownloadTask {
    const name: string
    const totalBytes: int64
    /** The descriptor's speed, clamped to at least 1 KB/s. */
    const speedKBps: int32
    /** The semaphore current in the manager when the task was created. */
    const limit: Semaphore

    var paused: bool
    /** Task.isCancelled(). */
    var cancelled: bool
    /** The observable `downloaded` property. */
    var downloaded: int64
    var message: Message

    /** The speed used for every division is positive. */
    ghost predicate Valid()
    {
      speedKBps >= 1
    }

    /** Copies the descriptor, clamps its speed, binds the semaphore, and shows
        "En cola..." with nothing downloaded. */
    constructor (item: DownloadItem, limit: Semaphore)
      ensures Valid()
      ensures name == item.name && totalBytes == item.sizeBytes
      ensures speedKBps == ClampSpeed(item.speedKBps) && this.limit == limit
      ensures !paused && !cancelled && downloaded == 0 && message == Queued
    {
      name := item.name;
      totalBytes := item.sizeBytes;
      speedKBps := ClampSpeed(item.speedKBps);
      this.limit := limit;
      paused := false;
      cancelled := false;
      downloaded := 0;
      message := Queued;
    }

    /** The flags and message other threads write. */
    function ControlState(): Control
      reads this
    {
      Control(paused, cancelled, message)
    }

    method GetTotalBytes() returns (r: int64)
      ensures r == totalBytes
    {
      r := totalBytes;
    }

    method GetDownloadedBytes() returns (r: int64)
      ensures r == downloaded
    {
      r := downloaded;
    }

    /** Sets the pause flag and shows "Pausado", whether or not it was paused. */
    method Pause()
      modifies this
      ensures paused && message == Paused && cancelled == old(cancelled)
      ensures ControlState() == Apply(old(ControlState()), PauseRequest)
      ensures downloaded == old(downloaded)
    {
      paused := true;
      message := Paused;
    }

    /** Clears the pause flag and shows "Reanudando..." if the task was paused;
        otherwise does nothing. */
    method ResumeTask()
      modifies this
      ensures old(paused) ==> !paused && message == Resuming
      ensures !old(paused) ==> paused == old(paused) && message == old(message)
      ensures cancelled == old(cancelled)
      ensures ControlState() == Apply(old(ControlState()), ResumeRequest)
      ensures downloaded == old(downloaded)
    {
      if paused {
        paused := false;
        message := Resuming;
      }
    }

    /** Task.cancel(): requests cancellation, observed at the next check point. */
    method Cancel()
      modifies this
      ensures cancelled && paused == old(paused) && message == old(message)
      ensures ControlState() == Apply(old(ControlState()), CancelRequest)
      ensures downloaded == old(downloaded)
    {
      cancelled := true;
    }

    /** The requests other threads make between two check points, in order. */
    method Deliver(rs: seq<Request>)
      modifies this
      ensures ControlState() == AfterAll(old(ControlState()), rs)
      ensures downloaded == old(downloaded)
    {
      var i := 0;
      while i < |rs|
        invariant 0 <= i <= |rs|
        invariant AfterAll(ControlState(), rs[i..]) == AfterAll(old(ControlState()), rs)
        invariant downloaded == old(downloaded)
      {
        assert rs[i..] == [rs[i]] + rs[i + 1..];
        match rs[i] {
          case PauseRequest => Pause();
          case ResumeRequest => ResumeTask();
          case CancelRequest => Cancel();
        }
        i := i + 1;
      }
    }

    /** The cooperative pause wait: blocks until someone resumes or cancels. */
    method AwaitWake(w: WaitEnd)
      requires paused
      modifies this
      ensures ControlState() == EndWait(old(ControlState()), w)
      ensures !paused || cancelled
      ensures downloaded == old(downloaded)
    {
      match w {
        case WokenByResume => ResumeTask();
        case WokenByCancel => Cancel();
      }
    }

    /** `call`: acquire one permit, run the transfer while holding it, and
        release it on every path out of it (the `finally` block). The result
        says which path was taken; `Interrupted` is the InterruptedException
        leaving `call`. A cancel flag already set on entry stands for a cancel
        that arrived after `acquire` returned. */
    method Call(env: nat -> Turn) returns (exit: Exit)
      requires Valid() && limit.Valid() && limit.available > 0
      modifies this, limit
      ensures limit.Valid()
      ensures limit.acquires == old(limit.acquires) + 1 && limit.releases == old(limit.releases) + 1
      ensures limit.available == old(limit.available) && limit.held == old(limit.held)
      ensures var o := Run(totalBytes, speedKBps, env, old(ControlState()), old(downloaded));
        downloaded == o.final.downloaded && ControlState() == o.final.control && exit == o.exit
      ensures exit == Finished <==> !cancelled
      ensures exit == Finished ==> downloaded == totalBytes && message == Completed
      ensures totalBytes >= 0 && 0 <= old(downloaded) <= totalBytes ==> 0 <= downloaded <= totalBytes
      ensures totalBytes >= 0 && Quiet(env, 0) && !old(cancelled) ==> exit == Finished
    {
      ghost var start, d0 := ControlState(), downloaded;
      limit.Acquire();
      exit := Transfer(env, old(limit.held));
      limit.Release();
      RunExits(totalBytes, speedKBps, env, start, d0);
      if totalBytes >= 0 && 0 <= d0 <= totalBytes {
        RunBounds(totalBytes, speedKBps, env, start, d0);
      }
      if totalBytes >= 0 && Quiet(env, 0) && !start.cancelled {
        RunQuiet(totalBytes, speedKBps, env, start, d0);
      }
    }

    /** One iteration of the transfer loop: the cancel check, the pause wait,
        the re-check, one step, the pacing sleep, and the requests that arrive
        before the next check point. It leaves the task exactly where
        `Transfer.Iterate` says, and stops exactly when that stops. */
    method Iteration(env: nat -> Turn, chunk: int64, k: nat, soFar: int64)
      returns (soFar': int64, exit: Exit, stop: bool)
      requires chunk > 0 && soFar < totalBytes
      modifies this
      ensures var st := Iterate(totalBytes, chunk, env, k, Snapshot(soFar, old(downloaded), old(ControlState())));
        && (stop <==> st.Stop?)
        && (st.Stop? ==> exit == st.outcome.exit && Snapshot(soFar', downloaded, ControlState()) == st.outcome.final)
        && (st.Go? ==> Snapshot(soFar', downloaded, ControlState()) == st.next)
    {
      soFar', exit, stop := soFar, StoppedAtEnd, true;
      if cancelled {
        message := Cancelled;
        exit := StoppedAtTop;
        return;
      }
      if paused {
        AwaitWake(env(k).wake);
      }
      if env(k).cancelBeforeRecheck {
        Cancel();
      }
      if cancelled {
        exit := StoppedAtRecheck;
        return;
      }
      var step := Step(chunk, totalBytes - soFar);
      soFar' := soFar + step;
      downloaded := soFar';
      message := Progress(soFar');
      if env(k).cancelInSleep {
        Cancel();
        exit := Interrupted;
        return;
      }
      Deliver(env(k + 1).arrivals);
      stop := false;
    }

    /** The body of `call`'s `try` block: the transfer loop and the completion
        check, computing exactly what `Transfer.Run` describes. It runs while
        the task holds one permit more than the `h` held before its `acquire`,
        and leaves the semaphore alone. */
    method Transfer(env: nat -> Turn, ghost h: int) returns (exit: Exit)
      requires Valid() && limit.held == h + 1
      modifies this
      ensures limit.held == h + 1
      ensures var o := Run(totalBytes, speedKBps, env, old(ControlState()), old(downloaded));
        downloaded == o.final.downloaded && ControlState() == o.final.control && exit == o.exit
    {
      ghost var run := Run(totalBytes, speedKBps, env, ControlState(), downloaded);
      var soFar: int64 := 0;
      var bytesPerSecond := BytesPerSecond(speedKBps);
      var chunk := ChunkSize(bytesPerSecond);
      message := Downloading;
      var k: nat := 0;
      Deliver(env(0).arrivals);
      exit := StoppedAtEnd;
      while soFar < totalBytes
        invariant 0 <= soFar && (totalBytes >= 0 ==> soFar <= totalBytes)
        invariant Loop(totalBytes, chunk, env, k, Snapshot(soFar, downloaded, ControlState())) == run
        invariant exit == StoppedAtEnd
        decreases totalBytes - soFar
      {
        var e, stop;
        soFar, e, stop := Iteration(env, chunk, k, soFar);
        if stop {
          exit := e;
          break;
        }
        k := k + 1;
      }
      if !cancelled && soFar >= totalBytes {
        downloaded := totalBytes;
        message := Completed;
        exit := Finished;
      }
    }
  }
}

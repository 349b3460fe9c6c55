/** The manager (DownloadManager.java): it owns the semaphore current for new
    tasks, which `SetMaxConcurrent` replaces rather than resizes, and the
    append-only registry of every task it created. Handing a task to the
    worker pool is not modelled: a worker later runs `DownloadTask.Call`. */
module Manager {
  import opened Items
  import opened Permits
  import opened Transfer
  import opened Tasks

  class DownloadManager {
    var limit: Semaphore
    var tasks: seq<DownloadTask>

    /** The current semaphore has at least one permit, the registered tasks
        are distinct and each has a positive speed. */
    ghost predicate Valid()
      reads this
    {
      && limit.capacity >= 1
      && (forall i, j :: 0 <= i < j < |tasks| ==> tasks[i] != tasks[j])
      && (forall t :: t in tasks ==> t.Valid())
    }

    /** `Math.max(1, maxConcurrent)` permits, all free; no tasks yet. */
    constructor (maxConcurrent: int32)
      ensures Valid() && fresh(limit) && limit.Valid()
      ensures limit.capacity == Max(1, maxConcurrent) && limit.available == limit.capacity
      ensures tasks == []
    {
      limit := new Semaphore(Max(1, maxConcurrent));
      tasks := [];
    }

    /** Installs a fresh semaphore with `max(1, newMax)` permits, all free. The
        old semaphore and every task already created are left exactly as they
        were: tasks keep the semaphore they were bound to. */
    method SetMaxConcurrent(newMax: int32)
      requires Valid()
      modifies this
      ensures Valid() && fresh(limit) && limit.Valid()
      ensures limit.capacity == Max(1, newMax) && limit.available == limit.capacity && limit.held == 0
      ensures tasks == old(tasks)
      ensures unchanged(old(limit)) && unchanged(tasks)
    {
      var n := newMax;
      if n < 1 {
        n := 1;
      }
      limit := new Semaphore(n);
    }

    /** The semaphore most recently installed. */
    method CurrentSemaphore() returns (s: Semaphore)
      ensures s == limit
    {
      s := limit;
    }

    /** Creates a task for `item`, bound to the semaphore current right now,
        and appends it to the registry, whose earlier entries are unchanged. */
    method CreateAndSubmit(item: DownloadItem) returns (t: DownloadTask)
      requires Valid()
      modifies this
      ensures Valid() && fresh(t)
      ensures t.limit == limit && limit == old(limit)
      ensures tasks == old(tasks) + [t]
      ensures t.name == item.name && t.totalBytes == item.sizeBytes && t.speedKBps == ClampSpeed(item.speedKBps)
      ensures !t.paused && !t.cancelled && t.downloaded == 0 && t.message == Queued
      ensures unchanged(old(tasks))
    {
      var current := CurrentSemaphore();
      t := new DownloadTask(item, current);
      tasks := tasks + [t];
    }

    /** The registry, in creation order. */
    method GetTasks() returns (ts: seq<DownloadTask>)
      ensures ts == tasks
    {
      ts := tasks;
    }

    /** Cancels every registered task, whatever its state, and removes none;
        nothing else about the tasks changes. Stopping the worker pool is not
        modelled. */
    method Shutdown()
      modifies tasks
      ensures forall t :: t in tasks ==> t.cancelled
      ensures forall t :: t in tasks ==>
        t.paused == old(t.paused) && t.message == old(t.message) && t.downloaded == old(t.downloaded)
    {
      for i := 0 to |tasks|
        invariant forall j :: 0 <= j < i ==> tasks[j].cancelled
        invariant forall t :: t in tasks ==>
          t.paused == old(t.paused) && t.message == old(t.message) && t.downloaded == old(t.downloaded)
      {
        tasks[i].Cancel();
      }
    }
  }

  /** Lowering the limit does not stop a task that already holds a permit of
      the old semaphore: with a limit of one, a first task holds the only
      permit, the limit is set to one again, and a second task finds a free
      permit on the new semaphore, so two tasks transfer at once. */
  method OverSubscriptionAcrossSwap(first: DownloadItem, second: DownloadItem)
    returns (m: DownloadManager, t1: DownloadTask, t2: DownloadTask)
    ensures t1.limit != t2.limit
    ensures t1.limit.held == 1 && t1.limit.available == 0
    ensures t2.limit.available == 1 && t2.limit == m.limit
  {
    m := new DownloadManager(1);
    t1 := m.CreateAndSubmit(first);
    t1.limit.Acquire();
    m.SetMaxConcurrent(1);
    t2 := m.CreateAndSubmit(second);
  }

  /** Under an unchanged limit of one, a second task is bound to the same
      semaphore as the first and finds no free permit while the first holds
      it. */
  method SecondWaitsForFirst(first: DownloadItem, second: DownloadItem)
    returns (m: DownloadManager, t1: DownloadTask, t2: DownloadTask)
    ensures t1.limit == t2.limit && t1.limit.held == 1
    ensures t2.limit.available == 0
  {
    m := new DownloadManager(1);
    t1 := m.CreateAndSubmit(first);
    t2 := m.CreateAndSubmit(second);
    t1.limit.Acquire();
  }
}

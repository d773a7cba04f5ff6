/**
 * The FIFO scheduler and the blocking disk. The scheduler keeps the ready
 * queue and its size; when a blocking disk is registered, `yield` first
 * serves the disk's queue of threads waiting for I/O, provided the disk
 * reports ready. A thread that finds the disk busy enqueues itself on the
 * disk queue and yields.
 *
 * Switching to a thread (`Thread::dispatch_to`) is observed as the thread
 * a call returns; the disk's readiness is a parameter.
 */
module Scheduling {
  import opened ThreadQueue
  import opened Termination

  type Byte = x: int | 0 <= x < 256

  /** Bytes moved by one block read or write. */
  const BlockSize: nat := 512

  class BlockingDisk {
    var diskQueueSize: int
    const diskQueue: RoundRobinQueue
    /** The blocks of the underlying device. */
    var blocks: seq<seq<Byte>>
    ghost var Repr: set<object>

    ghost predicate Valid()
      reads this, Repr
    {
      && this in Repr && diskQueue in Repr
      && diskQueue.Repr <= Repr && this !in diskQueue.Repr
      && diskQueue.Valid()
      && diskQueueSize == |diskQueue.Contents|
    }

    /** A disk with an empty queue of waiting threads. */
    constructor (device: seq<seq<Byte>>)
      ensures Valid() && fresh(Repr)
      ensures diskQueue.Contents == [] && diskQueueSize == 0
      ensures blocks == device
    {
      diskQueueSize := 0;
      diskQueue := new RoundRobinQueue();
      blocks := device;
      new;
      Repr := {this} + diskQueue.Repr;
    }

    /** `disk_enqueue`: the thread joins the back of the disk queue. */
    method DiskEnqueue(t: Thread)
      requires Valid()
      modifies Repr
      ensures Valid() && fresh(Repr - old(Repr))
      ensures diskQueue.Contents == old(diskQueue.Contents) + [t]
      ensures diskQueueSize == old(diskQueueSize) + 1
      ensures blocks == old(blocks)
    {
      ghost var added := diskQueue.EnqueueThread(t);
      diskQueueSize := diskQueueSize + 1;
      Repr := Repr + diskQueue.Repr;
    }

    /** `is_ready`: the readiness of the underlying device, nothing else. */
    method IsReady(deviceReady: bool) returns (ready: bool)
      ensures ready == deviceReady
    {
      ready := deviceReady;
    }

    /**
     * `wait_until_ready`: when the device is busy, the current thread
     * queues on the disk and the system scheduler yields. `readyAtYield` is
     * the readiness the scheduler then observes. The scheduler either has
     * this disk registered or none.
     */
    method WaitUntilReady(deviceReady: bool, current: Thread, scheduler: Scheduler, readyAtYield: bool)
      returns (dispatched: Thread?)
      requires Valid() && scheduler.Valid()
      requires scheduler.blockDisk == this || scheduler.blockDisk == null
      requires Repr !! ({scheduler} + scheduler.readyQueue.Repr)
      modifies Repr, scheduler, scheduler.readyQueue
      ensures Valid() && scheduler.Valid() && scheduler.blockDisk == old(scheduler.blockDisk)
      ensures blocks == old(blocks)
      ensures deviceReady ==>
        && dispatched == null
        && diskQueue.Contents == old(diskQueue.Contents)
        && scheduler.readyQueue.Contents == old(scheduler.readyQueue.Contents)
      ensures !deviceReady && scheduler.blockDisk == this && readyAtYield ==>
        && dispatched == (old(diskQueue.Contents) + [current])[0]
        && diskQueue.Contents == (old(diskQueue.Contents) + [current])[1..]
        && scheduler.readyQueue.Contents == old(scheduler.readyQueue.Contents)
      ensures !deviceReady && !(scheduler.blockDisk == this && readyAtYield) ==>
        && diskQueue.Contents == old(diskQueue.Contents) + [current]
        && (old(scheduler.readyQueue.Contents) == [] ==>
              dispatched == null && scheduler.readyQueue.Contents == [])
        && (old(scheduler.readyQueue.Contents) != [] ==>
              && dispatched == old(scheduler.readyQueue.Contents)[0]
              && scheduler.readyQueue.Contents == old(scheduler.readyQueue.Contents)[1..])
    {
      var ready := IsReady(deviceReady);
      dispatched := null;
      if !ready {
        DiskEnqueue(current);
        dispatched := scheduler.Yield(readyAtYield);
      }
    }

    /** `read`: the block's bytes are copied into the buffer. */
    method Read(blockNo: nat, buf: array<Byte>)
      requires Valid() && blockNo < |blocks| && |blocks[blockNo]| == BlockSize
      requires buf.Length >= BlockSize && buf !in Repr
      modifies buf
      ensures buf[..BlockSize] == blocks[blockNo]
      ensures buf[BlockSize..] == old(buf[BlockSize..])
    {
      forall i | 0 <= i < BlockSize {
        buf[i] := blocks[blockNo][i];
      }
    }

    /** `write`: the buffer's first block of bytes replaces the block. */
    method Write(blockNo: nat, buf: array<Byte>)
      requires Valid() && blockNo < |blocks| && buf.Length >= BlockSize
      modifies this
      ensures Valid()
      ensures blocks == old(blocks)[blockNo := buf[..BlockSize]]
      ensures diskQueueSize == old(diskQueueSize)
    {
      blocks := blocks[blockNo := buf[..BlockSize]];
    }
  }

  class Scheduler {
    const readyQueue: RoundRobinQueue
    var sizeOfQueue: int
    var blockDisk: BlockingDisk?

    ghost predicate Valid()
      reads this, readyQueue, readyQueue.Repr, blockDisk
      reads if blockDisk != null then blockDisk.Repr else {}
    {
      && readyQueue.Valid() && this !in readyQueue.Repr
      && sizeOfQueue == |readyQueue.Contents|
      && (blockDisk != null ==>
            && blockDisk.Valid()
            && this !in blockDisk.Repr
            && readyQueue.Repr !! blockDisk.Repr)
    }

    /** An empty ready queue and no disk. */
    constructor ()
      ensures Valid() && fresh(readyQueue.Repr)
      ensures readyQueue.Contents == [] && sizeOfQueue == 0 && blockDisk == null
    {
      readyQueue := new RoundRobinQueue();
      sizeOfQueue := 0;
      blockDisk := null;
    }

    /** Whether `yield` serves the disk queue first. */
    ghost predicate DiskTurn(diskReady: bool)
      reads this, blockDisk
    {
      blockDisk != null && diskReady && blockDisk.diskQueueSize != 0
    }

    /**
     * `yield`: the head of the disk queue when the disk is registered,
     * ready and has waiters; otherwise the head of the ready queue, or
     * nobody when it is empty.
     */
    method Yield(diskReady: bool) returns (dispatched: Thread?)
      requires Valid()
      modifies this, readyQueue
      modifies if blockDisk != null then {blockDisk, blockDisk.diskQueue} else {}
      ensures Valid() && blockDisk == old(blockDisk)
      ensures blockDisk != null ==> blockDisk.blocks == old(blockDisk.blocks)
      ensures old(DiskTurn(diskReady)) ==>
        && dispatched == old(blockDisk.diskQueue.Contents)[0]
        && blockDisk.diskQueue.Contents == old(blockDisk.diskQueue.Contents)[1..]
        && readyQueue.Contents == old(readyQueue.Contents)
      ensures !old(DiskTurn(diskReady)) ==>
        && (blockDisk != null ==> blockDisk.diskQueue.Contents == old(blockDisk.diskQueue.Contents))
        && (old(readyQueue.Contents) == [] ==> dispatched == null && readyQueue.Contents == [])
        && (old(readyQueue.Contents) != [] ==>
              && dispatched == old(readyQueue.Contents)[0]
              && readyQueue.Contents == old(readyQueue.Contents)[1..])
    {
      var ready := false;
      if blockDisk != null {
        ready := blockDisk.IsReady(diskReady);
      }
      if blockDisk != null && ready && blockDisk.diskQueueSize != 0 {
        dispatched := blockDisk.diskQueue.Dequeue();
        blockDisk.diskQueueSize := blockDisk.diskQueueSize - 1;
      } else if sizeOfQueue == 0 {
        dispatched := null;
      } else {
        sizeOfQueue := sizeOfQueue - 1;
        dispatched := readyQueue.Dequeue();
      }
    }

    /** `add`: the thread joins the back of the ready queue. */
    method Add(t: Thread)
      requires Valid()
      modifies this, readyQueue.Repr
      ensures Valid() && blockDisk == old(blockDisk)
      ensures fresh(readyQueue.Repr - old(readyQueue.Repr))
      ensures readyQueue.Contents == old(readyQueue.Contents) + [t]
    {
      ghost var added := readyQueue.EnqueueThread(t);
      sizeOfQueue := sizeOfQueue + 1;
    }

    /** `resume`: a thread that becomes runnable again is added like a new one. */
    method Resume(t: Thread)
      requires Valid()
      modifies this, readyQueue.Repr
      ensures Valid() && blockDisk == old(blockDisk)
      ensures fresh(readyQueue.Repr - old(readyQueue.Repr))
      ensures readyQueue.Contents == old(readyQueue.Contents) + [t]
    {
      Add(t);
    }

    /**
     * One round of the `terminate` loop: the front thread is dropped, and
     * the size decremented, when its id is `t`'s, and enqueued again
     * otherwise.
     */
    method TerminateRound(t: Thread)
      requires Valid() && readyQueue.Contents != []
      modifies this, readyQueue.Repr
      ensures Valid() && blockDisk == old(blockDisk)
      ensures fresh(readyQueue.Repr - old(readyQueue.Repr))
      ensures readyQueue.Contents == AsWrittenRound(old(readyQueue.Contents), t.threadId)
    {
      var top := readyQueue.Dequeue();
      if top.threadId == t.threadId {
        sizeOfQueue := sizeOfQueue - 1;
      } else {
        ghost var added := readyQueue.EnqueueThread(top);
      }
    }

    /**
     * `terminate` as written: one pass over the ready queue bounded by the
     * live queue size, which every dropped thread decrements.
     */
    method Terminate(t: Thread)
      requires Valid()
      modifies this, readyQueue.Repr
      ensures Valid() && blockDisk == old(blockDisk)
      ensures readyQueue.Contents == AsWrittenPass(old(readyQueue.Contents), t.threadId, 0)
    {
      var i := 0;
      while i < sizeOfQueue
        invariant Valid() && blockDisk == old(blockDisk) && 0 <= i
        invariant fresh(readyQueue.Repr - old(readyQueue.Repr))
        invariant AsWrittenPass(readyQueue.Contents, t.threadId, i) ==
          AsWrittenPass(old(readyQueue.Contents), t.threadId, 0)
        decreases sizeOfQueue - i
      {
        PassUnfolds(readyQueue.Contents, t.threadId, i);
        TerminateRound(t);
        i := i + 1;
      }
      PassDone(readyQueue.Contents, t.threadId, i);
    }

    /**
     * `terminate` with the pass bounded by the size the queue had when it
     * started: the ready queue keeps every other thread, in order.
     */
    method TerminateKeepingOrder(t: Thread)
      requires Valid()
      modifies this, readyQueue.Repr
      ensures Valid() && blockDisk == old(blockDisk)
      ensures readyQueue.Contents == Survivors(old(readyQueue.Contents), t.threadId)
    {
      var rounds := sizeOfQueue;
      var i := 0;
      while i < rounds
        invariant Valid() && blockDisk == old(blockDisk) && 0 <= i <= rounds
        invariant fresh(readyQueue.Repr - old(readyQueue.Repr))
        invariant rounds - i <= sizeOfQueue
        invariant FixedPass(readyQueue.Contents, t.threadId, rounds - i) ==
          FixedPass(old(readyQueue.Contents), t.threadId, rounds)
      {
        FixedPassUnfolds(readyQueue.Contents, t.threadId, rounds - i);
        TerminateRound(t);
        i := i + 1;
      }
      FixedPassFilters(old(readyQueue.Contents), t.threadId);
    }

    /** `pass_kernel_disk_object_to_scheduler`: the disk `yield` serves from now on. */
    method PassKernelDiskObjectToScheduler(disk: BlockingDisk)
      requires Valid() && disk.Valid()
      requires this !in disk.Repr && readyQueue.Repr !! disk.Repr
      modifies this
      ensures Valid() && blockDisk == disk
      ensures sizeOfQueue == old(sizeOfQueue)
    {
      blockDisk := disk;
    }
  }

  /** Threads added to the ready queue are dispatched in the order they were added. */
  method ReadyThreadsRunInOrder(t1: Thread, t2: Thread) returns (first: Thread?, second: Thread?, third: Thread?)
    ensures first == t1 && second == t2 && third == null
  {
    var scheduler := new Scheduler();
    scheduler.Add(t1);
    scheduler.Resume(t2);
    first := scheduler.Yield(true);
    second := scheduler.Yield(true);
    third := scheduler.Yield(true);
  }

  /**
   * A thread that blocked on a busy disk runs before the ready threads as
   * soon as the registered disk reports ready.
   */
  method DiskWaiterRunsFirst(runnable: Thread, waiting: Thread) returns (first: Thread?, second: Thread?)
    ensures first == waiting && second == runnable
  {
    var scheduler := new Scheduler();
    var disk := new BlockingDisk([]);
    scheduler.PassKernelDiskObjectToScheduler(disk);
    scheduler.Add(runnable);
    first := disk.WaitUntilReady(false, waiting, scheduler, true);
    second := scheduler.Yield(true);
  }
}

/**
 * The FIFO queue of threads: a singly linked list whose head node is the
 * queue object itself. An empty queue is a head node without a thread;
 * every node behind the head holds a thread.
 */
module ThreadQueue {

  /** A kernel thread, known to the queues by its identity and its id. */
  class Thread {
    const threadId: int

    constructor (id: int)
      ensures threadId == id
    {
      threadId := id;
    }
  }

  class RoundRobinQueue {
    var thread: Thread?
    var next: RoundRobinQueue?
    /** The threads in the queue, head first. */
    ghost var Contents: seq<Thread>
    /** The nodes of the list from this one on. */
    ghost var Repr: set<object>

    ghost predicate Valid()
      reads this, Repr
      decreases Repr
    {
      && this in Repr
      && (thread == null ==> next == null && Contents == [])
      && (thread != null && next == null ==> Contents == [thread])
      && (next != null ==>
            && next in Repr && next.Repr <= Repr && this !in next.Repr
            && next.thread != null
            && Contents == [thread] + next.Contents
            && next.Valid())
    }

    /** The empty queue. */
    constructor ()
      ensures Valid() && fresh(Repr) && Contents == []
      ensures thread == null && next == null
    {
      thread, next := null, null;
      Contents, Repr := [], {this};
    }

    /** A one-node queue holding `newThread`, or empty when it is null. */
    constructor WithThread(newThread: Thread?)
      ensures Valid() && fresh(Repr) && Repr == {this}
      ensures Contents == if newThread == null then [] else [newThread]
      ensures thread == newThread && next == null
    {
      thread, next := newThread, null;
      Contents, Repr := if newThread == null then [] else [newThread], {this};
    }

    /**
     * `enqueue_thread`: an empty head takes the thread itself and nothing is
     * allocated; otherwise the call walks to the last node and one new node
     * holding the thread, `added`, is linked behind it.
     */
    method EnqueueThread(newThread: Thread) returns (ghost added: RoundRobinQueue?)
      requires Valid()
      modifies Repr
      decreases Repr
      ensures Valid()
      ensures Contents == old(Contents) + [newThread]
      ensures old(thread) == null ==> added == null && Repr == old(Repr) && thread == newThread
      ensures old(thread) != null ==>
        && added != null && fresh(added) && Repr == old(Repr) + {added}
        && added.thread == newThread && added.next == null
        && thread == old(thread)
    {
      added := null;
      if thread == null {
        thread := newThread;
        Contents := [newThread];
      } else if next == null {
        next := new RoundRobinQueue.WithThread(newThread);
        added := next;
        Repr := Repr + next.Repr;
        Contents := Contents + [newThread];
      } else {
        added := next.EnqueueThread(newThread);
        Repr := Repr + next.Repr;
        Contents := [thread] + next.Contents;
      }
    }

    /**
     * `dequeue`: the thread at the head, or null for an empty queue; the
     * second node's thread moves into the head and that node is unlinked.
     */
    method Dequeue() returns (top: Thread?)
      requires Valid()
      modifies this
      ensures Valid() && Repr <= old(Repr)
      ensures old(Contents) == [] ==> top == null && Contents == []
      ensures old(Contents) != [] ==> top == old(Contents)[0] && Contents == old(Contents)[1..]
    {
      if thread == null {
        return null;
      }
      top := thread;
      if next != null {
        thread := next.thread;
        var deleteNode := next;
        next := next.next;
        Contents := deleteNode.Contents;
        Repr := Repr - {deleteNode};
      } else {
        thread := null;
        Contents := [];
      }
    }
  }

  /** Threads enqueued one after the other leave the queue in the same order. */
  method FifoOrder(c1: Thread, c2: Thread, c3: Thread) returns (first: Thread?, second: Thread?, third: Thread?, rest: Thread?)
    ensures first == c1 && second == c2 && third == c3 && rest == null
  {
    var queue := new RoundRobinQueue();
    ghost var added := queue.EnqueueThread(c1);
    added := queue.EnqueueThread(c2);
    added := queue.EnqueueThread(c3);
    first := queue.Dequeue();
    second := queue.Dequeue();
    third := queue.Dequeue();
    rest := queue.Dequeue();
  }
}

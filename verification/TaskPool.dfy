/** The task queue of the thread pool in thread_ex.c, one caller at a time. */
module TaskPool {

  const MAX_THREAD_POOL_TASK: int := 200

  /** ms_thread_pool_task; the function and its argument are one number. */
  class Task {
    var work: nat
    var next: Task?

    constructor (work: nat)
      ensures this.work == work && next == null
    {
      this.work, next := work, null;
    }
  }

  /** ms_thread_pool */
  class Pool {
    var queueHead: Task?
    var curQueueSize: int
    var shutdown: bool
    ghost var Queue: seq<Task>

    /** The chain from queueHead is Queue, without repetition, and ends in null. */
    ghost predicate Chain()
      reads this, Queue
    {
      && queueHead == (if Queue == [] then null else Queue[0])
      && (forall i {:trigger Queue[i].next} :: 0 <= i < |Queue| ==>
            Queue[i].next == if i + 1 < |Queue| then Queue[i + 1] else null)
      && (forall i, j :: 0 <= i < j < |Queue| ==> Queue[i] != Queue[j])
    }

    ghost predicate Valid()
      reads this, Queue
    {
      Chain() && curQueueSize == |Queue|
    }

    constructor ()
      ensures Valid() && Queue == [] && !shutdown
    {
      queueHead, curQueueSize, shutdown := null, 0, false;
      Queue := [];
    }

    /** The size check of ms_pool_add_task, which is made without the lock. */
    method Full() returns (full: bool)
      ensures full == (curQueueSize > MAX_THREAD_POOL_TASK)
    {
      full := curQueueSize > MAX_THREAD_POOL_TASK;
    }

    /** The walk to the end of the chain, and the link to the new task. */
    method Link(newTask: Task)
      requires Chain()
      requires newTask.next == null && newTask !in Queue
      modifies `queueHead, `Queue, Queue
      ensures Chain() && Queue == old(Queue) + [newTask]
      ensures forall t :: t in old(Queue) ==> t.work == old(t.work)
    {
      var member := queueHead;
      if member != null {
        ghost var k := 0;
        while member.next != null
          invariant k < |Queue| && member == Queue[k]
          decreases |Queue| - k
        {
          member := member.next;
          k := k + 1;
        }
        member.next := newTask;
      } else {
        queueHead := newTask;
      }
      Queue := Queue + [newTask];
    }

    method Count()
      modifies `curQueueSize
      ensures curQueueSize == old(curQueueSize) + 1
    {
      curQueueSize := curQueueSize + 1;
    }

    /** ms_pool_add_task: behind the last task, unless more than the maximum are waiting. */
    method AddTask(newTask: Task?) returns (r: int)
      requires Valid()
      requires newTask != null ==> newTask.next == null && newTask !in Queue
      modifies this, Queue
      ensures Valid() && shutdown == old(shutdown)
      ensures forall t :: t in old(Queue) ==> t.work == old(t.work)
      ensures newTask != null ==> newTask.work == old(newTask.work)
      ensures if newTask == null || |old(Queue)| > 200
              then r == -1 && Queue == old(Queue)
              else r == 0 && Queue == old(Queue) + [newTask]
      ensures |old(Queue)| <= 201 ==> |Queue| <= 201
    {
      if newTask == null {
        return -1;
      }
      var full := Full();
      if full {
        return -1;
      }
      Link(newTask);
      Count();
      return 0;
    }

    /** What the workers are assumed to do under the lock: take the head, */
    method Pop() returns (task: Task)
      requires Chain() && Queue != []
      modifies `queueHead, `Queue
      ensures Chain() && task == old(Queue)[0] && Queue == old(Queue)[1..]
    {
      task := queueHead;
      queueHead := queueHead.next;
      Queue := Queue[1..];
    }

    /** and count it off. */
    method CountOff()
      modifies `curQueueSize
      ensures curQueueSize == old(curQueueSize) - 1
    {
      curQueueSize := curQueueSize - 1;
    }

    /** The last part of ms_pool_thread_uninit: free what nobody has taken. freed lists the tasks
        handed to free, in order. The count is not brought down. */
    method Uninit() returns (r: int, freed: seq<Task>)
      requires Valid()
      modifies this
      ensures old(shutdown) ==> r == -1 && freed == [] && Valid() && Queue == old(Queue)
      ensures !old(shutdown) ==> r == 0 && freed == old(Queue) && queueHead == null && shutdown
    {
      freed := [];
      if shutdown {
        return -1, freed;
      }
      shutdown := true;
      ghost var k := 0;
      while queueHead != null
        invariant k <= |Queue| && freed == Queue[..k]
        invariant queueHead == if k < |Queue| then Queue[k] else null
        invariant shutdown && unchanged(`Queue)
        decreases |Queue| - k
      {
        var header := queueHead;
        queueHead := queueHead.next;
        freed := freed + [header];
        k := k + 1;
      }
      return 0, freed;
    }
  }
}

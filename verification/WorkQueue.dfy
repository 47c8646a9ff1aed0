/**
 The bounded work queue of memory/mem9/embed-service/main.c: a singly linked list with
 head, tail and depth.  Each method is one critical section of the C code.
 */
module WorkQueue {

  const MAX_QUEUE_DEPTH := 32

  type Fd = int

  // What the critical sections do to the queue, seen as a sequence

  predicate Admits(queue: seq<Fd>, gotMemory: bool) {
    gotMemory && |queue| < MAX_QUEUE_DEPTH
  }

  function AfterPush(queue: seq<Fd>, fd: Fd, gotMemory: bool): seq<Fd> {
    if Admits(queue, gotMemory) then queue + [fd] else queue
  }

  /** What queue_pop finds when it holds the mutex. */
  datatype Verdict = Wait | Exit | Take(fd: Fd)

  function PopVerdict(queue: seq<Fd>, shutdown: bool): Verdict {
    if queue != [] then Take(queue[0])
    else if shutdown then Exit
    else Wait
  }

  function AfterPop(queue: seq<Fd>): seq<Fd> {
    if queue == [] then [] else queue[1..]
  }

  class WorkItem {
    const clientFd: Fd
    var next: WorkItem?

    constructor (clientFd: Fd)
      ensures this.clientFd == clientFd && next == null
    {
      this.clientFd := clientFd;
      next := null;
    }
  }

  class Queue {
    var head: WorkItem?
    var tail: WorkItem?
    var shutdown: bool
    var depth: int
    ghost var items: seq<WorkItem>

    ghost predicate Valid()
      reads this, items
    {
      && depth == |items| <= MAX_QUEUE_DEPTH
      && (forall i, j | 0 <= i < j < |items| :: items[i] != items[j])
      && (items == [] ==> head == null && tail == null)
      && (items != [] ==> head == items[0] && tail == items[|items| - 1] && items[|items| - 1].next == null)
      && (forall i | 0 <= i < |items| - 1 :: items[i].next == items[i + 1])
    }

    ghost function Contents(): seq<Fd>
      reads this
    {
      seq(|items|, i requires 0 <= i < |items| reads this => items[i].clientFd)
    }

    constructor Init()
      ensures Valid() && Contents() == [] && !shutdown
    {
      head, tail := null, null;
      shutdown := false;
      depth := 0;
      items := [];
    }

    /** `gotMemory` is whether malloc succeeded. */
    method Push(clientFd: Fd, gotMemory: bool) returns (ok: bool)
      requires Valid()
      modifies this, tail
      ensures Valid() && shutdown == old(shutdown)
      ensures ok == Admits(old(Contents()), gotMemory)
      ensures ok <==> gotMemory && |old(Contents())| < 32
      ensures Contents() == AfterPush(old(Contents()), clientFd, gotMemory)
    {
      if !gotMemory {
        return false;
      }
      var item := new WorkItem(clientFd);
      if depth >= MAX_QUEUE_DEPTH {
        return false;
      }
      if tail != null {
        tail.next := item;
        tail := item;
      } else {
        head := item;
        tail := item;
      }
      depth := depth + 1;
      items := items + [item];
      assert Contents() == old(Contents()) + [clientFd];
      return true;
    }

    /** One look at the queue under the mutex: on Wait the caller sleeps on the
        condition variable and looks again. */
    method TryPop() returns (v: Verdict)
      requires Valid()
      modifies this
      ensures Valid() && shutdown == old(shutdown)
      ensures v == PopVerdict(old(Contents()), old(shutdown))
      ensures Contents() == AfterPop(old(Contents()))
    {
      if head == null && !shutdown {
        return Wait;
      }
      if shutdown && head == null {
        return Exit;
      }
      var item := head;
      head := item.next;
      if head == null {
        tail := null;
      }
      depth := depth - 1;
      items := items[1..];
      assert Contents() == old(Contents())[1..];
      return Take(item.clientFd);
    }

    method Shutdown()
      requires Valid()
      modifies this`shutdown
      ensures Valid() && shutdown && Contents() == old(Contents())
    {
      shutdown := true;
    }

    /** Closes every connection that is still queued, in order. */
    method Destroy() returns (closed: seq<Fd>)
      requires Valid()
      ensures closed == Contents()
    {
      closed := [];
      var item := head;
      ghost var i := 0;
      while item != null
        invariant 0 <= i <= |items|
        invariant item == (if i < |items| then items[i] else null)
        invariant closed == Contents()[..i]
        decreases |items| - i
      {
        closed := closed + [item.clientFd];
        item := item.next;
        i := i + 1;
      }
    }
  }
}

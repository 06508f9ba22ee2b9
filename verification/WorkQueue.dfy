/** The job queue of src/shared/dns_worker.c: a singly linked list with both ends. Its
    two operations are the critical sections of dns_worker_submit and dns_thread. */
module WorkQueue {
  class Job {
    const fd: int
    var next: Job?

    constructor (fd: int)
      ensures this.fd == fd && next == null
    {
      this.fd, next := fd, null;
    }
  }

  class Queue {
    var head: Job?
    var tail: Job?
    ghost var Jobs: seq<Job>

    /** The links spell out Jobs, and both ends are null together. */
    ghost predicate Valid()
      reads this, Jobs
    {
      && (forall i, j :: 0 <= i < j < |Jobs| ==> Jobs[i] != Jobs[j])
      && (forall i {:trigger Jobs[i].next} :: 0 <= i < |Jobs| - 1 ==> Jobs[i].next == Jobs[i + 1])
      && (if Jobs == [] then head == null && tail == null
          else head == Jobs[0] && tail == Jobs[|Jobs| - 1] && tail.next == null)
    }

    constructor ()
      ensures Valid() && Jobs == []
    {
      head, tail, Jobs := null, null, [];
    }

    method Submit(job: Job)
      requires Valid() && job !in Jobs && job.next == null
      modifies this, Jobs
      ensures Valid() && Jobs == old(Jobs) + [job]
    {
      if tail != null {
        tail.next := job;
      } else {
        head := job;
      }
      tail := job;
      Jobs := Jobs + [job];
    }

    method Take() returns (job: Job?)
      requires Valid()
      modifies this
      ensures Valid()
      ensures old(Jobs) == [] <==> job == null
      ensures if job == null then Jobs == [] else [job] + Jobs == old(Jobs)
    {
      job := head;
      if job != null {
        head := job.next;
        if head == null {
          tail := null;
        }
        Jobs := Jobs[1..];
      }
    }
  }
}

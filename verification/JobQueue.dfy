/** The thread pool's linked job queue: what `jobqueue_push` and `jobqueue_pull` do while they hold
    the queue lock. */
module JobQueue {

  class Job<A> {
    /** Despite its name, the next job towards the rear. */
    var prev: Job?<A>
    const work: A

    constructor (work: A)
      ensures this.work == work && prev == null
    {
      this.work := work;
      prev := null;
    }
  }

  class JobQueue<A> {
    var front: Job?<A>
    var rear: Job?<A>
    var len: nat

    /** The queued jobs, front first. */
    ghost var jobs: seq<Job<A>>

    ghost predicate Valid()
      reads this, jobs
    {
      && len == |jobs|
      && (forall i, j :: 0 <= i < j < |jobs| ==> jobs[i] != jobs[j])
      && (len == 0 ==> front == null && rear == null)
      && (len > 0 ==> front == jobs[0] && rear == jobs[len - 1] && jobs[len - 1].prev == null)
      && (forall i :: 0 <= i < len - 1 ==> jobs[i].prev == jobs[i + 1])
    }

    constructor ()
      ensures Valid() && jobs == []
    {
      front, rear, len, jobs := null, null, 0, [];
    }

    /** Links a job behind the rear. */
    method Push(job: Job<A>)
      requires Valid() && job !in jobs
      modifies this, rear, job
      ensures Valid() && jobs == old(jobs) + [job]
    {
      job.prev := null;
      match len {
        case 0 =>
          front := job;
          rear := job;
        case _ =>
          rear.prev := job;
          rear := job;
      }
      len := len + 1;
      jobs := jobs + [job];
    }

    /** Unlinks the front job, if any; `post` says that more jobs remain and the semaphore is posted. */
    method Pull() returns (job: Job?<A>, post: bool)
      requires Valid()
      modifies this
      ensures Valid()
      ensures old(jobs) == [] ==> job == null && jobs == []
      ensures old(jobs) != [] ==> job == old(jobs)[0] && jobs == old(jobs)[1..]
      ensures post <==> jobs != []
    {
      job := front;
      post := false;
      match len {
        case 0 =>
        case 1 =>
          front := null;
          rear := null;
          len := 0;
          jobs := [];
        case _ =>
          front := job.prev;
          len := len - 1;
          jobs := jobs[1..];
          post := true;
      }
    }

    /** Discards every job. */
    method Clear()
      requires Valid()
      modifies this
      ensures Valid() && jobs == []
    {
      while len > 0
        invariant Valid()
        decreases len
      {
        var _, _ := Pull();
      }
      front := null;
      rear := null;
      len := 0;
    }
  }
}

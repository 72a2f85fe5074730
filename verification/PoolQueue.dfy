/** The linked job queue performs the queue steps of the thread pool's state machine. */
module PoolQueue {
  import opened Wrappers
  import JQ = JobQueue
  import opened ThreadPool

  /** The jobs' numbers, front first. */
  ghost function Numbers(jobs: seq<JQ.Job<nat>>): seq<nat> {
    seq(|jobs|, i requires 0 <= i < |jobs| => jobs[i].work)
  }

  /** `thpool_add_work` up to the post: the step `PushLink`. */
  method PushStep(q: JQ.JobQueue<nat>, ghost s: Pool, number: nat)
    requires q.Valid() && Numbers(q.jobs) == s.queue && Enabled(s, PushLink) && number == s.pushed
    modifies q, q.rear
    ensures q.Valid() && Numbers(q.jobs) == Apply(s, PushLink).queue
  {
    var job := new JQ.Job(number);
    q.Push(job);
  }

  /** `jobqueue_pull` up to the post: the step `PullJob`, which goes on to post iff jobs remain. */
  method PullStep(q: JQ.JobQueue<nat>, ghost s: Pool, ghost t: nat) returns (job: JQ.Job?<nat>, post: bool)
    requires q.Valid() && Numbers(q.jobs) == s.queue && Enabled(s, PullJob(t))
    modifies q
    ensures q.Valid() && Numbers(q.jobs) == Apply(s, PullJob(t)).queue
    ensures Apply(s, PullJob(t)).workers[t] ==
              if job == null then Running(None) else if post then Posting(job.work) else Running(Some(job.work))
    ensures job != null ==> Apply(s, PullJob(t)).pulled == s.pulled + [job.work]
  {
    job, post := q.Pull();
  }
}

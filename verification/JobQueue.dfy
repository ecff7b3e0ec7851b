/** The job queue of util/thread_pool.c: a list linked from front to rear. */
module JobQueues {

  class Job {
    const work: int
    var prev: Job?

    constructor (work: int)
      ensures this.work == work
    {
      this.work := work;
      prev := null;
    }
  }

  class JobQueue {
    var front: Job?
    var rear: Job?
    var len: nat
    /** `has_jobs->v`, the value of the binary semaphore. */
    var hasJobs: bool
    ghost var jobs: seq<Job>

    ghost predicate Valid()
      reads this, jobs
    {
      && len == |jobs|
      && (forall i, j :: 0 <= i < j < |jobs| ==> jobs[i] != jobs[j])
      && (if jobs == [] then front == null else front == jobs[0] && rear == jobs[|jobs| - 1] && rear.prev == null)
      && (forall i :: 0 <= i < |jobs| - 1 ==> jobs[i].prev == jobs[i + 1])
    }

    constructor ()
      ensures Valid() && jobs == [] && !hasJobs
    {
      front, rear, len, hasJobs := null, null, 0, false;
      jobs := [];
    }

    /** jobqueue_push: the job goes to the rear and the semaphore is posted. */
    method Push(job: Job)
      requires Valid() && job !in jobs
      modifies this, job, rear
      ensures Valid() && jobs == old(jobs) + [job] && hasJobs
    {
      job.prev := null;
      if len == 0 {
        front := job;
        rear := job;
      } else {
        rear.prev := job;
        rear := job;
      }
      len := len + 1;
      jobs := jobs + [job];
      hasJobs := true;
    }

    /** jobqueue_pull: the job at the front, or NULL; the semaphore is posted
        again when more jobs remain. */
    method Pull() returns (job: Job?)
      requires Valid()
      modifies this
      ensures Valid()
      ensures old(jobs) == [] ==> job == null && jobs == []
      ensures old(jobs) != [] ==> job == old(jobs)[0] && jobs == old(jobs)[1..]
      ensures hasJobs == (old(hasJobs) || jobs != [])
    {
      job := front;
      if len == 0 {
      } else if len == 1 {
        front, rear := null, null;
        len := 0;
        jobs := [];
      } else {
        front := job.prev;
        len := len - 1;
        jobs := jobs[1..];
        hasJobs := true;
      }
    }

    /** jobqueue_clear, called when every thread is gone. */
    method Clear()
      requires Valid()
      modifies this
      ensures Valid() && jobs == [] && !hasJobs && front == null && rear == null
    {
      while len != 0
        invariant Valid()
        decreases len
      {
        var job := Pull();
      }
      front, rear := null, null;
      hasJobs := false;
      len := 0;
    }
  }
}

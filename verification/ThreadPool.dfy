/** The thread pool of util/thread_pool.c as a transition system: any number of
    workers, of threads that add work and of callers of thpool_wait, one step for
    every stretch of code that the locks make atomic. A critical section that
    posts the semaphore in its middle is two steps, so that threads which do not
    take its lock can be seen in between. */
module ThreadPools {
  import opened Basics

  /** `ticket` tells jobs apart, as their addresses do. */
  datatype Job = Job(ticket: nat, work: int)

  /** Where a worker stands in thread_do. */
  datatype Worker =
    | Top                        // about to test threads_keepalive
    | AtSem                      // about to look at the semaphore's value
    | Asleep                     // in pthread_cond_wait of bsem_wait
    | Passed                     // about to test threads_keepalive again
    | Entering                   // about to count itself as working
    | Pulling                    // about to pull a job
    | Posting(job: Job)          // has pulled; holds rwmutex, about to post
    | Running(next: Option<Job>) // has the job, or none
    | Leaving                    // about to count itself out
    | Exiting                    // about to leave the pool
    | Gone

  /** Where a caller stands in thpool_wait. */
  datatype Waiter =
    | Outside
    | AtLock       // about to take thcount_lock, on entry or when woken
    | AtLen        // holds it, about to read len
    | AtWorking    // holds it, has read 0, about to read num_threads_working
    | Dozing       // holds it, about to wait on the condition
    | Sleeping
    | Returned

  datatype Owner = Free | Pusher | Puller(w: nat)

  datatype State = State(
    keepalive: bool,
    queue: seq<Job>,
    sem: bool,
    rwmutex: Owner,
    working: int,
    alive: int,
    thcount: Option<nat>,
    workers: seq<Worker>,
    waiters: seq<Waiter>,
    pushed: seq<Job>,     // history: all jobs ever added, in order
    executed: set<nat>)   // history: tickets of the jobs whose function returned

  /** thpool_init returns when all its threads are alive. */
  predicate Init(s: State) {
    && s.keepalive && s.queue == [] && !s.sem && s.rwmutex == Free
    && s.working == 0 && s.alive == |s.workers| && s.thcount == None
    && (forall w :: 0 <= w < |s.workers| ==> s.workers[w] == Top)
    && (forall c :: 0 <= c < |s.waiters| ==> s.waiters[c] == Outside)
    && s.pushed == [] && s.executed == {}
  }

  datatype Step =
    | Push(work: int)                          // jobqueue_push up to the post
    | PushPost(woken: Option<nat>)             // the post and the unlock
    | TestTop(w: nat)
    | SemTake(w: nat)
    | SemSleep(w: nat)
    | SemWake(w: nat)                          // spurious
    | TestAgain(w: nat)
    | Enter(w: nat)
    | Pull(w: nat)
    | PullPost(w: nat, woken: Option<nat>)
    | Execute(w: nat)
    | Leave(w: nat, caller: Option<nat>)
    | Exit(w: nat)
    | Call(c: nat)
    | Lock(c: nat)
    | ReadLen(c: nat)
    | ReadWorking(c: nat)
    | Doze(c: nat)
    | CallerWake(c: nat)                       // spurious
    | Destroy                                  // threads_keepalive = 0
    | PostAll                                  // bsem_post_all

  predicate At(s: State, w: nat, pc: Worker) {
    w < |s.workers| && s.workers[w] == pc
  }

  predicate CallerAt(s: State, c: nat, pc: Waiter) {
    c < |s.waiters| && s.waiters[c] == pc
  }

  /** pthread_cond_signal wakes a sleeper if there is one. */
  predicate Signals(s: State, woken: Option<nat>) {
    match woken
    case Some(w) => At(s, w, Asleep)
    case None => forall w :: 0 <= w < |s.workers| ==> s.workers[w] != Asleep
  }

  predicate SignalsCaller(s: State, woken: Option<nat>) {
    match woken
    case Some(c) => CallerAt(s, c, Sleeping)
    case None => forall c :: 0 <= c < |s.waiters| ==> s.waiters[c] != Sleeping
  }

  predicate Enabled(s: State, step: Step) {
    match step
    case Push(_) => s.rwmutex == Free
    case PushPost(woken) => s.rwmutex == Pusher && Signals(s, woken)
    case TestTop(w) => At(s, w, Top)
    case SemTake(w) => At(s, w, AtSem) && s.sem
    case SemSleep(w) => At(s, w, AtSem) && !s.sem
    case SemWake(w) => At(s, w, Asleep)
    case TestAgain(w) => At(s, w, Passed)
    case Enter(w) => At(s, w, Entering) && s.thcount == None
    case Pull(w) => At(s, w, Pulling) && s.rwmutex == Free
    case PullPost(w, woken) => w < |s.workers| && s.workers[w].Posting? && Signals(s, woken)
    case Execute(w) => w < |s.workers| && s.workers[w].Running?
    case Leave(w, caller) =>
      && At(s, w, Leaving) && s.thcount == None
      && (if s.working == 1 then SignalsCaller(s, caller) else caller == None)
    case Exit(w) => At(s, w, Exiting) && s.thcount == None
    case Call(c) => CallerAt(s, c, Outside) || CallerAt(s, c, Returned)
    case Lock(c) => CallerAt(s, c, AtLock) && s.thcount == None
    case ReadLen(c) => CallerAt(s, c, AtLen)
    case ReadWorking(c) => CallerAt(s, c, AtWorking)
    case Doze(c) => CallerAt(s, c, Dozing)
    case CallerWake(c) => CallerAt(s, c, Sleeping)
    case Destroy => true
    case PostAll => !s.keepalive
  }

  function Move(s: State, w: nat, pc: Worker): (r: State)
    requires w < |s.workers|
  {
    s.(workers := s.workers[w := pc])
  }

  function MoveCaller(s: State, c: nat, pc: Waiter): (r: State)
    requires c < |s.waiters|
  {
    s.(waiters := s.waiters[c := pc])
  }

  function Post(s: State, woken: Option<nat>): (r: State)
    requires Signals(s, woken)
  {
    var s1 := s.(sem := true);
    match woken
    case None => s1
    case Some(w) => Move(s1, w, AtSem)
  }

  function Wake(ws: seq<Worker>): (r: seq<Worker>)
    ensures |r| == |ws|
    ensures forall w :: 0 <= w < |ws| ==> r[w] == if ws[w] == Asleep then AtSem else ws[w]
  {
    if ws == [] then [] else [if ws[0] == Asleep then AtSem else ws[0]] + Wake(ws[1..])
  }

  function Apply(s: State, step: Step): (r: State)
    requires Enabled(s, step)
  {
    match step
    case Push(work) =>
      var job := Job(|s.pushed|, work);
      s.(queue := s.queue + [job], pushed := s.pushed + [job], rwmutex := Pusher)
    case PushPost(woken) => Post(s, woken).(rwmutex := Free)
    case TestTop(w) => Move(s, w, if s.keepalive then AtSem else Exiting)
    case SemTake(w) => Move(s, w, Passed).(sem := false)
    case SemSleep(w) => Move(s, w, Asleep)
    case SemWake(w) => Move(s, w, AtSem)
    case TestAgain(w) => Move(s, w, if s.keepalive then Entering else Top)
    case Enter(w) => Move(s, w, Pulling).(working := s.working + 1)
    case Pull(w) =>
      if s.queue == [] then Move(s, w, Running(None))
      else if |s.queue| == 1 then Move(s, w, Running(Some(s.queue[0]))).(queue := [])
      else Move(s, w, Posting(s.queue[0])).(queue := s.queue[1..], rwmutex := Puller(w))
    case PullPost(w, woken) =>
      var job := s.workers[w].job;
      Move(Post(s, woken), w, Running(Some(job))).(rwmutex := Free)
    case Execute(w) =>
      var next := s.workers[w].next;
      Move(s, w, Leaving).(executed := s.executed + (match next case None => {} case Some(job) => {job.ticket}))
    case Leave(w, caller) =>
      var s1 := Move(s, w, Top).(working := s.working - 1);
      (match caller case None => s1 case Some(c) => MoveCaller(s1, c, AtLock))
    case Exit(w) => Move(s, w, Gone).(alive := s.alive - 1)
    case Call(c) => MoveCaller(s, c, AtLock)
    case Lock(c) => MoveCaller(s, c, AtLen).(thcount := Some(c))
    case ReadLen(c) => MoveCaller(s, c, if s.queue != [] then Dozing else AtWorking)
    case ReadWorking(c) =>
      if s.working != 0 then MoveCaller(s, c, Dozing) else MoveCaller(s, c, Returned).(thcount := None)
    case Doze(c) => MoveCaller(s, c, Sleeping).(thcount := None)
    case CallerWake(c) => MoveCaller(s, c, AtLock)
    case Destroy => s.(keepalive := false)
    case PostAll => s.(sem := true, workers := Wake(s.workers))
  }

  // -------------------------------------------------------------- runs

  /** A run from s: each step is enabled where it is taken. */
  predicate IsRun(s: State, steps: seq<Step>)
    decreases |steps|, 0
  {
    steps == [] || (IsRun(s, steps[..|steps| - 1]) && Enabled(After(s, steps[..|steps| - 1]), steps[|steps| - 1]))
  }

  function After(s: State, steps: seq<Step>): (r: State)
    requires IsRun(s, steps)
    decreases |steps|, 1
  {
    if steps == [] then s
    else Apply(After(s, steps[..|steps| - 1]), steps[|steps| - 1])
  }

  ghost predicate ReachableFrom(s0: State, s: State) {
    exists steps :: IsRun(s0, steps) && After(s0, steps) == s
  }

  ghost predicate Reachable(s: State) {
    exists s0 :: Init(s0) && ReachableFrom(s0, s)
  }

  lemma {:induction false} PrefixIsRun(s: State, steps: seq<Step>, k: nat)
    requires IsRun(s, steps) && k <= |steps|
    ensures IsRun(s, steps[..k])
    ensures k < |steps| ==> Enabled(After(s, steps[..k]), steps[k])
                            && IsRun(s, steps[..k + 1])
                            && After(s, steps[..k + 1]) == Apply(After(s, steps[..k]), steps[k])
  {
    if k == |steps| {
      assert steps[..k] == steps;
    } else if k == |steps| - 1 {
      assert steps[..k + 1] == steps;
    } else {
      var shorter := steps[..|steps| - 1];
      PrefixIsRun(s, shorter, k);
      assert shorter[..k] == steps[..k] && shorter[..k + 1] == steps[..k + 1];
    }
  }

  // -------------------------------------------------------------- the semaphore

  /** How many workers are past bsem_wait that were not. */
  function Newly(ws: seq<Worker>, ws': seq<Worker>): (k: nat) {
    if ws == [] || ws' == [] then 0 else (if ws[0] != Passed && ws'[0] == Passed then 1 else 0) + Newly(ws[1..], ws'[1..])
  }

  lemma {:induction false} NewlyNone(ws: seq<Worker>, ws': seq<Worker>)
    requires |ws| == |ws'| && forall w :: 0 <= w < |ws| && ws'[w] == Passed ==> ws[w] == Passed
    ensures Newly(ws, ws') == 0
  {
    if ws != [] {
      assert forall w :: 0 <= w < |ws| - 1 ==> ws'[1..][w] == ws'[w + 1] && ws[1..][w] == ws[w + 1];
      NewlyNone(ws[1..], ws'[1..]);
    }
  }

  lemma {:induction false} NewlyOne(ws: seq<Worker>, w: nat)
    requires w < |ws| && ws[w] != Passed
    ensures Newly(ws, ws[w := Passed]) == 1
  {
    if w == 0 {
      assert ws[w := Passed][1..] == ws[1..];
      NewlyNone(ws[1..], ws[1..]);
    } else {
      NewlyOne(ws[1..], w - 1);
      assert ws[w := Passed][1..] == ws[1..][w - 1 := Passed];
    }
  }

  predicate IsPost(step: Step) {
    step.PushPost? || step.PullPost? || step.PostAll?
  }

  function Posted(steps: seq<Step>): (k: nat) {
    if steps == [] then 0 else Posted(steps[..|steps| - 1]) + if IsPost(steps[|steps| - 1]) then 1 else 0
  }

  /** How often a worker got past bsem_wait in this run. */
  function Passes(s: State, steps: seq<Step>): (k: nat)
    requires IsRun(s, steps)
  {
    if steps == [] then 0
    else Passes(s, steps[..|steps| - 1]) + Newly(After(s, steps[..|steps| - 1]).workers, After(s, steps).workers)
  }

  function Value(sem: bool): (k: nat) {
    if sem then 1 else 0
  }

  lemma OnlySemTake(s: State, step: Step)
    requires Enabled(s, step) && !step.SemTake?
    ensures var ws := Apply(s, step).workers;
      |ws| == |s.workers| && forall w :: 0 <= w < |ws| && ws[w] == Passed ==> s.workers[w] == Passed
  {
  }

  lemma PassTakesPost(s: State, step: Step)
    requires Enabled(s, step)
    ensures var s' := Apply(s, step);
      if IsPost(step) then s'.sem && Newly(s.workers, s'.workers) == 0
      else Newly(s.workers, s'.workers) + Value(s'.sem) == Value(s.sem)
  {
    hide Newly;
    if step.SemTake? {
      NewlyOne(s.workers, step.w);
    } else {
      OnlySemTake(s, step);
      NewlyNone(s.workers, Apply(s, step).workers);
    }
  }

  /** The semaphore lets through no more workers than it was posted, whatever wakes
      them: each one that gets past it takes a post that no other has taken. And a post
      that none has taken is kept. */
  lemma {:induction false} PassesArePosted(s: State, steps: seq<Step>)
    requires IsRun(s, steps)
    ensures Passes(s, steps) + Value(After(s, steps).sem) <= Posted(steps) + Value(s.sem)
    ensures Posted(steps) == 0 ==> Passes(s, steps) + Value(After(s, steps).sem) == Value(s.sem)
    ensures steps != [] && IsPost(steps[|steps| - 1]) ==> After(s, steps).sem
  {
    if steps != [] {
      hide Apply, Enabled, Newly;
      PassesArePosted(s, steps[..|steps| - 1]);
      PassTakesPost(After(s, steps[..|steps| - 1]), steps[|steps| - 1]);
    }
  }

  // -------------------------------------------------------------- counters

  /** Between the increment and the decrement of num_threads_working. */
  predicate Active(pc: Worker) {
    pc.Pulling? || pc.Posting? || pc.Running? || pc.Leaving?
  }

  function CountActive(ws: seq<Worker>): (r: nat) {
    if ws == [] then 0 else (if Active(ws[0]) then 1 else 0) + CountActive(ws[1..])
  }

  function CountAlive(ws: seq<Worker>): (r: nat) {
    if ws == [] then 0 else (if ws[0] != Gone then 1 else 0) + CountAlive(ws[1..])
  }

  lemma {:induction false} CountsMove(ws: seq<Worker>, w: nat, pc: Worker)
    requires w < |ws|
    ensures CountActive(ws[w := pc])
            == CountActive(ws) - (if Active(ws[w]) then 1 else 0) + (if Active(pc) then 1 else 0)
    ensures CountAlive(ws[w := pc])
            == CountAlive(ws) - (if ws[w] != Gone then 1 else 0) + (if pc != Gone then 1 else 0)
  {
    if w == 0 {
      assert ws[w := pc][1..] == ws[1..];
    } else {
      CountsMove(ws[1..], w - 1, pc);
      assert ws[w := pc][1..] == ws[1..][w - 1 := pc];
    }
  }

  lemma {:induction false} CountsWake(ws: seq<Worker>)
    ensures CountActive(Wake(ws)) == CountActive(ws) && CountAlive(Wake(ws)) == CountAlive(ws)
  {
    if ws != [] {
      CountsWake(ws[1..]);
      assert Wake(ws)[1..] == Wake(ws[1..]);
    }
  }

  lemma {:induction false} ActivePositive(ws: seq<Worker>, w: nat)
    requires w < |ws| && Active(ws[w])
    ensures CountActive(ws) > 0
  {
    if w > 0 { ActivePositive(ws[1..], w - 1); }
  }

  lemma {:induction false} CountsInit(ws: seq<Worker>)
    requires forall w :: 0 <= w < |ws| ==> ws[w] == Top
    ensures CountActive(ws) == 0 && CountAlive(ws) == |ws|
  {
    if ws != [] { CountsInit(ws[1..]); }
  }

  lemma {:induction false} SomeActive(ws: seq<Worker>) returns (w: nat)
    requires CountActive(ws) > 0
    ensures w < |ws| && Active(ws[w])
  {
    if Active(ws[0]) { w := 0; } else { w := SomeActive(ws[1..]); w := w + 1; }
  }

  /** `working` counts the workers between increment and decrement, `alive` those
      that have not left. */
  predicate Counted(s: State) {
    s.working == CountActive(s.workers) && s.alive == CountAlive(s.workers)
  }

  lemma CountedMove(s: State, w: nat, pc: Worker)
    requires Counted(s) && w < |s.workers|
    ensures var s' := Move(s, w, pc);
      CountActive(s'.workers) == s.working - (if Active(s.workers[w]) then 1 else 0) + (if Active(pc) then 1 else 0)
      && CountAlive(s'.workers) == s.alive - (if s.workers[w] != Gone then 1 else 0) + (if pc != Gone then 1 else 0)
  {
    CountsMove(s.workers, w, pc);
  }

  lemma CountedPost(s: State, woken: Option<nat>)
    requires Counted(s) && Signals(s, woken)
    ensures Counted(Post(s, woken))
  {
    if woken.Some? { CountedMove(s, woken.value, AtSem); }
  }

  lemma CountedWorker(s: State, step: Step)
    requires Counted(s) && Enabled(s, step) && Stepping(step).Some?
    ensures Counted(Apply(s, step))
  {
    hide CountActive, CountAlive;
    var w := Stepping(step).value;
    CountedMove(s, w, Apply(s, step).workers[w]);
  }

  lemma CountedOther(s: State, step: Step)
    requires Counted(s) && Enabled(s, step) && Stepping(step).None?
    ensures Counted(Apply(s, step))
  {
    hide CountActive, CountAlive;
    if step.PushPost? {
      CountedPost(s, step.woken);
    } else if step.PullPost? {
      CountedPost(s, step.woken);
      CountedMove(Post(s, step.woken), step.w, Running(Some(s.workers[step.w].job)));
    } else if step.PostAll? {
      CountsWake(s.workers);
    }
  }

  lemma CountedStep(s: State, step: Step)
    requires Counted(s) && Enabled(s, step)
    ensures Counted(Apply(s, step))
  {
    hide Counted, Apply, Enabled;
    if Stepping(step).Some? { CountedWorker(s, step); } else { CountedOther(s, step); }
  }

  /** The worker that takes the step, where it changes no other. */
  function Stepping(step: Step): (r: Option<nat>) {
    match step
    case TestTop(w) => Some(w)
    case SemTake(w) => Some(w)
    case SemSleep(w) => Some(w)
    case SemWake(w) => Some(w)
    case TestAgain(w) => Some(w)
    case Enter(w) => Some(w)
    case Pull(w) => Some(w)
    case Execute(w) => Some(w)
    case Leave(w, _) => Some(w)
    case Exit(w) => Some(w)
    case _ => None
  }

  // -------------------------------------------------------------- locks

  predicate HoldsCount(pc: Waiter) {
    pc == AtLen || pc == AtWorking || pc == Dozing
  }

  /** Each lock is held by the one thread whose program point says so. */
  ghost predicate QueueLocked(s: State) {
    && (forall w :: 0 <= w < |s.workers| ==> (s.workers[w].Posting? <==> s.rwmutex == Puller(w)))
    && (s.rwmutex.Puller? ==> s.rwmutex.w < |s.workers|)
  }

  ghost predicate CountLocked(s: State) {
    && (forall c :: 0 <= c < |s.waiters| ==> (HoldsCount(s.waiters[c]) <==> s.thcount == Some(c)))
    && (s.thcount.Some? ==> s.thcount.value < |s.waiters|)
  }

  lemma QueueLockedMove(s: State, step: Step)
    requires QueueLocked(s) && Enabled(s, step) && Stepping(step).Some?
    ensures QueueLocked(Apply(s, step))
  {
  }

  lemma QueueLockedStep(s: State, step: Step)
    requires QueueLocked(s) && Enabled(s, step)
    ensures QueueLocked(Apply(s, step))
  {
    if Stepping(step).Some? {
      hide QueueLocked, Apply, Enabled;
      QueueLockedMove(s, step);
    }
  }

  /** A step of a caller of thpool_wait. */
  function Calling(step: Step): (r: Option<nat>) {
    match step
    case Call(c) => Some(c)
    case Lock(c) => Some(c)
    case ReadLen(c) => Some(c)
    case ReadWorking(c) => Some(c)
    case Doze(c) => Some(c)
    case CallerWake(c) => Some(c)
    case _ => None
  }

  lemma CountLockedCall(s: State, step: Step)
    requires CountLocked(s) && Enabled(s, step) && Calling(step).Some?
    ensures CountLocked(Apply(s, step))
  {
  }

  lemma CountLockedStep(s: State, step: Step)
    requires CountLocked(s) && Enabled(s, step)
    ensures CountLocked(Apply(s, step))
  {
    if Calling(step).Some? {
      hide CountLocked, Apply, Enabled;
      CountLockedCall(s, step);
    } else if step.Leave? {
    } else {
      OthersKeepCallers(s, step);
    }
  }

  lemma OthersKeepCallers(s: State, step: Step)
    requires Enabled(s, step) && Calling(step).None? && !step.Leave?
    ensures Apply(s, step).waiters == s.waiters && Apply(s, step).thcount == s.thcount
  {
  }

  // -------------------------------------------------------------- jobs

  /** The job in a worker's hands. */
  function Held(pc: Worker): (r: Option<Job>) {
    match pc
    case Posting(job) => Some(job)
    case Running(next) => next
    case _ => None
  }

  function Taken(s: State): (r: int) {
    |s.pushed| - |s.queue|
  }

  predicate Holds(s: State, w: nat, t: nat) {
    w < |s.workers| && Held(s.workers[w]).Some? && Held(s.workers[w]).value.ticket == t
  }

  /** First in, first out, and nothing lost or done twice: the queue is what has
      been pushed and not pulled; the jobs pulled are those executed together with
      those in a worker's hands, each in one place only. */
  ghost predicate Conserved(s: State) {
    && Taken(s) >= 0
    && s.queue == s.pushed[Taken(s)..]
    && (forall t :: 0 <= t < |s.pushed| ==> s.pushed[t].ticket == t)
    && (forall w :: 0 <= w < |s.workers| && Held(s.workers[w]).Some? ==>
          var job := Held(s.workers[w]).value;
          job.ticket < Taken(s) && s.pushed[job.ticket] == job && job.ticket !in s.executed)
    && (forall w, x, t :: Holds(s, w, t) && Holds(s, x, t) ==> w == x)
    && (forall t <- s.executed :: t < Taken(s))
    && (forall t: nat :: t < Taken(s) ==> t in s.executed || exists w :: Holds(s, w, t))
  }

  lemma PullIs(s: State, w: nat)
    requires Enabled(s, Pull(w)) && s.queue != []
    ensures var s' := Apply(s, Pull(w));
      && w < |s.workers| && Held(s.workers[w]).None? && |s'.workers| == |s.workers|
      && Held(s'.workers[w]) == Some(s.queue[0])
      && (forall x :: 0 <= x < |s.workers| && x != w ==> s'.workers[x] == s.workers[x])
      && s'.queue == s.queue[1..] && s'.pushed == s.pushed && s'.executed == s.executed
  {
  }

  lemma ConservedPull(s: State, w: nat)
    requires Conserved(s) && Enabled(s, Pull(w)) && s.queue != []
    ensures Conserved(Apply(s, Pull(w)))
  {
    var s' := Apply(s, Pull(w));
    var job := s.queue[0];
    PullIs(s, w);
    hide Apply, Enabled;
    assert job == s.pushed[Taken(s)];
    assert s'.queue == s.pushed[Taken(s')..];
    assert Holds(s', w, job.ticket);
    forall x, t | x != w ensures Holds(s', x, t) <==> Holds(s, x, t) {
    }
    forall t: nat | t < Taken(s') && t !in s'.executed ensures exists x :: Holds(s', x, t) {
      if t < Taken(s) {
        var x :| Holds(s, x, t);
        assert Holds(s', x, t);
      }
    }
  }

  /** Steps that leave the queue, the history and every worker's hands alone. */
  lemma SameHands(s: State, s': State)
    requires Conserved(s) && SameHeld(s, s')
    requires s'.queue == s.queue && s'.pushed == s.pushed && s'.executed == s.executed
    ensures Conserved(s')
  {
    assert forall w, t :: Holds(s', w, t) <==> Holds(s, w, t);
  }

  lemma ConservedExecute(s: State, w: nat)
    requires Conserved(s) && Enabled(s, Execute(w))
    ensures Conserved(Apply(s, Execute(w)))
  {
    var s' := Apply(s, Execute(w));
    forall t: nat | t < Taken(s') && t !in s'.executed ensures exists x :: Holds(s', x, t) {
      var x :| Holds(s, x, t);
      assert x == w ==> t in s'.executed;
      assert Holds(s', x, t);
    }
    forall x, t | Holds(s', x, t) ensures Holds(s, x, t) && x != w {
    }
    forall x | 0 <= x < |s.workers| && Held(s.workers[x]).Some?
      ensures Holds(s, x, Held(s.workers[x]).value.ticket)
    {
    }
  }

  lemma ConservedPush(s: State, work: int)
    requires Conserved(s) && Enabled(s, Push(work))
    ensures Conserved(Apply(s, Push(work)))
  {
    var s' := Apply(s, Push(work));
    assert Taken(s') == Taken(s);
    assert s'.queue == s'.pushed[Taken(s')..];
    assert forall w, t :: Holds(s', w, t) <==> Holds(s, w, t);
  }

  predicate SameHeld(s: State, s': State) {
    |s'.workers| == |s.workers| && forall w :: 0 <= w < |s.workers| ==> Held(s'.workers[w]) == Held(s.workers[w])
  }

  lemma HandsStayMove(s: State, step: Step)
    requires Enabled(s, step) && Stepping(step).Some? && !step.Execute? && (step.Pull? ==> s.queue == [])
    ensures SameHeld(s, Apply(s, step))
  {
  }

  lemma HandsStayPost(s: State, step: Step)
    requires Enabled(s, step) && Stepping(step).None?
    ensures SameHeld(s, Apply(s, step))
  {
  }

  lemma HandsStay(s: State, step: Step)
    requires Enabled(s, step) && !step.Push? && !step.Execute? && (step.Pull? ==> s.queue == [])
    ensures var s' := Apply(s, step);
      SameHeld(s, s') && s'.queue == s.queue && s'.pushed == s.pushed && s'.executed == s.executed
  {
    hide SameHeld;
    if Stepping(step).Some? { HandsStayMove(s, step); } else { HandsStayPost(s, step); }
  }

  lemma ConservedStep(s: State, step: Step)
    requires Conserved(s) && Enabled(s, step)
    ensures Conserved(Apply(s, step))
  {
    hide Conserved, Apply, Enabled;
    if step.Push? {
      ConservedPush(s, step.work);
    } else if step.Pull? && s.queue != [] {
      ConservedPull(s, step.w);
    } else if step.Execute? {
      ConservedExecute(s, step.w);
    } else {
      HandsStay(s, step);
      SameHands(s, Apply(s, step));
    }
  }

  /** A job that a worker is about to execute has not been executed before. */
  lemma NeverTwice(s: State, w: nat)
    requires Reachable(s) && Enabled(s, Execute(w)) && s.workers[w].next.Some?
    ensures s.workers[w].next.value.ticket !in s.executed
    ensures s.workers[w].next.value in s.pushed
  {
    ReachableInv(s);
  }

  // -------------------------------------------------------------- wake-ups

  /** Past the semaphore, and not pulled yet. */
  predicate OnTheWay(pc: Worker) {
    pc == Passed || pc == Entering || pc == Pulling
  }

  ghost predicate SomeoneOnTheWay(s: State) {
    exists w :: 0 <= w < |s.workers| && OnTheWay(s.workers[w])
  }

  /** No wake-up is lost: while there are jobs, the semaphore is up, or about to
      be posted by the holder of rwmutex, or some worker is on its way to pull. */
  ghost predicate NoLostWakeup(s: State) {
    && (s.keepalive && s.queue != [] ==> s.sem || s.rwmutex != Free || SomeoneOnTheWay(s))
    && (s.keepalive && s.sem && s.workers != [] ==> exists w :: 0 <= w < |s.workers| && s.workers[w] != Asleep)
    && (s.keepalive ==> forall w :: 0 <= w < |s.workers| ==> s.workers[w] != Exiting && s.workers[w] != Gone)
  }

  lemma NoLostWakeupStep(s: State, step: Step)
    requires NoLostWakeup(s) && Enabled(s, step)
    ensures NoLostWakeup(Apply(s, step))
  {
    hide Apply, Enabled;
    KeepaliveFalls(s, step);
    SizeStays(s, step);
    var s' := Apply(s, step);
    if s.keepalive && s'.keepalive {
      WorkersStayInside(s, step);
      SemSeesSomeone(s, step);
      if s'.queue != [] { QueueIsServed(s, step); }
    }
  }

  lemma KeepaliveFalls(s: State, step: Step)
    requires Enabled(s, step)
    ensures Apply(s, step).keepalive ==> s.keepalive
  {
  }

  lemma WorkersStayInside(s: State, step: Step)
    requires NoLostWakeup(s) && Enabled(s, step) && s.keepalive && Apply(s, step).keepalive
    ensures forall w :: 0 <= w < |s.workers| ==>
              Apply(s, step).workers[w] != Exiting && Apply(s, step).workers[w] != Gone
  {
  }

  lemma SemSeesSomeone(s: State, step: Step)
    requires NoLostWakeup(s) && Enabled(s, step) && s.keepalive && Apply(s, step).keepalive
    ensures var s' := Apply(s, step);
      s'.sem && s'.workers != [] ==> exists w :: 0 <= w < |s'.workers| && s'.workers[w] != Asleep
  {
    var s' := Apply(s, step);
    if s'.sem && s'.workers != [] {
      if step.PushPost? {
        var w := if step.woken.Some? then step.woken.value else 0;
        assert s'.workers[w] != Asleep;
      } else if step.PullPost? {
        assert s'.workers[step.w] != Asleep;
      } else if Stepping(step).Some? {
        assert s'.workers[Stepping(step).value] != Asleep;
      } else {
        var w :| 0 <= w < |s.workers| && s.workers[w] != Asleep;
        assert s'.workers[w] != Asleep;
      }
    }
  }

  lemma QueueIsServed(s: State, step: Step)
    requires NoLostWakeup(s) && Enabled(s, step) && s.keepalive && Apply(s, step).keepalive
    requires Apply(s, step).queue != []
    ensures var s' := Apply(s, step); s'.sem || s'.rwmutex != Free || SomeoneOnTheWay(s')
  {
    var s' := Apply(s, step);
    if step.SemTake? || step.TestAgain? || step.Enter? {
      assert OnTheWay(s'.workers[Stepping(step).value]);
    } else if !s'.sem && s'.rwmutex == Free {
      assert !s.sem && s.rwmutex == Free && s.queue != [];
      var w :| 0 <= w < |s.workers| && OnTheWay(s.workers[w]);
      assert OnTheWay(s'.workers[w]);
    }
  }

  // -------------------------------------------------------------- thpool_wait

  /** What a caller that goes to sleep, or sleeps, has seen stays true. */
  ghost predicate SleepIsJustified(s: State) {
    forall c :: 0 <= c < |s.waiters| && (s.waiters[c] == Dozing || s.waiters[c] == Sleeping) ==>
                  s.queue != [] || s.working > 0
  }

  ghost predicate DozeIsJustified(s: State) {
    forall c :: 0 <= c < |s.waiters| && s.waiters[c] == Dozing ==> s.queue != [] || s.working > 0
  }

  /** Only pulling shortens the queue, and who pulls is counted as working; only
      leaving lowers the count, and nobody leaves while a caller holds the lock. */
  lemma WorkRemains(s: State, step: Step)
    requires Counted(s) && Enabled(s, step) && !step.Leave? && (s.queue != [] || s.working > 0)
    ensures Apply(s, step).queue != [] || Apply(s, step).working > 0
  {
    hide CountActive, CountAlive;
    if step.Pull? { ActivePositive(s.workers, step.w); }
  }

  lemma SleepersCall(s: State, step: Step)
    requires Enabled(s, step) && Calling(step).Some? && s.working >= 0
    ensures SleepIsJustified(s) ==> SleepIsJustified(Apply(s, step))
    ensures DozeIsJustified(s) ==> DozeIsJustified(Apply(s, step))
  {
  }

  lemma DozeIsJustifiedStep(s: State, step: Step)
    requires Counted(s) && CountLocked(s) && DozeIsJustified(s) && Enabled(s, step)
    ensures DozeIsJustified(Apply(s, step))
  {
    if Calling(step).Some? {
      hide Apply, Enabled, DozeIsJustified;
      SleepersCall(s, step);
    } else if !step.Leave? {
      hide Apply, Enabled;
      OthersKeepCallers(s, step);
      if s.queue != [] || s.working > 0 { WorkRemains(s, step); }
    }
  }

  /** With one caller of thpool_wait the signal always finds the sleeper. */
  lemma SleepIsJustifiedStep(s: State, step: Step)
    requires |s.waiters| <= 1
    requires Counted(s) && CountLocked(s) && SleepIsJustified(s) && Enabled(s, step)
    ensures SleepIsJustified(Apply(s, step))
  {
    if Calling(step).Some? {
      hide Apply, Enabled, SleepIsJustified;
      SleepersCall(s, step);
    } else if !step.Leave? {
      hide Apply, Enabled;
      OthersKeepCallers(s, step);
      if s.queue != [] || s.working > 0 { WorkRemains(s, step); }
    } else {
      ActivePositive(s.workers, step.w);
    }
  }

  // -------------------------------------------------------------- the invariant

  ghost predicate Inv(s: State) {
    Counted(s) && QueueLocked(s) && CountLocked(s) && Conserved(s) && NoLostWakeup(s) && DozeIsJustified(s)
    && (|s.waiters| <= 1 ==> SleepIsJustified(s))
  }

  lemma InitConserved(s: State)
    requires Init(s)
    ensures Conserved(s)
  {
    assert s.pushed[0..] == [];
    assert forall w, t :: !Holds(s, w, t);
  }

  lemma InitLocked(s: State)
    requires Init(s)
    ensures QueueLocked(s) && CountLocked(s)
  {
  }

  lemma InitAwake(s: State)
    requires Init(s)
    ensures NoLostWakeup(s) && DozeIsJustified(s) && SleepIsJustified(s)
  {
  }

  lemma InitInv(s: State)
    requires Init(s)
    ensures Inv(s)
  {
    CountsInit(s.workers);
    InitConserved(s);
    InitLocked(s);
    InitAwake(s);
    hide Conserved, QueueLocked, CountLocked, NoLostWakeup, DozeIsJustified, SleepIsJustified;
  }

  lemma StepInv(s: State, step: Step)
    requires Inv(s) && Enabled(s, step)
    ensures Inv(Apply(s, step))
  {
    hide Counted, QueueLocked, CountLocked, Conserved, NoLostWakeup, DozeIsJustified, SleepIsJustified, Apply, Enabled;
    SizeStays(s, step);
    CountedStep(s, step);
    QueueLockedStep(s, step);
    CountLockedStep(s, step);
    ConservedStep(s, step);
    NoLostWakeupStep(s, step);
    DozeIsJustifiedStep(s, step);
    if |s.waiters| <= 1 { SleepIsJustifiedStep(s, step); }
  }

  lemma {:induction false} RunInv(s: State, steps: seq<Step>)
    requires Inv(s) && IsRun(s, steps)
    ensures Inv(After(s, steps))
  {
    if steps != [] {
      RunInv(s, steps[..|steps| - 1]);
      StepInv(After(s, steps[..|steps| - 1]), steps[|steps| - 1]);
    }
  }

  lemma ReachableInv(s: State)
    requires Reachable(s)
    ensures Inv(s)
  {
    var s0 :| Init(s0) && ReachableFrom(s0, s);
    var steps :| IsRun(s0, steps) && After(s0, steps) == s;
    InitInv(s0);
    RunInv(s0, steps);
  }

  // -------------------------------------------------------------- main results

  /** Every job pulled is the oldest not yet pulled: the order of pulling is the
      order of pushing. */
  lemma PullOrder(s: State, w: nat)
    requires Reachable(s) && Enabled(s, Pull(w)) && s.queue != []
    ensures 0 <= Taken(s) < |s.pushed|
    ensures Held(Apply(s, Pull(w)).workers[w]) == Some(s.pushed[Taken(s)])
    ensures Taken(Apply(s, Pull(w))) == Taken(s) + 1
  {
    ReachableInv(s);
    assert s.queue[0] == s.pushed[Taken(s)];
  }

  /** Every job is in exactly one of three places: in the queue, in the hands of
      one worker, or executed. */
  lemma JobsAreConserved(s: State, t: nat)
    requires Reachable(s) && t < |s.pushed|
    ensures s.pushed[t] in s.queue <==> t >= Taken(s)
    ensures t < Taken(s) <==> (t in s.executed || exists w :: Holds(s, w, t))
    ensures t in s.executed ==> !exists w :: Holds(s, w, t)
    ensures forall w, x :: Holds(s, w, t) && Holds(s, x, t) ==> w == x
  {
    ReachableInv(s);
    forall i | 0 <= i < |s.queue| ensures s.queue[i].ticket == Taken(s) + i {
      assert s.queue[i] == s.pushed[Taken(s) + i];
    }
    if t >= Taken(s) {
      assert s.queue[t - Taken(s)] == s.pushed[t];
    }
  }

  predicate AllDone(s: State) {
    forall t: nat :: t < |s.pushed| ==> t in s.executed
  }

  lemma IdleIsDone(s: State)
    requires Inv(s) && s.queue == [] && s.working == 0
    ensures AllDone(s)
  {
    forall t: nat | t < |s.pushed| ensures t in s.executed {
      if t !in s.executed {
        var w :| Holds(s, w, t);
        ActivePositive(s.workers, w);
      }
    }
  }

  /** While a caller stands between its two reads it holds thcount_lock, so no
      worker counts itself in or out. */
  lemma WorkingIsFrozen(s: State, step: Step, c: nat)
    requires CountLocked(s) && CallerAt(s, c, AtWorking) && Enabled(s, step)
    requires CallerAt(Apply(s, step), c, AtWorking)
    ensures Apply(s, step).working == s.working
  {
  }

  /** The caller's last read of `len`. */
  lemma {:induction false} LastRead(s0: State, steps: seq<Step>, c: nat) returns (i: nat)
    requires Init(s0) && IsRun(s0, steps) && CallerAt(After(s0, steps), c, AtWorking)
    ensures i < |steps| && steps[i] == ReadLen(c) && IsRun(s0, steps[..i])
    ensures After(s0, steps[..i]).queue == []
    ensures After(s0, steps[..i]).working == After(s0, steps).working
    ensures forall k :: i < k <= |steps| ==> IsRun(s0, steps[..k]) && CallerAt(After(s0, steps[..k]), c, AtWorking)
  {
    hide Apply, Enabled;
    assert steps != [];
    var before, last := steps[..|steps| - 1], steps[|steps| - 1];
    var s := After(s0, before);
    InitInv(s0);
    RunInv(s0, before);
    assert steps[..|steps|] == steps;
    if CallerAt(s, c, AtWorking) {
      i := LastRead(s0, before, c);
      WorkingIsFrozen(s, last, c);
      assert before[..i] == steps[..i];
      forall k | i < k <= |steps| ensures IsRun(s0, steps[..k]) && CallerAt(After(s0, steps[..k]), c, AtWorking) {
        if k < |steps| { assert before[..k] == steps[..k]; }
      }
    } else {
      i := |steps| - 1;
      OnlyReadLen(s, last, c);
    }
  }

  lemma OnlyReadLen(s: State, step: Step, c: nat)
    requires Enabled(s, step) && !CallerAt(s, c, AtWorking) && CallerAt(Apply(s, step), c, AtWorking)
    ensures step == ReadLen(c) && s.queue == [] && Apply(s, step).working == s.working
  {
  }

  lemma OnlyReadWorking(s: State, step: Step, c: nat)
    requires Enabled(s, step) && !CallerAt(s, c, Returned) && CallerAt(Apply(s, step), c, Returned)
    ensures step == ReadWorking(c)
  {
  }

  /** Whatever step makes thpool_wait return, there was an instant in the call, its
      last read of `len`, at which every job added so far had been executed; although
      `len` is read without the queue's lock. */
  lemma {:induction false} WaitReturnsWhenDone(s0: State, steps: seq<Step>, step: Step, c: nat) returns (i: nat)
    requires Init(s0) && IsRun(s0, steps + [step]) && IsRun(s0, steps)
    requires !CallerAt(After(s0, steps), c, Returned) && CallerAt(After(s0, steps + [step]), c, Returned)
    ensures step == ReadWorking(c) && i < |steps| && steps[i] == ReadLen(c) && IsRun(s0, steps[..i])
    ensures AllDone(After(s0, steps[..i]))
    ensures forall k :: i < k <= |steps| ==> IsRun(s0, steps[..k]) && CallerAt(After(s0, steps[..k]), c, AtWorking)
  {
    var all := steps + [step];
    assert all[..|all| - 1] == steps;
    PrefixIsRun(s0, all, |steps|);
    OnlyReadWorking(After(s0, steps), step, c);
    i := LastRead(s0, steps, c);
    InitInv(s0);
    RunInv(s0, steps[..i]);
    IdleIsDone(After(s0, steps[..i]));
  }

  /** Work of the pool itself: neither a new request nor a spurious wake-up. */
  predicate Internal(step: Step) {
    !(step.Push? || step.SemWake? || step.Call? || step.CallerWake? || step.Destroy? || step.PostAll?)
  }

  lemma SignalChoice(s: State) returns (woken: Option<nat>)
    ensures Signals(s, woken)
  {
    if w: nat :| At(s, w, Asleep) {
      woken := Some(w);
    } else {
      woken := None;
      forall w | 0 <= w < |s.workers| ensures s.workers[w] != Asleep { assert !At(s, w, Asleep); }
    }
  }

  lemma SignalCallerChoice(s: State) returns (woken: Option<nat>)
    ensures SignalsCaller(s, woken)
  {
    if c: nat :| CallerAt(s, c, Sleeping) {
      woken := Some(c);
    } else {
      woken := None;
      forall c | 0 <= c < |s.waiters| ensures s.waiters[c] != Sleeping { assert !CallerAt(s, c, Sleeping); }
    }
  }

  /** The holder of a lock can always go on. */
  lemma LockHolderSteps(s: State) returns (step: Step)
    requires Inv(s) && (s.rwmutex != Free || s.thcount != None)
    ensures Internal(step) && Enabled(s, step)
  {
    if s.rwmutex != Free {
      var woken := SignalChoice(s);
      step := if s.rwmutex == Pusher then PushPost(woken) else PullPost(s.rwmutex.w, woken);
    } else {
      var c := s.thcount.value;
      assert HoldsCount(s.waiters[c]);
      step := if s.waiters[c] == AtLen then ReadLen(c) else if s.waiters[c] == AtWorking then ReadWorking(c) else Doze(c);
    }
  }

  /** A worker that is neither asleep nor waiting for the semaphore can go on. */
  lemma WorkerSteps(s: State, w: nat) returns (step: Step)
    requires Inv(s) && w < |s.workers| && s.rwmutex == Free && s.thcount == None
    requires s.workers[w] != Asleep && s.workers[w] != Gone && (s.workers[w] == AtSem ==> s.sem)
    ensures Internal(step) && Enabled(s, step)
  {
    var caller := SignalCallerChoice(s);
    match s.workers[w]
    case Top => step := TestTop(w);
    case AtSem => step := SemTake(w);
    case Passed => step := TestAgain(w);
    case Entering => step := Enter(w);
    case Pulling => step := Pull(w);
    case Posting(_) => step := PullPost(w, None); assert false;
    case Running(_) => step := Execute(w);
    case Leaving => step := Leave(w, if s.working == 1 then caller else None);
    case Exiting => step := Exit(w);
  }

  lemma QueueSteps(s: State) returns (step: Step)
    requires Inv(s) && s.keepalive && s.workers != [] && s.queue != []
    ensures Internal(step) && Enabled(s, step)
  {
    if s.rwmutex != Free || s.thcount != None {
      step := LockHolderSteps(s);
    } else if s.sem {
      var w :| 0 <= w < |s.workers| && s.workers[w] != Asleep;
      step := WorkerSteps(s, w);
    } else {
      var w :| 0 <= w < |s.workers| && OnTheWay(s.workers[w]);
      step := WorkerSteps(s, w);
    }
  }

  /** While the pool is alive and has jobs, some thread of it can take a step. */
  lemma JobsGetServed(s: State) returns (step: Step)
    requires Reachable(s) && s.keepalive && s.workers != [] && s.queue != []
    ensures Internal(step) && Enabled(s, step)
  {
    hide Enabled, Inv;
    ReachableInv(s);
    step := QueueSteps(s);
  }

  /** A single caller of thpool_wait that sleeps has something to wait for, and
      the pool can work on it. */
  lemma SleeperWillBeServed(s: State, c: nat) returns (step: Step)
    requires Reachable(s) && s.keepalive && s.workers != [] && |s.waiters| == 1 && CallerAt(s, c, Sleeping)
    ensures s.queue != [] || s.working > 0
    ensures Internal(step) && Enabled(s, step)
  {
    ReachableInv(s);
    if s.queue != [] {
      step := JobsGetServed(s);
    } else if s.rwmutex != Free || s.thcount != None {
      step := LockHolderSteps(s);
    } else {
      var w := SomeActive(s.workers);
      step := WorkerSteps(s, w);
    }
  }

  // -------------------------------------------------------------- settling

  /** How far a worker is from standing still, and a caller; a worker that is done
      with its job can still wake a caller, one that is about to post a worker. */
  function Ahead(pc: Worker): (k: nat) {
    match pc
    case Asleep => 0
    case Gone => 0
    case AtSem => 1
    case Exiting => 1
    case Top => 2
    case Leaving => 7
    case Running(_) => 8
    case Posting(_) => 10
    case Pulling => 11
    case Entering => 12
    case Passed => 13
  }

  function CallerAhead(pc: Waiter): (k: nat) {
    match pc
    case AtLock => 4
    case AtLen => 3
    case AtWorking => 2
    case Dozing => 1
    case _ => 0
  }

  function AllAhead(ws: seq<Worker>): (k: nat) {
    if ws == [] then 0 else Ahead(ws[0]) + AllAhead(ws[1..])
  }

  function CallersAhead(cs: seq<Waiter>): (k: nat) {
    if cs == [] then 0 else CallerAhead(cs[0]) + CallersAhead(cs[1..])
  }

  /** The posts of the semaphore that can still be taken: the one that is up, the one
      that the holder of rwmutex owes, and at most one for each job. */
  function Posts(s: State): (k: nat) {
    (if s.sem then 1 else 0) + (if s.rwmutex != Free then 1 else 0) + |s.queue|
  }

  function Remaining(s: State): (k: nat) {
    13 * Posts(s) + (if s.rwmutex == Pusher then 2 else 0) + AllAhead(s.workers) + CallersAhead(s.waiters)
  }

  lemma {:induction false} AheadMove(ws: seq<Worker>, w: nat, pc: Worker)
    requires w < |ws|
    ensures AllAhead(ws[w := pc]) == AllAhead(ws) - Ahead(ws[w]) + Ahead(pc)
  {
    if w == 0 {
      assert ws[w := pc][1..] == ws[1..];
    } else {
      AheadMove(ws[1..], w - 1, pc);
      assert ws[w := pc][1..] == ws[1..][w - 1 := pc];
    }
  }

  lemma {:induction false} CallerAheadMove(cs: seq<Waiter>, c: nat, pc: Waiter)
    requires c < |cs|
    ensures CallersAhead(cs[c := pc]) == CallersAhead(cs) - CallerAhead(cs[c]) + CallerAhead(pc)
  {
    if c == 0 {
      assert cs[c := pc][1..] == cs[1..];
    } else {
      CallerAheadMove(cs[1..], c - 1, pc);
      assert cs[c := pc][1..] == cs[1..][c - 1 := pc];
    }
  }

  lemma RemainingWorker(s: State, step: Step)
    requires QueueLocked(s) && Enabled(s, step) && Internal(step) && Stepping(step).Some? && !step.Leave?
    ensures Remaining(Apply(s, step)) < Remaining(s)
  {
    hide AllAhead, CallersAhead;
    var w := Stepping(step).value;
    AheadMove(s.workers, w, Apply(s, step).workers[w]);
  }

  lemma RemainingLeave(s: State, step: Step)
    requires Enabled(s, step) && step.Leave?
    ensures Remaining(Apply(s, step)) < Remaining(s)
  {
    hide AllAhead, CallersAhead;
    AheadMove(s.workers, step.w, Top);
    if step.caller.Some? { CallerAheadMove(s.waiters, step.caller.value, AtLock); }
  }

  lemma RemainingCaller(s: State, step: Step)
    requires Enabled(s, step) && Internal(step) && Calling(step).Some?
    ensures Remaining(Apply(s, step)) < Remaining(s)
  {
    hide AllAhead, CallersAhead;
    var c := Calling(step).value;
    CallerAheadMove(s.waiters, c, Apply(s, step).waiters[c]);
  }

  lemma RemainingPost(s: State, step: Step)
    requires QueueLocked(s) && Enabled(s, step) && (step.PushPost? || step.PullPost?)
    ensures Remaining(Apply(s, step)) < Remaining(s)
  {
    hide AllAhead, CallersAhead;
    if step.woken.Some? { AheadMove(s.workers, step.woken.value, AtSem); }
    if step.PullPost? {
      AheadMove(Post(s, step.woken).workers, step.w, Running(Some(s.workers[step.w].job)));
    }
  }

  /** Every step of the pool itself brings it nearer to standing still: a worker goes
      round only for a post that it has taken, and the posts run out. */
  lemma RemainingFalls(s: State, step: Step)
    requires QueueLocked(s) && Enabled(s, step) && Internal(step)
    ensures Remaining(Apply(s, step)) < Remaining(s)
  {
    hide QueueLocked, Apply, Enabled, Remaining;
    if step.Leave? {
      RemainingLeave(s, step);
    } else if Stepping(step).Some? {
      RemainingWorker(s, step);
    } else if Calling(step).Some? {
      RemainingCaller(s, step);
    } else {
      RemainingPost(s, step);
    }
  }

  ghost predicate AllInternal(steps: seq<Step>) {
    forall step <- steps :: Internal(step)
  }

  /** So left to itself the pool stops, whatever the scheduler does. */
  lemma {:induction false} InternalRunsEnd(s: State, steps: seq<Step>)
    requires Inv(s) && IsRun(s, steps) && AllInternal(steps)
    ensures Inv(After(s, steps)) && |steps| + Remaining(After(s, steps)) <= Remaining(s)
    ensures After(s, steps).keepalive == s.keepalive && After(s, steps).pushed == s.pushed
  {
    hide Apply, Enabled, Inv, Remaining, Internal;
    if steps != [] {
      var before, last := steps[..|steps| - 1], steps[|steps| - 1];
      assert last in steps && forall step <- before :: step in steps;
      InternalRunsEnd(s, before);
      StepInv(After(s, before), last);
      LocksOf(After(s, before));
      RemainingFalls(After(s, before), last);
      InternalKeeps(After(s, before), last);
    }
  }

  lemma LocksOf(s: State)
    requires Inv(s)
    ensures QueueLocked(s)
  {
  }

  lemma InternalKeeps(s: State, step: Step)
    requires Enabled(s, step) && Internal(step)
    ensures Apply(s, step).keepalive == s.keepalive && Apply(s, step).pushed == s.pushed
  {
  }

  ghost predicate Settled(s: State) {
    forall step :: Enabled(s, step) ==> !Internal(step)
  }

  /** Where a live pool with workers has stopped, nothing is queued, nobody works and
      all jobs are done; and a single caller of thpool_wait is not in the call. */
  lemma SettledIsDone(s: State)
    requires Inv(s) && s.keepalive && s.workers != [] && Settled(s)
    ensures s.queue == [] && s.working == 0 && AllDone(s)
    ensures |s.waiters| <= 1 ==> forall c :: 0 <= c < |s.waiters| ==> s.waiters[c] == Outside || s.waiters[c] == Returned
  {
    hide Enabled, Conserved;
    if s.rwmutex != Free || s.thcount != None {
      var step := LockHolderSteps(s);
      assert false;
    }
    if s.queue != [] {
      var step := QueueSteps(s);
      assert false;
    }
    if s.working > 0 {
      var w := SomeActive(s.workers);
      var step := WorkerSteps(s, w);
      assert false;
    }
    WorkingIsCounted(s);
    IdleIsDone(s);
    forall c | 0 <= c < |s.waiters| && |s.waiters| <= 1 ensures s.waiters[c] == Outside || s.waiters[c] == Returned {
      if s.waiters[c] == AtLock {
        LockIsEnabled(s, c);
        assert false;
      }
    }
  }

  lemma LockIsEnabled(s: State, c: nat)
    requires CallerAt(s, c, AtLock) && s.thcount == None
    ensures Enabled(s, Lock(c)) && Internal(Lock(c))
  {
  }

  lemma WorkingIsCounted(s: State)
    requires Inv(s)
    ensures s.working >= 0
  {
  }

  /** Every run of the pool itself, carried on until it stops, ends with every job
      done that had been added, and with the one caller of thpool_wait returned. */
  lemma EverythingGetsDone(s: State, steps: seq<Step>)
    requires Reachable(s) && s.keepalive && s.workers != []
    requires IsRun(s, steps) && AllInternal(steps) && Settled(After(s, steps))
    ensures var t := After(s, steps);
      && t.pushed == s.pushed && AllDone(t) && t.queue == [] && t.working == 0
      && (|s.waiters| <= 1 ==> forall c :: 0 <= c < |t.waiters| ==> t.waiters[c] == Outside || t.waiters[c] == Returned)
  {
    hide Inv, Settled, Apply, Enabled, AllDone, IsRun, After, AllInternal;
    ReachableInv(s);
    InternalRunsEnd(s, steps);
    SizesStay(s, steps);
    SettledIsDone(After(s, steps));
  }

  /** And it can always be carried on that far. */
  lemma {:induction false} SettlingRun(s: State) returns (steps: seq<Step>)
    requires Inv(s)
    ensures IsRun(s, steps) && AllInternal(steps) && Settled(After(s, steps))
    decreases Remaining(s)
  {
    hide Apply, Enabled, Inv, Remaining, Internal, IsRun, After;
    EmptyRun(s);
    if Settled(s) {
      steps := [];
    } else {
      var step :| Enabled(s, step) && Internal(step);
      StepInv(s, step);
      LocksOf(s);
      RemainingFalls(s, step);
      var rest := SettlingRun(Apply(s, step));
      RunCons(s, step, rest);
      steps := [step] + rest;
    }
  }

  lemma EmptyRun(s: State)
    ensures IsRun(s, []) && After(s, []) == s
  {
  }

  lemma {:induction false} RunCons(s: State, step: Step, steps: seq<Step>)
    requires Enabled(s, step) && IsRun(Apply(s, step), steps)
    ensures IsRun(s, [step] + steps) && After(s, [step] + steps) == After(Apply(s, step), steps)
  {
    hide Apply, Enabled;
    if steps == [] {
      EmptyRun(s);
      assert [step] + steps == [step] && [step][..0] == [];
    } else {
      var before, last := steps[..|steps| - 1], steps[|steps| - 1];
      RunCons(s, step, before);
      assert ([step] + steps)[..|[step] + steps| - 1] == [step] + before;
    }
  }

  // -------------------------------------------------------------- closing down

  /** Not at a job and not on the way to one: where the test of threads_keepalive
      still lies ahead, or lies behind for good. */
  predicate Outer(pc: Worker) {
    pc == Top || pc == AtSem || pc == Asleep || pc == Passed || pc == Exiting || pc == Gone
  }

  lemma TurnedAway(s: State, step: Step, w: nat)
    requires !s.keepalive && w < |s.workers| && Outer(s.workers[w]) && Enabled(s, step)
    ensures !Apply(s, step).keepalive && w < |Apply(s, step).workers| && Outer(Apply(s, step).workers[w])
  {
  }

  /** Once the pool is to be destroyed, no worker that is not at a job gets to one,
      in any run. */
  lemma {:induction false} NoNewJobs(s: State, steps: seq<Step>, w: nat)
    requires !s.keepalive && w < |s.workers| && Outer(s.workers[w]) && IsRun(s, steps)
    ensures var t := After(s, steps); !t.keepalive && w < |t.workers| && Outer(t.workers[w])
  {
    hide Apply, Enabled, Outer;
    if steps != [] {
      NoNewJobs(s, steps[..|steps| - 1], w);
      TurnedAway(After(s, steps[..|steps| - 1]), steps[|steps| - 1], w);
    }
  }

  /** Past the semaphore with nothing to do but leave. */
  predicate Departing(pc: Worker) {
    pc == Passed || pc == Top || pc == Exiting
  }

  function CountDeparting(ws: seq<Worker>): (k: nat) {
    if ws == [] then 0 else (if Departing(ws[0]) then 1 else 0) + CountDeparting(ws[1..])
  }

  lemma {:induction false} DepartingMove(ws: seq<Worker>, w: nat, pc: Worker)
    requires w < |ws|
    ensures CountDeparting(ws[w := pc])
            == CountDeparting(ws) - (if Departing(ws[w]) then 1 else 0) + (if Departing(pc) then 1 else 0)
  {
    if w == 0 {
      assert ws[w := pc][1..] == ws[1..];
    } else {
      DepartingMove(ws[1..], w - 1, pc);
      assert ws[w := pc][1..] == ws[1..][w - 1 := pc];
    }
  }

  lemma {:induction false} NoneDeparting(ws: seq<Worker>)
    requires forall w :: 0 <= w < |ws| ==> !Departing(ws[w])
    ensures CountDeparting(ws) == 0
  {
    if ws != [] { NoneDeparting(ws[1..]); }
  }

  lemma {:induction false} SomeAlive(ws: seq<Worker>) returns (w: nat)
    requires CountAlive(ws) > 0
    ensures w < |ws| && ws[w] != Gone
  {
    if ws[0] != Gone { w := 0; } else { w := SomeAlive(ws[1..]); w := w + 1; }
  }

  lemma {:induction false} AllGone(ws: seq<Worker>)
    requires CountAlive(ws) == 0
    ensures forall w :: 0 <= w < |ws| ==> ws[w] == Gone
  {
    if ws != [] { AllGone(ws[1..]); }
  }

  /** During a round of bsem_post_all and what follows: the one post has been taken by
      a worker that departs, or all others still look for it. */
  ghost predicate Closing(s: State, alive: int) {
    && !s.keepalive && s.rwmutex == Free && alive > 0
    && (forall w :: 0 <= w < |s.workers| ==> Outer(s.workers[w]))
    && s.alive - CountDeparting(s.workers) - (if s.sem then 1 else 0) == alive - 1
    && (s.sem ==> forall w :: 0 <= w < |s.workers| ==> s.workers[w] == AtSem || s.workers[w] == Gone)
  }

  lemma ClosingWorker(s: State, step: Step, alive: int)
    requires Closing(s, alive) && Enabled(s, step) && Internal(step) && Stepping(step).Some?
    ensures Closing(Apply(s, step), alive)
  {
    hide CountDeparting;
    var w := Stepping(step).value;
    DepartingMove(s.workers, w, Apply(s, step).workers[w]);
  }

  lemma ClosingStep(s: State, step: Step, alive: int)
    requires Closing(s, alive) && Enabled(s, step) && Internal(step)
    ensures Closing(Apply(s, step), alive)
  {
    if Stepping(step).Some? {
      hide Closing, Apply, Enabled;
      ClosingWorker(s, step, alive);
    }
  }

  lemma {:induction false} ClosingRun(s: State, steps: seq<Step>, alive: int)
    requires Closing(s, alive) && IsRun(s, steps) && AllInternal(steps)
    ensures Closing(After(s, steps), alive)
  {
    hide Closing, Apply, Enabled, Internal;
    if steps != [] {
      var before, last := steps[..|steps| - 1], steps[|steps| - 1];
      assert last in steps && forall step <- before :: step in steps;
      ClosingRun(s, before, alive);
      ClosingStep(After(s, before), last, alive);
    }
  }

  /** A pool to be destroyed that has stopped: everybody sleeps or is gone. */
  lemma SettledSleeps(s: State)
    requires Inv(s) && !s.keepalive && Settled(s)
    ensures s.rwmutex == Free && s.thcount == None
    ensures forall w :: 0 <= w < |s.workers| ==> s.workers[w] == Asleep || s.workers[w] == Gone
  {
    hide Enabled, Counted, QueueLocked, Conserved, NoLostWakeup;
    if s.rwmutex != Free || s.thcount != None {
      var step := LockHolderSteps(s);
      assert false;
    }
    forall w | 0 <= w < |s.workers| ensures s.workers[w] == Asleep || s.workers[w] == Gone {
      if s.workers[w] == AtSem && !s.sem {
        SleepIsEnabled(s, w);
        assert false;
      } else if s.workers[w] != Asleep && s.workers[w] != Gone {
        var step := WorkerSteps(s, w);
        assert false;
      }
    }
  }

  lemma SleepIsEnabled(s: State, w: nat)
    requires At(s, w, AtSem) && !s.sem
    ensures Enabled(s, SemSleep(w)) && Internal(SemSleep(w))
  {
  }

  lemma PostAllCloses(s: State)
    requires Inv(s) && !s.keepalive && Settled(s) && s.alive > 0
    ensures Enabled(s, PostAll) && Closing(Apply(s, PostAll), s.alive)
  {
    hide Inv, Settled, CountDeparting;
    SettledSleeps(s);
    NoneDeparting(Wake(s.workers));
  }

  /** One call of bsem_post_all and all that the pool then does. */
  ghost predicate IsRound(s: State, steps: seq<Step>) {
    !s.keepalive && IsRun(Apply(s, PostAll), steps) && AllInternal(steps) && Settled(After(Apply(s, PostAll), steps))
  }

  function AfterRound(s: State, steps: seq<Step>): (t: State)
    requires IsRound(s, steps)
  {
    After(Apply(s, PostAll), steps)
  }

  lemma {:induction false} AliveFalls(s: State, steps: seq<Step>)
    requires Inv(s) && IsRun(s, steps)
    ensures After(s, steps).alive <= s.alive
  {
    hide Apply, Enabled, Inv;
    if steps != [] {
      AliveFalls(s, steps[..|steps| - 1]);
      AliveStep(After(s, steps[..|steps| - 1]), steps[|steps| - 1]);
    }
  }

  lemma AliveStep(s: State, step: Step)
    requires Enabled(s, step)
    ensures Apply(s, step).alive <= s.alive
  {
  }

  /** Each round ends with exactly one worker fewer, whatever the scheduler does. */
  lemma OneLeaves(s: State, steps: seq<Step>)
    requires Inv(s) && !s.keepalive && Settled(s) && IsRound(s, steps)
    ensures var t := AfterRound(s, steps);
      && Inv(t) && !t.keepalive && Settled(t)
      && t.alive == if s.alive > 0 then s.alive - 1 else 0
  {
    hide Inv, Settled, Closing, Apply, Enabled, AllInternal;
    PostAllIs(s);
    var s1 := Apply(s, PostAll);
    StepInv(s, PostAll);
    InternalRunsEnd(s1, steps);
    var t := After(s1, steps);
    AliveIsCounted(s);
    AliveIsCounted(t);
    if s.alive > 0 {
      PostAllCloses(s);
      ClosingRun(s1, steps, s.alive);
      ClosedIsOneFewer(t, s.alive);
    } else {
      AliveFalls(s1, steps);
    }
  }

  lemma PostAllIs(s: State)
    requires !s.keepalive
    ensures Enabled(s, PostAll) && !Apply(s, PostAll).keepalive && Apply(s, PostAll).alive == s.alive
  {
  }

  lemma AliveIsCounted(s: State)
    requires Inv(s)
    ensures s.alive == CountAlive(s.workers) >= 0
  {
  }

  lemma ClosedIsOneFewer(t: State, alive: int)
    requires Inv(t) && Closing(t, alive) && Settled(t)
    ensures t.alive == alive - 1
  {
    hide CountDeparting, CountAlive, QueueLocked, CountLocked, Conserved, NoLostWakeup, Enabled;
    SettledSleeps(t);
    NoneDeparting(t.workers);
    if t.sem {
      AliveIsCounted(t);
      var w := SomeAlive(t.workers);
      assert false;
    }
  }

  ghost predicate AreRounds(s: State, rounds: seq<seq<Step>>)
    decreases |rounds|
  {
    rounds == [] || (IsRound(s, rounds[0]) && AreRounds(AfterRound(s, rounds[0]), rounds[1..]))
  }

  function AfterRounds(s: State, rounds: seq<seq<Step>>): (t: State)
    requires AreRounds(s, rounds)
    decreases |rounds|
  {
    if rounds == [] then s else AfterRounds(AfterRound(s, rounds[0]), rounds[1..])
  }

  /** So the loop of thpool_destroy ends: after as many rounds as there are workers,
      everybody is gone. */
  lemma {:induction false} RoundsEnd(s: State, rounds: seq<seq<Step>>)
    requires Inv(s) && !s.keepalive && Settled(s) && AreRounds(s, rounds)
    ensures var t := AfterRounds(s, rounds);
      && Inv(t) && t.alive == (if s.alive > |rounds| then s.alive - |rounds| else 0)
      && (t.alive == 0 ==> forall w :: 0 <= w < |t.workers| ==> t.workers[w] == Gone)
    decreases |rounds|
  {
    hide Inv, Settled, IsRound;
    AliveIsCounted(s);
    if rounds == [] {
      if s.alive == 0 { AllGone(s.workers); }
    } else {
      OneLeaves(s, rounds[0]);
      RoundsEnd(AfterRound(s, rounds[0]), rounds[1..]);
    }
  }

  /** And from every reachable state there is a run that closes the pool down: destroy,
      stop, and so many rounds. */
  lemma ClosesDown(s: State) returns (stop: seq<Step>, rounds: seq<seq<Step>>)
    requires Reachable(s)
    ensures Enabled(s, Destroy) && IsRun(Apply(s, Destroy), stop) && AllInternal(stop)
    ensures var t := After(Apply(s, Destroy), stop);
      && Settled(t) && AreRounds(t, rounds) && |rounds| <= |s.workers|
      && AfterRounds(t, rounds).alive == 0
      && forall w :: 0 <= w < |AfterRounds(t, rounds).workers| ==> AfterRounds(t, rounds).workers[w] == Gone
  {
    hide Inv, Settled, Apply, Enabled, IsRound, AllInternal;
    ReachableInv(s);
    DestroyIs(s);
    var d := Apply(s, Destroy);
    StepInv(s, Destroy);
    stop := SettlingRun(d);
    InternalRunsEnd(d, stop);
    var t := After(d, stop);
    AliveIsCounted(t);
    SizesStay(d, stop);
    AliveBound(t.workers);
    rounds := SomeRounds(t, t.alive);
    RoundsEnd(t, rounds);
  }

  lemma DestroyIs(s: State)
    ensures Enabled(s, Destroy) && !Apply(s, Destroy).keepalive && |Apply(s, Destroy).workers| == |s.workers|
  {
  }

  lemma {:induction false} AliveBound(ws: seq<Worker>)
    ensures CountAlive(ws) <= |ws|
  {
    if ws != [] { AliveBound(ws[1..]); }
  }

  lemma {:induction false} SomeRounds(s: State, k: nat) returns (rounds: seq<seq<Step>>)
    requires Inv(s) && !s.keepalive && Settled(s)
    ensures AreRounds(s, rounds) && |rounds| == k
    decreases k
  {
    hide Inv, Settled, Apply, Enabled, AllInternal;
    if k == 0 {
      rounds := [];
    } else {
      PostAllIs(s);
      StepInv(s, PostAll);
      var steps := SettlingRun(Apply(s, PostAll));
      OneLeaves(s, steps);
      var rest := SomeRounds(AfterRound(s, steps), k - 1);
      rounds := [steps] + rest;
    }
  }

  // -------------------------------------------------------------- what was submitted

  /** The work of the calls of thpool_add_work, in order. */
  function Submitted(steps: seq<Step>): (ws: seq<int>) {
    if steps == [] then []
    else Submitted(steps[..|steps| - 1]) + match steps[|steps| - 1] case Push(work) => [work] case _ => []
  }

  /** The jobs pushed are the work submitted, each with its place as its ticket. */
  lemma {:induction false} PushedIsSubmitted(s0: State, steps: seq<Step>)
    requires Init(s0) && IsRun(s0, steps)
    ensures var t, ws := After(s0, steps), Submitted(steps);
      |t.pushed| == |ws| && forall i :: 0 <= i < |ws| ==> t.pushed[i] == Job(i, ws[i])
  {
    hide Apply, Enabled;
    if steps != [] {
      var before, last := steps[..|steps| - 1], steps[|steps| - 1];
      PushedIsSubmitted(s0, before);
      PushedStep(After(s0, before), last);
    }
  }

  lemma PushedStep(s: State, step: Step)
    requires Enabled(s, step)
    ensures Apply(s, step).pushed == s.pushed + match step case Push(work) => [Job(|s.pushed|, work)] case _ => []
  {
  }

  // -------------------------------------------------------------- many callers

  /** A wake-up of caller c from outside the pool: somebody adds work, or the
      condition variable wakes it for no reason. */
  predicate Rouses(step: Step, c: nat) {
    step.Push? || step == CallerWake(c)
  }

  /** Caller c sleeps although there is nothing left to wait for, and goes on
      sleeping whatever the pool and all other callers do. */
  ghost predicate Stranded(s: State, c: nat) {
    && CallerAt(s, c, Sleeping) && s.queue == [] && s.working == 0
    && forall steps :: IsRun(s, steps) && (forall step <- steps :: !Rouses(step, c)) ==> CallerAt(After(s, steps), c, Sleeping)
  }

  /** Nothing to do, and no worker that could still come to count itself out; after
      a destroy workers may yet pass the semaphore, but turn back behind it. */
  ghost predicate Quiet(s: State) {
    && s.queue == [] && s.working == 0 && s.rwmutex == Free && (s.sem ==> !s.keepalive)
    && forall w :: 0 <= w < |s.workers| ==>
         s.workers[w] in {Top, AtSem, Asleep, Exiting, Gone} || (s.workers[w] == Passed && !s.keepalive)
  }

  lemma QuietStays(s: State, step: Step, c: nat)
    requires Quiet(s) && CallerAt(s, c, Sleeping) && Enabled(s, step) && !Rouses(step, c)
    ensures Quiet(Apply(s, step)) && CallerAt(Apply(s, step), c, Sleeping)
  {
  }

  lemma {:induction false} QuietRun(s: State, steps: seq<Step>, c: nat)
    requires Quiet(s) && CallerAt(s, c, Sleeping) && IsRun(s, steps) && forall step <- steps :: !Rouses(step, c)
    ensures Quiet(After(s, steps)) && CallerAt(After(s, steps), c, Sleeping)
  {
    hide Quiet, Apply, Enabled, Rouses;
    if steps != [] {
      var before, last := steps[..|steps| - 1], steps[|steps| - 1];
      assert last in steps && forall step <- before :: step in steps;
      QuietRun(s, before, c);
      QuietStays(After(s, before), last, c);
    }
  }

  /** Where all is quiet, who sleeps is stranded. */
  lemma QuietStrands(s: State, c: nat)
    requires Quiet(s) && CallerAt(s, c, Sleeping)
    ensures Stranded(s, c)
  {
    hide Apply, Enabled, IsRun, After, Rouses;
    forall steps | IsRun(s, steps) && (forall step <- steps :: !Rouses(step, c))
      ensures CallerAt(After(s, steps), c, Sleeping)
    {
      QuietRun(s, steps, c);
    }
  }

  lemma RunSnoc(s0: State, steps: seq<Step>, step: Step)
    requires IsRun(s0, steps) && Enabled(After(s0, steps), step)
    ensures IsRun(s0, steps + [step]) && After(s0, steps + [step]) == Apply(After(s0, steps), step)
  {
    assert (steps + [step])[..|steps + [step]| - 1] == steps;
  }

  lemma OneStep(s0: State, s: State, step: Step)
    requires ReachableFrom(s0, s) && Enabled(s, step)
    ensures ReachableFrom(s0, Apply(s, step))
  {
    hide Apply, Enabled;
    var steps :| IsRun(s0, steps) && After(s0, steps) == s;
    RunSnoc(s0, steps, step);
  }

  /** A caller that comes while there is a job goes to sleep. */
  lemma CallerSleeps(s0: State, s: State, c: nat) returns (s': State)
    requires ReachableFrom(s0, s) && CallerAt(s, c, Outside) && s.thcount == None && s.queue != []
    ensures ReachableFrom(s0, s') && s' == MoveCaller(s, c, Sleeping)
  {
    hide ReachableFrom;
    OneStep(s0, s, Call(c));
    var s1 := Apply(s, Call(c));
    OneStep(s0, s1, Lock(c));
    var s2 := Apply(s1, Lock(c));
    OneStep(s0, s2, ReadLen(c));
    var s3 := Apply(s2, ReadLen(c));
    OneStep(s0, s3, Doze(c));
    s' := Apply(s3, Doze(c));
    assert s'.waiters == s.waiters[c := Sleeping];
  }

  /** A worker takes the semaphore and counts itself in. */
  lemma WorkerEnters(s0: State, s: State) returns (s': State)
    requires ReachableFrom(s0, s) && At(s, 0, Top) && s.keepalive && s.sem && s.thcount == None
    ensures ReachableFrom(s0, s') && s' == Move(s, 0, Pulling).(sem := false, working := s.working + 1)
  {
    hide ReachableFrom;
    OneStep(s0, s, TestTop(0));
    var s1 := Apply(s, TestTop(0));
    OneStep(s0, s1, SemTake(0));
    var s2 := Apply(s1, SemTake(0));
    OneStep(s0, s2, TestAgain(0));
    var s3 := Apply(s2, TestAgain(0));
    OneStep(s0, s3, Enter(0));
    s' := Apply(s3, Enter(0));
    assert s'.workers == s.workers[0 := Pulling];
  }

  /** It does the one job and, counting itself out, signals the caller c. */
  lemma WorkerDoesTheJob(s0: State, s: State, c: nat) returns (s': State)
    requires ReachableFrom(s0, s) && At(s, 0, Pulling) && s.rwmutex == Free && s.thcount == None
    requires |s.queue| == 1 && s.working == 1 && CallerAt(s, c, Sleeping)
    ensures ReachableFrom(s0, s') && s'.queue == [] && s'.working == 0 && s'.waiters == s.waiters[c := AtLock]
    ensures s'.workers == s.workers[0 := Top] && s'.sem == s.sem && s'.rwmutex == Free
  {
    hide ReachableFrom;
    OneStep(s0, s, Pull(0));
    var s1 := Apply(s, Pull(0));
    OneStep(s0, s1, Execute(0));
    var s2 := Apply(s1, Execute(0));
    OneStep(s0, s2, Leave(0, Some(c)));
    s' := Apply(s2, Leave(0, Some(c)));
    assert s'.workers == s.workers[0 := Top];
  }

  /** With two callers the one signal wakes only one of them, and the pool never
      signals again: the other sleeps on although everything is done. */
  lemma TwoCallersStrand(s0: State) returns (s: State)
    requires Init(s0) && |s0.workers| >= 1 && |s0.waiters| >= 2
    ensures ReachableFrom(s0, s) && Quiet(s) && Stranded(s, 1)
  {
    assert IsRun(s0, []) && After(s0, []) == s0;
    OneStep(s0, s0, Push(0));
    var s1 := Apply(s0, Push(0));
    OneStep(s0, s1, PushPost(None));
    var s2 := Apply(s1, PushPost(None));
    hide ReachableFrom, Stranded;
    var s3 := CallerSleeps(s0, s2, 0);
    var s4 := CallerSleeps(s0, s3, 1);
    var s5 := WorkerEnters(s0, s4);
    s := WorkerDoesTheJob(s0, s5, 0);
    assert s.waiters[1] == Sleeping;
    QuietStrands(s, 1);
  }

  lemma {:induction false} SizesStay(s0: State, steps: seq<Step>)
    requires IsRun(s0, steps)
    ensures |After(s0, steps).workers| == |s0.workers| && |After(s0, steps).waiters| == |s0.waiters|
  {
    if steps != [] {
      SizesStay(s0, steps[..|steps| - 1]);
      SizeStays(After(s0, steps[..|steps| - 1]), steps[|steps| - 1]);
    }
  }

  lemma SizeStays(s: State, step: Step)
    requires Enabled(s, step)
    ensures |Apply(s, step).workers| == |s.workers| && |Apply(s, step).waiters| == |s.waiters|
  {
  }

  /** Without workers the queue only grows, so a sleeper keeps its reason. */
  ghost predicate Unserved(s: State) {
    s.workers == [] && forall c :: 0 <= c < |s.waiters| && (s.waiters[c] == Dozing || s.waiters[c] == Sleeping) ==> s.queue != []
  }

  lemma UnservedStep(s: State, step: Step)
    requires Inv(s) && Unserved(s) && Enabled(s, step)
    ensures Unserved(Apply(s, step))
  {
  }

  lemma {:induction false} UnservedRun(s0: State, steps: seq<Step>)
    requires Init(s0) && s0.workers == [] && IsRun(s0, steps)
    ensures Unserved(After(s0, steps))
  {
    hide Apply, Enabled;
    if steps != [] {
      var before := steps[..|steps| - 1];
      UnservedRun(s0, before);
      InitInv(s0);
      RunInv(s0, before);
      UnservedStep(After(s0, before), steps[|steps| - 1]);
    }
  }

  lemma NotStranded(s0: State, s: State, c: nat)
    requires Init(s0) && ReachableFrom(s0, s) && (s0.workers == [] || |s0.waiters| <= 1)
    ensures !Stranded(s, c)
  {
    hide Stranded, Apply, Enabled;
    var steps :| IsRun(s0, steps) && After(s0, steps) == s;
    InitInv(s0);
    RunInv(s0, steps);
    SizesStay(s0, steps);
    if s0.workers == [] { UnservedRun(s0, steps); }
    JustifiedIsNotStranded(s, c);
  }

  lemma JustifiedIsNotStranded(s: State, c: nat)
    requires CallerAt(s, c, Sleeping) ==> s.queue != [] || s.working > 0
    ensures !Stranded(s, c)
  {
  }

  /** So a caller can be left asleep for ever, with nothing to wait for, exactly
      when there are workers and more than one caller. */
  lemma StrandingExactly(s0: State)
    requires Init(s0)
    ensures (exists s, c :: ReachableFrom(s0, s) && Stranded(s, c)) <==> |s0.workers| >= 1 && |s0.waiters| >= 2
  {
    hide ReachableFrom, Stranded;
    if |s0.workers| >= 1 && |s0.waiters| >= 2 {
      var s := TwoCallersStrand(s0);
    } else {
      forall s, c | ReachableFrom(s0, s) ensures !Stranded(s, c) { NotStranded(s0, s, c); }
    }
  }
}

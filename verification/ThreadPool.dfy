/** The worker pool of `src/thread_pool.cpp`: one mutex, one condition variable, any number of workers
    and one thread that queues jobs and finally destroys the pool. A step is one action of one thread
    between two points where others can run; `pthread_cond_wait` gives up the mutex, may wake up at any
    time, and takes the mutex again. */
module ThreadPool {

  /** Where a worker stands. */
  datatype Pc<Job> =
    | Locking               // before `pthread_mutex_lock`
    | Testing               // at the head of the inner loop, with the mutex
    | Asleep                // inside `pthread_cond_wait`
    | Waking                // awake, about to take the mutex again
    | Taking                // the loop ended on a non-empty queue, with the mutex
    | Holding(job: Job)     // a job is popped, with the mutex
    | Running(job: Job)     // inside `w.f(w.arg)`
    | Leaving               // the loop ended on an empty queue, with the mutex
    | Exited

  /** Where the other thread stands: between calls, in `thread_pool_queue`, or in `thread_pool_destroy`. */
  datatype MainPc<Job> =
    | Idle
    | QueueLock(job: Job) | QueuePush(job: Job) | QueueSignal | QueueUnlock
    | DestroyLock | DestroyStop | DestroyBroadcast | DestroyUnlock
    | Join(k: nat)
    | Returned

  datatype Owner = Free | MainThread | Worker(i: nat)

  /** The pool, and the jobs that were submitted, taken from the queue, and finished, in order. */
  datatype Pool<Job(==)> = Pool(
    owner: Owner, workers: seq<Pc<Job>>, queue: seq<Job>, stopping: bool, main: MainPc<Job>,
    submitted: seq<Job>, started: seq<Job>, finished: seq<Job>)

  /** What the other thread calls when it is between calls. */
  datatype Call<Job> = Queue(job: Job) | Destroy

  /** Which thread moves; a signal wakes the worker `woken`. */
  datatype Label<Job> = WorkerMoves(i: nat) | MainMoves(call: Call<Job>, woken: nat)

  // ---------- steps ----------

  ghost predicate WorkerStep<Job>(p: Pool<Job>, i: nat, p': Pool<Job>) {
    && i < |p.workers|
    && match p.workers[i]
       case Locking => p.owner.Free? && p' == p.(owner := Worker(i), workers := p.workers[i := Testing])
       case Testing =>
         if p.queue == [] && !p.stopping then p' == p.(owner := Free, workers := p.workers[i := Asleep])
         else p' == p.(workers := p.workers[i := if p.queue == [] then Leaving else Taking])
       case Asleep => p' == p.(workers := p.workers[i := Waking])
       case Waking => p.owner.Free? && p' == p.(owner := Worker(i), workers := p.workers[i := Testing])
       case Taking =>
         && p.queue != []
         && p' == p.(workers := p.workers[i := Holding(p.queue[0])], queue := p.queue[1..],
             started := p.started + [p.queue[0]])
       case Holding(job) => p' == p.(owner := Free, workers := p.workers[i := Running(job)])
       case Running(job) => p' == p.(workers := p.workers[i := Locking], finished := p.finished + [job])
       case Leaving => p' == p.(owner := Free, workers := p.workers[i := Exited])
       case Exited => false
  }

  /** `pthread_cond_signal` wakes a sleeping worker if there is one. */
  ghost predicate Signals<Job>(ws: seq<Pc<Job>>, woken: nat, ws': seq<Pc<Job>>) {
    if woken < |ws| && ws[woken].Asleep? then ws' == ws[woken := Waking]
    else ws' == ws && forall i :: 0 <= i < |ws| ==> !ws[i].Asleep?
  }

  function Roused<Job>(pc: Pc<Job>): Pc<Job> { if pc.Asleep? then Waking else pc }

  function AllRoused<Job>(ws: seq<Pc<Job>>): seq<Pc<Job>> {
    seq(|ws|, i requires 0 <= i < |ws| => Roused(ws[i]))
  }

  ghost predicate MainStep<Job>(p: Pool<Job>, call: Call<Job>, woken: nat, p': Pool<Job>) {
    match p.main
    case Idle =>
      (match call
       case Queue(job) =>
         if p.workers == [] then
           p' == p.(submitted := p.submitted + [job], started := p.started + [job], finished := p.finished + [job])
         else p' == p.(main := QueueLock(job))
       case Destroy => p' == p.(main := if p.workers == [] then Returned else DestroyLock))
    case QueueLock(job) => p.owner.Free? && p' == p.(owner := MainThread, main := QueuePush(job))
    case QueuePush(job) => p' == p.(queue := p.queue + [job], submitted := p.submitted + [job], main := QueueSignal)
    case QueueSignal => Signals(p.workers, woken, p'.workers) && p' == p.(workers := p'.workers, main := QueueUnlock)
    case QueueUnlock => p' == p.(owner := Free, main := Idle)
    case DestroyLock => p.owner.Free? && p' == p.(owner := MainThread, main := DestroyStop)
    case DestroyStop => p' == p.(stopping := true, main := DestroyBroadcast)
    case DestroyBroadcast => p' == p.(workers := AllRoused(p.workers), main := DestroyUnlock)
    case DestroyUnlock => p' == p.(owner := Free, main := Join(0))
    case Join(k) =>
      if k < |p.workers| then p.workers[k].Exited? && p' == p.(main := Join(k + 1)) else p' == p.(main := Returned)
    case Returned => false
  }

  ghost predicate Step<Job>(p: Pool<Job>, l: Label<Job>, p': Pool<Job>) {
    match l
    case WorkerMoves(i) => WorkerStep(p, i, p')
    case MainMoves(call, woken) => MainStep(p, call, woken, p')
  }

  /** The pool as `thread_pool_init` leaves it; with no workers, as it is before that. */
  ghost predicate Initial<Job>(p: Pool<Job>) {
    && p.owner.Free? && p.queue == [] && !p.stopping && p.main.Idle?
    && p.submitted == [] && p.started == [] && p.finished == []
    && forall i :: 0 <= i < |p.workers| ==> p.workers[i].Locking?
  }

  // ---------- the invariant ----------

  predicate HasMutex<Job>(pc: Pc<Job>) { pc.Testing? || pc.Taking? || pc.Holding? || pc.Leaving? }

  predicate MainHasMutex<Job>(m: MainPc<Job>) {
    m.QueuePush? || m.QueueSignal? || m.QueueUnlock? || m.DestroyStop? || m.DestroyBroadcast? || m.DestroyUnlock?
  }

  /** At most one thread has the mutex, and `owner` names it. */
  ghost predicate Exclusive<Job>(p: Pool<Job>) {
    && (forall i :: 0 <= i < |p.workers| ==> (HasMutex(p.workers[i]) <==> p.owner == Worker(i)))
    && (MainHasMutex(p.main) <==> p.owner.MainThread?)
    && (p.owner.Worker? ==> p.owner.i < |p.workers|)
  }

  function Hand<Job(==)>(pc: Pc<Job>): multiset<Job> {
    if pc.Holding? || pc.Running? then multiset{pc.job} else multiset{}
  }

  /** The jobs that workers have popped and not finished. */
  function InHand<Job(==)>(ws: seq<Pc<Job>>): multiset<Job> {
    if ws == [] then multiset{} else InHand(ws[..|ws| - 1]) + Hand(ws[|ws| - 1])
  }

  /** Jobs leave the queue in the order they came; one that left it is finished or in one worker's hands. */
  ghost predicate Conserved<Job>(p: Pool<Job>) {
    p.submitted == p.started + p.queue && Accounted(p.started, p.finished, p.workers)
  }

  ghost predicate Accounted<Job>(started: seq<Job>, finished: seq<Job>, ws: seq<Pc<Job>>) {
    multiset(started) == multiset(finished) + InHand(ws)
  }

  predicate Alert<Job>(pc: Pc<Job>) { !pc.Asleep? && !pc.Exited? }

  ghost predicate SomeAlert<Job>(ws: seq<Pc<Job>>) { exists i :: 0 <= i < |ws| && Alert(ws[i]) }

  /** A non-empty queue has a worker that is neither asleep nor gone, except between push and signal. */
  ghost predicate NoLostWakeup<Job>(p: Pool<Job>) {
    p.queue != [] && !p.main.QueueSignal? ==> SomeAlert(p.workers)
  }

  ghost predicate Shutdown<Job>(p: Pool<Job>) {
    && (p.stopping <==>
          || p.main.DestroyBroadcast? || p.main.DestroyUnlock? || p.main.Join?
          || (p.main.Returned? && p.workers != []))
    && (p.main.DestroyUnlock? || p.main.Join? || p.main.Returned? ==> forall i :: 0 <= i < |p.workers| ==>
        !p.workers[i].Asleep?)
    && (forall i :: 0 <= i < |p.workers| ==>
         && (p.workers[i].Leaving? || p.workers[i].Exited? ==> p.stopping && p.queue == [])
         && (p.workers[i].Taking? ==> p.queue != []))
    && (p.main.Join? ==> p.main.k <= |p.workers| && forall i :: 0 <= i < p.main.k ==> p.workers[i].Exited?)
    && (p.main.Returned? ==> forall i :: 0 <= i < |p.workers| ==> p.workers[i].Exited?)
    && (p.workers == [] ==> p.queue == [] && (p.main.Idle? || p.main.Returned?))
  }

  ghost predicate Inv<Job>(p: Pool<Job>) { Exclusive(p) && Conserved(p) && NoLostWakeup(p) && Shutdown(p) }

  // ---------- every step keeps it ----------

  lemma {:induction false} InHandUpdate<Job>(ws: seq<Pc<Job>>, i: nat, pc: Pc<Job>)
    requires i < |ws|
    ensures InHand(ws[i := pc]) + Hand(ws[i]) == InHand(ws) + Hand(pc)
  {
    hide Hand;
    var n, ws' := |ws| - 1, ws[i := pc];
    if i == n {
      assert ws'[..n] == ws[..n];
      assert InHand(ws[..n]) + Hand(pc) + Hand(ws[i]) == InHand(ws[..n]) + Hand(ws[i]) + Hand(pc);
    } else {
      assert ws'[..n] == ws[..n][i := pc];
      InHandUpdate(ws[..n], i, pc);
      assert InHand(ws'[..n]) + Hand(ws[n]) + Hand(ws[i]) == InHand(ws'[..n]) + Hand(ws[i]) + Hand(ws[n]);
      assert InHand(ws[..n]) + Hand(ws[n]) + Hand(pc) == InHand(ws[..n]) + Hand(pc) + Hand(ws[n]);
    }
  }

  lemma {:induction false} InHandRoused<Job>(ws: seq<Pc<Job>>)
    ensures InHand(AllRoused(ws)) == InHand(ws)
  {
    if ws != [] {
      InHandRoused(ws[..|ws| - 1]);
      assert AllRoused(ws)[..|ws| - 1] == AllRoused(ws[..|ws| - 1]);
    }
  }

  lemma {:induction false} InHandNone<Job>(ws: seq<Pc<Job>>)
    requires forall i :: 0 <= i < |ws| ==> !ws[i].Holding? && !ws[i].Running?
    ensures InHand(ws) == multiset{}
  {
    if ws != [] { InHandNone(ws[..|ws| - 1]); }
  }

  lemma InitialInv<Job>(p: Pool<Job>)
    requires Initial(p)
    ensures Inv(p)
  {
    InHandNone(p.workers);
  }

  lemma WorkerExclusive<Job>(p: Pool<Job>, i: nat, p': Pool<Job>)
    requires Exclusive(p) && WorkerStep(p, i, p')
    ensures Exclusive(p')
  {}

  lemma WorkerConserved<Job>(p: Pool<Job>, i: nat, p': Pool<Job>)
    requires Conserved(p) && WorkerStep(p, i, p')
    ensures Conserved(p')
  {
    hide Accounted;
    var ws := p.workers;
    if ws[i].Taking? {
      TakenInOrder(p.started, p.queue);
      AccountTaken(p.started, p.finished, ws, i, p.queue[0]);
    } else if ws[i].Running? {
      AccountFinished(p.started, p.finished, ws, i, ws[i].job);
    } else {
      AccountMoved(p.started, p.finished, ws, i, p'.workers[i]);
    }
  }

  lemma TakenInOrder<Job>(started: seq<Job>, queue: seq<Job>)
    requires queue != []
    ensures started + queue == started + [queue[0]] + queue[1..]
  {}

  lemma AccountTaken<Job>(started: seq<Job>, finished: seq<Job>, ws: seq<Pc<Job>>, i: nat, job: Job)
    requires i < |ws| && Accounted(started, finished, ws) && Hand(ws[i]) == multiset{}
    ensures Accounted(started + [job], finished, ws[i := Holding(job)])
  {
    InHandUpdate(ws, i, Holding(job));
    OneTaken(started, finished, InHand(ws), InHand(ws[i := Holding(job)]), job);
  }

  lemma AccountFinished<Job>(started: seq<Job>, finished: seq<Job>, ws: seq<Pc<Job>>, i: nat, job: Job)
    requires i < |ws| && Accounted(started, finished, ws) && ws[i] == Running(job)
    ensures Accounted(started, finished + [job], ws[i := Locking])
  {
    InHandUpdate(ws, i, Locking);
    OneFinished(started, finished, InHand(ws), InHand(ws[i := Locking]), job);
  }

  lemma AccountMoved<Job>(started: seq<Job>, finished: seq<Job>, ws: seq<Pc<Job>>, i: nat, pc: Pc<Job>)
    requires i < |ws| && Accounted(started, finished, ws) && Hand(ws[i]) == Hand(pc)
    ensures Accounted(started, finished, ws[i := pc])
  {
    InHandUpdate(ws, i, pc);
    SameRest(InHand(ws[i := pc]), InHand(ws), Hand(pc));
  }

  lemma AccountInline<Job>(started: seq<Job>, finished: seq<Job>, ws: seq<Pc<Job>>, job: Job)
    requires Accounted(started, finished, ws)
    ensures Accounted(started + [job], finished + [job], ws)
  {
    var hand := InHand(ws);
    assert multiset(finished) + hand + multiset{job} == multiset(finished) + multiset{job} + hand;
  }

  lemma OneTaken<Job>(started: seq<Job>, finished: seq<Job>, hand: multiset<Job>, hand': multiset<Job>, job: Job)
    requires multiset(started) == multiset(finished) + hand && hand' + multiset{} == hand + multiset{job}
    ensures multiset(started + [job]) == multiset(finished) + hand'
  {
    SameRest(hand', hand + multiset{job}, multiset{});
    assert multiset(finished) + (hand + multiset{job}) == multiset(finished) + hand + multiset{job};
  }

  lemma OneFinished<Job>(started: seq<Job>, finished: seq<Job>, hand: multiset<Job>, hand': multiset<Job>, job: Job)
    requires multiset(started) == multiset(finished) + hand && hand' + multiset{job} == hand + multiset{}
    ensures multiset(started) == multiset(finished + [job]) + hand'
  {
    SameRest(hand' + multiset{job}, hand, multiset{});
    assert multiset(finished) + (hand' + multiset{job}) == multiset(finished) + multiset{job} + hand';
  }

  lemma SameRest<Job>(a: multiset<Job>, b: multiset<Job>, h: multiset<Job>)
    requires a + h == b + h
    ensures a == b
  {
    assert a == a + h - h && b == b + h - h;
  }

  lemma WorkerShutdown<Job>(p: Pool<Job>, i: nat, p': Pool<Job>)
    requires Exclusive(p) && Shutdown(p) && WorkerStep(p, i, p')
    ensures Shutdown(p')
  {}

  lemma WorkerWakeup<Job>(p: Pool<Job>, i: nat, p': Pool<Job>)
    requires NoLostWakeup(p) && Shutdown(p) && WorkerStep(p, i, p')
    ensures NoLostWakeup(p')
  {
    if p'.queue != [] && !p'.main.QueueSignal? {
      var k :| 0 <= k < |p.workers| && Alert(p.workers[k]);
      assert Alert(p'.workers[k]);
    }
  }

  lemma MainExclusive<Job>(p: Pool<Job>, call: Call<Job>, woken: nat, p': Pool<Job>)
    requires Exclusive(p) && MainStep(p, call, woken, p')
    ensures Exclusive(p')
  {}

  lemma MainConserved<Job>(p: Pool<Job>, call: Call<Job>, woken: nat, p': Pool<Job>)
    requires Conserved(p) && Shutdown(p) && MainStep(p, call, woken, p')
    ensures Conserved(p')
  {
    hide Accounted;
    if p.main.QueuePush? {
      assert p.started + (p.queue + [p.main.job]) == p.started + p.queue + [p.main.job];
    } else if p.main.Idle? && call.Queue? && p.workers == [] {
      assert p.started + p.queue == p.started;
      AccountInline(p.started, p.finished, p.workers, call.job);
    } else if p.main.QueueSignal? && p'.workers != p.workers {
      AccountMoved(p.started, p.finished, p.workers, woken, Waking);
    } else if p.main.DestroyBroadcast? {
      AccountRoused(p.started, p.finished, p.workers);
    }
  }

  lemma AccountRoused<Job>(started: seq<Job>, finished: seq<Job>, ws: seq<Pc<Job>>)
    requires Accounted(started, finished, ws)
    ensures Accounted(started, finished, AllRoused(ws))
  {
    InHandRoused(ws);
  }

  lemma MainShutdown<Job>(p: Pool<Job>, call: Call<Job>, woken: nat, p': Pool<Job>)
    requires Exclusive(p) && Shutdown(p) && MainStep(p, call, woken, p')
    ensures Shutdown(p')
  {}

  lemma MainWakeup<Job>(p: Pool<Job>, call: Call<Job>, woken: nat, p': Pool<Job>)
    requires NoLostWakeup(p) && Shutdown(p) && MainStep(p, call, woken, p')
    ensures NoLostWakeup(p')
  {
    if p'.queue != [] && p.main.QueueSignal? {
      if woken < |p.workers| && p.workers[woken].Asleep? {
        assert Alert(p'.workers[woken]);
      } else {
        assert Alert(p'.workers[0]);
      }
    } else if p'.queue != [] && p.main.DestroyBroadcast? {
      var k :| 0 <= k < |p.workers| && Alert(p.workers[k]);
      assert Alert(p'.workers[k]);
    }
  }

  lemma StepKeeps<Job>(p: Pool<Job>, l: Label<Job>, p': Pool<Job>)
    requires Inv(p) && Step(p, l, p')
    ensures Inv(p')
  {
    hide WorkerStep, MainStep, Exclusive, Conserved, NoLostWakeup, Shutdown;
    match l
    case WorkerMoves(i) =>
      WorkerExclusive(p, i, p');
      WorkerConserved(p, i, p');
      WorkerShutdown(p, i, p');
      WorkerWakeup(p, i, p');
    case MainMoves(call, woken) =>
      MainExclusive(p, call, woken, p');
      MainConserved(p, call, woken, p');
      MainShutdown(p, call, woken, p');
      MainWakeup(p, call, woken, p');
  }

  // ---------- whole runs ----------

  ghost predicate IsRun<Job>(states: seq<Pool<Job>>, labels: seq<Label<Job>>) {
    |states| == |labels| + 1 && forall i :: 0 <= i < |labels| ==> Step(states[i], labels[i], states[i + 1])
  }

  lemma {:induction false} RunKeeps<Job>(states: seq<Pool<Job>>, labels: seq<Label<Job>>, k: nat)
    requires IsRun(states, labels) && Inv(states[0]) && k < |states|
    ensures Inv(states[k])
  {
    if k > 0 {
      RunKeeps(states, labels, k - 1);
      StepKeeps(states[k - 1], labels[k - 1], states[k]);
    }
  }

  /** The job that a step starts to submit: the other thread, between calls, calls `thread_pool_queue`. */
  function Asked<Job(==)>(p: Pool<Job>, l: Label<Job>): seq<Job> {
    if l.MainMoves? && p.main.Idle? && l.call.Queue? then [l.call.job] else []
  }

  /** The jobs of all calls of `thread_pool_queue`, in order. */
  function Calls<Job(==)>(states: seq<Pool<Job>>, labels: seq<Label<Job>>): seq<Job>
    requires |states| >= |labels|
  {
    if labels == [] then []
    else
      var n := |labels| - 1;
      Calls(states, labels[..n]) + Asked(states[n], labels[n])
  }

  /** The job of a call that has not pushed it yet. */
  function InCall<Job>(m: MainPc<Job>): seq<Job> { if m.QueueLock? || m.QueuePush? then [m.job] else [] }

  lemma CallStep<Job>(p: Pool<Job>, l: Label<Job>, p': Pool<Job>)
    requires Step(p, l, p')
    ensures p'.submitted + InCall(p'.main) == p.submitted + InCall(p.main) + Asked(p, l)
  {}

  /** No call is lost: what was submitted, and what a call still holds, are the jobs of the calls. */
  lemma {:induction false} EveryCallCounts<Job>(states: seq<Pool<Job>>, labels: seq<Label<Job>>, k: nat)
    requires IsRun(states, labels) && Initial(states[0]) && k < |states|
    ensures states[k].submitted + InCall(states[k].main) == Calls(states, labels[..k])
  {
    hide Step;
    if k > 0 {
      EveryCallCounts(states, labels, k - 1);
      CallStep(states[k - 1], labels[k - 1], states[k]);
      assert labels[..k][..k - 1] == labels[..k - 1];
    }
  }

  /** In every interleaving, at every moment: the jobs taken, the jobs queued and the job of a call under way
      are the jobs of all calls, in order; a job taken is finished or in one worker's hands; and a non-empty
      queue has a worker that will see it. */
  lemma EveryInterleaving<Job>(states: seq<Pool<Job>>, labels: seq<Label<Job>>, k: nat)
    requires IsRun(states, labels) && Initial(states[0]) && k < |states|
    ensures var p := states[k];
            && p.started + p.queue + InCall(p.main) == Calls(states, labels[..k])
            && multiset(p.started) == multiset(p.finished) + InHand(p.workers)
            && (p.queue != [] && !p.main.QueueSignal? ==> SomeAlert(p.workers))
  {
    InitialInv(states[0]);
    RunKeeps(states, labels, k);
    EveryCallCounts(states, labels, k);
  }

  /** When `thread_pool_destroy` returns, the job of every call has run exactly once and no thread is left. */
  lemma DrainedOnReturn<Job>(states: seq<Pool<Job>>, labels: seq<Label<Job>>, k: nat)
    requires IsRun(states, labels) && Initial(states[0]) && k < |states| && states[k].main.Returned?
    ensures var p := states[k];
            && p.queue == [] && multiset(p.finished) == multiset(Calls(states, labels[..k]))
            && forall i :: 0 <= i < |p.workers| ==> p.workers[i].Exited?
  {
    hide Step, Calls;
    InitialInv(states[0]);
    RunKeeps(states, labels, k);
    EveryCallCounts(states, labels, k);
    var p := states[k];
    assert p.workers != [] ==> p.workers[0].Exited?;
    assert p.queue == [] && p.started + p.queue == p.started && p.submitted + InCall(p.main) == p.submitted;
    InHandNone(p.workers);
    assert multiset(p.finished) + multiset{} == multiset(p.finished);
  }

  // ---------- progress ----------

  /** While a job waits or a call is under way, some thread can move, and not by waking up for no reason. */
  lemma NoDeadlock<Job>(p: Pool<Job>) returns (l: Label<Job>, p': Pool<Job>)
    requires Inv(p) && !p.main.Returned? && (p.main.Idle? ==> p.queue != [])
    ensures Step(p, l, p')
    ensures l.WorkerMoves? ==> !p.workers[l.i].Asleep?
    ensures l.MainMoves? ==> !p.main.Idle?
  {
    if p.owner.Worker? {
      l, p' := HolderMoves(p, p.owner.i);
    } else if p.main.Idle? {
      var k :| 0 <= k < |p.workers| && Alert(p.workers[k]);
      l, p' := LoneWorkerMoves(p, k);
    } else if p.main.Join? && p.main.k < |p.workers| && !p.workers[p.main.k].Exited? {
      l, p' := LoneWorkerMoves(p, p.main.k);
    } else {
      l, p' := MainCanMove(p);
    }
  }

  lemma HolderMoves<Job>(p: Pool<Job>, i: nat) returns (l: Label<Job>, p': Pool<Job>)
    requires Inv(p) && p.owner == Worker(i)
    ensures l == WorkerMoves(i) && Step(p, l, p') && !p.workers[i].Asleep?
  {
    hide Conserved, NoLostWakeup;
    l := WorkerMoves(i);
    match p.workers[i]
    case Testing =>
      p' := if p.queue == [] && !p.stopping then p.(owner := Free, workers := p.workers[i := Asleep])
            else p.(workers := p.workers[i := if p.queue == [] then Leaving else Taking]);
    case Taking => p' := p.(workers := p.workers[i := Holding(p.queue[0])], queue := p.queue[1..],
        started := p.started + [p.queue[0]]);
    case Holding(job) => p' := p.(owner := Free, workers := p.workers[i := Running(job)]);
    case Leaving => p' := p.(owner := Free, workers := p.workers[i := Exited]);
  }

  lemma LoneWorkerMoves<Job>(p: Pool<Job>, i: nat) returns (l: Label<Job>, p': Pool<Job>)
    requires Inv(p) && i < |p.workers| && Alert(p.workers[i]) && p.owner.Free?
    ensures l == WorkerMoves(i) && Step(p, l, p') && !p.workers[i].Asleep?
  {
    hide Conserved, NoLostWakeup, Shutdown;
    l := WorkerMoves(i);
    match p.workers[i]
    case Locking => p' := p.(owner := Worker(i), workers := p.workers[i := Testing]);
    case Waking => p' := p.(owner := Worker(i), workers := p.workers[i := Testing]);
    case Running(job) => p' := p.(workers := p.workers[i := Locking], finished := p.finished + [job]);
  }

  lemma MainCanMove<Job>(p: Pool<Job>) returns (l: Label<Job>, p': Pool<Job>)
    requires Inv(p) && !p.owner.Worker? && !p.main.Idle? && !p.main.Returned?
    requires p.main.Join? && p.main.k < |p.workers| ==> p.workers[p.main.k].Exited?
    ensures l.MainMoves? && Step(p, l, p')
  {
    hide Conserved, NoLostWakeup, Shutdown;
    var woken := SomeSleeper(p.workers);
    l := MainMoves(Destroy, woken);
    match p.main
    case QueueLock(job) => p' := p.(owner := MainThread, main := QueuePush(job));
    case QueuePush(job) => p' := p.(queue := p.queue + [job], submitted := p.submitted + [job], main := QueueSignal);
    case QueueSignal => p' := p.(workers := if woken < |p.workers| then p.workers[woken := Waking] else p.workers,
        main := QueueUnlock);
    case QueueUnlock => p' := p.(owner := Free, main := Idle);
    case DestroyLock => p' := p.(owner := MainThread, main := DestroyStop);
    case DestroyStop => p' := p.(stopping := true, main := DestroyBroadcast);
    case DestroyBroadcast => p' := p.(workers := AllRoused(p.workers), main := DestroyUnlock);
    case DestroyUnlock => p' := p.(owner := Free, main := Join(0));
    case Join(k) => p' := p.(main := if k < |p.workers| then Join(k + 1) else Returned);
  }

  lemma SomeSleeper<Job>(ws: seq<Pc<Job>>) returns (i: nat)
    ensures i < |ws| ==> ws[i].Asleep?
    ensures i >= |ws| ==> forall k :: 0 <= k < |ws| ==> !ws[k].Asleep?
  {
    if k :| 0 <= k < |ws| && ws[k].Asleep? { i := k; } else { i := |ws|; }
  }

  /** `thread_pool_destroy` has woken everybody and only waits. */
  predicate Joining<Job>(p: Pool<Job>) { p.main.DestroyUnlock? || p.main.Join? }

  function PcRank<Job>(pc: Pc<Job>): nat {
    match pc
    case Exited => 0
    case Leaving => 1
    case Taking => 1
    case Testing => 2
    case Locking => 3
    case Waking => 3
    case Asleep => 4
    case Running(_) => 4
    case Holding(_) => 5
  }

  function Ranks<Job>(ws: seq<Pc<Job>>): nat { if ws == [] then 0 else Ranks(ws[..|ws| - 1]) + PcRank(ws[|ws| - 1]) }

  /** How many steps are left, at most. */
  function Rank<Job>(p: Pool<Job>): nat {
    5 * |p.queue| + Ranks(p.workers) +
    match p.main
    case DestroyUnlock => |p.workers| + 2
    case Join(k) => if k <= |p.workers| then |p.workers| - k + 1 else 0
    case _ => 0
  }

  lemma {:induction false} RanksUpdate<Job>(ws: seq<Pc<Job>>, i: nat, pc: Pc<Job>)
    requires i < |ws|
    ensures Ranks(ws[i := pc]) + PcRank(ws[i]) == Ranks(ws) + PcRank(pc)
  {
    hide PcRank;
    var n, ws' := |ws| - 1, ws[i := pc];
    if i == n {
      assert ws'[..n] == ws[..n];
    } else {
      assert ws'[..n] == ws[..n][i := pc];
      RanksUpdate(ws[..n], i, pc);
    }
  }

  lemma JoinDescends<Job>(p: Pool<Job>, l: Label<Job>, p': Pool<Job>)
    requires Inv(p) && Joining(p) && Step(p, l, p')
    ensures (Joining(p') || p'.main.Returned?) && Rank(p') < Rank(p)
  {
    hide Conserved, NoLostWakeup, Exclusive;
    if l.WorkerMoves? { RanksUpdate(p.workers, l.i, p'.workers[l.i]); }
  }

  /** From there on no run is longer than the rank; and a run that has not returned can go on, by a step that
      is not a spurious wake-up. So however the threads interleave, `thread_pool_destroy` returns. */
  lemma {:induction false} DestroyReturns<Job>(states: seq<Pool<Job>>, labels: seq<Label<Job>>)
    returns (l: Label<Job>, p': Pool<Job>)
    requires IsRun(states, labels) && Inv(states[0]) && Joining(states[0])
    ensures |labels| <= Rank(states[0])
    ensures var p := states[|labels|]; Inv(p) && (p.main.Returned? || (Joining(p) && Step(p, l, p')))
    decreases |labels|
  {
    hide Step, Inv, Rank;
    if labels == [] {
      l, p' := NoDeadlock(states[0]);
    } else {
      StepKeeps(states[0], labels[0], states[1]);
      JoinDescends(states[0], labels[0], states[1]);
      if Joining(states[1]) {
        l, p' := DestroyReturns(states[1..], labels[1..]);
      } else {
        NothingAfterReturn(states[1..], labels[1..]);
        l, p' := labels[0], states[1];
      }
    }
  }

  lemma NothingAfterReturn<Job>(states: seq<Pool<Job>>, labels: seq<Label<Job>>)
    requires IsRun(states, labels) && Inv(states[0]) && states[0].main.Returned?
    ensures labels == []
  {
    hide Step, Inv;
    if labels != [] { ReturnedIsFinal(states[0], labels[0], states[1]); }
  }

  lemma ReturnedIsFinal<Job>(p: Pool<Job>, l: Label<Job>, p': Pool<Job>)
    requires Inv(p) && p.main.Returned?
    ensures !Step(p, l, p')
  {}
}

/** Counting the copier threads of the SFTP store. */
module SshThreads {

  import opened SshNet

  /** The client's count of threads: those that will wait for a task again, and those that were told
      to stop but whose response it has not seen. */
  ghost predicate Crew(net: Net, nthreads: nat) {
    nthreads == Alive(net.workers) + Dying(net.workers) + DieResponses(net.resq)
  }

  /** No thread was told to stop. */
  ghost predicate Calm(net: Net) {
    DieTasks(net.taskq) == 0 && Dying(net.workers) == 0 && DieResponses(net.resq) == 0
  }

  /** As many threads are alive as orders to stop are in the queue or (`more`) will still be put
      there, and such an order is last in the queue. */
  ghost predicate Closing(net: Net, more: nat) {
    && DieTasks(net.taskq) + more == Alive(net.workers)
    && (net.taskq != [] ==> net.taskq[|net.taskq| - 1].job.command == DIE)
  }

  lemma {:induction false} LastDies(taskq: seq<Task>)
    requires taskq != [] && taskq[|taskq| - 1].job.command == DIE
    ensures DieTasks(taskq) > 0
  {
    if |taskq| > 1 {
      LastDies(taskq[1..]);
    }
  }

  lemma StepCounts(net: Net, w: nat)
    ensures var net' := net.Step(w);
            && Alive(net'.workers) + Dying(net'.workers) + DieResponses(net'.resq)
               == Alive(net.workers) + Dying(net.workers) + DieResponses(net.resq)
            && DieTasks(net'.taskq) + Alive(net.workers) == DieTasks(net.taskq) + Alive(net'.workers)
  {
    if Enabled(net, w) {
      var x := net.Step(w).workers[w];
      AliveUpdate(net.workers, w, x);
      DyingUpdate(net.workers, w, x);
      if net.workers[w].Performed? {
        DieResponsesAppend(net.resq, net.workers[w].response);
      }
    }
  }

  lemma StepCrew(net: Net, nthreads: nat, w: nat)
    requires Crew(net, nthreads)
    ensures Crew(net.Step(w), nthreads)
    ensures Calm(net) ==> Calm(net.Step(w))
    ensures forall more: nat :: Closing(net, more) ==> Closing(net.Step(w), more)
  {
    StepCounts(net, w);
    if Calm(net) {
      StepCalm(net, w);
    }
    if Enabled(net, w) && net.workers[w].Idle? && |net.taskq| > 1 {
      assert net.taskq[1..][|net.taskq| - 2] == net.taskq[|net.taskq| - 1];
    }
  }

  lemma StepCalm(net: Net, w: nat)
    requires Calm(net)
    ensures Calm(net.Step(w))
  {
    if Enabled(net, w) {
      var x := net.Step(w).workers[w];
      DyingUpdate(net.workers, w, x);
      if net.workers[w].Performed? {
        DieResponsesAppend(net.resq, net.workers[w].response);
      }
    }
  }

  lemma {:induction false} RunCrew(net: Net, nthreads: nat, schedule: seq<nat>)
    requires Crew(net, nthreads)
    ensures Crew(net.Run(schedule), nthreads)
    ensures Calm(net) ==> Calm(net.Run(schedule))
    ensures forall more: nat :: Closing(net, more) ==> Closing(net.Run(schedule), more)
    decreases |schedule|
  {
    hide Crew, Calm, Closing, Net.Step;
    if schedule != [] {
      StepCrew(net, nthreads, schedule[0]);
      RunCrew(net.Step(schedule[0]), nthreads, schedule[1..]);
    }
  }

  lemma PutCrew(net: Net, nthreads: nat, t: Task)
    requires Crew(net, nthreads)
    ensures Crew(net.Put(t), nthreads)
    ensures Calm(net) && t.job.command != DIE ==> Calm(net.Put(t))
    ensures t.job.command == DIE && Calm(net) && Alive(net.workers) > 0 ==>
              Closing(net.Put(t), Alive(net.workers) - 1)
    ensures forall more: nat :: t.job.command == DIE && more > 0 && Closing(net, more) ==> Closing(net.Put(t), more - 1)
  {
    DieTasksAppend(net.taskq, t);
  }

  /** The client takes a response off the queue. */
  lemma ProcessCrew(net: Net, nthreads: nat)
    requires Crew(net, nthreads) && net.resq != []
    ensures net.resq[0].job.command == DIE ==> nthreads > 0
    ensures var seen := if net.resq[0].job.command == DIE then 1 else 0;
            Crew(net.(resq := net.resq[1..]), nthreads - seen)
    ensures Calm(net) ==> net.resq[0].job.command != DIE && Calm(net.(resq := net.resq[1..]))
    ensures forall more: nat :: Closing(net, more) ==> Closing(net.(resq := net.resq[1..]), more)
  {
  }

  /** With a job under way and threads running, a thread can step as long as there is no response. */
  lemma AwaitEnabled(net: Net, nthreads: nat, job: Job)
    requires Crew(net, nthreads) && Calm(net) && nthreads > 0
    requires job in net.Jobs() && net.resq == []
    ensures exists w :: Enabled(net, w)
  {
    assert job in Queued(net.taskq) || job in Held(net.workers);
    SomeEnabled(net);
  }

  lemma JoinEnabled(net: Net)
    requires Closing(net, 0) && !net.AllDone()
    ensures exists w :: Enabled(net, w)
  {
    if net.taskq != [] {
      LastDies(net.taskq);
    }
    SomeEnabled(net);
  }

  lemma {:induction false} NoneDying(workers: seq<Worker>)
    requires forall w <- workers :: w.Idle? || w.Dead?
    ensures Dying(workers) == 0
  {
    if workers != [] {
      assert workers[0] in workers;
      NoneDying(workers[1..]);
    }
  }

  /** When all is done after closing, every thread has stopped. */
  lemma AllDoneClosed(net: Net, nthreads: nat)
    requires Closing(net, 0) && Crew(net, nthreads) && net.AllDone()
    ensures Alive(net.workers) == 0
    ensures nthreads == DieResponses(net.resq)
    ensures net.resq == [] ==> nthreads == 0 && Calm(net)
  {
    NoneDying(net.workers);
  }

  lemma {:induction false} IdleThreads(workers: seq<Worker>, n: nat)
    ensures Alive(workers + seq(n, _ => Idle)) == Alive(workers) + n
    ensures Dying(workers + seq(n, _ => Idle)) == Dying(workers)
    decreases |workers|, n
  {
    if workers != [] {
      assert (workers + seq(n, _ => Idle))[1..] == workers[1..] + seq(n, _ => Idle);
      IdleThreads(workers[1..], n);
    } else if n > 0 {
      assert workers + seq(n, _ => Idle) == seq(n, _ => Idle);
      assert seq(n, _ => Idle)[1..] == workers + seq(n - 1, _ => Idle);
      IdleThreads(workers, n - 1);
    }
  }

  /** When all is done, the threads have nothing to do. */
  lemma {:induction false} RunAllDone(net: Net, schedule: seq<nat>)
    requires net.AllDone()
    ensures net.Run(schedule) == net
    decreases |schedule|
  {
    if schedule != [] {
      var w := schedule[0];
      if w < |net.workers| {
        assert net.workers[w] in net.workers;
      }
      assert net.Step(w) == net;
      RunAllDone(net, schedule[1..]);
    }
  }

  lemma NoJobs(net: Net)
    requires net.AllDone() && net.resq == []
    ensures net.Jobs() == {}
  {
  }

  /** Only the client puts tasks into the queue. */
  lemma {:induction false} RunEmpty(net: Net, schedule: seq<nat>)
    requires net.taskq == []
    ensures net.Run(schedule).taskq == []
    decreases |schedule|
  {
    if schedule != [] {
      RunEmpty(net.Step(schedule[0]), schedule[1..]);
    }
  }

  /** No thread is left that could do anything. */
  ghost predicate Unmanned(net: Net) {
    Alive(net.workers) == 0 && Dying(net.workers) == 0
  }

  lemma {:induction false} RestsAt(workers: seq<Worker>, w: nat)
    requires Alive(workers) == 0 && Dying(workers) == 0 && w < |workers|
    ensures workers[w].Dead? || workers[w] == Replied(true)
  {
    if w > 0 {
      RestsAt(workers[1..], w - 1);
    }
  }

  /** Without threads, nothing that the client can see changes. */
  lemma {:induction false} RunUnmanned(net: Net, schedule: seq<nat>)
    requires Unmanned(net)
    ensures var net' := net.Run(schedule);
            net'.taskq == net.taskq && net'.resq == net.resq && net'.remote == net.remote && Unmanned(net')
    decreases |schedule|
  {
    if schedule != [] {
      var w := schedule[0];
      if w < |net.workers| {
        RestsAt(net.workers, w);
        AliveUpdate(net.workers, w, net.Step(w).workers[w]);
        DyingUpdate(net.workers, w, net.Step(w).workers[w]);
        assert net.workers[w := Dead] == net.Step(w).workers;
      }
      RunUnmanned(net.Step(w), schedule[1..]);
    }
  }

  // ---------------------------------------------------------------- closing unseen

  lemma {:induction false} HeldByDead(workers: seq<Worker>, w: nat)
    requires Alive(workers) == 0 && w < |workers| && Holds(workers[w])
    ensures JobOf(workers[w]).command == DIE
  {
    if w > 0 {
      HeldByDead(workers[1..], w - 1);
    }
  }

  /** When all orders to stop were taken and there is no response, nothing else is under way. */
  lemma OnlyDying(net: Net)
    requires Closing(net, 0) && net.taskq == [] && net.resq == []
    ensures forall job <- net.Jobs() :: job.command == DIE
  {
    forall job | job in net.Jobs()
      ensures job.command == DIE
    {
      var x :| x in net.workers && Holds(x) && JobOf(x) == job;
      var w :| 0 <= w < |net.workers| && net.workers[w] == x;
      HeldByDead(net.workers, w);
    }
  }

  lemma {:induction false} NoDieTask(taskq: seq<Task>)
    requires DieTasks(taskq) == 0
    ensures forall t <- taskq :: t.job.command != DIE
  {
    if taskq != [] {
      NoDieTask(taskq[1..]);
    }
  }

  lemma {:induction false} NoDieHeld(workers: seq<Worker>)
    requires Dying(workers) == 0
    ensures forall w <- workers :: Holds(w) ==> JobOf(w).command != DIE
  {
    if workers != [] {
      NoDieHeld(workers[1..]);
    }
  }

  lemma {:induction false} NoDieResponse(resq: seq<Response>)
    requires DieResponses(resq) == 0
    ensures forall r <- resq :: r.job.command != DIE
  {
    if resq != [] {
      NoDieResponse(resq[1..]);
    }
  }

  lemma CalmJobs(net: Net)
    requires Calm(net)
    ensures forall job <- net.Jobs() :: job.command != DIE
  {
    NoDieTask(net.taskq);
    NoDieHeld(net.workers);
    NoDieResponse(net.resq);
  }
}

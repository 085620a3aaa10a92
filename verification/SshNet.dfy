/** The part of the SFTP store that its threads share: a queue of tasks, the copier threads, a queue of
    responses and the files on the remote host.  File operations succeed: removing a file that does not
    exist does nothing, and reading one gives nothing. */
module SshNet {

  type Bytes = seq<bv8>

  datatype CopyOp = GET | PUT | DEL | DIE

  /** What a task and its response have in common. */
  datatype Job = Job(command: CopyOp, id: nat, index: nat)

  /** `contents` is what a PUT writes. */
  datatype Task = Task(job: Job, contents: Bytes)

  /** `contents` is what a GET has read. */
  datatype Response = Response(job: Job, contents: Bytes)

  /** Where a copier thread is in its loop: waiting for a task, holding one, holding the response of
      one that it performed, about to mark it done, or finished. */
  datatype Worker = Idle | Taken(task: Task) | Performed(response: Response) | Replied(die: bool) | Dead

  type Remote = map<nat, Bytes>

  datatype Net = Net(taskq: seq<Task>, workers: seq<Worker>, resq: seq<Response>, remote: Remote)
  {
    /** One step of copier thread w; waiting on an empty queue changes nothing. */
    function Step(w: nat): Net {
      if w >= |workers| then this
      else
        match workers[w]
        case Idle =>
          if taskq == [] then this
          else this.(taskq := taskq[1..], workers := workers[w := Taken(taskq[0])])
        case Taken(task) =>
          this.(workers := workers[w := Performed(Reply(task, remote))], remote := Perform(task, remote))
        case Performed(response) =>
          this.(workers := workers[w := Replied(response.job.command == DIE)], resq := resq + [response])
        case Replied(die) =>
          this.(workers := workers[w := if die then Dead else Idle])
        case Dead => this
    }

    /** The threads that a schedule names make one step each, in this order. */
    function Run(schedule: seq<nat>): Net
      decreases |schedule|
    {
      if schedule == [] then this else Step(schedule[0]).Run(schedule[1..])
    }

    function Put(task: Task): Net {
      this.(taskq := taskq + [task])
    }

    /** No task is in the queue or being worked on, which is what joining the queue waits for. */
    predicate AllDone() {
      taskq == [] && forall w <- workers :: w.Idle? || w.Dead?
    }

    /** The jobs whose responses were not processed yet. */
    ghost function Jobs(): set<Job> {
      Queued(taskq) + Held(workers) + Answered(resq)
    }

    /** How much is left to do for the threads and for the client. */
    ghost function Work(): nat {
      5 * |taskq| + Total(workers) + |resq|
    }
  }

  function Reply(task: Task, remote: Remote): Response {
    Response(task.job, if task.job.command == GET && task.job.index in remote then remote[task.job.index] else [])
  }

  function Perform(task: Task, remote: Remote): Remote {
    match task.job.command
    case GET => remote
    case PUT => remote[task.job.index := task.contents]
    case DEL => remote - {task.job.index}
    case DIE => remote
  }

  predicate Holds(w: Worker) {
    w.Taken? || w.Performed?
  }

  function JobOf(w: Worker): Job
    requires Holds(w)
  {
    if w.Taken? then w.task.job else w.response.job
  }

  ghost function Queued(taskq: seq<Task>): set<Job> {
    set t <- taskq :: t.job
  }

  ghost function Held(workers: seq<Worker>): set<Job> {
    set w <- workers | Holds(w) :: JobOf(w)
  }

  ghost function HeldBy(w: Worker): set<Job> {
    if Holds(w) then {JobOf(w)} else {}
  }

  ghost function Answered(resq: seq<Response>): set<Job> {
    set r <- resq :: r.job
  }

  ghost function Cost(w: Worker): nat {
    match w
    case Idle => 0
    case Taken(_) => 4
    case Performed(_) => 3
    case Replied(_) => 1
    case Dead => 0
  }

  ghost function Total(workers: seq<Worker>): nat {
    if workers == [] then 0 else Cost(workers[0]) + Total(workers[1..])
  }

  /** The threads that will wait for another task. */
  ghost function Alive(workers: seq<Worker>): nat {
    if workers == [] then 0 else (if Lives(workers[0]) then 1 else 0) + Alive(workers[1..])
  }

  predicate Lives(w: Worker) {
    match w
    case Idle => true
    case Taken(task) => task.job.command != DIE
    case Performed(response) => response.job.command != DIE
    case Replied(die) => !die
    case Dead => false
  }

  /** The threads that hold an order to stop which the client does not know was followed. */
  ghost function Dying(workers: seq<Worker>): nat {
    if workers == [] then 0
    else (if Holds(workers[0]) && JobOf(workers[0]).command == DIE then 1 else 0) + Dying(workers[1..])
  }

  ghost function DieTasks(taskq: seq<Task>): nat {
    if taskq == [] then 0 else (if taskq[0].job.command == DIE then 1 else 0) + DieTasks(taskq[1..])
  }

  ghost function DieResponses(resq: seq<Response>): nat {
    if resq == [] then 0 else (if resq[0].job.command == DIE then 1 else 0) + DieResponses(resq[1..])
  }

  // ---------------------------------------------------------------- counting

  lemma {:induction false} TotalUpdate(workers: seq<Worker>, w: nat, x: Worker)
    requires w < |workers|
    ensures Total(workers[w := x]) == Total(workers) - Cost(workers[w]) + Cost(x)
  {
    if w > 0 {
      assert workers[w := x][1..] == workers[1..][w - 1 := x];
      TotalUpdate(workers[1..], w - 1, x);
    } else {
      assert workers[w := x][1..] == workers[1..];
    }
  }

  lemma {:induction false} AliveUpdate(workers: seq<Worker>, w: nat, x: Worker)
    requires w < |workers|
    ensures Alive(workers[w := x])
            == Alive(workers) - (if Lives(workers[w]) then 1 else 0) + (if Lives(x) then 1 else 0)
  {
    if w > 0 {
      assert workers[w := x][1..] == workers[1..][w - 1 := x];
      AliveUpdate(workers[1..], w - 1, x);
    } else {
      assert workers[w := x][1..] == workers[1..];
    }
  }

  lemma {:induction false} DyingUpdate(workers: seq<Worker>, w: nat, x: Worker)
    requires w < |workers|
    ensures Dying(workers[w := x])
            == Dying(workers) - (if Holds(workers[w]) && JobOf(workers[w]).command == DIE then 1 else 0)
               + (if Holds(x) && JobOf(x).command == DIE then 1 else 0)
  {
    if w > 0 {
      assert workers[w := x][1..] == workers[1..][w - 1 := x];
      DyingUpdate(workers[1..], w - 1, x);
    } else {
      assert workers[w := x][1..] == workers[1..];
    }
  }

  lemma {:induction false} DieResponsesAppend(resq: seq<Response>, r: Response)
    ensures DieResponses(resq + [r]) == DieResponses(resq) + if r.job.command == DIE then 1 else 0
  {
    if resq != [] {
      assert (resq + [r])[1..] == resq[1..] + [r];
      DieResponsesAppend(resq[1..], r);
    }
  }

  lemma {:induction false} DieTasksAppend(taskq: seq<Task>, t: Task)
    ensures DieTasks(taskq + [t]) == DieTasks(taskq) + if t.job.command == DIE then 1 else 0
  {
    if taskq != [] {
      assert (taskq + [t])[1..] == taskq[1..] + [t];
      DieTasksAppend(taskq[1..], t);
    }
  }

  /** A thread that can make a step. */
  predicate Enabled(net: Net, w: nat) {
    w < |net.workers| && !net.workers[w].Dead? && (net.workers[w].Idle? ==> net.taskq != [])
  }

  /** Every real step brings the work nearer to its end. */
  lemma StepWork(net: Net, w: nat)
    ensures net.Step(w).Work() <= net.Work()
    ensures Enabled(net, w) ==> net.Step(w).Work() < net.Work()
    ensures |net.Step(w).workers| == |net.workers|
  {
    if Enabled(net, w) {
      TotalUpdate(net.workers, w, net.Step(w).workers[w]);
    }
  }

  lemma {:induction false} RunWork(net: Net, schedule: seq<nat>)
    ensures net.Run(schedule).Work() <= net.Work()
    ensures |net.Run(schedule).workers| == |net.workers|
    decreases |schedule|
  {
    if schedule != [] {
      StepWork(net, schedule[0]);
      RunWork(net.Step(schedule[0]), schedule[1..]);
    }
  }

  lemma {:induction false} AliveExists(workers: seq<Worker>)
    ensures Alive(workers) > 0 <==> exists w :: 0 <= w < |workers| && Lives(workers[w])
  {
    if workers != [] {
      AliveExists(workers[1..]);
      if Alive(workers[1..]) > 0 {
        var w :| 0 <= w < |workers[1..]| && Lives(workers[1..][w]);
        assert Lives(workers[w + 1]);
      }
      if w :| 0 <= w < |workers| && Lives(workers[w]) && w > 0 {
        assert Lives(workers[1..][w - 1]);
      }
    }
  }

  /** While tasks are unfinished and a thread is alive if any is in the queue, a thread can step. */
  lemma SomeEnabled(net: Net)
    requires !net.AllDone() && (net.taskq != [] ==> Alive(net.workers) > 0)
    ensures exists w :: Enabled(net, w)
  {
    if busy :| busy in net.workers && !busy.Idle? && !busy.Dead? {
      var w :| 0 <= w < |net.workers| && net.workers[w] == busy;
      assert Enabled(net, w);
    } else {
      AliveExists(net.workers);
      var w :| 0 <= w < |net.workers| && Lives(net.workers[w]);
      assert net.workers[w] in net.workers;
      assert Enabled(net, w);
    }
  }

  // ---------------------------------------------------------------- jobs

  lemma QueuedFirst(taskq: seq<Task>)
    requires taskq != []
    ensures Queued(taskq) == {taskq[0].job} + Queued(taskq[1..])
  {
    assert taskq == [taskq[0]] + taskq[1..];
  }

  lemma AnsweredLast(resq: seq<Response>, r: Response)
    ensures Answered(resq + [r]) == Answered(resq) + {r.job}
  {
    assert r in resq + [r];
    assert forall x <- resq :: x in resq + [r];
  }

  lemma HeldUpdate(workers: seq<Worker>, w: nat, x: Worker)
    requires w < |workers|
    ensures Held(workers[w := x]) + HeldBy(workers[w]) == Held(workers) + HeldBy(x)
    ensures HeldBy(workers[w]) <= Held(workers)
    ensures HeldBy(x) <= Held(workers[w := x])
  {
    hide Holds, JobOf;
    var workers' := workers[w := x];
    assert workers'[w] == x && x in workers' && workers[w] in workers;
    forall v | v in workers
      ensures v in workers' || v == workers[w]
    {
      var k :| 0 <= k < |workers| && workers[k] == v;
      assert k != w ==> workers'[k] == v;
    }
    assert forall v <- workers' :: v in workers || v == x;
  }

  /** Threads neither lose nor invent jobs. */
  lemma StepJobs(net: Net, w: nat)
    ensures net.Step(w).Jobs() == net.Jobs()
  {
    if Enabled(net, w) {
      HeldUpdate(net.workers, w, net.Step(w).workers[w]);
      match net.workers[w]
      case Idle => QueuedFirst(net.taskq);
      case Performed(response) => AnsweredLast(net.resq, response);
      case _ =>
    }
  }

  lemma {:induction false} RunJobs(net: Net, schedule: seq<nat>)
    ensures net.Run(schedule).Jobs() == net.Jobs()
    decreases |schedule|
  {
    hide Net.Jobs, Net.Step;
    if schedule != [] {
      StepJobs(net, schedule[0]);
      RunJobs(net.Step(schedule[0]), schedule[1..]);
    }
  }

  lemma PutJobs(net: Net, t: Task)
    ensures net.Put(t).Jobs() == net.Jobs() + {t.job}
  {
    assert t in net.taskq + [t];
    assert forall x <- net.taskq :: x in net.taskq + [t];
  }
}

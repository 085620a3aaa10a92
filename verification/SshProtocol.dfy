/** What the shared queues, the threads and the remote files hold together, for a client whose list is
    `list`: every step of a thread and every action of the client keeps it.

    `known` are the indices in the client's buffer, `gets` and `puts` the ids of the pending operations,
    `next` the next unused id and `extra` the remote files that the list never had. */
module SshProtocol {

  import opened SshNet

  type Pending = map<nat, nat>

  predicate Matches(pending: Pending, job: Job) {
    job.index in pending && pending[job.index] == job.id
  }

  /** A task to be performed writes what the list has at its index, or deletes a file beyond the end. */
  ghost predicate TaskOk(t: Task, list: seq<Bytes>, puts: Pending) {
    match t.job.command
    case GET => true
    case PUT => Matches(puts, t.job) && t.job.index < |list| && t.contents == list[t.job.index]
    case DEL => Matches(puts, t.job) && t.job.index >= |list|
    case DIE => true
  }

  /** A response that the client still waits for has read, or has written, what the list has. */
  ghost predicate ResponseOk(r: Response, list: seq<Bytes>, gets: Pending, puts: Pending, remote: Remote) {
    match r.job.command
    case GET => Matches(gets, r.job) ==> r.job.index < |list| && r.contents == list[r.job.index]
    case PUT => Matches(puts, r.job) ==> r.job.index < |list| && Stored(list, remote, r.job.index)
    case DEL => Matches(puts, r.job) ==> r.job.index >= |list| && r.job.index !in remote
    case DIE => true
  }

  ghost predicate Stored(list: seq<Bytes>, remote: Remote, i: nat)
    requires i < |list|
  {
    i in remote && remote[i] == list[i]
  }

  ghost predicate WorkerOk(w: Worker, list: seq<Bytes>, gets: Pending, puts: Pending, remote: Remote) {
    && (w.Taken? ==> TaskOk(w.task, list, puts))
    && (w.Performed? ==> ResponseOk(w.response, list, gets, puts, remote))
  }

  ghost predicate Tasks(net: Net, list: seq<Bytes>, gets: Pending, puts: Pending) {
    && (forall t <- net.taskq :: TaskOk(t, list, puts))
    && (forall w <- net.workers :: WorkerOk(w, list, gets, puts, net.remote))
    && (forall r <- net.resq :: ResponseOk(r, list, gets, puts, net.remote))
  }

  /** What is not in the buffer, or is only being read into it, is on the remote host, and no file is
      there that is not in the list, being deleted, or was there from the beginning. */
  ghost predicate RemoteOk(remote: Remote, list: seq<Bytes>, known: set<nat>, gets: Pending, puts: Pending,
                           extra: set<nat>) {
    && (forall i: nat :: i < |list| && (i !in known || i in gets) ==> Stored(list, remote, i))
    && (forall i <- remote :: i < |list| || i in puts || i in extra)
  }

  function WriteJob(list: seq<Bytes>, i: nat, id: nat): Job {
    Job(if i < |list| then PUT else DEL, id, i)
  }

  /** Every pending operation is under way. */
  ghost predicate Listed(jobs: set<Job>, list: seq<Bytes>, gets: Pending, puts: Pending) {
    && (forall i <- gets :: Job(GET, gets[i], i) in jobs)
    && (forall i <- puts :: WriteJob(list, i, puts[i]) in jobs)
  }

  /** Ids are in the order of the queue, and no task shares its id with a response or another task. */
  ghost predicate Ordered(net: Net, next: nat) {
    && (forall j, k :: 0 <= j < k < |net.taskq| ==> net.taskq[j].job.id < net.taskq[k].job.id)
    && (forall t <- net.taskq :: t.job.id < next)
    && (forall w <- net.workers | Holds(w) :: JobOf(w).id < next && Before(JobOf(w).id, net.taskq))
    && (forall r <- net.resq :: r.job.id < next && Before(r.job.id, net.taskq))
    && (forall v, w :: 0 <= v < |net.workers| && 0 <= w < |net.workers| && v != w
                       && net.workers[v].Taken? && Holds(net.workers[w]) ==>
                       JobOf(net.workers[v]).id != JobOf(net.workers[w]).id)
    && (forall w <- net.workers, r <- net.resq | w.Taken? :: JobOf(w).id != r.job.id)
  }

  ghost predicate Before(id: nat, taskq: seq<Task>) {
    forall t <- taskq :: id < t.job.id
  }

  ghost predicate Disjoint(list: seq<Bytes>, known: set<nat>, gets: Pending, puts: Pending) {
    && gets.Keys !! puts.Keys
    && gets.Keys <= known && puts.Keys <= known
    && (forall i <- gets :: i < |list|)
  }

  ghost predicate Protocol(net: Net, list: seq<Bytes>, known: set<nat>, gets: Pending, puts: Pending, extra: set<nat>,
                           next: nat) {
    && Disjoint(list, known, gets, puts)
    && Tasks(net, list, gets, puts)
    && RemoteOk(net.remote, list, known, gets, puts, extra)
    && Listed(net.Jobs(), list, gets, puts)
    && Ordered(net, next)
  }

  // ---------------------------------------------------------------- steps of the threads

  /** Thread w, which may only have taken the first task of the queue or left the rest as it was. */
  ghost predicate SetWorker(net: Net, net': Net, w: nat, x: Worker) {
    && w < |net.workers| && net'.workers == net.workers[w := x]
    && (forall t <- net'.taskq :: t in net.taskq)
  }

  lemma SetWorkerAll(net: Net, net': Net, w: nat, x: Worker)
    requires SetWorker(net, net', w, x)
    ensures net.workers[w] in net.workers && x in net'.workers
    ensures forall y <- net'.workers :: y in net.workers || y == x
  {
    assert net'.workers[w] == x;
  }

  lemma TakeOrdered(net: Net, next: nat, w: nat)
    requires Ordered(net, next) && w < |net.workers| && net.workers[w].Idle? && net.taskq != []
    ensures Ordered(net.Step(w), next)
  {
    var net' := net.Step(w);
    var t := net.taskq[0];
    SetWorkerAll(net, net', w, Taken(t));
    assert net.taskq == [t] + net'.taskq;
    forall v, u | 0 <= v < |net'.workers| && 0 <= u < |net'.workers| && v != u
                  && net'.workers[v].Taken? && Holds(net'.workers[u])
      ensures JobOf(net'.workers[v]).id != JobOf(net'.workers[u]).id
    {
      if v == w {
        assert Before(JobOf(net.workers[u]).id, net.taskq);
      } else if u == w {
        assert Before(JobOf(net.workers[v]).id, net.taskq);
      }
    }
  }

  lemma PerformOrdered(net: Net, next: nat, w: nat)
    requires Ordered(net, next) && w < |net.workers| && net.workers[w].Taken?
    ensures Ordered(net.Step(w), next)
  {
    hide Perform, Before;
    var net' := net.Step(w);
    SetWorkerAll(net, net', w, net'.workers[w]);
    assert JobOf(net'.workers[w]) == JobOf(net.workers[w]);
  }

  lemma ReplyOrdered(net: Net, next: nat, w: nat)
    requires Ordered(net, next) && w < |net.workers| && net.workers[w].Performed?
    ensures Ordered(net.Step(w), next)
  {
    hide Before;
    var net' := net.Step(w);
    SetWorkerAll(net, net', w, net'.workers[w]);
    forall x, r | x in net'.workers && r in net'.resq && x.Taken?
      ensures JobOf(x).id != r.job.id
    {
      if r !in net.resq {
        var v :| 0 <= v < |net.workers| && net.workers[v] == x;
        assert JobOf(net.workers[v]).id != JobOf(net.workers[w]).id;
      }
    }
  }

  lemma StepOrdered(net: Net, next: nat, w: nat)
    requires Ordered(net, next)
    ensures Ordered(net.Step(w), next)
  {
    if Enabled(net, w) {
      match net.workers[w]
      case Idle => TakeOrdered(net, next, w);
      case Taken(_) => PerformOrdered(net, next, w);
      case Performed(_) => ReplyOrdered(net, next, w);
      case Replied(die) =>
        SetWorkerAll(net, net.Step(w), w, net.Step(w).workers[w]);
    }
  }

  /** Performing a task does what the client expects and disturbs no other task or response. */
  lemma PerformOk(t: Task, list: seq<Bytes>, known: set<nat>, gets: Pending, puts: Pending, extra: set<nat>,
                  remote: Remote)
    requires TaskOk(t, list, puts) && Disjoint(list, known, gets, puts)
             && RemoteOk(remote, list, known, gets, puts, extra)
    ensures ResponseOk(Reply(t, remote), list, gets, puts, Perform(t, remote))
    ensures RemoteOk(Perform(t, remote), list, known, gets, puts, extra)
    ensures forall r: Response :: ResponseOk(r, list, gets, puts, remote) ==>
              ResponseOk(r, list, gets, puts, Perform(t, remote))
  {
  }

  lemma StepTasks(net: Net, list: seq<Bytes>, known: set<nat>, gets: Pending, puts: Pending, extra: set<nat>, w: nat)
    requires Tasks(net, list, gets, puts)
    requires Disjoint(list, known, gets, puts) && RemoteOk(net.remote, list, known, gets, puts, extra)
    ensures Tasks(net.Step(w), list, gets, puts)
    ensures RemoteOk(net.Step(w).remote, list, known, gets, puts, extra)
  {
    if Enabled(net, w) {
      var net' := net.Step(w);
      assert forall t <- net'.taskq :: t in net.taskq;
      SetWorkerAll(net, net', w, net'.workers[w]);
      assert WorkerOk(net.workers[w], list, gets, puts, net.remote);
      if net.workers[w].Taken? {
        PerformOk(net.workers[w].task, list, known, gets, puts, extra, net.remote);
      }
      hide TaskOk, ResponseOk, RemoteOk, Disjoint, Reply, Perform;
    }
  }

  lemma StepProtocol(net: Net, list: seq<Bytes>, known: set<nat>, gets: Pending, puts: Pending, extra: set<nat>,
                     next: nat, w: nat)
    requires Protocol(net, list, known, gets, puts, extra, next)
    ensures Protocol(net.Step(w), list, known, gets, puts, extra, next)
  {
    hide Disjoint, Tasks, RemoteOk, Listed, Ordered, Net.Step, Net.Jobs;
    StepJobs(net, w);
    StepOrdered(net, next, w);
    StepTasks(net, list, known, gets, puts, extra, w);
  }

  /** No schedule of the threads breaks the protocol. */
  lemma {:induction false} RunProtocol(net: Net, list: seq<Bytes>, known: set<nat>, gets: Pending, puts: Pending,
                                       extra: set<nat>, next: nat, schedule: seq<nat>)
    requires Protocol(net, list, known, gets, puts, extra, next)
    ensures Protocol(net.Run(schedule), list, known, gets, puts, extra, next)
    decreases |schedule|
  {
    hide Protocol, Net.Step;
    if schedule != [] {
      StepProtocol(net, list, known, gets, puts, extra, next, schedule[0]);
      RunProtocol(net.Step(schedule[0]), list, known, gets, puts, extra, next, schedule[1..]);
    }
  }

  // ---------------------------------------------------------------- actions of the client

  lemma PutOrdered(net: Net, next: nat, t: Task)
    requires Ordered(net, next) && t.job.id == next
    ensures Ordered(net.Put(t), next + 1)
  {
    assert forall x <- net.Put(t).taskq :: x in net.taskq || x == t;
  }

  /** Asking for an index that is not in the buffer. */
  lemma PutRead(net: Net, list: seq<Bytes>, known: set<nat>, gets: Pending, puts: Pending, extra: set<nat>, next: nat,
                i: nat)
    requires Protocol(net, list, known, gets, puts, extra, next) && i < |list| && i !in known
    ensures Protocol(net.Put(Task(Job(GET, next, i), [])), list, known + {i}, gets[i := next], puts, extra, next + 1)
  {
    var t := Task(Job(GET, next, i), []);
    PutOrdered(net, next, t);
    PutJobs(net, t);
    ReadTasks(net, list, gets, puts, next, i);
    hide Ordered, Tasks;
  }

  /** A new id matches no response. */
  lemma ReadTasks(net: Net, list: seq<Bytes>, gets: Pending, puts: Pending, next: nat, i: nat)
    requires Tasks(net, list, gets, puts) && Ordered(net, next) && i !in gets
    ensures Tasks(net.Put(Task(Job(GET, next, i), [])), list, gets[i := next], puts)
  {
    forall r | r in net.resq
      ensures ResponseOk(r, list, gets[i := next], puts, net.remote)
    {
      assert r.job.id < next;
    }
    forall w | w in net.workers
      ensures WorkerOk(w, list, gets[i := next], puts, net.remote)
    {
    }
  }

  /** Writing back an entry of the buffer. */
  lemma PutWrite(net: Net, list: seq<Bytes>, known: set<nat>, gets: Pending, puts: Pending, extra: set<nat>,
                 next: nat, i: nat)
    requires Protocol(net, list, known, gets, puts, extra, next)
    requires i < |list| && i in known && i !in gets && i !in puts
    ensures Protocol(net.Put(Task(Job(PUT, next, i), list[i])), list, known, gets, puts[i := next], extra, next + 1)
  {
    var t := Task(Job(PUT, next, i), list[i]);
    PutOrdered(net, next, t);
    PutJobs(net, t);
    WriteTasks(net, list, gets, puts, next, i, t);
    hide Ordered, Tasks;
  }

  lemma WriteTasks(net: Net, list: seq<Bytes>, gets: Pending, puts: Pending, next: nat, i: nat, t: Task)
    requires Tasks(net, list, gets, puts) && Ordered(net, next) && i !in puts
    requires t.job.id == next && t.job.index == i && TaskOk(t, list, puts[i := next])
    ensures Tasks(net.Put(t), list, gets, puts[i := next])
  {
    var puts' := puts[i := next];
    forall r | r in net.resq
      ensures ResponseOk(r, list, gets, puts', net.remote)
    {
      assert r.job.id < next;
    }
    forall x | x in net.taskq
      ensures TaskOk(x, list, puts')
    {
      assert TaskOk(x, list, puts);
    }
    forall w | w in net.workers
      ensures WorkerOk(w, list, gets, puts', net.remote)
    {
      assert WorkerOk(w, list, gets, puts, net.remote);
    }
  }

  /** Deleting the last element. */
  lemma PutDelete(net: Net, list: seq<Bytes>, known: set<nat>, gets: Pending, puts: Pending, extra: set<nat>,
                  next: nat, i: nat)
    requires Protocol(net, list, known, gets, puts, extra, next)
    requires |list| == i + 1 && i !in gets && i !in puts
    ensures Protocol(net.Put(Task(Job(DEL, next, i), [])), list[..i], known + {i}, gets, puts[i := next], extra,
                     next + 1)
  {
    hide Ordered, Tasks, Listed, RemoteOk, Queued;
    var t := Task(Job(DEL, next, i), []);
    PutOrdered(net, next, t);
    PutJobs(net, t);
    ShrinkTasks(net, list, gets, puts, i);
    WriteTasks(net, list[..i], gets, puts, next, i, t);
    ShrinkListed(net.Jobs(), net.Put(t).Jobs(), list, gets, puts, next, i);
    ShrinkRemote(net.remote, list, known, gets, puts, extra, next, i);
  }

  lemma ShrinkListed(jobs: set<Job>, jobs': set<Job>, list: seq<Bytes>, gets: Pending, puts: Pending, next: nat, i: nat)
    requires Listed(jobs, list, gets, puts) && |list| == i + 1
    requires jobs' == jobs + {Job(DEL, next, i)}
    ensures Listed(jobs', list[..i], gets, puts[i := next])
  {
    assert forall j <- puts :: j != i ==> WriteJob(list, j, puts[j]) == WriteJob(list[..i], j, puts[j]);
  }

  lemma ShrinkRemote(remote: Remote, list: seq<Bytes>, known: set<nat>, gets: Pending, puts: Pending,
                     extra: set<nat>, next: nat, i: nat)
    requires RemoteOk(remote, list, known, gets, puts, extra) && |list| == i + 1
    ensures RemoteOk(remote, list[..i], known + {i}, gets, puts[i := next], extra)
  {
    forall j: nat | j < i && (j !in known + {i} || j in gets)
      ensures Stored(list[..i], remote, j)
    {
      assert Stored(list, remote, j);
    }
  }

  lemma ShrinkTasks(net: Net, list: seq<Bytes>, gets: Pending, puts: Pending, i: nat)
    requires Tasks(net, list, gets, puts) && |list| == i + 1 && i !in gets && i !in puts
    ensures Tasks(net, list[..i], gets, puts)
  {
    forall w | w in net.workers
      ensures WorkerOk(w, list[..i], gets, puts, net.remote)
    {
      assert WorkerOk(w, list, gets, puts, net.remote);
    }
  }

  lemma PutDie(net: Net, list: seq<Bytes>, known: set<nat>, gets: Pending, puts: Pending, extra: set<nat>, next: nat)
    requires Protocol(net, list, known, gets, puts, extra, next)
    ensures Protocol(net.Put(Task(Job(DIE, next, 0), [])), list, known, gets, puts, extra, next + 1)
  {
    hide Ordered;
    var t := Task(Job(DIE, next, 0), []);
    PutOrdered(net, next, t);
    PutJobs(net, t);
  }

  /** Giving up a pending read, with its place in the buffer or without. */
  lemma DropRead(net: Net, list: seq<Bytes>, known: set<nat>, gets: Pending, puts: Pending, extra: set<nat>,
                 next: nat, i: nat)
    requires Protocol(net, list, known, gets, puts, extra, next)
    ensures Protocol(net, list, known, gets - {i}, puts, extra, next)
    ensures i in gets ==> Protocol(net, list, known - {i}, gets - {i}, puts, extra, next)
  {
    hide Ordered, Net.Jobs, TaskOk;
    forall r: Response | ResponseOk(r, list, gets, puts, net.remote)
      ensures ResponseOk(r, list, gets - {i}, puts, net.remote)
    {
    }
    hide ResponseOk;
  }

  /** Assigning to an index with no pending operation. */
  lemma Assign(net: Net, list: seq<Bytes>, known: set<nat>, gets: Pending, puts: Pending, extra: set<nat>, next: nat,
               i: nat, v: Bytes)
    requires Protocol(net, list, known, gets, puts, extra, next)
    requires i <= |list| && i !in gets && i !in puts
    ensures Protocol(net, if i < |list| then list[i := v] else list + [v], known + {i}, gets, puts, extra, next)
  {
    hide Ordered, Net.Jobs;
    var list' := if i < |list| then list[i := v] else list + [v];
    assert forall j: nat :: j < |list| && j != i ==> list'[j] == list[j];
    forall t: Task | TaskOk(t, list, puts)
      ensures TaskOk(t, list', puts)
    {
    }
    forall r: Response | ResponseOk(r, list, gets, puts, net.remote)
      ensures ResponseOk(r, list', gets, puts, net.remote)
    {
    }
    assert forall j <- puts :: WriteJob(list, j, puts[j]) == WriteJob(list', j, puts[j]);
    hide TaskOk, ResponseOk;
  }

  /** The response of a pending read has what the list has. */
  lemma ProcessRead(net: Net, list: seq<Bytes>, known: set<nat>, gets: Pending, puts: Pending, extra: set<nat>,
                    next: nat)
    requires Protocol(net, list, known, gets, puts, extra, next) && net.resq != []
    requires var r := net.resq[0]; r.job.command == GET && Matches(gets, r.job)
    ensures var r := net.resq[0];
            && r.job.index < |list| && r.contents == list[r.job.index]
            && Protocol(net.(resq := net.resq[1..]), list, known, gets - {r.job.index}, puts, extra, next)
  {
    var r := net.resq[0];
    assert ResponseOk(r, list, gets, puts, net.remote);
    RemoveResponse(net, list, known, gets, puts, extra, next);
    hide Ordered, TaskOk, ResponseOk;
    ResponsesForget(net.(resq := net.resq[1..]), list, gets, puts, r.job.index);
  }

  lemma ResponsesForget(net: Net, list: seq<Bytes>, gets: Pending, puts: Pending, i: nat)
    requires Tasks(net, list, gets, puts)
    ensures Tasks(net, list, gets - {i}, puts)
  {
  }

  lemma ProcessWrite(net: Net, list: seq<Bytes>, known: set<nat>, gets: Pending, puts: Pending, extra: set<nat>,
                     next: nat)
    requires Protocol(net, list, known, gets, puts, extra, next) && net.resq != []
    requires var r := net.resq[0]; (r.job.command == PUT || r.job.command == DEL) && Matches(puts, r.job)
    ensures var r := net.resq[0];
            Protocol(net.(resq := net.resq[1..]), list, known - {r.job.index}, gets, puts - {r.job.index}, extra, next)
  {
    hide Ordered, TaskOk, WorkerOk;
    var r := net.resq[0];
    var net' := net.(resq := net.resq[1..]);
    RemoveResponse(net, list, known, gets, puts, extra, next);
    WritesForget(net, list, gets, puts, next);
    assert ResponseOk(r, list, gets, puts, net.remote);
    hide Tasks;
  }

  /** Only one task or response has the id of a pending write. */
  lemma WritesForget(net: Net, list: seq<Bytes>, gets: Pending, puts: Pending, next: nat)
    requires Tasks(net, list, gets, puts) && Ordered(net, next) && net.resq != []
    requires Matches(puts, net.resq[0].job)
    ensures Tasks(net.(resq := net.resq[1..]), list, gets, puts - {net.resq[0].job.index})
  {
    var r := net.resq[0];
    var puts' := puts - {r.job.index};
    assert r in net.resq;
    forall t | t in net.taskq
      ensures TaskOk(t, list, puts')
    {
      assert TaskOk(t, list, puts);
    }
    forall w | w in net.workers
      ensures WorkerOk(w, list, gets, puts', net.remote)
    {
      assert WorkerOk(w, list, gets, puts, net.remote);
    }
    forall x | x in net.resq[1..]
      ensures ResponseOk(x, list, gets, puts', net.remote)
    {
      assert x in net.resq;
    }
  }

  /** A response that matches nothing is only taken off the queue. */
  lemma RemoveResponse(net: Net, list: seq<Bytes>, known: set<nat>, gets: Pending, puts: Pending, extra: set<nat>,
                       next: nat)
    requires Protocol(net, list, known, gets, puts, extra, next) && net.resq != []
    ensures var net' := net.(resq := net.resq[1..]);
            && Ordered(net', next)
            && Tasks(net', list, gets, puts)
            && net.Jobs() == net'.Jobs() + {net.resq[0].job}
  {
    var net' := net.(resq := net.resq[1..]);
    assert net.resq == [net.resq[0]] + net'.resq;
    assert forall r <- net'.resq :: r in net.resq;
    hide TaskOk, ResponseOk, WorkerOk;
  }

  lemma ProcessOther(net: Net, list: seq<Bytes>, known: set<nat>, gets: Pending, puts: Pending, extra: set<nat>,
                     next: nat)
    requires Protocol(net, list, known, gets, puts, extra, next) && net.resq != []
    requires match net.resq[0].job.command
             case GET => !Matches(gets, net.resq[0].job)
             case DIE => true
             case _ => !Matches(puts, net.resq[0].job)
    ensures Protocol(net.(resq := net.resq[1..]), list, known, gets, puts, extra, next)
  {
    RemoveResponse(net, list, known, gets, puts, extra, next);
    hide Ordered, Tasks, Net.Jobs;
  }

  // ---------------------------------------------------------------- what is still awaited

  /** The file of an index is being written or removed, and no response says that it is done. */
  ghost predicate WriteWaits(list: seq<Bytes>, puts: Pending, resq: seq<Response>, i: nat) {
    i in puts && WriteJob(list, i, puts[i]) !in Answered(resq)
  }

  /** The element is being read, and no response has it. */
  ghost predicate ReadWaits(gets: Pending, resq: seq<Response>, i: nat) {
    i in gets && Job(GET, gets[i], i) !in Answered(resq)
  }

  /** When the responses that are there have been processed, the element is not in the buffer. */
  ghost predicate Absent(list: seq<Bytes>, known: set<nat>, gets: Pending, puts: Pending, resq: seq<Response>, i: nat) {
    i !in known || ReadWaits(gets, resq, i) || (i in puts && !WriteWaits(list, puts, resq, i))
  }

  ghost predicate SameWaits(list: seq<Bytes>, k: set<nat>, g: Pending, p: Pending, q: seq<Response>,
                            k': set<nat>, g': Pending, p': Pending, q': seq<Response>) {
    forall i: nat ::
      && (WriteWaits(list, p, q, i) <==> WriteWaits(list, p', q', i))
      && (Absent(list, k, g, p, q, i) <==> Absent(list, k', g', p', q', i))
  }

  lemma SameWaitsTwice(list: seq<Bytes>, k: set<nat>, g: Pending, p: Pending, q: seq<Response>,
                       k1: set<nat>, g1: Pending, p1: Pending, q1: seq<Response>,
                       k2: set<nat>, g2: Pending, p2: Pending, q2: seq<Response>)
    requires SameWaits(list, k, g, p, q, k1, g1, p1, q1) && SameWaits(list, k1, g1, p1, q1, k2, g2, p2, q2)
    ensures SameWaits(list, k, g, p, q, k2, g2, p2, q2)
  {
    hide WriteWaits, Absent;
  }

  lemma ReadSettles(list: seq<Bytes>, known: set<nat>, gets: Pending, puts: Pending, resq: seq<Response>)
    requires Disjoint(list, known, gets, puts) && resq != []
    requires resq[0].job.command == GET && Matches(gets, resq[0].job)
    ensures SameWaits(list, known, gets, puts, resq, known, gets - {resq[0].job.index}, puts, resq[1..])
  {
    AnsweredFirst(resq);
    hide Answered;
  }

  lemma WriteSettles(list: seq<Bytes>, known: set<nat>, gets: Pending, puts: Pending, resq: seq<Response>)
    requires Disjoint(list, known, gets, puts) && resq != []
    requires var r := resq[0].job; r.index in puts && r == WriteJob(list, r.index, puts[r.index])
    ensures var i := resq[0].job.index;
            SameWaits(list, known, gets, puts, resq, known - {i}, gets, puts - {i}, resq[1..])
  {
    AnsweredFirst(resq);
    hide Answered;
  }

  lemma NothingSettles(list: seq<Bytes>, known: set<nat>, gets: Pending, puts: Pending, resq: seq<Response>)
    requires resq != []
    requires match resq[0].job.command
             case GET => !Matches(gets, resq[0].job)
             case DIE => true
             case _ => !Matches(puts, resq[0].job)
    ensures SameWaits(list, known, gets, puts, resq, known, gets, puts, resq[1..])
  {
    AnsweredFirst(resq);
    hide Answered;
  }

  /** The response of a pending write is the response to the task that the list calls for. */
  lemma WriteResponse(net: Net, list: seq<Bytes>, gets: Pending, puts: Pending)
    requires Tasks(net, list, gets, puts) && net.resq != []
    requires var r := net.resq[0].job; (r.command == PUT || r.command == DEL) && Matches(puts, r)
    ensures var r := net.resq[0].job; r == WriteJob(list, r.index, puts[r.index])
  {
    assert ResponseOk(net.resq[0], list, gets, puts, net.remote);
  }

  /** Processing a response changes nothing about what is awaited. */
  lemma ProcessWaits(net: Net, list: seq<Bytes>, known: set<nat>, gets: Pending, puts: Pending, extra: set<nat>,
                     next: nat)
    requires Protocol(net, list, known, gets, puts, extra, next) && net.resq != []
    ensures var r, rest := net.resq[0].job, net.resq[1..];
            if r.command == GET && Matches(gets, r) then
              SameWaits(list, known, gets, puts, net.resq, known, gets - {r.index}, puts, rest)
            else if (r.command == PUT || r.command == DEL) && Matches(puts, r) then
              SameWaits(list, known, gets, puts, net.resq, known - {r.index}, gets, puts - {r.index}, rest)
            else SameWaits(list, known, gets, puts, net.resq, known, gets, puts, rest)
  {
    hide Ordered, Tasks, Listed, RemoteOk, SameWaits;
    var r := net.resq[0].job;
    if r.command == GET && Matches(gets, r) {
      ReadSettles(list, known, gets, puts, net.resq);
    } else if (r.command == PUT || r.command == DEL) && Matches(puts, r) {
      WriteResponse(net, list, gets, puts);
      WriteSettles(list, known, gets, puts, net.resq);
    } else {
      NothingSettles(list, known, gets, puts, net.resq);
    }
  }

  lemma AnsweredFirst(resq: seq<Response>)
    requires resq != []
    ensures Answered(resq) == {resq[0].job} + Answered(resq[1..])
  {
    assert resq == [resq[0]] + resq[1..];
  }
}

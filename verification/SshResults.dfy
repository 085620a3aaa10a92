/** What the SFTP store is for: any run of list operations answers like a plain list, and stopping
    leaves the list in the files. */
module SshResults {

  import opened Common
  import opened SshNet
  import opened SshProtocol
  import opened SshThreads
  import opened SshStores

  // ---------------------------------------------------------------- runs

  datatype Op = Get(ind: int) | Set(ind: int, value: Bytes) | Append(value: Bytes) | DelLast

  /** The position that an index means, which counts from the front or, if negative, from the end. */
  function Position(ind: int, len: nat): Option<nat> {
    if 0 <= ind < len then Some(ind) else if ind < 0 <= len + ind then Some(len + ind) else None
  }

  /** An operation on a plain list; `None` is an IndexError. */
  function Apply(list: seq<Bytes>, op: Op): (r: (seq<Bytes>, Option<Bytes>)) {
    match op
    case Get(ind) =>
      var i := Position(ind, |list|);
      (list, if i.Some? then Some(list[i.value]) else None)
    case Set(ind, value) =>
      var i := Position(ind, |list|);
      if i.Some? then (list[i.value := value], Some(value)) else (list, None)
    case Append(value) => (list + [value], Some(value))
    case DelLast => if list == [] then (list, None) else (list[..|list| - 1], Some([]))
  }

  function ApplyAll(list: seq<Bytes>, ops: seq<Op>): seq<Bytes> {
    if ops == [] then list else Apply(ApplyAll(list, ops[..|ops| - 1]), ops[|ops| - 1]).0
  }

  /** The answer to operation k. */
  function Answer(list: seq<Bytes>, ops: seq<Op>, k: nat): Option<Bytes>
    requires k < |ops|
  {
    Apply(ApplyAll(list, ops[..k]), ops[k]).1
  }

  method Perform(store: SshStore, op: Op) returns (answer: Option<Bytes>)
    requires store.Valid() && store.nthreads > 0 && store.bufsize > 0
    modifies store
    ensures store.Valid() && store.nthreads == old(store.nthreads)
    ensures (store.list, answer) == Apply(old(store.list), op)
  {
    hide SshStore.Safe, SshStore.Manned;
    match op
    case Get(ind) =>
      var out, value := store.GetItem(ind);
      answer := if out == Done then Some(value) else None;
    case Set(ind, value) =>
      var out := store.SetItem(ind, value);
      answer := if out == Done then Some(value) else None;
    case Append(value) =>
      var out := store.Insert(store.len, value);
      answer := Some(value);
    case DelLast =>
      var out := store.DelItem(-1);
      answer := if out == Done then Some([]) else None;
  }

  /** Under every interleaving of the threads, a run of operations answers like a list that started
      out as the remote files. */
  method Run(store: SshStore, ops: seq<Op>) returns (answers: seq<Option<Bytes>>)
    requires store.Valid() && store.nthreads > 0 && store.bufsize > 0
    modifies store
    ensures store.Valid() && store.nthreads == old(store.nthreads)
    ensures store.list == ApplyAll(old(store.list), ops)
    ensures |answers| == |ops| && forall k :: 0 <= k < |ops| ==> answers[k] == Answer(old(store.list), ops, k)
  {
    hide SshStore.Valid, Apply;
    answers := [];
    assert ops[..0] == [];
    for k := 0 to |ops|
      invariant store.Valid() && store.nthreads == old(store.nthreads)
      invariant store.list == ApplyAll(old(store.list), ops[..k])
      invariant |answers| == k && forall j :: 0 <= j < k ==> answers[j] == Answer(old(store.list), ops, j)
    {
      assert ops[..k + 1][..k] == ops[..k];
      var answer := Perform(store, ops[k]);
      answers := answers + [answer];
    }
    assert ops[..|ops|] == ops;
  }

  /** The value read at an index is the last one that was assigned to it. */
  lemma LastAssigned(list: seq<Bytes>, ops: seq<Op>, j: nat, k: nat, i: nat)
    requires j < k < |ops| && i < |list|
    requires ops[j].Set? && ops[j].ind == i && ops[k] == Get(i)
    requires forall m :: 0 <= m < k ==> ops[m].Get? || ops[m].Set?
    requires forall m :: j < m < k && ops[m].Set? ==> Position(ops[m].ind, |list|) != Some(i)
    ensures Answer(list, ops, k) == Some(ops[j].value)
  {
    KeepsLength(list, ops[..k]);
    Untouched(list, ops, j + 1, k, i);
    KeepsLength(list, ops[..j]);
    assert ops[..j + 1][..j] == ops[..j];
  }

  lemma {:induction false} KeepsLength(list: seq<Bytes>, ops: seq<Op>)
    requires forall m :: 0 <= m < |ops| ==> ops[m].Get? || ops[m].Set?
    ensures |ApplyAll(list, ops)| == |list|
    decreases |ops|
  {
    if ops != [] {
      KeepsLength(list, ops[..|ops| - 1]);
    }
  }

  lemma {:induction false} Untouched(list: seq<Bytes>, ops: seq<Op>, j: nat, k: nat, i: nat)
    requires j <= k <= |ops| && i < |list|
    requires forall m :: 0 <= m < k ==> ops[m].Get? || ops[m].Set?
    requires forall m :: j <= m < k && ops[m].Set? ==> Position(ops[m].ind, |list|) != Some(i)
    ensures |ApplyAll(list, ops[..j])| == |ApplyAll(list, ops[..k])| == |list|
    ensures ApplyAll(list, ops[..k])[i] == ApplyAll(list, ops[..j])[i]
    decreases k
  {
    KeepsLength(list, ops[..j]);
    KeepsLength(list, ops[..k]);
    if j < k {
      Untouched(list, ops, j, k - 1, i);
      assert ops[..k][..k - 1] == ops[..k - 1];
    }
  }

  // ---------------------------------------------------------------- stopping

  /** When everything in the buffer is being written, the files are those of the list as soon as the
      threads have finished, whatever the client does about their responses. */
  lemma FinishedMirrors(net: Net, list: seq<Bytes>, puts: Pending, extra: set<nat>, next: nat, schedule: seq<nat>)
    requires Protocol(net, list, puts.Keys, map[], puts, extra, next)
    requires net.Run(schedule).AllDone()
    ensures var remote := net.Run(schedule).remote;
            && (forall i: nat :: i < |list| ==> i in remote && remote[i] == list[i])
            && (forall i <- remote :: i < |list| || i in extra)
  {
    hide Net.Run;
    RunProtocol(net, list, puts.Keys, map[], puts, extra, next, schedule);
    var net' := net.Run(schedule);
    AllAnswered(net');
    forall i | i in puts
      ensures i < |list| ==> Stored(list, net'.remote, i)
      ensures i >= |list| ==> i !in net'.remote
    {
      assert WriteJob(list, i, puts[i]) in Answered(net'.resq);
      var r :| r in net'.resq && r.job == WriteJob(list, i, puts[i]);
      assert ResponseOk(r, list, map[], puts, net'.remote);
    }
  }

  lemma AllAnswered(net: Net)
    requires net.AllDone()
    ensures net.Jobs() == Answered(net.resq)
  {
  }

  /** The orders to stop n threads, put into the queue. */
  function Stops(net: Net, n: nat, next: nat): Net {
    if n == 0 then net else Stops(net, n - 1, next).Put(Task(Job(DIE, next + n - 1, 0), []))
  }

  /** Both queues are empty when the client looks at them, so it does not wait for its threads. */
  ghost predicate Missed(net: Net) {
    net.taskq == [] && net.resq == []
  }

  /** Closing may not wait for its threads, and then fails, exactly when there was nothing at all to do
      before: whatever the number of threads, all of them may take their orders before the client looks. */
  lemma CloseMisses(net: Net, n: nat, next: nat)
    requires Crew(net, n) && Calm(net) && n > 0
    ensures (exists schedule: seq<nat> :: Missed(Stops(net, n, next).Run(schedule))) <==> net.Jobs() == {}
  {
    AllAlive(net, n);
    StopsClosing(net, n, n, next);
    var stopped := Stops(net, n, next);
    if schedule: seq<nat> :| Missed(stopped.Run(schedule)) {
      RunCrew(stopped, n, schedule);
      OnlyDying(stopped.Run(schedule));
      RunJobs(stopped, schedule);
      CalmJobs(net);
      hide Net.Jobs, Net.Run;
      assert net.Jobs() == {};
    }
    if net.Jobs() == {} {
      NothingToDo(net);
      StopsTasks(net, n, next);
      var schedule := TakeAll(stopped);
      assert Missed(stopped.Run(schedule));
    }
  }

  lemma {:induction false} StopsClosing(net: Net, n: nat, k: nat, next: nat)
    requires Crew(net, n) && Calm(net) && Alive(net.workers) == n > 0 && k <= n
    ensures Crew(Stops(net, k, next), n) && net.Jobs() <= Stops(net, k, next).Jobs()
    ensures k > 0 ==> Closing(Stops(net, k, next), n - k)
    decreases k
  {
    hide Crew, Calm, Closing, Net.Jobs;
    if k > 0 {
      StopsClosing(net, n, k - 1, next);
      var t := Task(Job(DIE, next + k - 1, 0), []);
      PutCrew(Stops(net, k - 1, next), n, t);
      PutJobs(Stops(net, k - 1, next), t);
    }
  }

  lemma {:induction false} StopsTasks(net: Net, n: nat, next: nat)
    requires net.taskq == []
    ensures var stopped := Stops(net, n, next);
            && stopped.workers == net.workers && stopped.resq == net.resq && |stopped.taskq| == n
            && forall t <- stopped.taskq :: t.job.command == DIE
  {
    if n > 0 {
      StopsTasks(net, n - 1, next);
    }
  }

  lemma NothingToDo(net: Net)
    ensures net.Jobs() == {} ==>
              net.taskq == [] && net.resq == [] && forall w <- net.workers :: !Holds(w)
  {
    if net.taskq != [] {
      assert net.taskq[0] in net.taskq;
      assert net.taskq[0].job in net.Jobs();
    } else if net.resq != [] {
      assert net.resq[0] in net.resq;
      assert net.resq[0].job in net.Jobs();
    } else {
      assert forall w <- net.workers :: Holds(w) ==> JobOf(w) in net.Jobs();
    }
  }

  /** Each living thread takes one of the orders, and none has followed it yet. */
  lemma {:induction false} TakeAll(net: Net) returns (schedule: seq<nat>)
    requires net.resq == [] && |net.taskq| == Alive(net.workers)
    requires forall t <- net.taskq :: t.job.command == DIE
    requires forall w <- net.workers :: !w.Performed? && (w.Taken? ==> w.task.job.command == DIE)
    ensures Missed(net.Run(schedule))
    decreases |net.taskq|
  {
    if net.taskq == [] {
      schedule := [];
    } else {
      AliveExists(net.workers);
      var w :| 0 <= w < |net.workers| && Lives(net.workers[w]);
      assert net.workers[w] in net.workers;
      var ready := if net.workers[w].Idle? then net else net.Step(w);
      AliveUpdate(net.workers, w, Idle);
      assert ready.workers == net.workers[w := Idle];
      var t := ready.taskq[0];
      assert t in net.taskq;
      var taken := ready.Step(w);
      AliveUpdate(ready.workers, w, Taken(t));
      assert taken.workers == net.workers[w := Taken(t)];
      var rest := TakeAll(taken);
      schedule := if net.workers[w].Idle? then [w] + rest else [w, w] + rest;
      assert ([w] + rest)[1..] == rest && ([w, w] + rest)[1..] == [w] + rest;
    }
  }

  // ---------------------------------------------------------------- without threads

  /** How an append can break a list: the only element of a store that was never opened is deleted, and
      another one appended. */
  method InsertBreaks(desiredThreads: nat, bufsize: nat, remote: Remote, value: Bytes)
    returns (store: SshStore, out: Outcome)
    requires 0 in remote
    ensures out == RuntimeError && !store.Valid() && store.len == 1 && store.list == []
  {
    hide SshStore.Safe, SshStore.Manned, WriteWaits;
    store := new SshStore(desiredThreads, 1, bufsize, remote);
    FreshWaits(store.list, store.pendWrites, store.net.resq, 0);
    var deleted := store.DelItem(0);
    out := store.Insert(0, value);
  }

  lemma FreshWaits(list: seq<Bytes>, puts: Pending, resq: seq<Response>, i: nat)
    ensures i !in puts ==> !WriteWaits(list, puts, resq, i)
  {
  }
}

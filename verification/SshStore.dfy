/** A list of byte strings kept in files on a remote host, behind a write-back buffer, with copier
    threads that read and write the files. */
module SshStores {

  import opened Common
  import opened SshNet
  import opened SshProtocol
  import opened SshThreads

  datatype Outcome = Done | IndexError | ValueError | RuntimeError | AssertionError

  /** A buffer as an ordered dictionary: the keys of `vals` in the order of their last use. */
  ghost predicate InOrder(order: seq<nat>, vals: map<nat, Option<Bytes>>) {
    NoDup(order) && Elements(order) == vals.Keys
  }

  /** What is in the buffer without a pending operation, or waits to be written, is what the list
      has; `holes` are excepted. */
  ghost predicate Buffered(list: seq<Bytes>, vals: map<nat, Option<Bytes>>, gets: Pending, puts: Pending,
                           holes: set<nat>) {
    && (forall i <- vals :: i !in gets && i !in puts && i !in holes ==> i < |list| && vals[i] == Some(list[i]))
    && (forall i <- puts :: i < |list| ==> i in vals && vals[i] == Some(list[i]))
  }

  /** The number of buffer entries that are not being written. */
  function Unwritten(vals: map<nat, Option<Bytes>>, puts: Pending): int {
    |vals| - |puts|
  }

  /** The indices of a list that are asked for, counted from the front or from the end. */
  ghost function Asked(indices: seq<int>, len: nat): set<nat> {
    set i: nat | i < len && AsksFor(indices, len, i)
  }

  ghost predicate AsksFor(indices: seq<int>, len: nat, i: nat) {
    i in indices || i - len in indices
  }

  /** Everything behind these entries in the order is being written: of what is not, they were used last. */
  ghost predicate UsedLast(order: seq<nat>, used: set<nat>, puts: Pending) {
    forall a, b :: 0 <= a < b < |order| && order[a] in used && order[b] !in used ==> order[b] in puts
  }

  /** The index that Python's indexing means, if it is in range. */
  function Index(ind: int, len: nat): Option<nat> {
    var pos := if ind >= 0 then ind else len + ind;
    if 0 <= pos < len then Some(pos) else None
  }

  class SshStore {
    var len: nat
    const desiredThreads: nat
    var nthreads: nat
    const bufsize: nat
    var order: seq<nat>
    var vals: map<nat, Option<Bytes>>
    var pendReads: Pending
    var pendWrites: Pending
    var taskCount: nat
    /** The queues, the threads and the remote files. */
    var net: Net
    /** The list. */
    ghost var list: seq<Bytes>
    /** The remote files that were never part of the list. */
    ghost var extra: set<nat>

    /** The current number of buffer entries that are not being written. */
    function CurrentBufsize(): int
      reads this
    {
      Unwritten(vals, pendWrites)
    }

    /** All but the count of the list and of the threads. */
    ghost predicate Safe(holes: set<nat>)
      reads this
    {
      && Protocol(net, list, vals.Keys, pendReads, pendWrites, extra, taskCount)
      && Buffered(list, vals, pendReads, pendWrites, holes)
      && InOrder(order, vals)
    }

    ghost predicate Manned()
      reads this
    {
      Crew(net, nthreads) && Calm(net)
    }

    ghost predicate Valid()
      reads this
    {
      Safe({}) && Manned() && len == |list|
    }

    /** With `size` files already there. */
    constructor (desiredThreads: nat, size: nat, bufsize: nat, remote: Remote)
      requires forall i: nat :: i < size ==> i in remote
      ensures Valid() && nthreads == 0
      ensures this.desiredThreads == desiredThreads && this.bufsize == bufsize
      ensures list == seq(size, i requires 0 <= i < size => remote[i])
      ensures net.remote == remote && net.Jobs() == {}
      ensures vals == map[] && pendReads == map[] && pendWrites == map[]
      ensures forall i :: i in extra <==> i in remote && i >= size
    {
      this.desiredThreads, this.bufsize := desiredThreads, bufsize;
      len, nthreads, taskCount := size, 0, 0;
      order, vals, pendReads, pendWrites := [], map[], map[], map[];
      net := Net([], [], [], remote);
      list := seq(size, i requires 0 <= i < size => remote[i]);
      extra := set i <- remote | i >= size;
    }

    // -------------------------------------------------------------- the threads

    /** The threads may run for as long as they like before the client looks at what they share. */
    method Others() returns (ghost schedule: seq<nat>)
      modifies this`net
      ensures net == old(net).Run(schedule)
    {
      var steps: seq<nat> := *;
      schedule := steps;
      net := net.Run(steps);
    }

    /** Others, at a point where the protocol holds. */
    method Yield(ghost holes: set<nat>)
      requires Safe(holes) && Crew(net, nthreads)
      modifies this`net
      ensures Safe(holes) && Crew(net, nthreads)
      ensures old(Calm(net)) ==> Calm(net)
      ensures forall more: nat :: Closing(old(net), more) ==> Closing(net, more)
      ensures net.Work() <= old(net).Work()
      ensures old(net).AllDone() ==> net == old(net)
      ensures old(net).taskq == [] ==> net.taskq == []
      ensures old(Unmanned(net)) ==> net.resq == old(net).resq && Unmanned(net)
      ensures net.Jobs() == old(net).Jobs()
    {
      hide Protocol, Crew, Calm, Closing, Buffered, Net.Run, Net.Work, Net.AllDone, Net.Jobs, Unmanned;
      ghost var net0 := net;
      ghost var schedule := Others();
      RunJobs(net0, schedule);
      if net0.taskq == [] {
        RunEmpty(net0, schedule);
      }
      if Unmanned(net0) {
        RunUnmanned(net0, schedule);
      }
      if net0.AllDone() {
        RunAllDone(net0, schedule);
      }
      RunProtocol(net0, list, vals.Keys, pendReads, pendWrites, extra, taskCount, schedule);
      RunCrew(net0, nthreads, schedule);
      RunWork(net0, schedule);
    }

    /** Waits for a response: some thread that can make a step makes one, until there is a response. */
    method Await(ghost holes: set<nat>, ghost job: Job)
      requires Safe(holes) && Manned() && nthreads > 0 && job in net.Jobs()
      modifies this`net
      ensures Safe(holes) && Manned() && net.resq != []
      ensures net.Work() <= old(net).Work()
    {
      hide Protocol, Crew, Calm, Closing, Buffered, Net.Run, Net.Step, Net.Work, Net.Jobs, Enabled;
      while net.resq == []
        invariant Safe(holes) && Manned() && job in net.Jobs()
        invariant net.Work() <= old(net).Work()
        decreases net.Work()
      {
        AwaitEnabled(net, nthreads, job);
        var w :| Enabled(net, w);
        StepProtocol(net, list, vals.Keys, pendReads, pendWrites, extra, taskCount, w);
        StepCrew(net, nthreads, w);
        StepWork(net, w);
        StepJobs(net, w);
        net := net.Step(w);
      }
    }

    /** Processes the first response. */
    method Process(ghost holes: set<nat>)
      requires Safe(holes) && Crew(net, nthreads) && net.resq != []
      modifies this`vals, this`order, this`pendReads, this`pendWrites, this`nthreads, this`net
      ensures Safe(holes) && Crew(net, nthreads)
      ensures old(Calm(net)) ==> Calm(net) && nthreads == old(nthreads)
      ensures forall more: nat :: Closing(old(net), more) ==> Closing(net, more)
      ensures net == old(net).(resq := old(net).resq[1..])
      ensures Fewer(old(vals).Keys, old(pendReads), old(pendWrites), vals.Keys, pendReads, pendWrites)
      ensures SameWaits(list, old(vals).Keys, old(pendReads), old(pendWrites), old(net).resq,
                        vals.Keys, pendReads, pendWrites, net.resq)
    {
      hide Protocol, Buffered, InOrder, Crew, Calm, Closing, Fewer, SameWaits;
      ProcessCrew(net, nthreads);
      ProcessWaits(net, list, vals.Keys, pendReads, pendWrites, extra, taskCount);
      var r := net.resq[0];
      var i := r.job.index;
      FewerSame(vals.Keys, pendReads, pendWrites);
      match r.job.command {
        case GET =>
          if Matches(pendReads, r.job) {
            ProcessRead(net, list, vals.Keys, pendReads, pendWrites, extra, taskCount);
            ReadBuffered(net, list, vals, pendReads, pendWrites, extra, taskCount, holes, order, i);
            vals := vals[i := Some(r.contents)];
            pendReads := pendReads - {i};
          } else {
            ProcessOther(net, list, vals.Keys, pendReads, pendWrites, extra, taskCount);
          }
        case PUT | DEL =>
          if Matches(pendWrites, r.job) {
            ProcessWrite(net, list, vals.Keys, pendReads, pendWrites, extra, taskCount);
            WroteBuffered(net, list, vals, pendReads, pendWrites, extra, taskCount, holes, order, i);
            vals, order := vals - {i}, Without(order, i);
            pendWrites := pendWrites - {i};
          } else {
            ProcessOther(net, list, vals.Keys, pendReads, pendWrites, extra, taskCount);
          }
        case DIE =>
          ProcessOther(net, list, vals.Keys, pendReads, pendWrites, extra, taskCount);
          nthreads := nthreads - 1;
      }
      net := net.(resq := net.resq[1..]);
    }

    /** Processes all responses that are there. */
    method Sync(ghost holes: set<nat>)
      requires Safe(holes) && Crew(net, nthreads)
      modifies this`vals, this`order, this`pendReads, this`pendWrites, this`nthreads, this`net
      ensures Safe(holes) && Crew(net, nthreads) && net.resq == []
      ensures old(Calm(net)) ==> Calm(net) && nthreads == old(nthreads)
      ensures forall more: nat :: Closing(old(net), more) ==> Closing(net, more)
      ensures Fewer(old(vals).Keys, old(pendReads), old(pendWrites), vals.Keys, pendReads, pendWrites)
      ensures old(net).AllDone() ==> net.AllDone()
      ensures old(Unmanned(net)) ==>
                && Unmanned(net)
                && SameWaits(list, old(vals).Keys, old(pendReads), old(pendWrites), old(net).resq,
                             vals.Keys, pendReads, pendWrites, [])
    {
      hide Protocol, Buffered, InOrder, Crew, Calm, Closing, Fewer, SameWaits, Unmanned;
      FewerSame(vals.Keys, pendReads, pendWrites);
      WaitsSame(list, vals.Keys, pendReads, pendWrites, net.resq);
      Yield(holes);
      while net.resq != []
        invariant Safe(holes) && Crew(net, nthreads)
        invariant old(Calm(net)) ==> Calm(net) && nthreads == old(nthreads)
        invariant forall more: nat :: Closing(old(net), more) ==> Closing(net, more)
        invariant Fewer(old(vals).Keys, old(pendReads), old(pendWrites), vals.Keys, pendReads, pendWrites)
        invariant old(net).AllDone() ==> net.AllDone()
        invariant old(Unmanned(net)) ==>
                    && Unmanned(net)
                    && SameWaits(list, old(vals).Keys, old(pendReads), old(pendWrites), old(net).resq,
                                 vals.Keys, pendReads, pendWrites, net.resq)
        decreases net.Work()
      {
        ghost var known, gets, puts, net0 := vals.Keys, pendReads, pendWrites, net;
        Process(holes);
        StillUnmanned(net0, net);
        FewerTwice(old(vals).Keys, old(pendReads), old(pendWrites), known, gets, puts, vals.Keys, pendReads,
                   pendWrites);
        if old(Unmanned(net)) {
          SameWaitsTwice(list, old(vals).Keys, old(pendReads), old(pendWrites), old(net).resq,
                         known, gets, puts, net0.resq, vals.Keys, pendReads, pendWrites, net.resq);
        }
        Yield(holes);
      }
    }

    // -------------------------------------------------------------- the buffer

    /** Gives up a pending read of an index, and waits for a pending write of it to end. */
    method ClearPending(index: nat) returns (ok: bool)
      requires Safe({}) && Manned()
      modifies this`vals, this`order, this`pendReads, this`pendWrites, this`nthreads, this`net
      ensures Safe({index}) && Manned() && nthreads == old(nthreads)
      ensures ok <==> index !in pendWrites
      ensures ok ==> index !in pendReads
      ensures !ok ==> Safe({})
      ensures !ok <==> nthreads == 0 && old(WriteWaits(list, pendWrites, net.resq, index))
    {
      hide Protocol, Buffered, InOrder, Crew, Calm, Fewer, SameWaits, WriteWaits, Absent, Unmanned;
      NoThreads(net, nthreads);
      ghost var gets0, puts0, known0, resq0 := pendReads, pendWrites, vals.Keys, net.resq;
      Sync({});
      if nthreads == 0 {
        NoneAnswered(list, known0, gets0, puts0, resq0, vals.Keys, pendReads, pendWrites);
      }
      GiveUp(net, list, vals, pendReads, pendWrites, extra, taskCount, index);
      pendReads := pendReads - {index};
      while index in pendWrites
        invariant Safe({index}) && Manned() && nthreads == old(nthreads)
        invariant index !in pendReads
        invariant nthreads == 0 ==> (index in pendWrites <==> WriteWaits(list, puts0, resq0, index))
        decreases net.Work()
      {
        if nthreads == 0 {
          HoleWritten(list, vals, pendReads, pendWrites, index);
          return false;
        }
        PendingJob(net, list, vals.Keys, pendReads, pendWrites, extra, taskCount, index);
        Await({index}, WriteJob(list, index, pendWrites[index]));
        ghost var gets, puts := pendReads, pendWrites;
        ghost var known := vals.Keys;
        Process({index});
        FewerPending(known, gets, puts, vals.Keys, pendReads, pendWrites);
      }
      ok := true;
    }

    /** Queues the writing of a buffer entry. */
    method WriteBack(index: nat)
      requires Safe({}) && Manned()
      requires index in vals && index !in pendReads && index !in pendWrites
      modifies this`pendWrites, this`net, this`taskCount
      ensures Safe({}) && Manned()
      ensures pendWrites.Keys == old(pendWrites).Keys + {index}
      ensures old(net.Jobs()) <= net.Jobs()
    {
      hide Protocol, Buffered, InOrder, Crew, Calm, Net.Jobs;
      Yield({});
      ReadyToWrite(net, list, vals, pendReads, pendWrites, extra, taskCount, index);
      var task := Task(Job(PUT, taskCount, index), vals[index].value);
      PutWrite(net, list, vals.Keys, pendReads, pendWrites, extra, taskCount, index);
      PutCrew(net, nthreads, task);
      PutJobs(net, task);
      net := net.Put(task);
      pendWrites := pendWrites[index := taskCount];
      taskCount := taskCount + 1;
    }

    /** While too many buffer entries are not being written, starts to write the least recently used
        ones, or gives them up if they are only being read.  `tail` are the last entries used, and
        `popped` the entries taken out in front, no more of them than necessary. */
    method HandleOverflow(ghost tail: seq<nat>) returns (ghost popped: seq<nat>)
      requires Safe({}) && Manned()
      requires |tail| <= bufsize && |tail| <= |order| && order[|order| - |tail|..] == tail
      modifies this`vals, this`order, this`pendReads, this`pendWrites, this`net, this`taskCount
      ensures Safe({}) && Manned()
      ensures |set i <- vals | i !in pendWrites| <= bufsize
      ensures popped <= old(order) && (popped != [] ==>
                |set i <- old(vals).Keys | i !in old(pendWrites).Keys && i !in popped[..|popped| - 1]| > bufsize)
      ensures order == old(order)[|popped|..] + Kept(popped, old(pendReads).Keys)
      ensures forall i :: i in vals <==> i in old(vals) && !(i in popped && i in old(pendReads))
      ensures forall i :: i in pendReads <==> i in old(pendReads) && i !in popped
      ensures forall i :: i in pendWrites <==> i in old(pendWrites) || (i in popped && i !in old(pendReads))
      ensures forall i <- tail :: i in vals && i in old(vals) && (i in pendReads <==> i in old(pendReads))
                                  && (i in pendWrites <==> i in old(pendWrites))
      ensures UsedLast(order, Elements(tail), pendWrites)
    {
      hide Protocol, Buffered, InOrder, Crew, Calm, Unwritten, Popped, Needed, Kept, UsedLast;
      ghost var front, rotated := order[..|order| - |tail|], [];
      popped := [];
      assert order == front + tail + rotated;
      TailKnown(front, tail, rotated, order, vals, {});
      PendingApart(net, list, vals.Keys, pendReads, pendWrites, extra, taskCount);
      PoppedNone(vals.Keys, pendReads.Keys, pendWrites.Keys, bufsize);
      while CurrentBufsize() > bufsize
        invariant Safe({}) && Manned()
        invariant order == front + tail + rotated && Elements(rotated) <= pendWrites.Keys
        invariant old(order) == popped + front + tail
        invariant Popped(old(vals).Keys, old(pendReads).Keys, old(pendWrites).Keys, popped, rotated,
                         vals.Keys, pendReads.Keys, pendWrites.Keys)
        invariant Needed(old(vals).Keys, old(pendWrites).Keys, popped, bufsize)
        invariant forall i <- tail :: i in vals && i in old(vals) && (i in pendReads <==> i in old(pendReads))
                                      && (i in pendWrites <==> i in old(pendWrites))
        decreases |front|
      {
        FrontLeft(front, tail, rotated, order, vals, pendWrites);
        PendingApart(net, list, vals.Keys, pendReads, pendWrites, extra, taskCount);
        var index := order[0];
        TailKnown(front, tail, rotated, order, vals, {index});
        FirstOut(order, vals, front, tail, rotated);
        PopNew(old(order), popped, front, tail, order, old(vals), vals);
        PoppedNext(old(vals).Keys, old(pendReads).Keys, old(pendWrites).Keys, popped, rotated,
                   vals.Keys, pendReads.Keys, pendWrites.Keys, index);
        NeededNext(old(vals).Keys, old(pendReads).Keys, old(pendWrites).Keys, popped, rotated,
                   vals, pendReads.Keys, pendWrites, bufsize, index);
        popped := popped + [index];
        if index in pendWrites {
          order := order[1..] + [index];
          rotated := rotated + [index];
        } else if index in pendReads {
          DropRead(net, list, vals.Keys, pendReads, pendWrites, extra, taskCount, index);
          DropBuffered(list, vals, pendReads, pendWrites, index);
          order, vals := order[1..], vals - {index};
          pendReads := pendReads - {index};
        } else {
          order := order[1..] + [index];
          rotated := rotated + [index];
          WriteBack(index);
        }
        front := front[1..];
      }
      PendingApart(net, list, vals.Keys, pendReads, pendWrites, extra, taskCount);
      UnwrittenSize(vals, pendWrites);
      TailUsedLast(front, tail, rotated, order, vals, pendWrites);
      PoppedOrder(old(order), popped, front, tail, rotated, order);
      PoppedMeans(old(vals).Keys, old(pendReads).Keys, old(pendWrites).Keys, popped, rotated,
                  vals.Keys, pendReads.Keys, pendWrites.Keys, bufsize);
    }

    /** Queues the reading of an element that is not in the buffer. */
    method Request(i: nat)
      requires Valid() && i < |list| && i !in vals
      modifies this`vals, this`order, this`pendReads, this`net, this`taskCount
      ensures Valid()
      ensures vals.Keys == old(vals).Keys + {i} && order == old(order) + [i]
      ensures pendReads.Keys == old(pendReads).Keys + {i}
    {
      hide Protocol, Buffered, InOrder, Crew, Calm;
      Yield({});
      var task := Task(Job(GET, taskCount, i), []);
      UseLast(order, vals, i, None);
      PendingApart(net, list, vals.Keys, pendReads, pendWrites, extra, taskCount);
      PutRead(net, list, vals.Keys, pendReads, pendWrites, extra, taskCount, i);
      PutCrew(net, nthreads, task);
      ExpectBuffered(list, vals, pendReads, pendWrites, i, taskCount);
      net := net.Put(task);
      vals, order := vals[i := None], order + [i];
      pendReads := pendReads[i := taskCount];
      taskCount := taskCount + 1;
    }

    /** Uses an element: it becomes the last in the order of the buffer, and is asked for if it is not there. */
    method Touch(i: nat)
      requires Valid() && i < |list|
      modifies this`vals, this`order, this`pendReads, this`net, this`taskCount
      ensures Valid()
      ensures vals.Keys == old(vals).Keys + {i} && order == Without(old(order), i) + [i]
      ensures pendReads.Keys == old(pendReads).Keys + if i in old(vals) then {} else {i}
    {
      hide Protocol, Buffered, InOrder, Crew, Calm;
      UseLast(order, vals, i, None);
      if i !in vals {
        Request(i);
      } else {
        order := Without(order, i) + [i];
      }
    }

    /** Sees to it that the elements at these indices are in the buffer or on their way. */
    method Prefetch(indices: seq<int>) returns (out: Outcome)
      requires Valid()
      modifies this`vals, this`order, this`pendReads, this`pendWrites, this`nthreads, this`net, this`taskCount
      ensures Valid() && nthreads == old(nthreads)
      ensures out == if |indices| > bufsize then ValueError
                     else if exists ind <- indices :: ind < -|list| || ind >= |list| then IndexError else Done
      ensures out == Done ==> |set i <- vals | i !in pendWrites| <= bufsize
      ensures out == Done ==> Asked(indices, |list|) <= vals.Keys && UsedLast(order, Asked(indices, |list|), pendWrites)
      ensures out == Done && nthreads == 0 ==> forall i <- Asked(indices, |list|) ::
                i in pendReads <==> Absent(list, old(vals).Keys, old(pendReads), old(pendWrites), old(net).resq, i)
    {
      hide Protocol, Buffered, InOrder, Crew, Calm, Fewer, Unwritten, UsedLast, Asked, Absent, SameWaits, Unmanned,
        Index, Elements;
      if |indices| > bufsize {
        return ValueError;
      }
      NoThreads(net, nthreads);
      ghost var known0, gets0, puts0, resq0 := vals.Keys, pendReads, pendWrites, net.resq;
      Sync({});
      if nthreads == 0 {
        NoneAnswered(list, known0, gets0, puts0, resq0, vals.Keys, pendReads, pendWrites);
      }
      ghost var tail: seq<nat> := [];
      AskedNone(|list|);
      var k := 0;
      while k < |indices|
        invariant 0 <= k <= |indices| && |tail| <= k
        invariant Valid() && nthreads == old(nthreads)
        invariant |tail| <= |order| && order[|order| - |tail|..] == tail
        invariant forall j :: 0 <= j < k ==> -|list| <= indices[j] < |list|
        invariant Elements(tail) == Asked(indices[..k], |list|)
        invariant nthreads == 0 ==>
                    forall i: nat :: i !in vals || i in pendReads <==> Absent(list, known0, gets0, puts0, resq0, i)
      {
        IndexMeans(indices[k], len);
        var ind := Index(indices[k], len);
        if ind.None? {
          assert indices[k] in indices;
          return IndexError;
        }
        var i := ind.value;
        AskedNext(indices, k, |list|, i);
        TailGrows(order, tail, i);
        Touch(i);
        tail := Without(tail, i) + [i];
        k := k + 1;
      }
      assert indices[..k] == indices;
      ghost var popped := HandleOverflow(tail);
      ElementsMeans(tail);
      out := Done;
    }

    // -------------------------------------------------------------- the list

    /** The element at an index. */
    method GetItem(ind: int) returns (out: Outcome, value: Bytes)
      requires Valid()
      modifies this`vals, this`order, this`pendReads, this`pendWrites, this`nthreads, this`net, this`taskCount
      ensures Valid() && nthreads == old(nthreads)
      ensures out == IndexError <==> ind < -|list| || ind >= |list|
      ensures out == ValueError <==> -|list| <= ind < |list| && bufsize == 0
      ensures out == RuntimeError <==>
                && nthreads == 0 && -|list| <= ind < |list| && bufsize > 0
                && Absent(list, old(vals).Keys, old(pendReads), old(pendWrites), old(net).resq,
                          if ind >= 0 then ind else |list| + ind)
      ensures out == Done && ind >= 0 ==> value == list[ind]
      ensures out == Done && ind < 0 ==> value == list[|list| + ind]
      ensures out != AssertionError
    {
      hide Protocol, Buffered, InOrder, Crew, Calm, Fewer, Unwritten, Absent, Asked, UsedLast;
      value := [];
      var actind := Index(ind, len);
      if actind.None? {
        return IndexError, value;
      }
      var i := actind.value;
      AskedOne(i, |list|);
      out := Prefetch([i]);
      if out != Done {
        return;
      }
      while i in pendReads
        invariant Valid() && nthreads == old(nthreads) && i in vals
        invariant nthreads == 0 ==>
                    (i in pendReads
                     <==> Absent(list, old(vals).Keys, old(pendReads), old(pendWrites), old(net).resq, i))
        decreases net.Work()
      {
        if nthreads == 0 {
          return RuntimeError, value;
        }
        PendingJob(net, list, vals.Keys, pendReads, pendWrites, extra, taskCount, i);
        Await({}, Job(GET, pendReads[i], i));
        ghost var known, gets, puts := vals.Keys, pendReads, pendWrites;
        PendingApart(net, list, known, gets, puts, extra, taskCount);
        Process({});
        FewerPending(known, gets, puts, vals.Keys, pendReads, pendWrites);
      }
      LoadedValue(list, vals, pendReads, pendWrites, i);
      value := vals[i].value;
    }

    /** Assigns to an index of the list, or to the one after the last if `len` was counted up for it. */
    method Store(i: nat, value: Bytes) returns (out: Outcome)
      requires Safe({}) && Manned() && i <= |list|
      modifies this`vals, this`order, this`pendReads, this`pendWrites, this`nthreads, this`net, this`taskCount,
        this`list
      ensures Safe({}) && Manned() && nthreads == old(nthreads)
      ensures out == Done || out == RuntimeError
      ensures out == RuntimeError <==> nthreads == 0 && old(WriteWaits(list, pendWrites, net.resq, i))
      ensures out == RuntimeError ==> list == old(list)
      ensures out == Done ==>
                && list == (if i < |old(list)| then old(list)[i := value] else old(list) + [value])
                && |set i <- vals | i !in pendWrites| <= bufsize
      ensures out == Done && bufsize > 0 ==> i in vals && i !in pendWrites && UsedLast(order, {i}, pendWrites)
    {
      hide Protocol, Buffered, InOrder, Crew, Calm, Fewer, Unwritten, WriteWaits, UsedLast;
      var ok := ClearPending(i);
      if !ok {
        return RuntimeError;
      }
      UseLast(order, vals, i, Some(value));
      AssignBuffered(list, vals, pendReads, pendWrites, i, value);
      Assign(net, list, vals.Keys, pendReads, pendWrites, extra, taskCount, i, value);
      vals := vals[i := Some(value)];
      order := Without(order, i) + [i];
      list := if i < |list| then list[i := value] else list + [value];
      ghost var tail := if bufsize > 0 then [i] else [];
      assert Elements([i]) == {i} && order[|order| - 1..] == [i];
      ghost var popped := HandleOverflow(tail);
      out := Done;
    }

    method SetItem(ind: int, value: Bytes) returns (out: Outcome)
      requires Valid()
      modifies this`vals, this`order, this`pendReads, this`pendWrites, this`nthreads, this`net, this`taskCount,
        this`list
      ensures Valid() && nthreads == old(nthreads)
      ensures out == IndexError <==> ind < -|old(list)| || ind >= |old(list)|
      ensures out == RuntimeError <==>
                && nthreads == 0 && -|old(list)| <= ind < |old(list)|
                && old(WriteWaits(list, pendWrites, net.resq, if ind >= 0 then ind else |list| + ind))
      ensures out == Done && ind >= 0 ==> list == old(list)[ind := value]
      ensures out == Done && ind < 0 ==> list == old(list)[|old(list)| + ind := value]
      ensures out == Done ==> |set i <- vals | i !in pendWrites| <= bufsize
      ensures out == Done && bufsize > 0 ==>
                var i := if ind >= 0 then ind else |old(list)| + ind;
                i in vals && i !in pendWrites && UsedLast(order, {i}, pendWrites)
      ensures out != Done ==> list == old(list)
      ensures out in {Done, IndexError, RuntimeError}
    {
      hide Protocol, Buffered, InOrder, Crew, Calm, Unwritten, WriteWaits, UsedLast;
      var actind := Index(ind, len);
      if actind.None? {
        return IndexError;
      }
      out := Store(actind.value, value);
    }

    /** Appends an element.  When no threads run and the file of the new index is still waiting to be
        deleted, the length has been counted up already when the error is raised, and the list is left
        broken; this is exactly when it happens. */
    method Insert(ind: int, value: Bytes) returns (out: Outcome)
      requires Valid()
      modifies this`vals, this`order, this`pendReads, this`pendWrites, this`nthreads, this`net, this`taskCount,
        this`list, this`len
      ensures out in {Done, IndexError, RuntimeError}
      ensures out == IndexError <==> ind != |old(list)|
      ensures out == RuntimeError <==>
                ind == |old(list)| && nthreads == 0 && old(WriteWaits(list, pendWrites, net.resq, |list|))
      ensures out == Done ==> list == old(list) + [value] && |set i <- vals | i !in pendWrites| <= bufsize
      ensures out == Done && bufsize > 0 ==>
                |old(list)| in vals && |old(list)| !in pendWrites && UsedLast(order, {|old(list)|}, pendWrites)
      ensures out != Done ==> list == old(list)
      ensures nthreads == old(nthreads)
      ensures Valid() <==> out != RuntimeError
      ensures out == RuntimeError ==> Safe({}) && Manned() && len == |list| + 1
    {
      hide Protocol, Buffered, InOrder, Crew, Calm, Unwritten, WriteWaits, UsedLast;
      if ind != len {
        return IndexError;
      }
      len := len + 1;
      var actind := Index(ind, len);
      out := Store(actind.value, value);
    }

    /** Removes the last element. */
    method DelItem(ind: int) returns (out: Outcome)
      requires Valid()
      modifies this`vals, this`order, this`pendReads, this`pendWrites, this`nthreads, this`net, this`taskCount,
        this`list, this`len
      ensures Valid() && nthreads == old(nthreads)
      ensures out in {Done, IndexError, RuntimeError}
      ensures out == IndexError <==> old(list) == [] || (ind != -1 && ind != |old(list)| - 1)
      ensures out == RuntimeError <==>
                && nthreads == 0 && old(list) != [] && (ind == -1 || ind == |old(list)| - 1)
                && old(WriteWaits(list, pendWrites, net.resq, |list| - 1))
      ensures out == Done ==> list == old(list)[..|old(list)| - 1]
      ensures out != Done ==> list == old(list)
      ensures out == Done ==> WriteWaits(list, pendWrites, net.resq, |list|)
    {
      hide Protocol, Buffered, InOrder, Crew, Calm, Unwritten, WriteWaits, UsedLast;
      var actind := Index(ind, len);
      if actind.None? {
        return IndexError;
      }
      var i := actind.value;
      if i != len - 1 {
        return IndexError;
      }
      var ok := ClearPending(i);
      if !ok {
        return RuntimeError;
      }
      QueueDelete(i);
      len := len - 1;
      out := Done;
    }

    /** Queues the removal of the last element's file. */
    method QueueDelete(i: nat)
      requires Safe({i}) && Manned() && |list| == i + 1 && i !in pendReads && i !in pendWrites
      modifies this`vals, this`order, this`pendWrites, this`net, this`taskCount, this`list
      ensures Safe({}) && Manned() && list == old(list)[..i]
      ensures WriteWaits(list, pendWrites, net.resq, i)
    {
      hide Protocol, Buffered, InOrder, Crew, Calm, WriteWaits;
      Yield({i});
      var task := Task(Job(DEL, taskCount, i), []);
      PutDelete(net, list, vals.Keys, pendReads, pendWrites, extra, taskCount, i);
      PutCrew(net, nthreads, task);
      NewWaits(net, list, vals.Keys, pendReads, pendWrites, extra, taskCount, i);
      DeleteBuffered(list, vals, pendReads, pendWrites, i, taskCount);
      AddInOrder(order, vals, i);
      net := net.Put(task);
      order := if i in vals then order else order + [i];
      vals := vals[i := None];
      pendWrites := pendWrites[i := taskCount];
      taskCount := taskCount + 1;
      list := list[..i];
    }

    // -------------------------------------------------------------- starting and stopping

    /** Starts the threads. */
    method Open()
      requires Valid()
      modifies this`net, this`nthreads
      ensures Valid()
      ensures nthreads == if old(nthreads) > 0 then old(nthreads) else desiredThreads
      ensures net.remote == old(net).remote && net.taskq == old(net).taskq && net.resq == old(net).resq
    {
      hide Buffered, InOrder;
      if nthreads > 0 {
        return;
      }
      MoreThreads(net, list, vals.Keys, pendReads, pendWrites, extra, taskCount, desiredThreads);
      net := net.(workers := net.workers + seq(desiredThreads, _ => Idle));
      nthreads := desiredThreads;
    }

    /** Drops the elements that were only asked for. */
    method ForgetReads()
      requires Valid()
      modifies this`vals, this`order, this`pendReads
      ensures Valid()
      ensures pendReads == map[] && vals.Keys == old(vals).Keys - old(pendReads).Keys
    {
      hide Protocol, Buffered, InOrder, Crew, Calm;
      while pendReads != map[]
        invariant Valid()
        invariant pendReads.Keys <= old(pendReads).Keys
        invariant vals.Keys == old(vals).Keys - (old(pendReads).Keys - pendReads.Keys)
        decreases pendReads.Keys
      {
        var i :| i in pendReads;
        PendingApart(net, list, vals.Keys, pendReads, pendWrites, extra, taskCount);
        DropRead(net, list, vals.Keys, pendReads, pendWrites, extra, taskCount, i);
        DropBuffered(list, vals, pendReads, pendWrites, i);
        OutOfOrder(order, vals, i);
        order, vals := Without(order, i), vals - {i};
        pendReads := pendReads - {i};
      }
    }

    /** Gives up what is only being read, and starts to write everything else in the buffer. */
    method Flush()
      requires Valid()
      modifies this`vals, this`order, this`pendReads, this`pendWrites, this`net, this`taskCount
      ensures Valid()
      ensures pendReads == map[] && vals.Keys == pendWrites.Keys == old(vals).Keys - old(pendReads).Keys
      ensures old(net.Jobs()) <= net.Jobs()
    {
      hide Protocol, Buffered, InOrder, Crew, Calm, Net.Jobs;
      ForgetReads();
      OrderKnown(order, vals);
      ghost var order0, vals0 := order, vals;
      var k := 0;
      while k < |order|
        invariant 0 <= k <= |order|
        invariant Valid() && pendReads == map[] && order == order0 && vals == vals0
        invariant forall j :: 0 <= j < k ==> order[j] in pendWrites
        invariant old(net.Jobs()) <= net.Jobs()
      {
        if order[k] !in pendWrites {
          WriteBack(order[k]);
        }
        k := k + 1;
      }
      PendingApart(net, list, vals.Keys, pendReads, pendWrites, extra, taskCount);
    }

    /** Waits until all tasks are done, with orders to stop at the end of the queue. */
    method Join()
      requires Safe({}) && Crew(net, nthreads) && Closing(net, 0)
      modifies this`net
      ensures Safe({}) && Crew(net, nthreads) && Closing(net, 0) && net.AllDone()
    {
      hide Protocol, Buffered, InOrder, Crew, Closing, Net.Step, Net.Work, Net.AllDone, Enabled;
      while !net.AllDone()
        invariant Safe({}) && Crew(net, nthreads) && Closing(net, 0)
        decreases net.Work()
      {
        JoinEnabled(net);
        var w :| Enabled(net, w);
        StepProtocol(net, list, vals.Keys, pendReads, pendWrites, extra, taskCount, w);
        StepCrew(net, nthreads, w);
        StepWork(net, w);
        net := net.Step(w);
      }
    }

    /** Waits for all pending tasks, but only if one of the two queues is seen not to be empty; `waited`
        tells.  Otherwise nothing was pending. */
    method CompleteTasks() returns (out: Outcome, waited: bool)
      requires Safe({}) && Crew(net, nthreads) && Closing(net, 0) && nthreads > 0
      requires pendReads == map[] && vals.Keys == pendWrites.Keys
      modifies this`vals, this`order, this`pendReads, this`pendWrites, this`nthreads, this`net
      ensures Safe({}) && Crew(net, nthreads) && Closing(net, 0)
      ensures pendReads == map[] && pendWrites == map[] && vals == map[]
      ensures waited ==> out == Done && net.AllDone() && net.resq == [] && nthreads == 0 && Calm(net)
      ensures !waited ==> nthreads == old(nthreads) && (out == Done || out == AssertionError)
      ensures !waited ==> old(vals) == map[] && forall job <- old(net.Jobs()) :: job.command == DIE
    {
      hide Protocol, Buffered, InOrder, Crew, Calm, Closing, Net.Jobs;
      Yield({});
      waited := net.taskq != [];
      if !waited {
        Yield({});
        waited := net.resq != [];
      }
      if waited {
        Join();
        Sync({});
        AllDoneClosed(net, nthreads);
        NoJobs(net);
      } else {
        OnlyDying(net);
      }
      NothingPending(net, list, vals.Keys, pendReads, pendWrites, extra, taskCount);
      Yield({});
      var empty := net.taskq == [] && net.resq == [];
      out := if empty && pendReads == map[] && pendWrites == map[] then Done else AssertionError;
    }

    /** Writes everything back and stops the threads, if there are any; without threads, nothing happens.
        The files are those of the list in any case.  When there was nothing at all to do, the orders to
        stop may be taken before the client looks at the queues; then it does not wait, and an assertion
        fails. */
    method Close() returns (out: Outcome, waited: bool)
      requires Valid()
      modifies this`vals, this`order, this`pendReads, this`pendWrites, this`nthreads, this`net, this`taskCount
      ensures out == Done || out == AssertionError
      ensures out == Done <==> waited || old(nthreads) == 0
      ensures out == Done ==> Valid() && nthreads == 0
      ensures old(nthreads) > 0 ==>
                && (forall i: nat :: i < |list| ==> i in net.remote && net.remote[i] == list[i])
                && (forall i <- net.remote :: i < |list| || i in extra)
      ensures old(nthreads) > 0 ==> vals == map[] && pendReads == map[] && pendWrites == map[]
      ensures waited ==> net.AllDone() && net.resq == []
      ensures out == AssertionError ==> Safe({}) && old(nthreads > 0 && vals == map[] && net.Jobs() == {})
      ensures old(nthreads) == 0 ==>
                && net == old(net) && vals == old(vals) && order == old(order)
                && pendReads == old(pendReads) && pendWrites == old(pendWrites)
    {
      hide Protocol, Buffered, InOrder, Crew, Calm, Closing, Net.Jobs;
      waited := false;
      if nthreads == 0 {
        return Done, false;
      }
      CalmJobs(net);
      NoReads(net, list, vals.Keys, pendReads, pendWrites, extra, taskCount);
      Flush();
      OrderDeath(old(net.Jobs()));
      out, waited := CompleteTasks();
      if out == Done && nthreads != 0 {
        out := AssertionError;
      }
      MirrorsNow(net, list, vals.Keys, pendReads, pendWrites, extra, taskCount);
    }

    /** Queues an order to stop for each thread. */
    method OrderDeath(ghost jobs: set<Job>)
      requires Safe({}) && Manned() && nthreads > 0 && len == |list| && jobs <= net.Jobs()
      modifies this`net, this`taskCount
      ensures Safe({}) && Crew(net, nthreads) && Closing(net, 0) && jobs <= net.Jobs()
    {
      hide Protocol, Buffered, InOrder, Crew, Calm, Closing, Net.Jobs;
      AllAlive(net, nthreads);
      var k := 0;
      while k < nthreads
        invariant 0 <= k <= nthreads
        invariant Safe({}) && Crew(net, nthreads) && jobs <= net.Jobs()
        invariant if k == 0 then Calm(net) && Alive(net.workers) == nthreads else Closing(net, nthreads - k)
      {
        var task := Task(Job(DIE, taskCount, 0), []);
        Yield({});
        if k == 0 {
          AllAlive(net, nthreads);
        }
        PutDie(net, list, vals.Keys, pendReads, pendWrites, extra, taskCount);
        PutCrew(net, nthreads, task);
        PutJobs(net, task);
        net := net.Put(task);
        taskCount := taskCount + 1;
        k := k + 1;
      }
    }
  }

  /** Operations ended: reads have filled their places in the buffer, written entries have left it. */
  ghost predicate Fewer(known: set<nat>, gets: Pending, puts: Pending, known': set<nat>, gets': Pending,
                        puts': Pending) {
    && gets'.Keys <= gets.Keys && (forall i <- gets' :: gets'[i] == gets[i])
    && puts'.Keys <= puts.Keys && (forall i <- puts' :: puts'[i] == puts[i])
    && known' == known - (puts.Keys - puts'.Keys)
  }

  lemma FewerSame(known: set<nat>, gets: Pending, puts: Pending)
    ensures Fewer(known, gets, puts, known, gets, puts)
    ensures forall i :: i in gets ==> Fewer(known, gets, puts, known, gets - {i}, puts)
    ensures forall i :: i in puts ==> Fewer(known, gets, puts, known - {i}, gets, puts - {i})
  {
  }

  lemma FewerTwice(k0: set<nat>, g0: Pending, p0: Pending, k1: set<nat>, g1: Pending, p1: Pending,
                   k2: set<nat>, g2: Pending, p2: Pending)
    requires Fewer(k0, g0, p0, k1, g1, p1) && Fewer(k1, g1, p1, k2, g2, p2)
    ensures Fewer(k0, g0, p0, k2, g2, p2)
  {
  }

  lemma ReadBuffered(net: Net, list: seq<Bytes>, vals: map<nat, Option<Bytes>>, gets: Pending, puts: Pending,
                     extra: set<nat>, next: nat, holes: set<nat>, order: seq<nat>, i: nat)
    requires Protocol(net, list, vals.Keys, gets, puts, extra, next) && Buffered(list, vals, gets, puts, holes)
    requires InOrder(order, vals) && i in gets
    ensures i < |list| && Buffered(list, vals[i := Some(list[i])], gets - {i}, puts, holes)
    ensures InOrder(order, vals[i := Some(list[i])])
    ensures vals[i := Some(list[i])].Keys == vals.Keys
  {
  }

  lemma WroteBuffered(net: Net, list: seq<Bytes>, vals: map<nat, Option<Bytes>>, gets: Pending, puts: Pending,
                      extra: set<nat>, next: nat, holes: set<nat>, order: seq<nat>, i: nat)
    requires Protocol(net, list, vals.Keys, gets, puts, extra, next) && Buffered(list, vals, gets, puts, holes)
    requires InOrder(order, vals) && i in puts
    ensures Buffered(list, vals - {i}, gets, puts - {i}, holes)
    ensures InOrder(Without(order, i), vals - {i})
    ensures (vals - {i}).Keys == vals.Keys - {i}
  {
    WithoutElements(order, i);
  }

  lemma GiveUp(net: Net, list: seq<Bytes>, vals: map<nat, Option<Bytes>>, gets: Pending, puts: Pending,
               extra: set<nat>, next: nat, i: nat)
    requires Protocol(net, list, vals.Keys, gets, puts, extra, next) && Buffered(list, vals, gets, puts, {})
    ensures Protocol(net, list, vals.Keys, gets - {i}, puts, extra, next)
    ensures Buffered(list, vals, gets - {i}, puts, {i})
  {
    DropRead(net, list, vals.Keys, gets, puts, extra, next, i);
    hide Protocol;
  }

  lemma HoleWritten(list: seq<Bytes>, vals: map<nat, Option<Bytes>>, gets: Pending, puts: Pending, i: nat)
    requires Buffered(list, vals, gets, puts, {i}) && i in puts
    ensures Buffered(list, vals, gets, puts, {})
  {
  }

  lemma PendingJob(net: Net, list: seq<Bytes>, known: set<nat>, gets: Pending, puts: Pending, extra: set<nat>,
                   next: nat, i: nat)
    requires Protocol(net, list, known, gets, puts, extra, next)
    ensures i in puts ==> WriteJob(list, i, puts[i]) in net.Jobs()
    ensures i in gets ==> Job(GET, gets[i], i) in net.Jobs()
  {
  }

  lemma FewerPending(k0: set<nat>, g0: Pending, p0: Pending, k1: set<nat>, g1: Pending, p1: Pending)
    requires Fewer(k0, g0, p0, k1, g1, p1)
    ensures forall i <- g1 :: i in g0
    ensures forall i <- p1 :: i in p0
    ensures forall i <- k0 :: i !in p0 ==> i in k1
  {
  }

  lemma ReadyToWrite(net: Net, list: seq<Bytes>, vals: map<nat, Option<Bytes>>, gets: Pending, puts: Pending,
                     extra: set<nat>, next: nat, i: nat)
    requires Buffered(list, vals, gets, puts, {}) && i in vals && i !in gets && i !in puts
    ensures i < |list| && vals[i] == Some(list[i])
    ensures Buffered(list, vals, gets, puts[i := next], {})
    ensures puts[i := next].Keys == puts.Keys + {i}
  {
  }

  lemma DropBuffered(list: seq<Bytes>, vals: map<nat, Option<Bytes>>, gets: Pending, puts: Pending, i: nat)
    requires Buffered(list, vals, gets, puts, {}) && i in gets && i !in puts
    ensures Buffered(list, vals - {i}, gets - {i}, puts, {})
    ensures (vals - {i}).Keys == vals.Keys - {i}
  {
  }

  /** The last entries are in the buffer, and none of them is among the others. */
  lemma TailKnown(front: seq<nat>, tail: seq<nat>, rotated: seq<nat>, order: seq<nat>, vals: map<nat, Option<Bytes>>,
                  first: set<nat>)
    requires order == front + tail + rotated && InOrder(order, vals)
    requires first <= if front != [] then {front[0]} else {}
    ensures forall i <- tail :: i in vals && i !in first
  {
    forall i | i in tail
      ensures i in vals && i !in first
    {
      assert i in Elements(order);
      var k :| 0 <= k < |tail| && tail[k] == i;
      assert order[|front| + k] == i;
      if front != [] {
        assert order[0] == front[0];
      }
    }
  }

  /** Entries in order, without those that are given up. */
  ghost function Kept(popped: seq<nat>, gone: set<nat>): seq<nat> {
    if popped == [] then []
    else
      var last := popped[|popped| - 1];
      Kept(popped[..|popped| - 1], gone) + if last in gone then [] else [last]
  }

  /** What has become of a buffer, of which `known`, `gets` and `puts` were the entries, the reads and the
      writes, after some entries were taken out in front: reads were given up, and all others are being
      written and wait at the end. */
  ghost predicate Popped(known: set<nat>, gets: set<nat>, puts: set<nat>, popped: seq<nat>, rotated: seq<nat>,
                         known': set<nat>, gets': set<nat>, puts': set<nat>) {
    && gets !! puts
    && rotated == Kept(popped, gets)
    && known' == known - Elements(popped) * gets
    && gets' == gets - Elements(popped)
    && puts' == puts + (Elements(popped) - gets)
  }

  /** It was necessary to take out the last of these entries, too. */
  ghost predicate Needed(known: set<nat>, puts: set<nat>, popped: seq<nat>, bufsize: nat) {
    popped != [] ==> |set i <- known | i !in puts && i !in popped[..|popped| - 1]| > bufsize
  }

  lemma PoppedNone(known: set<nat>, gets: set<nat>, puts: set<nat>, bufsize: nat)
    requires gets !! puts
    ensures Popped(known, gets, puts, [], [], known, gets, puts) && Needed(known, puts, [], bufsize)
  {
  }

  lemma NeededNext(known: set<nat>, gets: set<nat>, puts: set<nat>, popped: seq<nat>, rotated: seq<nat>,
                   vals: map<nat, Option<Bytes>>, gets': set<nat>, puts': Pending, bufsize: nat, x: nat)
    requires Popped(known, gets, puts, popped, rotated, vals.Keys, gets', puts'.Keys) && puts'.Keys <= vals.Keys
    requires Unwritten(vals, puts') > bufsize
    ensures Needed(known, puts, popped + [x], bufsize)
  {
    hide Kept, Unwritten;
    assert (popped + [x])[..|popped|] == popped;
    UnwrittenSize(vals, puts');
    assert (set i <- vals | i !in puts') == (set i <- known | i !in puts && i !in popped) by {
      assert forall i :: i in popped <==> i in Elements(popped);
    }
  }

  lemma PoppedNext(known: set<nat>, gets: set<nat>, puts: set<nat>, popped: seq<nat>, rotated: seq<nat>,
                   known': set<nat>, gets': set<nat>, puts': set<nat>, x: nat)
    requires Popped(known, gets, puts, popped, rotated, known', gets', puts')
    requires x in known && x !in Elements(popped)
    ensures if x in puts' then Popped(known, gets, puts, popped + [x], rotated + [x], known', gets', puts')
            else if x in gets'
            then Popped(known, gets, puts, popped + [x], rotated, known' - {x}, gets' - {x}, puts')
            else Popped(known, gets, puts, popped + [x], rotated + [x], known', gets', puts' + {x})
  {
    KeptNext(popped, gets, x);
    AppendElements(popped, x);
    hide Kept, Elements;
  }

  lemma KeptNext(popped: seq<nat>, gone: set<nat>, x: nat)
    ensures Kept(popped + [x], gone) == if x in gone then Kept(popped, gone) else Kept(popped, gone) + [x]
  {
    assert (popped + [x])[..|popped|] == popped;
  }

  lemma PoppedOrder(order0: seq<nat>, popped: seq<nat>, front: seq<nat>, tail: seq<nat>, rotated: seq<nat>,
                    order: seq<nat>)
    requires order0 == popped + front + tail && order == front + tail + rotated
    ensures popped <= order0 && order == order0[|popped|..] + rotated
  {
  }

  lemma PoppedMeans(known: set<nat>, gets: set<nat>, puts: set<nat>, popped: seq<nat>, rotated: seq<nat>,
                    known': set<nat>, gets': set<nat>, puts': set<nat>, bufsize: nat)
    requires Popped(known, gets, puts, popped, rotated, known', gets', puts') && Needed(known, puts, popped, bufsize)
    ensures rotated == Kept(popped, gets)
    ensures forall i :: i in known' <==> i in known && !(i in popped && i in gets)
    ensures forall i :: i in gets' <==> i in gets && i !in popped
    ensures forall i :: i in puts' <==> i in puts || (i in popped && i !in gets)
    ensures popped != [] ==> |set i <- known | i !in puts && i !in popped[..|popped| - 1]| > bufsize
  {
    hide Kept;
    assert forall i :: i in popped <==> i in Elements(popped);
  }

  /** The next entry to be taken out was not taken out before. */
  lemma PopNew(order0: seq<nat>, popped: seq<nat>, front: seq<nat>, tail: seq<nat>, order: seq<nat>,
               vals0: map<nat, Option<Bytes>>, vals: map<nat, Option<Bytes>>)
    requires InOrder(order0, vals0) && order0 == popped + front + tail && front != []
    ensures front[0] in vals0 && front[0] !in Elements(popped)
    ensures order0 == popped + [front[0]] + front[1..] + tail
  {
    assert order0[|popped|] == front[0];
    assert front[0] in Elements(order0);
    forall j | 0 <= j < |popped|
      ensures popped[j] != front[0]
    {
      assert order0[j] == popped[j];
    }
  }

  lemma TailUsedLast(front: seq<nat>, tail: seq<nat>, rotated: seq<nat>, order: seq<nat>,
                     vals: map<nat, Option<Bytes>>, puts: Pending)
    requires order == front + tail + rotated && InOrder(order, vals) && Elements(rotated) <= puts.Keys
    ensures UsedLast(order, Elements(tail), puts)
  {
    forall a, b | 0 <= a < b < |order| && order[a] in Elements(tail) && order[b] !in Elements(tail)
      ensures order[b] in puts
    {
      var j :| 0 <= j < |tail| && tail[j] == order[a];
      assert order[|front| + j] == tail[j];
      assert a == |front| + j;
      assert order[b] in tail || order[b] in rotated;
      assert order[b] in Elements(rotated);
    }
  }

  lemma UnwrittenSize(vals: map<nat, Option<Bytes>>, puts: Pending)
    requires puts.Keys <= vals.Keys
    ensures Unwritten(vals, puts) == |set i <- vals | i !in puts|
  {
    SubsetSize(puts.Keys, vals.Keys);
    assert (set i <- vals | i !in puts) == vals.Keys - puts.Keys;
    assert |vals| == |vals.Keys| && |puts| == |puts.Keys|;
  }

  /** When more entries than the last ones are not being written, there is another one in front. */
  lemma FrontLeft(front: seq<nat>, tail: seq<nat>, rotated: seq<nat>, order: seq<nat>, vals: map<nat, Option<Bytes>>,
                  puts: Pending)
    requires order == front + tail + rotated && InOrder(order, vals)
    requires Elements(rotated) <= puts.Keys && Unwritten(vals, puts) > |tail|
    ensures front != [] && order[0] == front[0]
  {
    NoDupSize(order);
    assert NoDup(rotated) by {
      forall i, j | 0 <= i < j < |rotated|
        ensures rotated[i] != rotated[j]
      {
        assert order[|front + tail| + i] == rotated[i] && order[|front + tail| + j] == rotated[j];
      }
    }
    NoDupSize(rotated);
    SubsetSize(Elements(rotated), puts.Keys);
  }

  /** Taking the first entry out of the order, or putting it at the end. */
  lemma FirstOut(order: seq<nat>, vals: map<nat, Option<Bytes>>, front: seq<nat>, tail: seq<nat>, rotated: seq<nat>)
    requires InOrder(order, vals) && order == front + tail + rotated && front != []
    ensures var i := order[0];
            && i in vals
            && InOrder(order[1..] + [i], vals)
            && InOrder(order[1..], vals - {i})
            && order[1..] + [i] == front[1..] + tail + (rotated + [i])
            && order[1..] == front[1..] + tail + rotated
            && Elements(rotated + [i]) == Elements(rotated) + {i}
  {
    var i, rest := order[0], order[1..];
    assert i in vals by {
      assert i in Elements(order);
    }
    RestInOrder(order, vals);
    assert order[1..] == front[1..] + tail + rotated;
    AppendElements(rotated, i);
    hide InOrder;
  }

  lemma RestInOrder(order: seq<nat>, vals: map<nat, Option<Bytes>>)
    requires InOrder(order, vals) && order != []
    ensures InOrder(order[1..] + [order[0]], vals)
    ensures InOrder(order[1..], vals - {order[0]})
  {
    var i, rest := order[0], order[1..];
    assert order == [i] + rest;
    assert i !in rest;
    assert Elements(order) == {i} + Elements(rest);
    AppendElements(rest, i);
  }

  lemma IndexMeans(ind: int, len: nat)
    ensures Index(ind, len) == if 0 <= ind < len then Some(ind)
                               else if ind < 0 <= len + ind then Some(len + ind) else None
  {
  }

  lemma ElementsMeans(s: seq<nat>)
    ensures forall i :: i in Elements(s) <==> i in s
  {
  }

  lemma AskedNone(len: nat)
    ensures Asked([], len) == Elements<nat>([])
  {
  }

  lemma AskedNext(indices: seq<int>, k: nat, len: nat, i: nat)
    requires k < |indices| && i < len && (indices[k] == i || indices[k] == i - len)
    ensures Asked(indices[..k + 1], len) == Asked(indices[..k], len) + {i}
  {
    assert indices[..k + 1] == indices[..k] + [indices[k]];
    forall j: nat | j < len
      ensures AsksFor(indices[..k + 1], len, j) <==> AsksFor(indices[..k], len, j) || j == i
    {
    }
  }

  lemma AskedOne(i: nat, len: nat)
    requires i < len
    ensures Asked([i], len) == {i}
  {
  }

  /** An entry, old or new, moves to the end of the order. */
  lemma UseLast(order: seq<nat>, vals: map<nat, Option<Bytes>>, i: nat, v: Option<Bytes>)
    requires InOrder(order, vals)
    ensures i !in vals ==> order + [i] == Without(order, i) + [i]
    ensures InOrder(Without(order, i) + [i], vals[i := v])
    ensures i in vals ==> InOrder(Without(order, i) + [i], vals)
  {
    WithoutElements(order, i);
    AppendElements(Without(order, i), i);
    assert i !in Elements(Without(order, i));
    assert i in order ==> i in Elements(order);
  }

  lemma TailGrows(order: seq<nat>, tail: seq<nat>, i: nat)
    requires |tail| <= |order| && order[|order| - |tail|..] == tail
    ensures var order', tail' := Without(order, i) + [i], Without(tail, i) + [i];
            && |tail'| <= |tail| + 1 && |tail'| <= |order'| && order'[|order'| - |tail'|..] == tail'
            && Elements(tail') == Elements(tail) + {i}
  {
    var front := order[..|order| - |tail|];
    assert order == front + tail;
    WithoutConcat(front, tail, i);
    WithoutElements(tail, i);
    var order', tail' := Without(order, i) + [i], Without(tail, i) + [i];
    AppendElements(Without(tail, i), i);
    assert order' == Without(front, i) + tail';
  }

  lemma ExpectBuffered(list: seq<Bytes>, vals: map<nat, Option<Bytes>>, gets: Pending, puts: Pending, i: nat, id: nat)
    requires Buffered(list, vals, gets, puts, {}) && i !in vals && i !in puts
    ensures Buffered(list, vals[i := None], gets[i := id], puts, {})
    ensures vals[i := None].Keys == vals.Keys + {i}
  {
  }

  lemma PendingApart(net: Net, list: seq<Bytes>, known: set<nat>, gets: Pending, puts: Pending, extra: set<nat>,
                     next: nat)
    requires Protocol(net, list, known, gets, puts, extra, next)
    ensures forall i <- gets :: i !in puts && i in known
    ensures forall i <- puts :: i in known
  {
  }

  lemma LoadedValue(list: seq<Bytes>, vals: map<nat, Option<Bytes>>, gets: Pending, puts: Pending, i: nat)
    requires Buffered(list, vals, gets, puts, {}) && i in vals && i !in gets && i < |list|
    ensures vals[i] == Some(list[i])
  {
  }

  lemma AssignBuffered(list: seq<Bytes>, vals: map<nat, Option<Bytes>>, gets: Pending, puts: Pending, i: nat, v: Bytes)
    requires Buffered(list, vals, gets, puts, {i}) && i !in gets && i !in puts && i <= |list|
    ensures Buffered(if i < |list| then list[i := v] else list + [v], vals[i := Some(v)], gets, puts, {})
    ensures vals[i := Some(v)].Keys == vals.Keys + {i}
  {
  }

  lemma DeleteBuffered(list: seq<Bytes>, vals: map<nat, Option<Bytes>>, gets: Pending, puts: Pending, i: nat, id: nat)
    requires Buffered(list, vals, gets, puts, {i}) && |list| == i + 1 && i !in gets && i !in puts
    ensures Buffered(list[..i], vals[i := None], gets, puts[i := id], {})
    ensures vals[i := None].Keys == vals.Keys + {i}
  {
  }

  lemma AddInOrder(order: seq<nat>, vals: map<nat, Option<Bytes>>, i: nat)
    requires InOrder(order, vals)
    ensures InOrder(if i in vals then order else order + [i], vals[i := None])
  {
    AppendElements(order, i);
    assert i in order ==> i in Elements(order);
  }

  lemma MirrorsNow(net: Net, list: seq<Bytes>, known: set<nat>, gets: Pending, puts: Pending, extra: set<nat>,
                   next: nat)
    requires Protocol(net, list, known, gets, puts, extra, next) && known == {} && puts == map[]
    ensures forall i: nat :: i < |list| ==> i in net.remote && net.remote[i] == list[i]
    ensures forall i <- net.remote :: i < |list| || i in extra
  {
    hide Tasks, Listed, Ordered, Disjoint;
    forall i: nat | i < |list|
      ensures i in net.remote && net.remote[i] == list[i]
    {
      assert Stored(list, net.remote, i);
    }
  }

  lemma NothingPending(net: Net, list: seq<Bytes>, known: set<nat>, gets: Pending, puts: Pending, extra: set<nat>,
                       next: nat)
    requires Protocol(net, list, known, gets, puts, extra, next)
    requires forall job <- net.Jobs() :: job.command == DIE
    ensures gets == map[] && puts == map[]
  {
    hide Net.Jobs, Tasks, Ordered, RemoteOk;
    assert forall i :: i !in gets && i !in puts;
  }

  lemma NoReads(net: Net, list: seq<Bytes>, known: set<nat>, gets: Pending, puts: Pending, extra: set<nat>, next: nat)
    requires Protocol(net, list, known, gets, puts, extra, next)
    ensures net.Jobs() == {} ==> gets == map[]
  {
    hide Net.Jobs, Tasks, Ordered, RemoteOk;
    assert net.Jobs() == {} ==> forall i :: i !in gets;
  }

  lemma AllAlive(net: Net, nthreads: nat)
    requires Crew(net, nthreads) && Calm(net)
    ensures Alive(net.workers) == nthreads
  {
  }

  lemma MoreThreads(net: Net, list: seq<Bytes>, known: set<nat>, gets: Pending, puts: Pending, extra: set<nat>,
                    next: nat, n: nat)
    requires Protocol(net, list, known, gets, puts, extra, next) && Crew(net, 0) && Calm(net)
    ensures var net' := net.(workers := net.workers + seq(n, _ => Idle));
            Protocol(net', list, known, gets, puts, extra, next) && Crew(net', n) && Calm(net')
  {
    IdleThreads(net.workers, n);
    var more := seq(n, _ => Idle);
    var net' := net.(workers := net.workers + more);
    assert forall w <- more :: w == Idle;
    MoreIdle(net.workers, more);
    MoreOrdered(net, more, next);
    hide Ordered, Disjoint, RemoteOk, Held, Crew, Calm;
    MoreTasks(net, list, gets, puts, more);
    hide Tasks;
  }

  lemma MoreTasks(net: Net, list: seq<Bytes>, gets: Pending, puts: Pending, more: seq<Worker>)
    requires Tasks(net, list, gets, puts) && forall w <- more :: w == Idle
    ensures Tasks(net.(workers := net.workers + more), list, gets, puts)
  {
    hide TaskOk, ResponseOk;
    MoreIdle(net.workers, more);
  }

  lemma MoreIdle(workers: seq<Worker>, more: seq<Worker>)
    requires forall w <- more :: w == Idle
    ensures forall w <- workers + more :: w in workers || w == Idle
    ensures Held(workers + more) == Held(workers)
  {
    assert forall w <- workers :: w in workers + more;
  }

  lemma MoreOrdered(net: Net, more: seq<Worker>, next: nat)
    requires Ordered(net, next) && forall w <- more :: w == Idle
    ensures Ordered(net.(workers := net.workers + more), next)
  {
    hide Before;
    MoreIdle(net.workers, more);
    forall w | 0 <= w < |net.workers + more|
      ensures w < |net.workers| || (net.workers + more)[w] == Idle
    {
      if w >= |net.workers| {
        assert (net.workers + more)[w] == more[w - |net.workers|];
        assert more[w - |net.workers|] in more;
      }
    }
  }

  lemma OutOfOrder(order: seq<nat>, vals: map<nat, Option<Bytes>>, i: nat)
    requires InOrder(order, vals)
    ensures InOrder(Without(order, i), vals - {i})
  {
    WithoutElements(order, i);
  }

  lemma OrderKnown(order: seq<nat>, vals: map<nat, Option<Bytes>>)
    requires InOrder(order, vals)
    ensures forall i :: i in order <==> i in vals
  {
    assert forall i :: i in order <==> i in Elements(order);
  }

  lemma WaitsSame(list: seq<Bytes>, known: set<nat>, gets: Pending, puts: Pending, resq: seq<Response>)
    ensures SameWaits(list, known, gets, puts, resq, known, gets, puts, resq)
  {
  }

  lemma StillUnmanned(net: Net, net': Net)
    requires net'.workers == net.workers
    ensures Unmanned(net) ==> Unmanned(net')
  {
  }

  lemma NoThreads(net: Net, nthreads: nat)
    requires Crew(net, nthreads) && Calm(net)
    ensures nthreads == 0 ==> Unmanned(net)
  {
  }

  /** When no response is left, what is awaited is what is pending. */
  lemma NoneAnswered(list: seq<Bytes>, known: set<nat>, gets: Pending, puts: Pending, resq: seq<Response>,
                     known': set<nat>, gets': Pending, puts': Pending)
    requires SameWaits(list, known, gets, puts, resq, known', gets', puts', [])
    ensures forall i :: i in puts' <==> WriteWaits(list, puts, resq, i)
    ensures forall i :: i !in known' || i in gets' <==> Absent(list, known, gets, puts, resq, i)
  {
    assert Answered([]) == {};
    forall i
      ensures i in puts' <==> WriteWaits(list, puts', [], i)
      ensures i !in known' || i in gets' <==> Absent(list, known', gets', puts', [], i)
    {
    }
    hide WriteWaits, Absent;
  }

  /** No response has a new id. */
  lemma NewWaits(net: Net, list: seq<Bytes>, known: set<nat>, gets: Pending, puts: Pending, extra: set<nat>,
                 next: nat, i: nat)
    requires Protocol(net, list, known, gets, puts, extra, next) && i < |list|
    ensures WriteWaits(list[..i], puts[i := next], net.resq, i)
  {
    hide Tasks, Listed, RemoteOk;
    forall r | r in net.resq
      ensures r.job.id < next
    {
    }
  }
}

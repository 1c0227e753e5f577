/** The handlers of the event-loop thread and the body of a worker (redis-proxy/redis.c)
    as methods on the server's state.  Wherever other threads can move in between, they
    may: each method is proved for whatever they do. */
module HandOffServer {
  import opened Bytes
  import opened Options
  import opened HandOff
  import opened HandOffPaths
  import opened HandOffThreads

  class RedisServer {
    const maxclients: nat
    var clients: map<Fd, Client>
    var numClients: int
    var readers: set<Fd>
    var writers: set<Fd>
    var newjobs: seq<Fd>
    var processed: seq<Fd>
    var pipe: nat
    var mutex: Mutex
    var main: Main
    var workers: seq<Worker>
    var lost: set<Fd>

    constructor (maxclients: nat, workers: seq<Worker>)
      requires forall w :: 0 <= w < |workers| ==> workers[w] == AtLock
      ensures Init(Abstract()) && Abstract().workers == workers && Abstract().maxclients == maxclients
    {
      this.maxclients, clients, numClients, readers, writers := maxclients, map[], 0, {}, {};
      newjobs, processed, pipe := [], [], 0;
      mutex, main, this.workers, lost := Free, Loop, workers, {};
    }

    function Abstract(): State
      reads this
    {
      State(maxclients, clients, numClients, readers, writers, newjobs, processed, pipe, mutex, main, workers, lost)
    }

    // -------------------------------------------------------------- the other threads

    /** A point where the other threads may take any steps that they can: all that a caller
        learns is that they took some. */
    method Yield(me: Thread) returns (ghost steps: seq<Step>)
      modifies this
      ensures Path(old(Abstract()), steps, Abstract()) && NotBy(me, steps)
    {
      steps := [];
      PathNothing(Abstract());
    }

    method Install(t: State)
      requires t.maxclients == maxclients
      modifies this
      ensures Abstract() == t
    {
      clients, numClients, readers, writers := t.clients, t.numClients, t.readers, t.writers;
      newjobs, processed, pipe := t.newjobs, t.processed, t.pipe;
      mutex, main, workers, lost := t.mutex, t.main, t.workers, t.lost;
    }

    /** The mutex comes free: whoever has it releases it after at most two more statements. */
    method AwaitMutex(me: Thread) returns (ghost steps: seq<Step>)
      requires Inv(Abstract()) && !HasMutex(Abstract(), me)
      modifies this
      ensures mutex == Free && Path(old(Abstract()), steps, Abstract()) && NotBy(me, steps)
    {
      hide Inv, Path, Enabled, Next, Hold, HolderStep;
      ghost var s := Abstract();
      steps := [];
      PathNothing(s);
      while mutex != Free
        invariant Inv(Abstract()) && (mutex == Free || !HasMutex(Abstract(), me))
        invariant Path(s, steps, Abstract()) && NotBy(me, steps)
        decreases Hold(Abstract())
      {
        var t := Abstract();
        var step := HolderStep(t);
        HolderMoves(t);
        InvKept(t, step);
        Install(Next(t, step));
        PathOne(t, step, Abstract());
        PathJoin(s, steps, t, [step], Abstract());
        steps := steps + [step];
      }
    }

    // -------------------------------------------------------------- the handlers

    method FreeClient(c: Fd)
      modifies this
      ensures Abstract() == HandOff.FreeClient(old(Abstract()), c)
    {
      readers := readers - {c};
      writers := writers - {c};
      clients := clients - {c};
      numClients := numClients - 1;
    }

    /** Returns false, and leaves no trace, if the descriptor cannot be registered. */
    method CreateClient(fd: Fd, registered: bool) returns (created: bool)
      modifies this
      ensures created == (registered && fd < AE_SETSIZE)
      ensures Abstract() ==
              if created then old(Abstract()).(clients := old(clients)[fd := NEW_CLIENT],
                                               numClients := old(numClients) + 1, readers := old(readers) + {fd})
              else old(Abstract())
    {
      if !registered || fd >= AE_SETSIZE { return false; }
      readers := readers + {fd};
      clients := clients[fd := NEW_CLIENT];
      numClients := numClients + 1;
      created := true;
    }

    method AcceptHandler(fd: Fd, registered: bool)
      requires Enabled(Abstract(), Accept(fd, registered))
      modifies this
      ensures Does(old(Abstract()), Accept(fd, registered), Abstract())
      ensures fd in clients <==> registered && fd < AE_SETSIZE && (maxclients == 0 || old(numClients) < maxclients)
    {
      var created := CreateClient(fd, registered);
      if created && maxclients != 0 && numClients > maxclients {
        FreeClient(fd);
      }
    }

    /** -1 and -2 free the client, 1 takes it from the readers to be queued. */
    method ReadQueryFromClient(c: Fd, nread: nat, verdict: int)
      requires Enabled(Abstract(), Query(c, nread, verdict))
      modifies this
      ensures Does(old(Abstract()), Query(c, nread, verdict), Abstract())
      ensures c in clients <==> verdict != -1 && verdict != -2
      ensures c in clients ==> clients[c].rlen == old(clients)[c].rlen + nread
      ensures c in readers <==> verdict != -1 && verdict != -2 && verdict != 1
      ensures main == if verdict == 1 then AtQueue(c) else Loop
    {
      var k := clients[c];
      clients := clients[c := k.(rlen := k.rlen + nread)];
      if verdict == -1 || verdict == -2 {
        FreeClient(c);
      } else if verdict == 1 {
        readers := readers - {c};
        k := clients[c];
        clients := clients[c := k.(asked := k.asked + 1)];
        main := AtQueue(c);
      }
    }

    /** Waits for the mutex.  Here and below, `past` are the steps since state s, which is
        where the handler began, and `l` is what it has done so far. */
    method LockToQueue(ghost s: State, ghost past: seq<Step>, ghost l: Log) returns (ghost steps: seq<Step>)
      requires Going(s, past, Abstract(), l) && main.AtQueue?
      modifies this
      ensures Going(s, steps, Abstract(), l) && main == Queueing(old(main).c)
    {
      hide Inv, Going, Path, NotBy, InFlight, DoAccept, DoQuery, DoSend, DoRun, DoFinish, EntryOfWorker;
      ghost var t := Abstract();
      GoingInv(s, past, t, l);
      MutexIsHeld(t);
      ghost var more := AwaitMutex(EventLoop);
      MainYields(s, past, t, l, more, Abstract());
      steps, t := past + more, Abstract();
      mutex, main := ByMain, Queueing(main.c);
      MainFollows(s, steps, t, l, Step.LockToQueue, Abstract());
      steps := steps + [Step.LockToQueue];
    }

    method AppendJob(c: Fd, ghost s: State, ghost past: seq<Step>) returns (ghost steps: seq<Step>)
      requires Going(s, past, Abstract(), NOTHING) && main == Queueing(c)
      modifies this
      ensures Going(s, steps, Abstract(), NOTHING.(queued := [c])) && main == Queued
    {
      hide Inv, Going, Path, NotBy, InFlight, DoAccept, DoQuery, DoSend, DoRun, DoFinish, EntryOfWorker;
      ghost var t := Abstract();
      ghost var more := Yield(EventLoop);
      MainYields(s, past, t, NOTHING, more, Abstract());
      steps, t := past + more, Abstract();
      LogOfAppend(t);
      newjobs, main := newjobs + [c], Queued;
      MainFollows(s, steps, t, NOTHING, Append, Abstract());
      steps := steps + [Append];
    }

    method UnlockQueue(ghost s: State, ghost past: seq<Step>, ghost l: Log) returns (ghost steps: seq<Step>)
      requires Going(s, past, Abstract(), l) && main == Queued
      modifies this
      ensures Going(s, steps, Abstract(), l) && main == AtSignal
    {
      hide Inv, Going, Path, NotBy, InFlight, DoAccept, DoQuery, DoSend, DoRun, DoFinish, EntryOfWorker;
      ghost var t := Abstract();
      ghost var more := Yield(EventLoop);
      MainYields(s, past, t, l, more, Abstract());
      steps, t := past + more, Abstract();
      mutex, main := Free, AtSignal;
      MainFollows(s, steps, t, l, Step.UnlockQueue, Abstract());
      steps := steps + [Step.UnlockQueue];
    }

    /** Wakes some sleeper, or nobody if nobody sleeps. */
    method NoticeThreadedIO(ghost s: State, ghost past: seq<Step>, ghost l: Log) returns (ghost steps: seq<Step>)
      requires Going(s, past, Abstract(), l) && main == AtSignal
      modifies this
      ensures Going(s, steps, Abstract(), l) && main == Loop
    {
      hide Inv, Going, Path, NotBy, InFlight, DoAccept, DoQuery, DoSend, DoRun, DoFinish, EntryOfWorker;
      ghost var t := Abstract();
      ghost var more := Yield(EventLoop);
      MainYields(s, past, t, l, more, Abstract());
      steps, t := past + more, Abstract();
      var w := 0;
      if SomeWaiting(workers) {
        w :| 0 <= w < |workers| && workers[w] == Waiting;
        workers := workers[w := Woken];
      }
      main := Loop;
      MainFollows(s, steps, t, l, Signal(w), Abstract());
      steps := steps + [Signal(w)];
    }

    /** Append under the mutex, then signal: this client is queued, once. */
    method QueueIOJob(c: Fd) returns (ghost steps: seq<Step>)
      requires Inv(Abstract()) && main == AtQueue(c)
      modifies this
      ensures main == Loop && Going(old(Abstract()), steps, Abstract(), NOTHING.(queued := [c]))
    {
      hide Inv, Going;
      ghost var s, l := Abstract(), NOTHING.(queued := [c]);
      GoingNowhere(s);
      steps := LockToQueue(s, [], NOTHING);
      steps := AppendJob(c, s, steps);
      steps := UnlockQueue(s, steps, l);
      steps := NoticeThreadedIO(s, steps, l);
    }

    method SendReplyToClient(c: Fd, n: nat, rearmed: bool)
      requires Enabled(Abstract(), Send(c, n, rearmed))
      modifies this
      ensures Does(old(Abstract()), Send(c, n, rearmed), Abstract())
      ensures clients[c].sent == old(clients)[c].sent + old(clients)[c].wbuf[old(clients)[c].wpos..][..n]
      ensures c in writers <==> n < |old(clients)[c].wbuf| - old(clients)[c].wpos
    {
      var k := clients[c];
      k := k.(wpos := k.wpos + n, sent := k.sent + k.wbuf[k.wpos..k.wpos + n]);
      clients := clients[c := k];
      if k.wpos == |k.wbuf| { ResetClient(c, rearmed); }
    }

    method ResetClient(c: Fd, rearmed: bool)
      requires c in clients
      modifies this
      ensures Abstract() == old(Abstract()).(
                clients := old(clients)[c := old(clients[c]).(rlen := 0, wbuf := [], wpos := 0)],
                writers := old(writers) - {c},
                readers := if rearmed then old(readers) + {c} else old(readers) - {c},
                lost := if rearmed then old(lost) else old(lost) + {c})
    {
      clients := clients[c := clients[c].(rlen := 0, wbuf := [], wpos := 0)];
      writers := writers - {c};
      readers := readers - {c};
      if rearmed {
        readers := readers + {c};
      } else {
        lost := lost + {c};
      }
    }

    // -------------------------------------------------------------- the drain

    method ReadPipeByte(ghost s: State, ghost past: seq<Step>) returns (ghost steps: seq<Step>)
      requires Going(s, past, Abstract(), NOTHING) && main == AtRead && pipe > 0
      modifies this
      ensures Going(s, steps, Abstract(), NOTHING.(read := 1)) && main == AtPop
      ensures InFlight(Abstract()) == InFlight(old(Abstract()))
    {
      hide Inv, Going, Path, NotBy, InFlight, DoAccept, DoQuery, DoSend, DoRun, DoFinish, EntryOfWorker;
      ghost var t := Abstract();
      DrainFlight(t, ReadByte);
      LogOfReadByte(t);
      pipe, main := pipe - 1, AtPop;
      MainFollows(s, past, t, NOTHING, ReadByte, Abstract());
      steps := past + [ReadByte];
    }

    method LockToPop(ghost s: State, ghost past: seq<Step>, ghost l: Log) returns (ghost steps: seq<Step>)
      requires Going(s, past, Abstract(), l) && main == AtPop
      modifies this
      ensures Going(s, steps, Abstract(), l) && main == Popping
      ensures InFlight(Abstract()) == InFlight(old(Abstract()))
    {
      hide Inv, Going, Path, NotBy, InFlight, DoAccept, DoQuery, DoSend, DoRun, DoFinish, EntryOfWorker;
      ghost var t := Abstract();
      GoingInv(s, past, t, l);
      MutexIsHeld(t);
      ghost var more := AwaitMutex(EventLoop);
      MainYields(s, past, t, l, more, Abstract());
      steps, t := past + more, Abstract();
      DrainFlight(t, Step.LockToPop);
      mutex, main := ByMain, Popping;
      MainFollows(s, steps, t, l, Step.LockToPop, Abstract());
      steps := steps + [Step.LockToPop];
    }

    /** The assertion that the processed list is not empty is proved from the invariant. */
    method PopProcessed(ghost s: State, ghost past: seq<Step>) returns (c: Fd, ghost steps: seq<Step>)
      requires Going(s, past, Abstract(), NOTHING.(read := 1)) && main == Popping
      modifies this
      ensures Going(s, steps, Abstract(), NOTHING.(read := 1, popped := [c])) && main == Popped(c)
      ensures InFlight(Abstract()) + 1 == InFlight(old(Abstract()))
    {
      hide Inv, Going, Path, NotBy, InFlight, DoAccept, DoQuery, DoSend, DoRun, DoFinish, EntryOfWorker;
      ghost var t := Abstract();
      ghost var more := Yield(EventLoop);
      MainYields(s, past, t, NOTHING.(read := 1), more, Abstract());
      steps, t := past + more, Abstract();
      GoingInv(s, steps, t, NOTHING.(read := 1));
      JobIsThere(t);
      LogOfPop(t);
      assert |processed| != 0;
      DrainFlight(t, Pop);
      c := processed[0];
      processed, main := processed[1..], Popped(c);
      MainFollows(s, steps, t, NOTHING.(read := 1), Pop, Abstract());
      steps := steps + [Pop];
    }

    method UnlockPop(ghost s: State, ghost past: seq<Step>, ghost l: Log) returns (ghost steps: seq<Step>)
      requires Going(s, past, Abstract(), l) && main.Popped?
      modifies this
      ensures Going(s, steps, Abstract(), l) && main == AtRegister(old(main).c)
      ensures InFlight(Abstract()) == InFlight(old(Abstract()))
    {
      hide Inv, Going, Path, NotBy, InFlight, DoAccept, DoQuery, DoSend, DoRun, DoFinish, EntryOfWorker;
      ghost var t := Abstract();
      ghost var more := Yield(EventLoop);
      MainYields(s, past, t, l, more, Abstract());
      steps, t := past + more, Abstract();
      DrainFlight(t, Step.UnlockPop);
      mutex, main := Free, AtRegister(main.c);
      MainFollows(s, steps, t, l, Step.UnlockPop, Abstract());
      steps := steps + [Step.UnlockPop];
    }

    method RegisterWritable(c: Fd, ok: bool, ghost s: State, ghost past: seq<Step>) returns (ghost steps: seq<Step>)
      requires Going(s, past, Abstract(), NOTHING.(read := 1, popped := [c])) && main == AtRegister(c)
      modifies this
      ensures Going(s, steps, Abstract(), JobLog(c, ok)) && main == if ok then AtRead else Loop
      ensures InFlight(Abstract()) == InFlight(old(Abstract()))
    {
      hide Inv, Going, Path, NotBy, InFlight, DoAccept, DoQuery, DoSend, DoRun, DoFinish, EntryOfWorker;
      ghost var t, l := Abstract(), NOTHING.(read := 1, popped := [c]);
      ghost var more := Yield(EventLoop);
      MainYields(s, past, t, l, more, Abstract());
      steps, t := past + more, Abstract();
      DrainFlight(t, Register(ok));
      LogOfRegister(t, ok);
      if ok {
        writers, main := writers + {c}, AtRead;
      } else {
        lost, main := lost + {c}, Loop;
      }
      MainFollows(s, steps, t, l, Register(ok), Abstract());
      steps := steps + [Register(ok)];
    }

    /** One finished job: a byte is read, one client popped and registered. */
    method CompleteOne(ok: bool) returns (c: Fd, ghost steps: seq<Step>)
      requires Inv(Abstract()) && main == AtRead && pipe > 0
      modifies this
      ensures Going(old(Abstract()), steps, Abstract(), JobLog(c, ok)) && main == if ok then AtRead else Loop
      ensures InFlight(Abstract()) < InFlight(old(Abstract()))
    {
      hide Inv, Going, InFlight;
      ghost var s := Abstract();
      GoingNowhere(s);
      steps := ReadPipeByte(s, []);
      steps := LockToPop(s, steps, NOTHING.(read := 1));
      c, steps := PopProcessed(s, steps);
      steps := UnlockPop(s, steps, NOTHING.(read := 1, popped := [c]));
      steps := RegisterWritable(c, ok, s, steps);
    }

    /** The handler of the pipe; `oks` says which registrations succeed.  It ends although
        the workers may write more bytes meanwhile: no client is queued while it runs, so
        each round leaves fewer jobs in flight. */
    method VmThreadedIOCompletedJob(oks: nat -> bool) returns (done: nat, ghost steps: seq<Step>, ghost l: Log)
      requires Inv(Abstract()) && main == Loop
      modifies this
      ensures IsDrain(old(Abstract()), steps, Abstract()) && Inv(Abstract())
      ensures Did(EventLoop, old(Abstract()), steps, Abstract(), l) && Served(l, done, oks)
    {
      hide Inv, Going, Path, NotBy, InFlight, Served, IsDrain, Did, DoAccept, DoQuery, DoSend, DoRun, DoFinish;
      ghost var s := Abstract();
      main := AtRead;
      ghost var n, past: seq<Step> := Abstract(), [];
      InvKept(s, EnterDrain);
      GoingNowhere(n);
      done, l := 0, NOTHING;
      assert Served(l, 0, oks) by { ServedNothing(oks); }
      while true
        invariant main == AtRead && Going(n, past, Abstract(), l) && Served(l, done, oks)
        decreases InFlight(Abstract())
      {
        ghost var t := Abstract();
        ghost var more := Yield(EventLoop);
        MainYields(n, past, t, l, more, Abstract());
        past, t := past + more, Abstract();
        if pipe == 0 {
          main := Loop;
          MainFollows(n, past, t, l, PipeEmpty, Abstract());
          past := past + [PipeEmpty];
          break;
        }
        GoingInv(n, past, t, l);
        var ok := oks(done);
        var c;
        c, more := CompleteOne(ok);
        GoingJoin(n, past, t, l, more, Abstract(), JobLog(c, ok));
        ServedOne(l, done, oks, c);
        past, l, done := past + more, Then(l, JobLog(c, ok)), done + 1;
        if !ok { break; }
      }
      DrainDone(s, n, past, Abstract(), l);
      steps := [EnterDrain] + past;
    }

    // -------------------------------------------------------------- a worker

    method LockWorker(w: nat, ghost s: State, ghost past: seq<Step>, ghost l: Log) returns (ghost steps: seq<Step>)
      requires AtWork(w, s, past, Abstract(), l) && w < |workers| && WantsMutex(workers[w])
      modifies this
      ensures AtWork(w, s, steps, Abstract(), l) && past <= steps && w < |workers|
      ensures workers[w] == if old(workers[w]).AtPush? then Pushing(old(workers[w]).c) else Checking
    {
      hide Inv, AtWork, Path, NotBy, HasMutex, DoAccept, DoQuery, DoSend;
      AtWorkInv(w, s, past, Abstract(), l);
      ghost var t := Abstract();
      WorkerWithoutMutex(t, w);
      ghost var more := AwaitMutex(IOThread(w));
      WorkerYields(w, s, past, t, l, more, Abstract());
      steps, t := past + more, Abstract();
      AtWorkInv(w, s, steps, t, l);
      mutex, workers := ByWorker(w), workers[w := if workers[w].AtPush? then Pushing(workers[w].c) else Checking];
      WorkerFollows(w, s, steps, t, l, Run(w), Abstract());
      steps := steps + [Run(w)];
    }

    method PopNewJob(w: nat) returns (c: Option<Fd>)
      requires w < |workers| && workers[w] == Checking
      modifies this`newjobs, this`workers
      ensures Does(old(Abstract()), Run(w), Abstract())
      ensures c == (if old(newjobs) == [] then None else Some(old(newjobs)[0]))
      ensures |workers| == |old(workers)| && workers[w] == if c.None? then AboutToWait else Taken(c.value)
    {
      hide DoAccept, DoQuery, DoSend;
      if newjobs == [] {
        c, workers := None, workers[w := AboutToWait];
      } else {
        c := Some(newjobs[0]);
        newjobs, workers := newjobs[1..], workers[w := Taken(newjobs[0])];
      }
    }

    /** Takes the oldest job, if there is one. */
    method CheckNewJobs(w: nat, ghost s: State, ghost past: seq<Step>) returns (c: Option<Fd>, ghost steps: seq<Step>)
      requires AtWork(w, s, past, Abstract(), NOTHING) && w < |workers| && workers[w] == Checking
      modifies this
      ensures AtWork(w, s, steps, Abstract(), if c.None? then NOTHING else NOTHING.(taken := [c.value]))
      ensures w < |workers| && workers[w] == if c.None? then AboutToWait else Taken(c.value)
    {
      hide Inv, AtWork, Path, NotBy, Does, Entry, Then;
      AtWorkInv(w, s, past, Abstract(), NOTHING);
      ghost var t := Abstract();
      ghost var more := Yield(IOThread(w));
      WorkerYields(w, s, past, t, NOTHING, more, Abstract());
      steps, t := past + more, Abstract();
      AtWorkInv(w, s, steps, t, NOTHING);
      LogOfTake(t, w);
      c := PopNewJob(w);
      WorkerFollows(w, s, steps, t, NOTHING, Run(w), Abstract());
      steps := steps + [Run(w)];
    }

    method WaitThreadedIO(w: nat, ghost s: State, ghost past: seq<Step>, ghost l: Log) returns (ghost steps: seq<Step>)
      requires AtWork(w, s, past, Abstract(), l) && w < |workers| && workers[w] == AboutToWait
      modifies this
      ensures AtWork(w, s, steps, Abstract(), l) && past <= steps && w < |workers| && workers[w] == Waiting
    {
      hide Inv, AtWork, Path, NotBy, DoAccept, DoQuery, DoSend;
      AtWorkInv(w, s, past, Abstract(), l);
      ghost var t := Abstract();
      ghost var more := Yield(IOThread(w));
      WorkerYields(w, s, past, t, l, more, Abstract());
      steps, t := past + more, Abstract();
      AtWorkInv(w, s, steps, t, l);
      mutex, workers := Free, workers[w := Waiting];
      WorkerFollows(w, s, steps, t, l, Run(w), Abstract());
      steps := steps + [Run(w)];
    }

    method UnlockWorker(w: nat, ghost s: State, ghost past: seq<Step>, ghost l: Log) returns (ghost steps: seq<Step>)
      requires AtWork(w, s, past, Abstract(), l) && w < |workers| && (workers[w].Taken? || workers[w] == Pushed)
      modifies this
      ensures AtWork(w, s, steps, Abstract(), l) && past <= steps && w < |workers|
      ensures workers[w] == if old(workers[w]).Taken? then Working(old(workers[w]).c) else AtWrite
    {
      hide Inv, AtWork, Path, NotBy, DoAccept, DoQuery, DoSend;
      AtWorkInv(w, s, past, Abstract(), l);
      ghost var t := Abstract();
      ghost var more := Yield(IOThread(w));
      WorkerYields(w, s, past, t, l, more, Abstract());
      steps, t := past + more, Abstract();
      AtWorkInv(w, s, steps, t, l);
      mutex, workers := Free, workers[w := if workers[w].Taken? then Working(workers[w].c) else AtWrite];
      WorkerFollows(w, s, steps, t, l, Run(w), Abstract());
      steps := steps + [Run(w)];
    }

    method CommandReturns(w: nat, c: Fd, reply: Octets, ghost s: State, ghost past: seq<Step>, ghost l: Log)
      returns (ghost steps: seq<Step>)
      requires AtWork(w, s, past, Abstract(), l) && w < |workers| && workers[w] == Working(c)
      modifies this
      ensures AtWork(w, s, steps, Abstract(), l) && past <= steps && Finish(w, reply) in steps
      ensures w < |workers| && workers[w] == AtPush(c)
    {
      hide Inv, AtWork, Path, NotBy, DoAccept, DoQuery, DoSend;
      AtWorkInv(w, s, past, Abstract(), l);
      ghost var t := Abstract();
      ghost var more := Yield(IOThread(w));
      WorkerYields(w, s, past, t, l, more, Abstract());
      steps, t := past + more, Abstract();
      AtWorkInv(w, s, steps, t, l);
      JobIsLive(t, w);
      var k := clients[c];
      clients, workers := clients[c := k.(wbuf := reply, replies := k.replies + [reply])], workers[w := AtPush(c)];
      WorkerFollows(w, s, steps, t, l, Finish(w, reply), Abstract());
      steps := steps + [Finish(w, reply)];
    }

    method AppendProcessed(w: nat, c: Fd, ghost s: State, ghost past: seq<Step>) returns (ghost steps: seq<Step>)
      requires AtWork(w, s, past, Abstract(), NOTHING.(taken := [c])) && w < |workers| && workers[w] == Pushing(c)
      modifies this
      ensures AtWork(w, s, steps, Abstract(), NOTHING.(taken := [c], pushed := [c])) && past <= steps
      ensures w < |workers| && workers[w] == Pushed
    {
      hide Inv, AtWork, Path, NotBy, DoAccept, DoQuery, DoSend;
      AtWorkInv(w, s, past, Abstract(), NOTHING.(taken := [c]));
      ghost var t := Abstract();
      ghost var more := Yield(IOThread(w));
      WorkerYields(w, s, past, t, NOTHING.(taken := [c]), more, Abstract());
      steps, t := past + more, Abstract();
      AtWorkInv(w, s, steps, t, NOTHING.(taken := [c]));
      LogOfPush(t, w);
      processed, workers := processed + [c], workers[w := Pushed];
      WorkerFollows(w, s, steps, t, NOTHING.(taken := [c]), Run(w), Abstract());
      steps := steps + [Run(w)];
    }

    /** The pipe has room for the byte, so the assertion on the write holds. */
    method WritePipeByte(w: nat, ghost c: Fd, ghost s: State, ghost past: seq<Step>) returns (ghost steps: seq<Step>)
      requires AtWork(w, s, past, Abstract(), NOTHING.(taken := [c], pushed := [c]))
      requires w < |workers| && workers[w] == AtWrite
      modifies this
      ensures AtWork(w, s, steps, Abstract(), RoundLog(c)) && past <= steps && w < |workers| && workers[w] == AtLock
    {
      hide Inv, AtWork, Path, NotBy, DoAccept, DoQuery, DoSend;
      AtWorkInv(w, s, past, Abstract(), NOTHING.(taken := [c], pushed := [c]));
      ghost var t := Abstract();
      ghost var more := Yield(IOThread(w));
      WorkerYields(w, s, past, t, NOTHING.(taken := [c], pushed := [c]), more, Abstract());
      steps, t := past + more, Abstract();
      AtWorkInv(w, s, steps, t, NOTHING.(taken := [c], pushed := [c]));
      LogOfWrite(t, w, c);
      WriterHasRoom(t, w);
      assert pipe < AE_SETSIZE;
      pipe, workers := pipe + 1, workers[w := AtLock];
      WorkerFollows(w, s, steps, t, NOTHING.(taken := [c], pushed := [c]), Run(w), Abstract());
      steps := steps + [Run(w)];
    }

    /** One round of a worker: it falls asleep without having touched anything, or it takes
        one job, runs its command, appends it to the processed list and writes one byte. */
    method WorkerRound(w: nat, reply: Octets) returns (c: Option<Fd>, ghost steps: seq<Step>)
      requires Inv(Abstract()) && w < |workers| && (workers[w] == AtLock || workers[w] == Woken)
      modifies this
      ensures AtWork(w, old(Abstract()), steps, Abstract(), if c.None? then NOTHING else RoundLog(c.value))
      ensures w < |workers| && workers[w] == (if c.None? then Waiting else AtLock)
      ensures c.Some? ==> Finish(w, reply) in steps
    {
      hide Inv, AtWork;
      ghost var s := Abstract();
      WorkBegins(w, s);
      steps := LockWorker(w, s, [], NOTHING);
      c, steps := CheckNewJobs(w, s, steps);
      if c.None? {
        steps := WaitThreadedIO(w, s, steps, NOTHING);
      } else {
        ghost var l := NOTHING.(taken := [c.value]);
        steps := UnlockWorker(w, s, steps, l);
        steps := CommandReturns(w, c.value, reply, s, steps, l);
        steps := LockWorker(w, s, steps, l);
        steps := AppendProcessed(w, c.value, s, steps);
        steps := UnlockWorker(w, s, steps, l.(pushed := [c.value]));
        steps := WritePipeByte(w, c.value, s, steps);
      }
    }
  }
}

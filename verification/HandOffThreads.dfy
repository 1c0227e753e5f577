/** What one thread of the hand-off (redis-proxy/redis.c) can rely on while the others take
    whatever steps they can. */
module HandOffThreads {
  import opened Bytes
  import opened HandOff
  import opened HandOffPaths

  datatype Thread = EventLoop | IOThread(w: nat)

  function By(step: Step): Thread {
    if ByWorkers(step) then IOThread(step.w) else EventLoop
  }

  /** None of the steps is taken by this thread. */
  ghost predicate NotBy(me: Thread, steps: seq<Step>) {
    forall k :: 0 <= k < |steps| ==> By(steps[k]) != me
  }

  /** What this thread did along the path. */
  ghost function Mine(me: Thread, s: State, steps: seq<Step>, t: State): Log
    requires Path(s, steps, t)
    decreases |steps|
  {
    if steps == [] then NOTHING
    else
      Then(if By(steps[0]) == me then Entry(s, steps[0]) else NOTHING,
           Mine(me, Next(s, steps[0]), steps[1..], t))
  }

  ghost predicate Did(me: Thread, s: State, steps: seq<Step>, t: State, l: Log) {
    Path(s, steps, t) && Mine(me, s, steps, t) == l
  }

  lemma ThenThen(a: Log, b: Log, c: Log)
    ensures Then(Then(a, b), c) == Then(a, Then(b, c))
    ensures Then(NOTHING, a) == a && Then(a, NOTHING) == a
  {}

  lemma {:induction false} DidJoin(me: Thread, s: State, a: seq<Step>, t: State, l: Log,
                                   b: seq<Step>, u: State, m: Log)
    requires Did(me, s, a, t, l) && Did(me, t, b, u, m)
    ensures Did(me, s, a + b, u, Then(l, m))
    decreases |a|
  {
    hide Enabled, Next, Entry, Then, By;
    ThenThen(m, m, m);
    if a == [] {
      assert a + b == b;
    } else {
      var n := Next(s, a[0]);
      var rest := Mine(me, n, a[1..], t);
      DidJoin(me, n, a[1..], t, rest, b, u, m);
      assert (a + b)[1..] == a[1..] + b && (a + b)[0] == a[0];
      ThenThen(if By(a[0]) == me then Entry(s, a[0]) else NOTHING, rest, m);
    }
  }

  lemma {:induction false} DidOthers(me: Thread, s: State, steps: seq<Step>, t: State)
    requires Path(s, steps, t) && NotBy(me, steps)
    ensures Did(me, s, steps, t, NOTHING)
    decreases |steps|
  {
    hide Enabled, Next, Entry, By, Then;
    if steps == [] {
    } else {
      DidOthers(me, Next(s, steps[0]), steps[1..], t);
      ThenThen(NOTHING, NOTHING, NOTHING);
    }
  }

  lemma DidStep(me: Thread, s: State, step: Step, t: State)
    requires Does(s, step, t) && By(step) == me
    ensures Did(me, s, [step], t, Entry(s, step))
  {
    hide Enabled, Next, Entry, By, Then;
    assert [step][1..] == [];
    ThenThen(Entry(s, step), NOTHING, NOTHING);
    DidNothing(me, t);
  }

  lemma DidNothing(me: Thread, s: State)
    ensures Did(me, s, [], s, NOTHING)
  {}

  /** One more statement of this thread. */
  lemma Follow(me: Thread, s: State, steps: seq<Step>, t: State, l: Log, step: Step, u: State)
    requires Did(me, s, steps, t, l) && Does(t, step, u) && By(step) == me && Inv(t)
    ensures Did(me, s, steps + [step], u, Then(l, Entry(t, step))) && Inv(u)
  {
    hide Did, Enabled, Next, Entry, By, Then, Inv;
    DidStep(me, t, step, u);
    DidJoin(me, s, steps, t, l, [step], u, Entry(t, step));
    InvKept(t, step);
  }

  /** Steps of the other threads. */
  lemma FollowOthers(me: Thread, s: State, steps: seq<Step>, t: State, l: Log, more: seq<Step>, u: State)
    requires Did(me, s, steps, t, l) && Path(t, more, u) && NotBy(me, more) && Inv(t)
    ensures Did(me, s, steps + more, u, l) && Inv(u)
  {
    hide Did, Path, NotBy, Then, Inv;
    DidOthers(me, t, more, u);
    DidJoin(me, s, steps, t, l, more, u, NOTHING);
    ThenThen(l, l, l);
    PathKeepsInv(t, more, u);
  }

  // ---------------------------------------------------------------- what others leave alone

  function Busy(ws: seq<Worker>): nat {
    if ws == [] then 0
    else One(ws[0].Taken? || ws[0].Working? || ws[0].AtPush? || ws[0].Pushing?) + Busy(ws[1..])
  }

  /** The jobs between their queueing and their return to the event loop. */
  function InFlight(s: State): nat {
    |s.newjobs| + Busy(s.workers) + |s.processed|
  }

  lemma {:induction false} BusyMoves(ws: seq<Worker>, w: nat, x: Worker)
    requires w < |ws|
    ensures Busy(ws[w := x]) + Busy([ws[w]]) == Busy(ws) + Busy([x])
    decreases |ws|
  {
    assert Busy([x][1..]) == 0 && Busy([ws[w]][1..]) == 0;
    if w == 0 {
      assert ws[0 := x][1..] == ws[1..];
    } else {
      BusyMoves(ws[1..], w - 1, x);
      assert ws[w := x][1..] == ws[1..][w - 1 := x];
    }
  }

  /** The event-loop thread alone changes these. */
  ghost predicate SameForMain(s: State, t: State) {
    && t.main == s.main && t.readers == s.readers && t.writers == s.writers && t.lost == s.lost
    && t.clients.Keys == s.clients.Keys && t.numClients == s.numClients && InFlight(t) == InFlight(s)
  }

  lemma WorkerStepKeeps(s: State, step: Step)
    requires Enabled(s, step) && ByWorkers(step)
    ensures SameForMain(s, Next(s, step))
  {
    hide Busy, DoAccept, DoQuery, DoSend, FreeClient;
    BusyMoves(s.workers, step.w, Next(s, step).workers[step.w]);
    BusyOne(s.workers[step.w]);
    BusyOne(Next(s, step).workers[step.w]);
  }

  lemma BusyOne(x: Worker)
    ensures Busy([x]) == One(x.Taken? || x.Working? || x.AtPush? || x.Pushing?)
  {
    assert Busy([x][1..]) == 0;
  }

  lemma {:induction false} OthersLeaveMain(s: State, steps: seq<Step>, t: State)
    requires Path(s, steps, t) && NotBy(EventLoop, steps)
    ensures SameForMain(s, t) && NoHandler(steps)
    decreases |steps|
  {
    hide Enabled, Next, InFlight;
    if steps == [] {
    } else {
      WorkerStepKeeps(s, steps[0]);
      OthersLeaveMain(Next(s, steps[0]), steps[1..], t);
    }
  }

  ghost predicate SameForWorker(w: nat, s: State, t: State) {
    |t.workers| == |s.workers| && w < |s.workers| && t.workers[w] == s.workers[w]
  }

  lemma OtherStepKeeps(w: nat, s: State, step: Step)
    requires Enabled(s, step) && By(step) != IOThread(w) && w < |s.workers| && s.workers[w] != Waiting
    ensures SameForWorker(w, s, Next(s, step))
  {
    hide DoRun, DoFinish;
    if step.Run? { OtherRuns(w, s, step.w); }
    if step.Finish? { OtherFinishes(w, s, step.w, step.reply); }
  }

  lemma OtherRuns(w: nat, s: State, v: nat)
    requires Enabled(s, Run(v)) && v != w && w < |s.workers|
    ensures SameForWorker(w, s, DoRun(s, v))
  {}

  lemma OtherFinishes(w: nat, s: State, v: nat, reply: Octets)
    requires Enabled(s, Finish(v, reply)) && v != w && w < |s.workers|
    ensures SameForWorker(w, s, DoFinish(s, v, reply))
  {}

  lemma {:induction false} OthersLeaveWorker(w: nat, s: State, steps: seq<Step>, t: State)
    requires Path(s, steps, t) && NotBy(IOThread(w), steps) && w < |s.workers| && s.workers[w] != Waiting
    ensures SameForWorker(w, s, t)
    decreases |steps|
  {
    hide Enabled, Next, By;
    if steps == [] {
    } else {
      OtherStepKeeps(w, s, steps[0]);
      OthersLeaveWorker(w, Next(s, steps[0]), steps[1..], t);
    }
  }

  // ---------------------------------------------------------------- the mutex comes free

  predicate HasMutex(s: State, me: Thread) {
    s.mutex == if me.EventLoop? then ByMain else ByWorker(me.w)
  }

  /** The next statement of the thread that has the mutex. */
  function HolderStep(s: State): Step
    requires s.mutex != Free
  {
    if s.mutex.ByWorker? then Run(s.mutex.w)
    else if s.main.Queueing? then Append
    else if s.main.Queued? then Step.UnlockQueue
    else if s.main.Popping? then Pop
    else Step.UnlockPop
  }

  /** How many statements it is from releasing it. */
  function Hold(s: State): nat {
    if s.mutex == Free then 0
    else if s.mutex == ByMain then if s.main.Queueing? || s.main.Popping? then 2 else 1
    else if s.mutex.w < |s.workers| && (s.workers[s.mutex.w].Checking? || s.workers[s.mutex.w].Pushing?) then 2
    else 1
  }

  lemma HolderMoves(s: State)
    requires Inv(s) && s.mutex != Free
    ensures Enabled(s, HolderStep(s)) && Hold(Next(s, HolderStep(s))) < Hold(s)
    ensures By(HolderStep(s)) == if s.mutex == ByMain then EventLoop else IOThread(s.mutex.w)
    ensures Next(s, HolderStep(s)).mutex == Free || Next(s, HolderStep(s)).mutex == s.mutex
    ensures Next(s, HolderStep(s)).maxclients == s.maxclients
  {
    hide Sum, OwnerInv, WakeInv, ReplyInv;
  }

  // ---------------------------------------------------------------- along a method

  /** Where a handler has come to, what it did, and that no other handler began. */
  ghost predicate Going(s: State, steps: seq<Step>, t: State, l: Log) {
    Did(EventLoop, s, steps, t, l) && Inv(t) && NoHandler(steps)
  }

  lemma GoingNowhere(s: State)
    requires Inv(s)
    ensures Going(s, [], s, NOTHING)
  {
    hide Inv;
  }

  lemma MainFollows(s: State, steps: seq<Step>, t: State, l: Log, step: Step, u: State)
    requires Going(s, steps, t, l) && Does(t, step, u) && By(step) == EventLoop && !StartsAtLoop(step)
    ensures Going(s, steps + [step], u, Then(l, Entry(t, step)))
    ensures Entry(t, step) == NOTHING ==> Going(s, steps + [step], u, l)
  {
    hide Did, Enabled, Next, Entry, Inv, By, StartsAtLoop, Then;
    Follow(EventLoop, s, steps, t, l, step, u);
    ThenThen(l, l, l);
  }

  lemma MainYields(s: State, steps: seq<Step>, t: State, l: Log, more: seq<Step>, u: State)
    requires Going(s, steps, t, l) && Path(t, more, u) && NotBy(EventLoop, more)
    ensures Going(s, steps + more, u, l) && SameForMain(t, u)
  {
    hide Did, Inv, By, StartsAtLoop, Path, NotBy, InFlight;
    FollowOthers(EventLoop, s, steps, t, l, more, u);
    OthersLeaveMain(t, more, u);
  }

  /** Where a worker has come to and what it did. */
  ghost predicate AtWork(w: nat, s: State, steps: seq<Step>, t: State, l: Log) {
    Did(IOThread(w), s, steps, t, l) && Inv(t) && w < |t.workers|
  }

  lemma WorkerFollows(w: nat, s: State, steps: seq<Step>, t: State, l: Log, step: Step, u: State)
    requires AtWork(w, s, steps, t, l) && Does(t, step, u) && By(step) == IOThread(w) && w < |u.workers|
    ensures AtWork(w, s, steps + [step], u, Then(l, Entry(t, step)))
    ensures Entry(t, step) == NOTHING ==> AtWork(w, s, steps + [step], u, l)
  {
    hide Did, Enabled, Next, Entry, Inv, By, Then;
    Follow(IOThread(w), s, steps, t, l, step, u);
    ThenThen(l, l, l);
  }

  lemma WorkerYields(w: nat, s: State, steps: seq<Step>, t: State, l: Log, more: seq<Step>, u: State)
    requires AtWork(w, s, steps, t, l) && Path(t, more, u) && NotBy(IOThread(w), more)
    requires t.workers[w] != Waiting
    ensures AtWork(w, s, steps + more, u, l) && u.workers[w] == t.workers[w]
  {
    hide Did, Inv, By, Path, NotBy;
    FollowOthers(IOThread(w), s, steps, t, l, more, u);
    OthersLeaveWorker(w, t, more, u);
  }

  lemma MutexIsHeld(s: State)
    requires Inv(s)
    ensures s.mutex == ByMain <==> MainInCritical(s.main)
    ensures forall w :: 0 <= w < |s.workers| ==> (InCritical(s.workers[w]) <==> s.mutex == ByWorker(w))
  {
    hide Sum, OwnerInv, WakeInv, ReplyInv, PipeInv;
  }

  /** The assertion before the pop. */
  lemma JobIsThere(s: State)
    requires Inv(s) && s.main == Popping
    ensures s.processed != []
  {
    hide Sum, OwnerInv, WakeInv, ReplyInv, MutexInv;
  }

  lemma JobIsLive(s: State, w: nat)
    requires Inv(s) && w < |s.workers| && s.workers[w].Working?
    ensures s.workers[w].c in s.clients
  {
    hide Sum, PipeInv, WakeInv, ReplyInv, MutexInv;
    var c := s.workers[w].c;
    assert Places(s, c) + One(c in s.lost) == One(c in s.clients);
    SumSplit(s.workers, w, c);
  }

  lemma DrainFlight(s: State, step: Step)
    requires Enabled(s, step)
    requires step == ReadByte || step == Step.LockToPop || step == Step.UnlockPop || step.Register? || step == Pop
    ensures InFlight(Next(s, step)) + One(step == Pop) == InFlight(s)
  {
    hide Busy;
  }

  lemma GoingInv(s: State, steps: seq<Step>, t: State, l: Log)
    requires Going(s, steps, t, l)
    ensures Inv(t)
  {
    hide Inv, Did;
  }

  /** What the event-loop thread does for one finished client. */
  function JobLog(c: Fd, ok: bool): Log {
    NOTHING.(read := 1, popped := [c], offered := [c], answers := [ok])
  }

  lemma LogOfAppend(s: State)
    requires s.main.Queueing?
    ensures Then(NOTHING, Entry(s, Append)) == NOTHING.(queued := [s.main.c])
  {
    hide Then;
    ThenThen(Entry(s, Append), NOTHING, NOTHING);
  }

  lemma LogOfReadByte(s: State)
    requires s.main == AtRead && s.pipe > 0
    ensures Then(NOTHING, Entry(s, ReadByte)) == NOTHING.(read := 1)
  {
    hide Then;
    ThenThen(Entry(s, ReadByte), NOTHING, NOTHING);
  }

  lemma LogOfPop(s: State)
    requires s.main == Popping && s.processed != []
    ensures Then(NOTHING.(read := 1), Entry(s, Pop)) == NOTHING.(read := 1, popped := [s.processed[0]])
  {
    hide Then;
    ThenPop(s.processed[0]);
  }

  lemma ThenPop(c: Fd)
    ensures Then(NOTHING.(read := 1), NOTHING.(popped := [c])) == NOTHING.(read := 1, popped := [c])
  {}

  lemma LogOfRegister(s: State, ok: bool)
    requires s.main.AtRegister?
    ensures Then(NOTHING.(read := 1, popped := [s.main.c]), Entry(s, Register(ok))) == JobLog(s.main.c, ok)
  {
    hide Then;
    ThenRegister(s.main.c, ok);
  }

  lemma ThenRegister(c: Fd, ok: bool)
    ensures Then(NOTHING.(read := 1, popped := [c]), NOTHING.(offered := [c], answers := [ok])) == JobLog(c, ok)
  {}

  lemma GoingJoin(s: State, a: seq<Step>, t: State, l: Log, b: seq<Step>, u: State, m: Log)
    requires Going(s, a, t, l) && Going(t, b, u, m)
    ensures Going(s, a + b, u, Then(l, m))
  {
    hide Did, Inv, Then, StartsAtLoop;
    DidJoin(EventLoop, s, a, t, l, b, u, m);
  }

  /** A drain, from the event loop back to the event loop. */
  lemma DrainDone(s: State, n: State, steps: seq<Step>, t: State, l: Log)
    requires s.main == Loop && Does(s, EnterDrain, n) && Going(n, steps, t, l) && t.main == Loop
    ensures IsDrain(s, [EnterDrain] + steps, t) && Did(EventLoop, s, [EnterDrain] + steps, t, l) && Inv(t)
  {
    hide Inv, Path, NoHandler, Then, Mine;
    DidStep(EventLoop, s, EnterDrain, n);
    DidJoin(EventLoop, s, [EnterDrain], n, NOTHING, steps, t, l);
    ThenThen(l, l, l);
    assert ([EnterDrain] + steps)[1..] == steps;
  }

  /** Done so far: these answers, and as many clients. */
  ghost predicate Served(l: Log, done: nat, oks: nat -> bool) {
    && |l.popped| == done == |l.answers| && forall k :: 0 <= k < done ==> l.answers[k] == oks(k)
  }

  lemma ServedNothing(oks: nat -> bool)
    ensures Served(NOTHING, 0, oks)
  {}

  lemma ServedOne(l: Log, done: nat, oks: nat -> bool, c: Fd)
    requires Served(l, done, oks)
    ensures Served(Then(l, JobLog(c, oks(done))), done + 1, oks)
  {}

  lemma AtWorkInv(w: nat, s: State, steps: seq<Step>, t: State, l: Log)
    requires AtWork(w, s, steps, t, l)
    ensures Inv(t) && w < |t.workers|
  {
    hide Inv, Did;
  }

  lemma WorkBegins(w: nat, s: State)
    requires Inv(s) && w < |s.workers|
    ensures AtWork(w, s, [], s, NOTHING)
  {
    hide Inv;
  }

  /** A worker between two statements without the mutex does not have it. */
  lemma WorkerWithoutMutex(s: State, w: nat)
    requires Inv(s) && w < |s.workers| && !InCritical(s.workers[w])
    ensures !HasMutex(s, IOThread(w))
  {
    hide InCritical;
    MutexIsHeld(s);
  }

  /** What a worker does for one job. */
  function RoundLog(c: Fd): Log {
    NOTHING.(taken := [c], pushed := [c], written := 1)
  }

  lemma LogOfTake(s: State, w: nat)
    requires w < |s.workers| && s.workers[w] == Checking
    ensures Then(NOTHING, Entry(s, Run(w))) ==
            if s.newjobs == [] then NOTHING else NOTHING.(taken := [s.newjobs[0]])
  {
    hide Then;
    ThenThen(Entry(s, Run(w)), NOTHING, NOTHING);
  }

  lemma LogOfPush(s: State, w: nat)
    requires w < |s.workers| && s.workers[w].Pushing?
    ensures var c := s.workers[w].c;
            Then(NOTHING.(taken := [c]), Entry(s, Run(w))) == NOTHING.(taken := [c], pushed := [c])
  {
    hide Then;
    ThenPush(s.workers[w].c);
  }

  lemma ThenPush(c: Fd)
    ensures Then(NOTHING.(taken := [c]), NOTHING.(pushed := [c])) == NOTHING.(taken := [c], pushed := [c])
    ensures Then(NOTHING.(taken := [c], pushed := [c]), NOTHING.(written := 1)) == RoundLog(c)
  {}

  lemma LogOfWrite(s: State, w: nat, c: Fd)
    requires w < |s.workers| && s.workers[w] == AtWrite
    ensures Then(NOTHING.(taken := [c], pushed := [c]), Entry(s, Run(w))) == RoundLog(c)
  {
    hide Then;
    ThenPush(c);
  }
}

/** The hand-off of client jobs between the event-loop thread and N worker
    threads (redis-proxy/redis.c), as a system of interleaved atomic steps.

    Every statement that another thread can observe is a step of its own: taking
    and releasing the mutex, testing the list, falling asleep, appending, popping,
    the pipe write and the pipe read.  A client is named by its file descriptor. */
module HandOff {
  import opened Bytes

  const AE_SETSIZE: nat := 10240

  type Fd = nat

  /** `asked`, `replies` and `sent` are history: requests queued, replies produced
      by workers, bytes handed to the socket. */
  datatype Client = Client(rlen: nat, wbuf: Octets, wpos: nat,
                           asked: nat, replies: seq<Octets>, sent: Octets)

  const NEW_CLIENT := Client(0, [], 0, 0, [], [])

  /** Where a worker stands in IOThreadEntryPoint. */
  datatype Worker =
    | AtLock                // wants the mutex to look for a job
    | Checking              // has the mutex, about to test the list length
    | AboutToWait           // has the mutex, saw an empty list
    | Waiting               // asleep on the condition, mutex released
    | Woken                 // condition wait returned, wants the mutex back
    | Taken(c: Fd)          // has the mutex and a job
    | Working(c: Fd)        // runs the command
    | AtPush(c: Fd)         // command done, wants the mutex
    | Pushing(c: Fd)        // has the mutex, about to append
    | Pushed                // has the mutex, appended
    | AtWrite               // about to write the pipe byte

  /** Where the event-loop thread stands. */
  datatype Main =
    | Loop                  // in the event loop, no handler running
    | AtQueue(c: Fd)        // events of c deleted, wants the mutex
    | Queueing(c: Fd)       // has the mutex, about to append
    | Queued                // has the mutex, appended
    | AtSignal              // about to signal the condition
    | AtRead                // about to read one pipe byte
    | AtPop                 // byte read, wants the mutex
    | Popping               // has the mutex, about to assert and pop
    | Popped(c: Fd)         // has the mutex and the finished client
    | AtRegister(c: Fd)     // about to register c for writing

  datatype Mutex = Free | ByMain | ByWorker(w: nat)

  /** `lost` is history: live clients that no structure of the server refers to. */
  datatype State = State(
    maxclients: nat,
    clients: map<Fd, Client>, numClients: int,
    readers: set<Fd>, writers: set<Fd>,
    newjobs: seq<Fd>, processed: seq<Fd>, pipe: nat,
    mutex: Mutex, main: Main, workers: seq<Worker>,
    lost: set<Fd>)

  datatype Step =
    | Accept(fd: Fd, registered: bool)
    | Query(c: Fd, nread: nat, verdict: int)
    | Hangup(c: Fd)
    | Send(c: Fd, n: nat, rearmed: bool)
    | SendFails(c: Fd)
    | LockToQueue | Append | UnlockQueue | Signal(w: nat)
    | EnterDrain | ReadByte | PipeEmpty
    | LockToPop | Pop | UnlockPop | Register(ok: bool)
    | Run(w: nat)                      // a worker's next statement
    | Finish(w: nat, reply: Octets)    // its command returns
    | Wake(w: nat)                     // its condition wait returns spuriously

  predicate Init(s: State) {
    && s.clients == map[] && s.numClients == 0
    && s.readers == {} && s.writers == {} && s.lost == {}
    && s.newjobs == [] && s.processed == [] && s.pipe == 0
    && s.mutex == Free && s.main == Loop
    && forall w :: 0 <= w < |s.workers| ==> s.workers[w] == AtLock
  }

  predicate SomeWaiting(ws: seq<Worker>) {
    exists w :: 0 <= w < |ws| && ws[w] == Waiting
  }

  predicate WantsMutex(w: Worker) { w.AtLock? || w.Woken? || w.AtPush? }

  predicate Enabled(s: State, step: Step) {
    match step
    case Accept(fd, _) => s.main == Loop && fd !in s.clients
    case Query(c, nread, _) => s.main == Loop && c in s.readers && c in s.clients && nread > 0
    case Hangup(c) => s.main == Loop && c in s.readers && c in s.clients
    case Send(c, n, _) =>
      && s.main == Loop && c in s.writers && c in s.clients
      && s.clients[c].wpos + n <= |s.clients[c].wbuf|
    case SendFails(c) => s.main == Loop && c in s.writers && c in s.clients
    case LockToQueue => s.main.AtQueue? && s.mutex == Free
    case Append => s.main.Queueing?
    case UnlockQueue => s.main == Queued
    // a signal wakes one sleeper if there is one, otherwise it is forgotten
    case Signal(w) =>
      && s.main == AtSignal
      && (SomeWaiting(s.workers) ==> w < |s.workers| && s.workers[w] == Waiting)
    case EnterDrain => s.main == Loop
    case ReadByte => s.main == AtRead && s.pipe > 0
    case PipeEmpty => s.main == AtRead && s.pipe == 0
    case LockToPop => s.main == AtPop && s.mutex == Free
    case Pop => s.main == Popping && s.processed != []
    case UnlockPop => s.main.Popped?
    case Register(_) => s.main.AtRegister?
    case Run(w) =>
      && w < |s.workers| && !s.workers[w].Waiting? && !s.workers[w].Working?
      && (WantsMutex(s.workers[w]) ==> s.mutex == Free)
    case Finish(w, _) => w < |s.workers| && s.workers[w].Working? && s.workers[w].c in s.clients
    case Wake(w) => w < |s.workers| && s.workers[w] == Waiting
  }

  function FreeClient(s: State, c: Fd): State {
    s.(clients := s.clients - {c}, numClients := s.numClients - 1,
       readers := s.readers - {c}, writers := s.writers - {c})
  }

  function DoAccept(s: State, fd: Fd, registered: bool): State {
    if !registered || fd >= AE_SETSIZE then s
    else
      var t := s.(clients := s.clients[fd := NEW_CLIENT], numClients := s.numClients + 1,
                  readers := s.readers + {fd});
      if s.maxclients != 0 && t.numClients > s.maxclients then FreeClient(t, fd) else t
  }

  function DoQuery(s: State, c: Fd, nread: nat, verdict: int): State
    requires c in s.clients
  {
    var client := s.clients[c].(rlen := s.clients[c].rlen + nread);
    var t := s.(clients := s.clients[c := client]);
    if verdict == -1 || verdict == -2 then FreeClient(t, c)
    else if verdict == 1 then
      t.(clients := s.clients[c := client.(asked := client.asked + 1)],
         readers := s.readers - {c}, main := AtQueue(c))
    else t
  }

  function DoSend(s: State, c: Fd, n: nat, rearmed: bool): State
    requires c in s.clients && s.clients[c].wpos + n <= |s.clients[c].wbuf|
  {
    var k := s.clients[c];
    var k' := k.(wpos := k.wpos + n, sent := k.sent + k.wbuf[k.wpos..k.wpos + n]);
    if k'.wpos < |k'.wbuf| then s.(clients := s.clients[c := k'])
    else
      s.(clients := s.clients[c := k'.(rlen := 0, wbuf := [], wpos := 0)],
         writers := s.writers - {c},
         readers := if rearmed then s.readers + {c} else s.readers - {c},
         lost := if rearmed then s.lost else s.lost + {c})
  }

  /** One statement of worker w. */
  function DoRun(s: State, w: nat): State
    requires Enabled(s, Run(w))
  {
    match s.workers[w]
    case AtLock => s.(mutex := ByWorker(w), workers := s.workers[w := Checking])
    case Woken => s.(mutex := ByWorker(w), workers := s.workers[w := Checking])
    case Checking =>
      if s.newjobs == [] then s.(workers := s.workers[w := AboutToWait])
      else s.(newjobs := s.newjobs[1..], workers := s.workers[w := Taken(s.newjobs[0])])
    case AboutToWait => s.(mutex := Free, workers := s.workers[w := Waiting])
    case Taken(c) => s.(mutex := Free, workers := s.workers[w := Working(c)])
    case AtPush(c) => s.(mutex := ByWorker(w), workers := s.workers[w := Pushing(c)])
    case Pushing(c) => s.(processed := s.processed + [c], workers := s.workers[w := Pushed])
    case Pushed => s.(mutex := Free, workers := s.workers[w := AtWrite])
    case AtWrite => s.(pipe := s.pipe + 1, workers := s.workers[w := AtLock])
  }

  function DoFinish(s: State, w: nat, reply: Octets): State
    requires Enabled(s, Finish(w, reply))
  {
    var c := s.workers[w].c;
    var k := s.clients[c];
    s.(clients := s.clients[c := k.(wbuf := reply, replies := k.replies + [reply])],
       workers := s.workers[w := AtPush(c)])
  }

  function Next(s: State, step: Step): State
    requires Enabled(s, step)
  {
    match step
    case Accept(fd, registered) => DoAccept(s, fd, registered)
    case Query(c, nread, verdict) => DoQuery(s, c, nread, verdict)
    case Hangup(c) => FreeClient(s, c)
    case Send(c, n, rearmed) => DoSend(s, c, n, rearmed)
    case SendFails(c) => FreeClient(s, c)
    case LockToQueue => s.(mutex := ByMain, main := Queueing(s.main.c))
    case Append => s.(newjobs := s.newjobs + [s.main.c], main := Queued)
    case UnlockQueue => s.(mutex := Free, main := AtSignal)
    case Signal(w) =>
      if SomeWaiting(s.workers) then s.(workers := s.workers[w := Woken], main := Loop)
      else s.(main := Loop)
    case EnterDrain => s.(main := AtRead)
    case ReadByte => s.(pipe := s.pipe - 1, main := AtPop)
    case PipeEmpty => s.(main := Loop)
    case LockToPop => s.(mutex := ByMain, main := Popping)
    case Pop => s.(processed := s.processed[1..], main := Popped(s.processed[0]))
    case UnlockPop => s.(mutex := Free, main := AtRegister(s.main.c))
    case Register(ok) =>
      if ok then s.(writers := s.writers + {s.main.c}, main := AtRead)
      else s.(lost := s.lost + {s.main.c}, main := Loop)
    case Run(w) => DoRun(s, w)
    case Finish(w, reply) => DoFinish(s, w, reply)
    case Wake(w) => s.(workers := s.workers[w := Woken])
  }

  predicate IsRun(states: seq<State>, steps: seq<Step>) {
    && |states| == |steps| + 1
    && Init(states[0])
    && forall i :: 0 <= i < |steps| ==>
         Enabled(states[i], steps[i]) && states[i + 1] == Next(states[i], steps[i])
  }

  // ---------------------------------------------------------------- tallies

  /** What one worker contributes to the global accounts, as seen by client c:
      pushes without their pipe byte, visits to the job list still to come,
      whether it holds c, and whether it holds c with the request unanswered. */
  datatype Tally = Tally(unwritten: nat, headed: nat, held: nat, pending: nat)

  function One(b: bool): nat { if b then 1 else 0 }

  function TallyOf(w: Worker, c: Fd): Tally {
    Tally(One(w.Pushed? || w.AtWrite?),
          One(w.AtLock? || w.Checking? || w.Woken?),
          One((w.Taken? || w.Working? || w.AtPush? || w.Pushing?) && w.c == c),
          One((w.Taken? || w.Working?) && w.c == c))
  }

  function Plus(a: Tally, b: Tally): Tally {
    Tally(a.unwritten + b.unwritten, a.headed + b.headed, a.held + b.held, a.pending + b.pending)
  }

  function Sum(ws: seq<Worker>, c: Fd): Tally {
    if ws == [] then Tally(0, 0, 0, 0)
    else Plus(Sum(ws[..|ws| - 1], c), TallyOf(ws[|ws| - 1], c))
  }

  /** The accounts of everyone but worker i. */
  function Others(ws: seq<Worker>, i: nat, c: Fd): Tally
    requires i < |ws|
  {
    Sum(ws[..i] + ws[i + 1..], c)
  }

  /** The accounts are those of worker i and of the others, so moving worker i
      changes them by its own difference only. */
  lemma {:induction false} SumSplit(ws: seq<Worker>, i: nat, c: Fd)
    requires i < |ws|
    ensures Sum(ws, c) == Plus(Others(ws, i, c), TallyOf(ws[i], c))
  {
    var n := |ws| - 1;
    if i == n {
      assert ws[..i] + ws[i + 1..] == ws[..n];
    } else {
      SumSplit(ws[..n], i, c);
      var rest := ws[..i] + ws[i + 1..];
      assert rest[..|rest| - 1] == ws[..n][..i] + ws[..n][i + 1..];
    }
  }

  lemma {:induction false} SumOfSleepers(ws: seq<Worker>, c: Fd)
    requires forall w :: 0 <= w < |ws| ==> ws[w] == Waiting
    ensures Sum(ws, c) == Tally(0, 0, 0, 0)
  {
    if ws == [] {
    } else {
      SumOfSleepers(ws[..|ws| - 1], c);
    }
  }

  lemma {:induction false} SumAtStart(ws: seq<Worker>, c: Fd)
    requires forall w :: 0 <= w < |ws| ==> ws[w] == AtLock
    ensures Sum(ws, c) == Tally(0, |ws|, 0, 0)
  {
    if ws == [] {
    } else {
      SumAtStart(ws[..|ws| - 1], c);
    }
  }

  // ---------------------------------------------------------------- invariants

  predicate InCritical(w: Worker) {
    w.Checking? || w.AboutToWait? || w.Taken? || w.Pushing? || w.Pushed?
  }

  predicate MainInCritical(m: Main) { m.Queueing? || m.Queued? || m.Popping? || m.Popped? }

  ghost predicate MutexInv(s: State) {
    && (MainInCritical(s.main) <==> s.mutex == ByMain)
    && (s.mutex.ByWorker? ==> s.mutex.w < |s.workers|)
    && forall w :: 0 <= w < |s.workers| ==> (InCritical(s.workers[w]) <==> s.mutex == ByWorker(w))
  }

  /** Every finished job is announced exactly once: by a byte in the pipe, by a
      worker that still owes its byte, or by a byte the main thread has in hand. */
  ghost predicate PipeInv(s: State) {
    |s.processed| == s.pipe + Sum(s.workers, 0).unwritten + One(s.main.AtPop? || s.main.Popping?)
  }

  predicate MainHolds(m: Main, c: Fd) {
    (m.AtQueue? || m.Queueing? || m.Popped? || m.AtRegister?) && m.c == c
  }

  function Count(q: seq<Fd>, c: Fd): nat { multiset(q)[c] }

  /** How many places of the server refer to client c. */
  function Places(s: State, c: Fd): nat {
    One(c in s.readers) + One(c in s.writers)
    + Count(s.newjobs, c) + Count(s.processed, c)
    + Sum(s.workers, c).held + One(MainHolds(s.main, c))
  }

  /** server.clients counts the live clients, within the configured limit. */
  predicate Counted(s: State) {
    s.numClients == |s.clients| && (s.maxclients != 0 ==> s.numClients <= s.maxclients)
  }

  ghost predicate OwnerInv(s: State) {
    Counted(s) && forall c :: Places(s, c) + One(c in s.lost) == One(c in s.clients)
  }

  /** The signal for the job just queued is still to come. */
  predicate SignalDue(s: State) { s.main.Queued? || s.main.AtSignal? }

  ghost predicate WakeInv(s: State) {
    && (forall w :: 0 <= w < |s.workers| && s.workers[w] == AboutToWait ==> s.newjobs == [])
    && (SomeWaiting(s.workers) ==>
          |s.newjobs| <= Sum(s.workers, 0).headed + One(SignalDue(s)))
  }

  /** How often client c waits for an answer to a queued request. */
  function Pending(s: State, c: Fd): nat {
    Count(s.newjobs, c) + Sum(s.workers, c).pending
    + One((s.main.AtQueue? || s.main.Queueing?) && s.main.c == c)
  }

  ghost predicate ReplyInvOf(s: State, c: Fd)
    requires c in s.clients
  {
    var k := s.clients[c];
    && k.wpos <= |k.wbuf|
    && k.sent + k.wbuf[k.wpos..] == Concat(k.replies)
    && k.asked == |k.replies| + Pending(s, c)
    && (c in s.readers || Pending(s, c) > 0 ==> k.wbuf == [])
  }

  ghost predicate ReplyInv(s: State) {
    forall c :: c in s.clients ==> ReplyInvOf(s, c)
  }

  /** The event loop has a place for every client's descriptor. */
  ghost predicate FdInv(s: State) {
    forall c :: c in s.clients ==> c < AE_SETSIZE
  }

  ghost predicate Inv(s: State) {
    MutexInv(s) && PipeInv(s) && OwnerInv(s) && WakeInv(s) && ReplyInv(s) && FdInv(s)
  }

  /** Moving worker w to statement x changes the accounts by w's difference only. */
  lemma SumMoves(ws: seq<Worker>, w: nat, x: Worker, c: Fd)
    requires w < |ws|
    ensures Sum(ws, c) == Plus(Others(ws, w, c), TallyOf(ws[w], c))
    ensures Sum(ws[w := x], c) == Plus(Others(ws, w, c), TallyOf(x, c))
  {
    SumSplit(ws, w, c);
    SumSplit(ws[w := x], w, c);
    assert ws[w := x][..w] + ws[w := x][w + 1..] == ws[..w] + ws[w + 1..];
  }

  /** Popping the front of a list removes exactly its first client. */
  lemma PopCounts(q: seq<Fd>, c: Fd)
    requires q != []
    ensures Count(q, c) == One(q[0] == c) + Count(q[1..], c)
  {
    assert q == [q[0]] + q[1..];
  }

  lemma PushCounts(q: seq<Fd>, x: Fd, c: Fd)
    ensures Count(q + [x], c) == Count(q, c) + One(x == c)
  {}

  // ---------------------------------------------------------------- preservation

  predicate ByWorkers(step: Step) { step.Run? || step.Finish? || step.Wake? }

  lemma MutexKeptByWorkers(s: State, step: Step)
    requires Enabled(s, step) && ByWorkers(step) && MutexInv(s)
    ensures MutexInv(Next(s, step))
  {
    hide DoAccept, DoQuery, DoSend, FreeClient;
  }

  lemma MutexKept(s: State, step: Step)
    requires Enabled(s, step) && MutexInv(s)
    ensures MutexInv(Next(s, step))
  {
    hide DoRun, DoFinish;
    if ByWorkers(step) { MutexKeptByWorkers(s, step); }
  }

  lemma PipeKeptByWorkers(s: State, step: Step)
    requires Enabled(s, step) && ByWorkers(step) && PipeInv(s)
    ensures PipeInv(Next(s, step))
  {
    hide Sum, DoAccept, DoQuery, DoSend, FreeClient;
    SumMoves(s.workers, step.w, Next(s, step).workers[step.w], 0);
  }

  lemma PipeKept(s: State, step: Step)
    requires Enabled(s, step) && PipeInv(s)
    ensures PipeInv(Next(s, step))
  {
    hide Sum, DoRun, DoFinish;
    if ByWorkers(step) { PipeKeptByWorkers(s, step); }
    if step.Signal? && SomeWaiting(s.workers) { SumMoves(s.workers, step.w, Woken, 0); }
  }

  lemma PlacesKeptByWorkers(s: State, step: Step, c: Fd)
    requires Enabled(s, step) && ByWorkers(step)
    ensures var t := Next(s, step);
            && Places(t, c) == Places(s, c) && t.lost == s.lost && t.clients.Keys == s.clients.Keys
  {
    hide Sum, Count, DoAccept, DoQuery, DoSend, FreeClient;
    SumMoves(s.workers, step.w, Next(s, step).workers[step.w], c);
    if s.newjobs != [] { PopCounts(s.newjobs, c); }
    if s.workers[step.w].Pushing? { PushCounts(s.processed, s.workers[step.w].c, c); }
  }

  lemma PlacesKeptByMain(s: State, step: Step, c: Fd)
    requires Enabled(s, step) && !ByWorkers(step)
    requires Places(s, c) + One(c in s.lost) == One(c in s.clients)
    ensures var t := Next(s, step); Places(t, c) + One(c in t.lost) == One(c in t.clients)
  {
    hide Sum;
    hide Count;
    if step.Signal? && SomeWaiting(s.workers) { SumMoves(s.workers, step.w, Woken, c); }
    if step.Pop? { PopCounts(s.processed, c); }
    if step.Append? { PushCounts(s.newjobs, s.main.c, c); }
  }

  lemma FreeCounted(s: State, c: Fd)
    requires c in s.clients && s.numClients == |s.clients|
    requires s.maxclients != 0 ==> s.numClients <= s.maxclients + 1
    ensures Counted(FreeClient(s, c))
  {
    assert FreeClient(s, c).clients.Keys == s.clients.Keys - {c};
    assert |s.clients| == |s.clients.Keys|;
    assert |FreeClient(s, c).clients| == |FreeClient(s, c).clients.Keys|;
  }

  lemma UpdateCounted(s: State, c: Fd, k: Client)
    requires c in s.clients
    ensures |s.clients[c := k]| == |s.clients|
  {}

  lemma AcceptCounted(s: State, fd: Fd, registered: bool)
    requires Counted(s) && fd !in s.clients
    ensures Counted(DoAccept(s, fd, registered))
  {
    var t := s.(clients := s.clients[fd := NEW_CLIENT], numClients := s.numClients + 1,
                readers := s.readers + {fd});
    assert |t.clients| == |s.clients| + 1;
    FreeCounted(t, fd);
  }

  lemma QueryCounted(s: State, c: Fd, nread: nat, verdict: int)
    requires Counted(s) && c in s.clients
    ensures Counted(DoQuery(s, c, nread, verdict))
  {
    var k := s.clients[c].(rlen := s.clients[c].rlen + nread);
    UpdateCounted(s, c, k);
    UpdateCounted(s, c, k.(asked := k.asked + 1));
    FreeCounted(s.(clients := s.clients[c := k]), c);
  }

  lemma SendCounted(s: State, c: Fd, n: nat, rearmed: bool)
    requires Counted(s) && c in s.clients && s.clients[c].wpos + n <= |s.clients[c].wbuf|
    ensures Counted(DoSend(s, c, n, rearmed))
  {
    UpdateCounted(s, c, DoSend(s, c, n, rearmed).clients[c]);
  }

  lemma ClientsCounted(s: State, step: Step)
    requires Enabled(s, step) && Counted(s)
    ensures Counted(Next(s, step))
  {
    hide DoAccept, DoQuery, DoSend, FreeClient;
    match step
    case Accept(fd, registered) => AcceptCounted(s, fd, registered);
    case Query(c, nread, verdict) => QueryCounted(s, c, nread, verdict);
    case Hangup(c) => FreeCounted(s, c);
    case Send(c, n, rearmed) => SendCounted(s, c, n, rearmed);
    case SendFails(c) => FreeCounted(s, c);
    case Finish(w, reply) =>
      UpdateCounted(s, s.workers[w].c, Next(s, step).clients[s.workers[w].c]);
    case _ =>
  }

  lemma OwnerKept(s: State, step: Step)
    requires Enabled(s, step) && OwnerInv(s)
    ensures OwnerInv(Next(s, step))
  {
    hide Sum;
    hide Places;
    ClientsCounted(s, step);
    var t := Next(s, step);
    forall c: Fd ensures Places(t, c) + One(c in t.lost) == One(c in t.clients) {
      if ByWorkers(step) { PlacesKeptByWorkers(s, step, c); } else { PlacesKeptByMain(s, step, c); }
    }
  }

  lemma StillSomeWaiting(s: State, step: Step)
    requires Enabled(s, step) && ByWorkers(step) && !s.workers[step.w].AboutToWait?
    ensures SomeWaiting(Next(s, step).workers) ==> SomeWaiting(s.workers)
  {
    hide DoAccept, DoQuery, DoSend, FreeClient;
    var t := Next(s, step);
    if SomeWaiting(t.workers) {
      var w :| 0 <= w < |t.workers| && t.workers[w] == Waiting;
      assert s.workers[w] == Waiting;
    }
  }

  lemma WakeKeptByWorkers(s: State, step: Step)
    requires Enabled(s, step) && ByWorkers(step) && MutexInv(s) && WakeInv(s)
    ensures WakeInv(Next(s, step))
  {
    hide Sum, SomeWaiting, DoAccept, DoQuery, DoSend, FreeClient;
    SumMoves(s.workers, step.w, Next(s, step).workers[step.w], 0);
    if !s.workers[step.w].AboutToWait? { StillSomeWaiting(s, step); }
  }

  lemma WakeKeptByMain(s: State, step: Step)
    requires Enabled(s, step) && !ByWorkers(step) && MutexInv(s) && WakeInv(s)
    ensures WakeInv(Next(s, step))
  {
    hide Sum;
    if step.Signal? && SomeWaiting(s.workers) { SumMoves(s.workers, step.w, Woken, 0); }
  }

  lemma {:induction false} PendingIsHeld(ws: seq<Worker>, c: Fd)
    ensures Sum(ws, c).pending <= Sum(ws, c).held
  {
    if ws == [] {
    } else {
      PendingIsHeld(ws[..|ws| - 1], c);
    }
  }

  lemma PendingWithinPlaces(s: State, c: Fd)
    ensures Pending(s, c) + One(c in s.readers) + One(c in s.writers) <= Places(s, c)
  {
    PendingIsHeld(s.workers, c);
  }

  lemma PendingByWorkers(s: State, step: Step, c: Fd)
    requires Enabled(s, step) && ByWorkers(step)
    ensures Pending(Next(s, step), c) + One(step.Finish? && s.workers[step.w].c == c) == Pending(s, c)
  {
    hide Sum, Count, DoAccept, DoQuery, DoSend, FreeClient;
    SumMoves(s.workers, step.w, Next(s, step).workers[step.w], c);
    if s.newjobs != [] { PopCounts(s.newjobs, c); }
  }

  lemma PendingByMain(s: State, step: Step, c: Fd)
    requires Enabled(s, step) && !ByWorkers(step)
    ensures Pending(Next(s, step), c) == Pending(s, c) + One(step.Query? && step.verdict == 1 && step.c == c)
  {
    hide Sum, Count, DoRun, DoFinish;
    if step.Signal? && SomeWaiting(s.workers) { SumMoves(s.workers, step.w, Woken, c); }
    if step.Append? { PushCounts(s.newjobs, s.main.c, c); }
  }

  /** Requests become pending when queued, and stop being so when a worker answers. */
  lemma PendingStep(s: State, step: Step, c: Fd)
    requires Enabled(s, step)
    ensures var t := Next(s, step);
            Pending(t, c) + One(step.Finish? && s.workers[step.w].c == c)
            == Pending(s, c) + One(step.Query? && step.verdict == 1 && step.c == c)
  {
    hide Next, Pending, Enabled;
    if ByWorkers(step) { PendingByWorkers(s, step, c); } else { PendingByMain(s, step, c); }
    WorkerStep(s, step);
  }

  lemma WorkerStep(s: State, step: Step)
    requires Enabled(s, step)
    ensures step.Finish? ==> step.w < |s.workers| && s.workers[step.w].Working?
  {}

  lemma FinishAnswers(s: State, w: nat, reply: Octets)
    requires Enabled(s, Finish(w, reply)) && OwnerInv(s) && ReplyInv(s)
    ensures ReplyInvOf(Next(s, Finish(w, reply)), s.workers[w].c)
  {
    hide Pending, Places, Counted;
    var step, c := Finish(w, reply), s.workers[w].c;
    var t := Next(s, step);
    assert ReplyInvOf(s, c) && Places(s, c) + One(c in s.lost) == 1;
    PendingWithinPlaces(s, c);
    PendingStep(s, step, c);
    assert Pending(s, c) == 1 && Pending(t, c) == 0 && c !in s.readers;
    var k := s.clients[c];
    ConcatLast(k.replies, reply);
    assert k.wbuf == [] && t.clients[c].wbuf[0..] == reply;
  }

  /** A write, partial or not: what was sent and what is still to be sent, together, stay
      as they are. */
  lemma SendConserves(s: State, c: Fd, n: nat, rearmed: bool)
    requires c in s.clients && s.clients[c].wpos + n <= |s.clients[c].wbuf|
    ensures var k, k' := s.clients[c], DoSend(s, c, n, rearmed).clients[c];
            && k'.wpos <= |k'.wbuf| && |k'.sent| == |k.sent| + n
            && k'.sent + k'.wbuf[k'.wpos..] == k.sent + k.wbuf[k.wpos..]
  {
    var k := s.clients[c];
    assert k.wbuf[k.wpos..] == k.wbuf[k.wpos..k.wpos + n] + k.wbuf[k.wpos + n..];
  }

  /** The steps that rewrite the record of client c. */
  predicate Rewrites(s: State, step: Step, c: Fd)
    requires Enabled(s, step)
  {
    match step
    case Accept(fd, _) => fd == c && c in Next(s, step).clients
    case Query(k, _, _) => k == c
    case Send(k, _, _) => k == c
    case Finish(w, _) => s.workers[w].c == c
    case _ => false
  }

  lemma OtherClientsKept(s: State, step: Step, c: Fd)
    requires Enabled(s, step) && c in Next(s, step).clients && !Rewrites(s, step, c)
    ensures c in s.clients && Next(s, step).clients[c] == s.clients[c]
    ensures c in Next(s, step).readers ==> c in s.readers
  {}

  lemma SendKept(s: State, step: Step)
    requires Enabled(s, step) && step.Send? && ReplyInvOf(s, step.c)
    requires Pending(s, step.c) == 0 && step.c !in s.readers
    ensures ReplyInvOf(Next(s, step), step.c)
  {
    hide Pending;
    PendingStep(s, step, step.c);
    SendConserves(s, step.c, step.n, step.rearmed);
  }

  lemma QueryKept(s: State, step: Step)
    requires Enabled(s, step) && step.Query? && ReplyInvOf(s, step.c) && Pending(s, step.c) == 0
    requires step.c in Next(s, step).clients
    ensures ReplyInvOf(Next(s, step), step.c)
  {
    hide Pending;
    PendingStep(s, step, step.c);
  }

  lemma AcceptKept(s: State, step: Step)
    requires Enabled(s, step) && step.Accept? && Pending(s, step.fd) == 0 && step.fd in Next(s, step).clients
    ensures ReplyInvOf(Next(s, step), step.fd)
  {
    hide Pending;
    PendingStep(s, step, step.fd);
  }

  lemma ReplyKeptOf(s: State, step: Step, c: Fd)
    requires Enabled(s, step) && OwnerInv(s) && ReplyInv(s) && c in Next(s, step).clients
    ensures ReplyInvOf(Next(s, step), c)
  {
    hide Pending, Places, DoRun, DoSend, DoFinish, DoAccept, DoQuery, Counted;
    assert Places(s, c) + One(c in s.lost) == One(c in s.clients);
    PendingStep(s, step, c);
    PendingWithinPlaces(s, c);
    if !Rewrites(s, step, c) {
      OtherClientsKept(s, step, c);
      assert ReplyInvOf(s, c);
    } else if step.Finish? {
      FinishAnswers(s, step.w, step.reply);
    } else if step.Send? {
      assert ReplyInvOf(s, c);
      SendKept(s, step);
    } else if step.Query? {
      assert ReplyInvOf(s, c);
      QueryKept(s, step);
    } else {
      AcceptKept(s, step);
    }
  }

  lemma ReplyKept(s: State, step: Step)
    requires Enabled(s, step) && OwnerInv(s) && ReplyInv(s)
    ensures ReplyInv(Next(s, step))
  {
    var t := Next(s, step);
    forall c | c in t.clients ensures ReplyInvOf(t, c) { ReplyKeptOf(s, step, c); }
  }

  lemma FdKept(s: State, step: Step)
    requires Enabled(s, step) && FdInv(s)
    ensures FdInv(Next(s, step))
  {}

  // ---------------------------------------------------------------- whole runs

  lemma InitInv(s: State)
    requires Init(s)
    ensures Inv(s)
  {
    hide Sum;
    SumAtStart(s.workers, 0);
    forall c: Fd ensures Places(s, c) + One(c in s.lost) == One(c in s.clients) {
      SumAtStart(s.workers, c);
    }
  }

  lemma InvKept(s: State, step: Step)
    requires Enabled(s, step) && Inv(s)
    ensures Inv(Next(s, step))
  {
    hide Next, Enabled, MutexInv, PipeInv, OwnerInv, WakeInv, ReplyInv, FdInv;
    FdKept(s, step);
    MutexKept(s, step);
    PipeKept(s, step);
    OwnerKept(s, step);
    if ByWorkers(step) { WakeKeptByWorkers(s, step); } else { WakeKeptByMain(s, step); }
    ReplyKept(s, step);
  }

  lemma {:induction false} RunInv(states: seq<State>, steps: seq<Step>, i: nat)
    requires IsRun(states, steps) && i <= |steps|
    ensures Inv(states[i]) && |states[i].workers| == |states[0].workers|
  {
    hide Inv, Init;
    if i == 0 {
      InitInv(states[0]);
    } else {
      RunInv(states, steps, i - 1);
      InvKept(states[i - 1], steps[i - 1]);
    }
  }

  /** The mutex protects: two threads are never both inside. */
  lemma MutualExclusion(states: seq<State>, steps: seq<Step>, i: nat, w: nat, v: nat)
    requires IsRun(states, steps) && i <= |steps|
    requires w < |states[i].workers| && v < |states[i].workers|
    requires InCritical(states[i].workers[w])
    ensures !MainInCritical(states[i].main)
    ensures v != w ==> !InCritical(states[i].workers[v])
  {
    RunInv(states, steps, i);
  }

  /** The assertion before the pop never fails, in any interleaving: a finished
      client is there whenever the main thread has read a byte. */
  lemma PopFindsAJob(states: seq<State>, steps: seq<Step>, i: nat)
    requires IsRun(states, steps) && i <= |steps|
    ensures var s := states[i];
            |s.processed| == s.pipe + Sum(s.workers, 0).unwritten + One(s.main.AtPop? || s.main.Popping?)
    ensures states[i].main.AtPop? || states[i].main.Popping? ==> states[i].processed != []
  {
    RunInv(states, steps, i);
  }

  /** A list that holds only members of a set, none twice, is no longer than the set. */
  lemma {:induction false} NoneTwice(q: seq<Fd>, s: set<Fd>)
    requires forall c :: Count(q, c) <= One(c in s)
    ensures |q| <= |s|
    decreases |q|
  {
    hide Count;
    if q == [] {
    } else {
      forall c ensures Count(q[1..], c) <= One(c in s - {q[0]}) { PopCounts(q, c); }
      PopCounts(q, q[0]);
      NoneTwice(q[1..], s - {q[0]});
    }
  }

  function DescriptorsBelow(n: nat): (s: set<Fd>)
    ensures |s| == n && forall c: Fd :: c in s <==> c < n
  {
    if n == 0 then {} else DescriptorsBelow(n - 1) + {n - 1}
  }

  lemma SmallerSet(a: set<Fd>, b: set<Fd>)
    requires a <= b
    ensures |a| <= |b|
  {
    assert b == a + (b - a);
  }

  /** The bytes in the pipe and those that workers still owe are no more than the clients,
      hence no more than 10240. */
  lemma PipeFits(s: State)
    requires Inv(s)
    ensures s.pipe + Sum(s.workers, 0).unwritten <= |s.clients| <= AE_SETSIZE
  {
    hide Sum, Count, WakeInv, ReplyInv, MutexInv;
    forall c: Fd ensures Count(s.processed, c) <= One(c in s.clients.Keys) {
      assert Places(s, c) + One(c in s.lost) == One(c in s.clients);
    }
    NoneTwice(s.processed, s.clients.Keys);
    assert |s.clients| == |s.clients.Keys|;
    SmallerSet(s.clients.Keys, DescriptorsBelow(AE_SETSIZE));
  }

  /** A worker about to write its byte finds room in a pipe that holds 10240, in every
      reachable state: the assertion behind the write never fails. */
  lemma PipeHasRoom(states: seq<State>, steps: seq<Step>, i: nat, w: nat)
    requires IsRun(states, steps) && i <= |steps|
    requires w < |states[i].workers| && states[i].workers[w] == AtWrite
    ensures states[i].pipe < |states[i].clients| <= AE_SETSIZE
  {
    hide Inv, Sum;
    RunInv(states, steps, i);
    WriterHasRoom(states[i], w);
  }

  lemma WriterHasRoom(s: State, w: nat)
    requires Inv(s) && w < |s.workers| && s.workers[w] == AtWrite
    ensures s.pipe < |s.clients| <= AE_SETSIZE
  {
    hide Inv, Sum;
    PipeFits(s);
    SumSplit(s.workers, w, 0);
  }

  /** The step fails to register a client with the event loop, and nothing else
      of the server refers to that client any more. */
  predicate Loses(s: State, step: Step)
    requires Enabled(s, step)
  {
    match step
    case Register(ok) => !ok
    case Send(c, n, rearmed) => s.clients[c].wpos + n == |s.clients[c].wbuf| && !rearmed
    case _ => false
  }

  lemma {:induction false} LostIffLosingStep(states: seq<State>, steps: seq<Step>, i: nat)
    requires IsRun(states, steps) && i <= |steps|
    ensures states[i].lost == {} <==> forall j :: 0 <= j < i ==> !Loses(states[j], steps[j])
  {
    if i == 0 {
    } else {
      LostIffLosingStep(states, steps, i - 1);
      var s, step := states[i - 1], steps[i - 1];
      assert Next(s, step).lost == {} <==> s.lost == {} && !Loses(s, step);
    }
  }

  /** No client is ever in two places or, once freed, in any; and every live client
      is in exactly one place if and only if no registration has failed so far. */
  lemma OnePlacePerClient(states: seq<State>, steps: seq<Step>, i: nat)
    requires IsRun(states, steps) && i <= |steps|
    ensures forall c :: Places(states[i], c) <= One(c in states[i].clients)
    ensures (forall c :: c in states[i].clients ==> Places(states[i], c) == 1)
            <==> forall j :: 0 <= j < i ==> !Loses(states[j], steps[j])
    ensures Counted(states[i])
  {
    hide Places;
    var s := states[i];
    RunInv(states, steps, i);
    LostIffLosingStep(states, steps, i);
    assert forall c :: Places(s, c) + One(c in s.lost) == One(c in s.clients);
    if s.lost != {} {
      var c :| c in s.lost;
      assert Places(s, c) == 0;
    }
  }

  lemma FreeingStep(s: State, step: Step, c: Fd)
    requires Enabled(s, step) && c in s.clients && c !in Next(s, step).clients
    ensures s.main == Loop && (c in s.readers || c in s.writers)
  {}

  predicate Holds(w: Worker, c: Fd) { TallyOf(w, c).held > 0 }

  lemma HeldElsewhere(s: State, c: Fd)
    requires OwnerInv(s) && (c in s.readers || c in s.writers)
    ensures c !in s.newjobs && c !in s.processed
    ensures forall w :: 0 <= w < |s.workers| ==> !Holds(s.workers[w], c)
  {
    hide Sum;
    assert Places(s, c) + One(c in s.lost) == One(c in s.clients);
    forall w: nat | w < |s.workers| ensures !Holds(s.workers[w], c) {
      SumSplit(s.workers, w, c);
    }
  }

  /** A client is freed only from the event loop, when it is registered there and
      no list and no worker refers to it. */
  lemma FreedOnlyByItsOwner(states: seq<State>, steps: seq<Step>, i: nat, c: Fd)
    requires IsRun(states, steps) && i < |steps|
    requires c in states[i].clients && c !in states[i + 1].clients
    ensures var s := states[i];
            && s.main == Loop && (c in s.readers || c in s.writers)
            && c !in s.newjobs && c !in s.processed
            && forall w :: 0 <= w < |s.workers| ==> !Holds(s.workers[w], c)
  {
    hide Next, Enabled, OwnerInv, Holds;
    RunInv(states, steps, i);
    FreeingStep(states[i], steps[i], c);
    HeldElsewhere(states[i], c);
  }

  lemma AllAsleep(s: State)
    requires WakeInv(s) && |s.workers| > 0
    requires forall w :: 0 <= w < |s.workers| ==> s.workers[w] == Waiting
    ensures s.newjobs == [] || (SignalDue(s) && |s.newjobs| == 1)
  {
    hide Sum;
    SumOfSleepers(s.workers, 0);
    assert s.workers[0] == Waiting;
  }

  /** No wake-up is lost.  While some worker sleeps, the queued jobs are at most the
      awake workers on their way to the list plus one signal still to come; so if all
      of them sleep, the list is empty or the signal for its one job is due. */
  lemma NoLostWakeUp(states: seq<State>, steps: seq<Step>, i: nat)
    requires IsRun(states, steps) && i <= |steps| && |states[0].workers| > 0
    ensures var s := states[i];
            SomeWaiting(s.workers) ==>
              |s.newjobs| <= Sum(s.workers, 0).headed + One(SignalDue(s))
    ensures var s := states[i];
            (forall w :: 0 <= w < |s.workers| ==> s.workers[w] == Waiting) ==>
              s.newjobs == [] || (SignalDue(s) && |s.newjobs| == 1)
  {
    hide Next, Enabled, Init;
    var s := states[i];
    RunInv(states, steps, i);
    if forall w :: 0 <= w < |s.workers| ==> s.workers[w] == Waiting { AllAsleep(s); }
  }

  /** Every request is answered exactly once and its bytes reach the socket in order:
      at most one request of a client is open, what was sent is a prefix of the
      replies, and all of them once the client may be read again. */
  lemma RepliesExactlyOnce(states: seq<State>, steps: seq<Step>, i: nat, c: Fd)
    requires IsRun(states, steps) && i <= |steps| && c in states[i].clients
    ensures var k := states[i].clients[c];
            && |k.replies| <= k.asked <= |k.replies| + 1
            && k.sent <= Concat(k.replies)
            && (c in states[i].readers ==> k.asked == |k.replies| && k.sent == Concat(k.replies))
  {
    hide Pending;
    hide Places;
    var s := states[i];
    RunInv(states, steps, i);
    assert Places(s, c) + One(c in s.lost) == One(c in s.clients);
    PendingWithinPlaces(s, c);
    assert ReplyInvOf(s, c);
  }

  /** The steps the server takes on its own: no client, no kernel and no spurious
      wake-up has to act first. */
  predicate OwnStep(s: State, step: Step) {
    match step
    case EnterDrain => s.pipe > 0
    case Register(ok) => ok
    case LockToQueue | Append | UnlockQueue | Signal(_) => true
    case ReadByte | PipeEmpty | LockToPop | Pop | UnlockPop => true
    case Run(_) | Finish(_, _) => true
    case _ => false
  }

  ghost predicate CanMove(s: State) {
    exists step :: OwnStep(s, step) && Enabled(s, step)
  }

  ghost function SomeSleeper(ws: seq<Worker>): (w: nat)
    requires SomeWaiting(ws)
    ensures w < |ws| && ws[w] == Waiting
  {
    var w :| 0 <= w < |ws| && ws[w] == Waiting; w
  }

  lemma MainMoves(s: State)
    requires Inv(s) && s.main != Loop && (s.mutex == Free || s.mutex == ByMain)
    ensures CanMove(s)
  {
    hide Sum, Places, ReplyInv, OwnerInv;
    if s.main == AtSignal {
      var w := if SomeWaiting(s.workers) then SomeSleeper(s.workers) else 0;
      assert OwnStep(s, Signal(w)) && Enabled(s, Signal(w));
    } else {
      var step :=
        match s.main
        case AtQueue(_) => LockToQueue
        case Queueing(_) => Append
        case Queued => UnlockQueue
        case AtRead => if s.pipe > 0 then ReadByte else PipeEmpty
        case AtPop => LockToPop
        case Popping => Pop
        case Popped(_) => UnlockPop
        case _ => Register(true);
      assert OwnStep(s, step) && Enabled(s, step);
    }
  }

  lemma WorkerMoves(s: State, w: nat)
    requires OwnerInv(s) && w < |s.workers| && s.workers[w] != Waiting
    requires s.mutex == Free || s.mutex == ByWorker(w)
    requires InCritical(s.workers[w]) <==> s.mutex == ByWorker(w)
    ensures CanMove(s)
  {
    var step := if s.workers[w].Working? then Finish(w, []) else Run(w);
    if s.workers[w].Working? {
      var c := s.workers[w].c;
      assert Places(s, c) + One(c in s.lost) == One(c in s.clients);
      SumSplit(s.workers, w, c);
    }
    assert OwnStep(s, step) && Enabled(s, step);
  }

  /** The server never gets stuck: while a client is anywhere between its request and
      its reply, some thread can take a step of its own. */
  lemma NeverStuck(states: seq<State>, steps: seq<Step>, i: nat, c: Fd)
    requires IsRun(states, steps) && i <= |steps| && |states[0].workers| > 0
    requires c in states[i].clients && c !in states[i].lost
    requires c !in states[i].readers && c !in states[i].writers
    ensures CanMove(states[i])
  {
    RunInv(states, steps, i);
    StuckOnlyWhenIdle(states[i], c);
  }

  lemma StuckOnlyWhenIdle(s: State, c: Fd)
    requires Inv(s) && |s.workers| > 0
    requires c in s.clients && c !in s.lost && c !in s.readers && c !in s.writers
    ensures CanMove(s)
  {
    hide CanMove, Sum, ReplyInv, WakeInv;
    if s.mutex.ByWorker? && s.mutex.w < |s.workers| {
      WorkerMoves(s, s.mutex.w);
    } else if s.main != Loop && !s.mutex.ByWorker? {
      MainMoves(s);
    } else if w: nat :| w < |s.workers| && s.workers[w] != Waiting && s.mutex == Free {
      WorkerMoves(s, w);
    } else {
      EverybodyIdle(s, c);
    }
  }

  lemma EverybodyIdle(s: State, c: Fd)
    requires Inv(s) && |s.workers| > 0
    requires c in s.clients && c !in s.lost && c !in s.readers && c !in s.writers
    requires s.main == Loop && forall w :: 0 <= w < |s.workers| ==> s.workers[w] == Waiting
    ensures CanMove(s)
  {
    AllAsleep(s);
    SumOfSleepers(s.workers, 0);
    SumOfSleepers(s.workers, c);
    assert Places(s, c) == 1;
    assert s.processed != [];
    assert OwnStep(s, EnterDrain) && Enabled(s, EnterDrain);
  }

  lemma ExtendRun(states: seq<State>, steps: seq<Step>, step: Step)
    requires IsRun(states, steps) && Enabled(states[|steps|], step)
    ensures IsRun(states + [Next(states[|steps|], step)], steps + [step])
  {
    hide Next, Enabled, Init;
  }

  /** The client whose registration fails. */
  function LostBy(s: State, step: Step): Fd
    requires Enabled(s, step) && Loses(s, step)
  {
    if step.Send? then step.c else s.main.c
  }

  lemma Refused(s: State, step: Step)
    requires OwnerInv(s) && Enabled(s, step) && Loses(s, step)
    ensures var t, c := Next(s, step), LostBy(s, step);
            c in t.clients && Places(t, c) == 0 && Counted(t)
  {
    hide Sum, DoRun, DoFinish, DoAccept, DoQuery, Counted;
    var c := LostBy(s, step);
    assert Places(s, c) + One(c in s.lost) == One(c in s.clients);
    ClientsCounted(s, step);
  }

  /** A failing registration does lose the client: whenever a run has brought a client to
      its registration, for writing or again for reading, the kernel's refusal extends the
      run to a state where that client is alive and counted, but in no place of the
      server. */
  lemma RefusalLosesTheClient(states: seq<State>, steps: seq<Step>, step: Step)
    requires IsRun(states, steps) && Enabled(states[|steps|], step) && Loses(states[|steps|], step)
    ensures var s := states[|steps|];
            var t, c := Next(s, step), LostBy(s, step);
            && IsRun(states + [t], steps + [step])
            && c in t.clients && Places(t, c) == 0 && Counted(t)
  {
    hide Places, Counted, OwnerInv, Init, Next, Enabled, Loses, LostBy;
    ExtendRun(states, steps, step);
    RunInv(states, steps, |steps|);
    Refused(states[|steps|], step);
  }
}

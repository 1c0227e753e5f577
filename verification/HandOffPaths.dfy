/** Paths of interleaved steps of the hand-off (redis-proxy/redis.c) and what happens
    along them: which clients go through the two lists, in which order, and how that
    compares with the bytes that go through the pipe. */
module HandOffPaths {
  import opened HandOff

  /** The step is possible in s and leads to t. */
  ghost predicate Does(s: State, step: Step, t: State) {
    Enabled(s, step) && t == Next(s, step)
  }

  /** The steps lead from s to t. */
  ghost predicate Path(s: State, steps: seq<Step>, t: State)
    decreases |steps|
  {
    if steps == [] then s == t else Enabled(s, steps[0]) && Path(Next(s, steps[0]), steps[1..], t)
  }

  lemma PathNothing(s: State)
    ensures Path(s, [], s)
  {}

  lemma PathOne(s: State, step: Step, t: State)
    requires Does(s, step, t)
    ensures Path(s, [step], t)
  {
    hide Enabled, Next;
    assert [step][1..] == [];
  }

  lemma {:induction false} PathJoin(s: State, a: seq<Step>, t: State, b: seq<Step>, u: State)
    requires Path(s, a, t) && Path(t, b, u)
    ensures Path(s, a + b, u)
    decreases |a|
  {
    hide Enabled, Next;
    if a == [] {
      assert a + b == b;
    } else {
      PathJoin(Next(s, a[0]), a[1..], t, b, u);
      assert (a + b)[1..] == a[1..] + b;
    }
  }

  /** A path from a state with the invariant keeps it. */
  lemma {:induction false} PathKeepsInv(s: State, steps: seq<Step>, t: State)
    requires Inv(s) && Path(s, steps, t)
    ensures Inv(t)
    decreases |steps|
  {
    hide Enabled, Next, Inv;
    if steps == [] {
    } else {
      InvKept(s, steps[0]);
      PathKeepsInv(Next(s, steps[0]), steps[1..], t);
    }
  }

  /** Every part of a run is a path. */
  lemma {:induction false} RunIsPath(states: seq<State>, steps: seq<Step>, i: nat, j: nat)
    requires IsRun(states, steps) && i <= j <= |steps|
    ensures Path(states[i], steps[i..j], states[j])
    decreases j - i
  {
    hide Enabled, Next, Init;
    if i == j {
      assert steps[i..j] == [];
    } else {
      RunIsPath(states, steps, i + 1, j);
      assert steps[i..j][0] == steps[i] && steps[i..j][1..] == steps[i + 1..j];
    }
  }

  // ---------------------------------------------------------------- what happened

  /** The clients appended to and popped from the lists of new and of finished jobs; the
      clients whose registration for writing was asked for, and the answers; the bytes
      written to and read from the pipe. */
  datatype Log = Log(queued: seq<Fd>, taken: seq<Fd>, pushed: seq<Fd>, popped: seq<Fd>,
                     offered: seq<Fd>, answers: seq<bool>, written: nat, read: nat)

  const NOTHING := Log([], [], [], [], [], [], 0, 0)

  function Then(a: Log, b: Log): Log {
    Log(a.queued + b.queued, a.taken + b.taken, a.pushed + b.pushed, a.popped + b.popped,
        a.offered + b.offered, a.answers + b.answers, a.written + b.written, a.read + b.read)
  }

  function EntryOfWorker(s: State, w: nat): Log
    requires w < |s.workers|
  {
    match s.workers[w]
    case Checking => if s.newjobs == [] then NOTHING else NOTHING.(taken := [s.newjobs[0]])
    case Pushing(c) => NOTHING.(pushed := [c])
    case AtWrite => NOTHING.(written := 1)
    case _ => NOTHING
  }

  function Entry(s: State, step: Step): Log
    requires Enabled(s, step)
  {
    match step
    case Append => NOTHING.(queued := [s.main.c])
    case ReadByte => NOTHING.(read := 1)
    case Pop => NOTHING.(popped := [s.processed[0]])
    case Register(ok) => NOTHING.(offered := [s.main.c], answers := [ok])
    case Run(w) => EntryOfWorker(s, w)
    case _ => NOTHING
  }

  ghost function LogOf(s: State, steps: seq<Step>, t: State): Log
    requires Path(s, steps, t)
    decreases |steps|
  {
    if steps == [] then NOTHING
    else Then(Entry(s, steps[0]), LogOf(Next(s, steps[0]), steps[1..], t))
  }

  function InHand(m: Main): nat { One(m.AtPop? || m.Popping?) }

  /** The finished client that the event-loop thread holds. */
  function Held(m: Main): seq<Fd> {
    if m.Popped? || m.AtRegister? then [m.c] else []
  }

  /** What was in the queue and came in, in this order, went out and is still there. */
  ghost predicate Fifo(q: seq<Fd>, ins: seq<Fd>, outs: seq<Fd>, r: seq<Fd>) {
    q + ins == outs + r
  }

  /** First in, first out, for both lists; one byte for each finished job. */
  ghost predicate Accounts(s: State, l: Log, t: State) {
    && Fifo(s.newjobs, l.queued, l.taken, t.newjobs)
    && Fifo(s.processed, l.pushed, l.popped, t.processed)
    && Fifo(Held(s.main), l.popped, l.offered, Held(t.main))
    && s.pipe + l.written == l.read + t.pipe
    && |l.popped| + InHand(t.main) == l.read + InHand(s.main)
    && |l.answers| == |l.offered|
  }

  lemma FifoStep(q: seq<Fd>, x: Fd)
    ensures Fifo(q, [], [], q) && Fifo(q, [x], [], q + [x])
    ensures q != [] ==> Fifo(q, [], [q[0]], q[1..])
  {}

  lemma FifoOne(x: Fd)
    ensures Fifo([], [x], [], [x]) && Fifo([x], [], [x], [])
  {}

  lemma EntryAccounts(s: State, step: Step)
    requires Enabled(s, step)
    ensures Accounts(s, Entry(s, step), Next(s, step))
  {
    hide Accounts, EntryOfWorker, DoRun, DoFinish, DoAccept, DoQuery, DoSend, FreeClient;
    match step
    case Run(w) => WorkerAccounts(s, w);
    case Append => ListAccounts(s, step);
    case Pop => ListAccounts(s, step);
    case Register(_) => ListAccounts(s, step);
    case _ => ElsewhereAccounts(s, step);
  }

  lemma ListAccounts(s: State, step: Step)
    requires Enabled(s, step) && (step.Append? || step.Pop? || step.Register?)
    ensures Accounts(s, Entry(s, step), Next(s, step))
  {
    hide Fifo, EntryOfWorker, DoRun, DoFinish, DoAccept, DoQuery, DoSend, FreeClient;
    var x := if step.Pop? then s.processed[0] else s.main.c;
    FifoStep(s.newjobs, x);
    FifoStep(s.processed, x);
    FifoStep(Held(s.main), x);
    FifoOne(x);
  }

  predicate CallsHandler(step: Step) {
    step.Accept? || step.Query? || step.Hangup? || step.Send? || step.SendFails? || step.Finish?
  }

  lemma HandlerLeavesLists(s: State, step: Step)
    requires Enabled(s, step) && CallsHandler(step)
    ensures var t := Next(s, step);
            && t.newjobs == s.newjobs && t.processed == s.processed && t.pipe == s.pipe
            && Held(t.main) == Held(s.main) && InHand(t.main) == InHand(s.main)
  {
    hide DoRun;
  }

  lemma ElsewhereAccounts(s: State, step: Step)
    requires Enabled(s, step) && !step.Run? && !step.Append? && !step.Pop? && !step.Register?
    ensures Accounts(s, Entry(s, step), Next(s, step))
  {
    hide Fifo, EntryOfWorker, DoRun, DoFinish, DoAccept, DoQuery, DoSend, FreeClient;
    if CallsHandler(step) { HandlerLeavesLists(s, step); }
    FifoStep(s.newjobs, 0);
    FifoStep(s.processed, 0);
    FifoStep(Held(s.main), 0);
  }

  lemma WorkerAccounts(s: State, w: nat)
    requires Enabled(s, Run(w))
    ensures Accounts(s, EntryOfWorker(s, w), DoRun(s, w))
  {
    hide Fifo;
    FifoStep(s.newjobs, 0);
    FifoStep(s.processed, if s.workers[w].Pushing? then s.workers[w].c else 0);
    FifoStep(Held(s.main), 0);
  }

  lemma AccountsJoin(s: State, a: Log, t: State, b: Log, u: State)
    requires Accounts(s, a, t) && Accounts(t, b, u)
    ensures Accounts(s, Then(a, b), u)
  {
    hide Fifo;
    FifoJoin(s.newjobs, a.queued, a.taken, t.newjobs, b.queued, b.taken, u.newjobs);
    FifoJoin(s.processed, a.pushed, a.popped, t.processed, b.pushed, b.popped, u.processed);
    FifoJoin(Held(s.main), a.popped, a.offered, Held(t.main), b.popped, b.offered, Held(u.main));
  }

  lemma FifoJoin(q: seq<Fd>, ins: seq<Fd>, outs: seq<Fd>, r: seq<Fd>, more: seq<Fd>, off: seq<Fd>, z: seq<Fd>)
    requires Fifo(q, ins, outs, r) && Fifo(r, more, off, z)
    ensures Fifo(q, ins + more, outs + off, z)
  {
    assert q + (ins + more) == (q + ins) + more;
    assert (outs + r) + more == outs + (r + more);
    assert (outs + off) + z == outs + (off + z);
  }

  /** Along every path, whoever moves when: what is queued is taken in that order, what is
      pushed is popped in that order, no byte is lost, and the event-loop thread pops one
      client for every byte it has read, except for the byte it has just read. */
  lemma {:induction false} PathAccounts(s: State, steps: seq<Step>, t: State)
    requires Path(s, steps, t)
    ensures Accounts(s, LogOf(s, steps, t), t)
    decreases |steps|
  {
    hide Enabled, Next, Entry, Accounts, Then;
    if steps == [] {
      NoAccounts(s);
    } else {
      var n := Next(s, steps[0]);
      EntryAccounts(s, steps[0]);
      PathAccounts(n, steps[1..], t);
      AccountsJoin(s, Entry(s, steps[0]), n, LogOf(n, steps[1..], t), t);
    }
  }

  lemma NoAccounts(s: State)
    ensures Accounts(s, NOTHING, s)
  {}

  /** For a run this says: pushed is popped and still in the list, queued is taken and
      still in the list, and the bytes read are the clients popped and the one in hand. */
  lemma RunAccounts(states: seq<State>, steps: seq<Step>, i: nat)
    requires IsRun(states, steps) && i <= |steps|
    ensures Path(states[0], steps[..i], states[i])
    ensures var l, t := LogOf(states[0], steps[..i], states[i]), states[i];
            && l.queued == l.taken + t.newjobs && l.pushed == l.popped + t.processed
            && l.written == l.read + t.pipe && l.read == |l.popped| + InHand(t.main)
            && l.popped == l.offered + Held(t.main)
  {
    hide Path, LogOf, Enabled, Next;
    RunIsPath(states, steps, 0, i);
    assert steps[0..i] == steps[..i];
    PathAccounts(states[0], steps[..i], states[i]);
    var l := LogOf(states[0], steps[..i], states[i]);
    assert [] + l.queued == l.queued && [] + l.pushed == l.pushed && [] + l.popped == l.popped;
  }

  // ---------------------------------------------------------------- the drain

  /** The handlers that the event loop calls. */
  predicate StartsAtLoop(step: Step) {
    step.Accept? || step.Query? || step.Hangup? || step.Send? || step.SendFails? || step.EnterDrain?
  }

  predicate InDrain(m: Main) {
    m.Loop? || m.AtRead? || m.AtPop? || m.Popping? || m.Popped? || m.AtRegister?
  }

  /** One call of the handler of the pipe, with any steps of the workers in between. */
  ghost predicate IsDrain(s: State, steps: seq<Step>, t: State) {
    && s.main == Loop && t.main == Loop && Path(s, steps, t)
    && steps != [] && steps[0] == EnterDrain && NoHandler(steps[1..])
  }

  ghost predicate NoHandler(steps: seq<Step>) {
    forall k :: 0 <= k < |steps| ==> !StartsAtLoop(steps[k])
  }

  /** Every client offered is registered for writing if its answer is yes, and lost if not. */
  ghost predicate Settled(offered: seq<Fd>, answers: seq<bool>, t: State) {
    && |offered| == |answers|
    && forall k :: 0 <= k < |offered| ==> offered[k] in if answers[k] then t.writers else t.lost
  }

  /** All answers are yes, except perhaps the last. */
  predicate YesBeforeLast(answers: seq<bool>) {
    forall k :: 0 <= k < |answers| - 1 ==> answers[k]
  }

  predicate AllYes(answers: seq<bool>) {
    YesBeforeLast(answers) && (answers == [] || answers[|answers| - 1])
  }

  lemma AnswersJoin(first: seq<bool>, rest: seq<bool>)
    requires YesBeforeLast(rest) && (first == [] || first == [true] || (first == [false] && rest == []))
    ensures YesBeforeLast(first + rest)
    ensures AllYes(first + rest) <==> first != [false] && AllYes(rest)
  {}

  lemma DrainStep(s: State, step: Step)
    requires Enabled(s, step) && InDrain(s.main) && !StartsAtLoop(step)
    ensures var t, e := Next(s, step), Entry(s, step);
            && InDrain(t.main) && s.writers <= t.writers && s.lost <= t.lost && e.queued == []
            && Settled(e.offered, e.answers, t)
            && (s.main == Loop ==> t.main == Loop && e.answers == [] && step != PipeEmpty)
            && (t.main == Loop ==> s.main == Loop || step == PipeEmpty || e.answers == [false])
            && (e.answers == [] || (e.answers == [true] && t.main != Loop) || (e.answers == [false] && t.main == Loop))
            && (step == PipeEmpty ==> e.answers == [] && t.main == Loop && s.pipe == 0)
  {
    hide DoAccept, DoQuery, DoSend, FreeClient;
  }

  /** What the rest of the drain comes to. */
  ghost predicate Drained(s: State, steps: seq<Step>, l: Log, t: State) {
    && l.queued == [] && Settled(l.offered, l.answers, t) && YesBeforeLast(l.answers)
    && s.writers <= t.writers && s.lost <= t.lost
    && (s.main == Loop ==> l.answers == [] && PipeEmpty !in steps)
    && (s.main != Loop ==> (PipeEmpty in steps <==> AllYes(l.answers)))
  }

  lemma {:induction false} DrainGoesOn(s: State, steps: seq<Step>, t: State)
    requires Path(s, steps, t) && InDrain(s.main) && t.main == Loop && NoHandler(steps)
    ensures Drained(s, steps, LogOf(s, steps, t), t)
    decreases |steps|
  {
    hide Enabled, Next, Entry, Drained, Then, InDrain, StartsAtLoop;
    if steps == [] {
      NothingDrained(t);
    } else {
      var n := Next(s, steps[0]);
      DrainNext(s, steps[0]);
      DrainGoesOn(n, steps[1..], t);
      DrainJoin(s, steps, LogOf(n, steps[1..], t), t);
    }
  }

  lemma DrainNext(s: State, step: Step)
    requires Enabled(s, step) && InDrain(s.main) && !StartsAtLoop(step)
    ensures InDrain(Next(s, step).main)
  {
    hide Enabled, Next, Entry;
    DrainStep(s, step);
  }

  lemma NothingDrained(t: State)
    requires t.main == Loop
    ensures Drained(t, [], NOTHING, t)
  {}

  lemma DrainJoin(s: State, steps: seq<Step>, l: Log, t: State)
    requires steps != [] && Enabled(s, steps[0]) && InDrain(s.main) && !StartsAtLoop(steps[0])
    requires t.main == Loop && Drained(Next(s, steps[0]), steps[1..], l, t)
    ensures Drained(s, steps, Then(Entry(s, steps[0]), l), t)
  {
    hide Enabled, Next, Entry, Settled, StartsAtLoop, InDrain, AllYes, YesBeforeLast;
    var n, e := Next(s, steps[0]), Entry(s, steps[0]);
    DrainStep(s, steps[0]);
    SettledTogether(e, n, l, t);
    assert steps == [steps[0]] + steps[1..];
    AnswersJoin(e.answers, l.answers);
    assert AllYes([]) by { NoAnswers(); }
  }

  lemma NoAnswers()
    ensures AllYes([])
  {}

  lemma SettledTogether(a: Log, n: State, b: Log, t: State)
    requires Settled(a.offered, a.answers, n) && Settled(b.offered, b.answers, t)
    requires n.writers <= t.writers && n.lost <= t.lost
    ensures Settled(Then(a, b).offered, Then(a, b).answers, t)
  {}

  /** One call of the handler, whatever the workers do meanwhile: it reads one byte for each
      client it pops; it pops the oldest finished clients in order, those pushed meanwhile
      after those that were there; every one of them is registered for writing, or lost if
      its registration was refused, which ends the handler; and otherwise the handler ends
      only when it has seen the pipe empty. */
  lemma DrainTakesInOrder(s: State, steps: seq<Step>, t: State)
    requires IsDrain(s, steps, t)
    ensures var l := LogOf(s, steps, t);
            && l.read == |l.popped| && s.pipe + l.written == l.read + t.pipe
            && s.processed + l.pushed == l.popped + t.processed
            && Settled(l.popped, l.answers, t) && YesBeforeLast(l.answers)
            && (PipeEmpty in steps <==> AllYes(l.answers))
            && l.queued == []
  {
    hide Path, LogOf, Settled, YesBeforeLast, NoHandler;
    PathAccounts(s, steps, t);
    var l := LogOf(s, steps, t);
    FirstStep(s, steps, t);
    DrainGoesOn(Next(s, EnterDrain), steps[1..], t);
    assert [] + l.popped == l.popped && l.offered + [] == l.offered;
    assert steps == [EnterDrain] + steps[1..];
  }

  lemma FirstStep(s: State, steps: seq<Step>, t: State)
    requires IsDrain(s, steps, t)
    ensures Enabled(s, EnterDrain) && Path(Next(s, EnterDrain), steps[1..], t)
    ensures Next(s, EnterDrain).main == AtRead
    ensures LogOf(s, steps, t) == LogOf(Next(s, EnterDrain), steps[1..], t)
  {
    hide LogOf;
    var n := Next(s, EnterDrain);
    assert LogOf(s, steps, t) == Then(Entry(s, EnterDrain), LogOf(n, steps[1..], t)) by { LogStep(s, steps, t); }
    ThenNothing(LogOf(n, steps[1..], t));
  }

  lemma LogStep(s: State, steps: seq<Step>, t: State)
    requires Path(s, steps, t) && steps != []
    ensures LogOf(s, steps, t) == Then(Entry(s, steps[0]), LogOf(Next(s, steps[0]), steps[1..], t))
  {
    hide Enabled, Next, Entry, Then;
  }

  lemma ThenNothing(l: Log)
    ensures Then(NOTHING, l) == l
  {}
}

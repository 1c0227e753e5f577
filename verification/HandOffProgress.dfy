/** Steps that the server takes on its own (redis-proxy/redis.c) come to an end, and when
    they do every live client that no refused registration has lost is registered. */
module HandOffProgress {
  import opened HandOff

  /** How many own steps a queued job can still cause, a pipe byte, a worker and the
      event-loop thread. */
  const JOB: nat := 15

  const BYTE: nat := 5

  function WorkerRank(w: Worker): nat {
    match w
    case Waiting => 0
    case AboutToWait => 1
    case Checking => 2
    case AtLock | Woken => 3
    case AtWrite => 11
    case Pushed => 12
    case Pushing(_) => 13
    case AtPush(_) => 14
    case Working(_) => 15
    case Taken(_) => 16
  }

  function MainRank(m: Main, pipe: nat): nat {
    match m
    case Loop => if pipe > 0 then 2 else 0
    case AtRead => 1
    case AtRegister(_) => 2
    case Popped(_) => 3
    case Popping => 4
    case AtPop => 5
    case AtSignal => 6
    case Queued => 7
    case Queueing(_) => 8 + JOB
    case AtQueue(_) => 9 + JOB
  }

  function WorkersRank(ws: seq<Worker>): nat {
    if ws == [] then 0 else WorkerRank(ws[0]) + WorkersRank(ws[1..])
  }

  function Measure(s: State): nat {
    JOB * |s.newjobs| + BYTE * s.pipe + MainRank(s.main, s.pipe) + WorkersRank(s.workers)
  }

  lemma {:induction false} RankMoves(ws: seq<Worker>, w: nat, x: Worker)
    requires w < |ws|
    ensures WorkersRank(ws[w := x]) + WorkerRank(ws[w]) == WorkersRank(ws) + WorkerRank(x)
    decreases |ws|
  {
    if w == 0 {
      assert ws[0 := x][1..] == ws[1..];
    } else {
      RankMoves(ws[1..], w - 1, x);
      assert ws[w := x][1..] == ws[1..][w - 1 := x];
    }
  }

  lemma WorkerDescends(s: State, step: Step)
    requires Enabled(s, step) && (step.Run? || step.Finish?)
    ensures Measure(Next(s, step)) < Measure(s)
  {
    hide WorkersRank, DoAccept, DoQuery, DoSend, FreeClient;
    RankMoves(s.workers, step.w, Next(s, step).workers[step.w]);
  }

  /** Every step that the server takes on its own brings the measure down. */
  lemma OwnStepDescends(s: State, step: Step)
    requires Enabled(s, step) && OwnStep(s, step)
    ensures Measure(Next(s, step)) < Measure(s)
  {
    hide WorkersRank, DoRun, DoFinish, DoAccept, DoQuery, DoSend, FreeClient;
    if step.Run? || step.Finish? {
      WorkerDescends(s, step);
    } else if step.Signal? && SomeWaiting(s.workers) {
      RankMoves(s.workers, step.w, Woken);
    }
  }

  /** Own steps, one after the other, from s to t. */
  ghost predicate OwnPath(s: State, steps: seq<Step>, t: State)
    decreases |steps|
  {
    if steps == [] then s == t
    else Enabled(s, steps[0]) && OwnStep(s, steps[0]) && OwnPath(Next(s, steps[0]), steps[1..], t)
  }

  lemma OwnStepKeeps(s: State, step: Step)
    requires Enabled(s, step) && OwnStep(s, step)
    ensures var t := Next(s, step);
            && t.clients.Keys == s.clients.Keys && t.lost == s.lost && t.readers == s.readers
            && s.writers <= t.writers && |t.workers| == |s.workers|
  {}

  /** However the own steps are chosen, there are no more of them than the measure says;
      they lose no client and take none out of the event loop. */
  lemma {:induction false} OwnPathEnds(s: State, steps: seq<Step>, t: State)
    requires Inv(s) && OwnPath(s, steps, t)
    ensures |steps| + Measure(t) <= Measure(s) && Inv(t)
    ensures t.clients.Keys == s.clients.Keys && t.lost == s.lost && t.readers == s.readers
    ensures s.writers <= t.writers && |t.workers| == |s.workers|
    decreases |steps|
  {
    hide Enabled, Next, OwnStep, Inv, Measure;
    if steps == [] {
    } else {
      OwnStepDescends(s, steps[0]);
      OwnStepKeeps(s, steps[0]);
      InvKept(s, steps[0]);
      OwnPathEnds(Next(s, steps[0]), steps[1..], t);
    }
  }

  /** When no own step is left, every client that was live and not lost is registered, and
      the requests that were on their way have become registrations for writing. */
  lemma AllRegistered(s: State, steps: seq<Step>, t: State, c: Fd)
    requires Inv(s) && |s.workers| > 0 && OwnPath(s, steps, t) && !CanMove(t)
    requires c in s.clients && c !in s.lost
    ensures c in t.readers || c in t.writers
    ensures c !in s.readers ==> c in t.writers
  {
    hide Inv, CanMove, OwnPath;
    OwnPathEnds(s, steps, t);
    assert c in s.clients.Keys;
    if c !in t.readers && c !in t.writers { StuckOnlyWhenIdle(t, c); }
  }

  /** Such an end exists from every state, and every own step taken is one towards it. */
  lemma {:induction false} EndExists(s: State) returns (steps: seq<Step>, t: State)
    requires Inv(s)
    ensures OwnPath(s, steps, t) && !CanMove(t) && Inv(t)
    decreases Measure(s)
  {
    hide Enabled, Next, OwnStep, Inv, Measure;
    if !CanMove(s) {
      steps, t := [], s;
    } else {
      var step :| OwnStep(s, step) && Enabled(s, step);
      OwnStepDescends(s, step);
      InvKept(s, step);
      var rest;
      rest, t := EndExists(Next(s, step));
      steps := [step] + rest;
      assert steps[1..] == rest;
    }
  }

  /** In every reachable state: the server left to itself comes to rest within as many
      steps as the measure says, with every request answered up to its registration. */
  lemma RunComesToRest(states: seq<State>, run: seq<Step>, i: nat, steps: seq<Step>, t: State)
    requires IsRun(states, run) && i <= |run| && |states[0].workers| > 0 && OwnPath(states[i], steps, t)
    ensures |steps| <= Measure(states[i])
    ensures !CanMove(t) ==> forall c :: c in states[i].clients && c !in states[i].lost ==>
              (c in t.writers) || (c in t.readers && c in states[i].readers)
  {
    hide Inv, CanMove, OwnPath, Measure, Init, Next, Enabled;
    var s := states[i];
    RunInv(states, run, i);
    OwnPathEnds(s, steps, t);
    if !CanMove(t) {
      forall c | c in s.clients && c !in s.lost
        ensures c in t.writers || (c in t.readers && c in s.readers)
      {
        AllRegistered(s, steps, t, c);
      }
    }
  }
}

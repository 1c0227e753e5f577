/** What the answer of the classification does to a client (redis-proxy/redis.c), and what
    becomes of a command that arrives in pieces while everything else goes on. */
module HandOffQueries {
  import opened Bytes
  import opened Options
  import opened HandOff
  import opened HandOffPaths
  import Resp

  // ---------------------------------------------------------------- one step

  /** -1 and -2 free the client, 1 takes it from the readers to be queued, and anything else
      leaves it where it is; nothing else changes. */
  lemma QueryDecides(s: State, c: Fd, nread: nat, verdict: int)
    requires Enabled(s, Query(c, nread, verdict))
    ensures var t := Next(s, Query(c, nread, verdict));
            && (c in t.clients <==> verdict != -1 && verdict != -2)
            && (c in t.clients ==>
                  t.clients[c] == s.clients[c].(rlen := s.clients[c].rlen + nread,
                                                asked := s.clients[c].asked + One(verdict == 1)))
            && (c in t.readers <==> verdict != -1 && verdict != -2 && verdict != 1)
            && t.main == (if verdict == 1 then AtQueue(c) else Loop)
            && t.clients - {c} == s.clients - {c} && t.numClients == s.numClients - One(c !in t.clients)
            && t.readers - {c} == s.readers - {c} && t.writers - {c} == s.writers - {c}
            && t == s.(clients := t.clients, numClients := t.numClients, readers := t.readers,
                       writers := t.writers, main := t.main)
  {}

  /** A descriptor becomes a client if and only if it can be registered and the clients there
      are fewer than the limit, if there is one. */
  lemma AcceptDecides(s: State, fd: Fd, registered: bool)
    requires Enabled(s, Accept(fd, registered)) && Inv(s)
    ensures var t := Next(s, Accept(fd, registered));
            t == if registered && fd < AE_SETSIZE && (s.maxclients == 0 || |s.clients| < s.maxclients)
                 then s.(clients := s.clients[fd := Client(0, [], 0, 0, [], [])],
                         numClients := |s.clients| + 1, readers := s.readers + {fd})
                 else s
  {
    hide Sum, Count, MutexInv, PipeInv, WakeInv, ReplyInv, FdInv;
    assert Places(s, fd) + One(fd in s.lost) == One(fd in s.clients);
    assert s.clients[fd := NEW_CLIENT] - {fd} == s.clients;
    assert s.readers + {fd} - {fd} == s.readers && s.writers - {fd} == s.writers;
  }

  /** A write that leaves something to send leaves the client among the writers; the last one
      makes it a reader again that has read nothing, unless that is refused. */
  lemma SendDecides(s: State, c: Fd, n: nat, rearmed: bool)
    requires Enabled(s, Send(c, n, rearmed)) && Inv(s)
    ensures var t, k := Next(s, Send(c, n, rearmed)), s.clients[c];
            var sent := k.sent + k.wbuf[k.wpos..k.wpos + n];
            t == if k.wpos + n < |k.wbuf| then s.(clients := s.clients[c := k.(wpos := k.wpos + n, sent := sent)])
                 else s.(clients := s.clients[c := Client(0, [], 0, k.asked, k.replies, sent)],
                         writers := s.writers - {c},
                         readers := s.readers + if rearmed then {c} else {},
                         lost := s.lost + if rearmed then {} else {c})
  {
    hide Sum, Count, MutexInv, PipeInv, WakeInv, ReplyInv, FdInv;
    assert Places(s, c) + One(c in s.lost) == One(c in s.clients);
  }

  // ---------------------------------------------------------------- a client that reads

  lemma ReaderIsNowhereElse(s: State, c: Fd)
    requires OwnerInv(s) && c in s.readers && c in s.clients
    ensures c !in s.writers && !MainHolds(s.main, c)
    ensures forall w :: 0 <= w < |s.workers| ==> TallyOf(s.workers[w], c).held == 0
  {
    hide Sum, Count, Counted;
    assert Places(s, c) + One(c in s.lost) == One(c in s.clients);
    forall w | 0 <= w < |s.workers| ensures TallyOf(s.workers[w], c).held == 0 {
      SumSplit(s.workers, w, c);
    }
  }

  /** A step that neither reads from it nor finds it gone leaves a reader as it is. */
  lemma ReaderLeftAlone(s: State, step: Step, c: Fd)
    requires Enabled(s, step) && OwnerInv(s) && c in s.readers && c in s.clients
    requires step != Hangup(c) && !(step.Query? && step.c == c)
    ensures var t := Next(s, step); c in t.readers && c in t.clients && t.clients[c] == s.clients[c]
  {
    hide OwnerInv;
    ReaderIsNowhereElse(s, c);
  }

  predicate ReadsFrom(step: Step, c: Fd) { step.Query? && step.c == c }

  /** How much of what c sends is read, and how often that makes a command. */
  function TotalRead(steps: seq<Step>, c: Fd): nat {
    if steps == [] then 0 else (if ReadsFrom(steps[0], c) then steps[0].nread else 0) + TotalRead(steps[1..], c)
  }

  function Commands(steps: seq<Step>, c: Fd): nat {
    if steps == [] then 0 else One(ReadsFrom(steps[0], c) && steps[0].verdict == 1) + Commands(steps[1..], c)
  }

  /** While c does not hang up and every answer is 0, it stays a live reader, whatever
      else happens; `rlen` counts the bytes read. */
  lemma {:induction false} StaysReadable(s: State, c: Fd, steps: seq<Step>, t: State)
    requires Inv(s) && Path(s, steps, t) && c in s.readers && c in s.clients && Hangup(c) !in steps
    requires forall i :: 0 <= i < |steps| && ReadsFrom(steps[i], c) ==> steps[i].verdict == 0
    ensures c in t.readers && c in t.clients
    ensures t.clients[c] == s.clients[c].(rlen := s.clients[c].rlen + TotalRead(steps, c))
    decreases |steps|
  {
    hide Inv, Enabled, Next;
    if steps == [] {
    } else {
      InvKept(s, steps[0]);
      ReaderStep(s, steps[0], c);
      StaysReadable(Next(s, steps[0]), c, steps[1..], t);
    }
  }

  lemma ReaderStep(s: State, step: Step, c: Fd)
    requires Inv(s) && Enabled(s, step) && c in s.readers && c in s.clients && step != Hangup(c)
    requires ReadsFrom(step, c) ==> step.verdict == 0
    ensures var t := Next(s, step);
            && c in t.readers && c in t.clients
            && t.clients[c] == s.clients[c].(rlen := s.clients[c].rlen + if ReadsFrom(step, c) then step.nread else 0)
  {
    hide MutexInv, PipeInv, OwnerInv, WakeInv, ReplyInv, FdInv, Next, Enabled;
    if ReadsFrom(step, c) {
      QueryDecides(s, c, step.nread, step.verdict);
    } else {
      ReaderLeftAlone(s, step, c);
    }
  }

  predicate QueuedSoon(m: Main, c: Fd) { (m.AtQueue? || m.Queueing?) && m.c == c }

  lemma QueuedByStep(s: State, step: Step, c: Fd)
    requires Enabled(s, step)
    ensures Count(Entry(s, step).queued, c) + One(QueuedSoon(Next(s, step).main, c))
            == One(QueuedSoon(s.main, c)) + One(ReadsFrom(step, c) && step.verdict == 1)
  {
    assert multiset([])[c] == 0;
    if step.Append? { assert multiset([s.main.c])[c] == One(s.main.c == c); }
  }

  /** Along any path, c is queued once for each answer 1 to it. */
  lemma {:induction false} QueuedPerCommand(s: State, steps: seq<Step>, t: State, c: Fd)
    requires Path(s, steps, t)
    ensures Count(LogOf(s, steps, t).queued, c) + One(QueuedSoon(t.main, c))
            == One(QueuedSoon(s.main, c)) + Commands(steps, c)
    decreases |steps|
  {
    hide Enabled, Next, Entry, QueuedSoon;
    if steps == [] {
    } else {
      QueuedByStep(s, steps[0], c);
      QueuedPerCommand(Next(s, steps[0]), steps[1..], t, c);
    }
  }

  // ---------------------------------------------------------------- bytes and answers

  /** The answers of _processRequestBuffer; none where the process ends or C says nothing. */
  function Code(v: Resp.Verdict): Option<int> {
    match v
    case Wrong => Some(-1)
    case Incomplete => Some(0)
    case Complete => Some(1)
    case Quit => Some(-2)
    case _ => None
  }

  /** After `from` bytes of the stream, c is sent the rest of it, and each answer is the
      classification of the bytes read so far. */
  predicate Answered(steps: seq<Step>, c: Fd, stream: Octets, from: nat) {
    steps == [] ||
    if ReadsFrom(steps[0], c) then
      && from + steps[0].nread <= |stream|
      && Code(Resp.ClassifyRequest(stream[..from + steps[0].nread])) == Some(steps[0].verdict)
      && Answered(steps[1..], c, stream, from + steps[0].nread)
    else Answered(steps[1..], c, stream, from)
  }

  /** One read: bytes that are refused, and those that ask to quit, free the client, and only
      they; it stays a reader if and only if they are incomplete, and is queued if and only
      if they are a command. */
  lemma BytesDecide(s: State, c: Fd, nread: nat, verdict: int, bs: Octets)
    requires Enabled(s, Query(c, nread, verdict)) && Code(Resp.ClassifyRequest(bs)) == Some(verdict)
    ensures var t, v := Next(s, Query(c, nread, verdict)), Resp.ClassifyRequest(bs);
            && (c !in t.clients <==> v == Resp.Wrong || v == Resp.Quit)
            && (c in t.clients && c in t.readers <==> v == Resp.Incomplete)
            && (t.main == AtQueue(c) <==> v == Resp.Complete)
  {
    hide Resp.ClassifyRequest, Enabled, Next;
    QueryDecides(s, c, nread, verdict);
  }

  /** A command cut in any pieces, read while everything else goes on: until its last piece
      the client stays a live reader that has read so many bytes and is not queued; with the
      last piece it is queued, and once. */
  lemma {:induction false} CommandInPieces(s: State, c: Fd, args: seq<Resp.Bulk>, steps: seq<Step>, t: State)
    requires Inv(s) && Path(s, steps, t) && c in s.readers && c in s.clients && Hangup(c) !in steps
    requires Resp.IsRequest(args) && s.clients[c].rlen < |Resp.ArrayBytes(args)|
    requires Answered(steps, c, Resp.ArrayBytes(args), s.clients[c].rlen)
    ensures var m, total := Resp.ArrayBytes(args), s.clients[c].rlen + TotalRead(steps, c);
            && total <= |m|
            && (total < |m| ==>
                  c in t.readers && c in t.clients && t.clients[c] == s.clients[c].(rlen := total))
            && Count(LogOf(s, steps, t).queued, c) + One(QueuedSoon(t.main, c)) == One(total == |m|)
  {
    hide Inv, Enabled, Next, Resp.ClassifyRequest, Resp.IsRequest, Resp.ArrayBytes, LogOf, Count;
    assert !QueuedSoon(s.main, c) by { NotQueuedYet(s, c); }
    QueuedPerCommand(s, steps, t, c);
    PathReads(s, steps, t, c);
    OneCommand(steps, c, args, s.clients[c].rlen);
    if s.clients[c].rlen + TotalRead(steps, c) < |Resp.ArrayBytes(args)| { StaysReadable(s, c, steps, t); }
  }

  lemma NotQueuedYet(s: State, c: Fd)
    requires Inv(s) && c in s.readers && c in s.clients
    ensures !QueuedSoon(s.main, c)
  {
    hide OwnerInv, MutexInv, PipeInv, WakeInv, ReplyInv, FdInv;
    ReaderIsNowhereElse(s, c);
  }

  /** Every read delivers something. */
  lemma {:induction false} PathReads(s: State, steps: seq<Step>, t: State, c: Fd)
    requires Path(s, steps, t)
    ensures forall i :: 0 <= i < |steps| && ReadsFrom(steps[i], c) ==> steps[i].nread > 0
    decreases |steps|
  {
    hide Next;
    if steps == [] {
    } else {
      PathReads(Next(s, steps[0]), steps[1..], t, c);
      forall i | 0 <= i < |steps| && ReadsFrom(steps[i], c) ensures steps[i].nread > 0 {
        if i > 0 { assert steps[i] == steps[1..][i - 1]; }
      }
    }
  }

  lemma {:induction false} OneCommand(steps: seq<Step>, c: Fd, args: seq<Resp.Bulk>, from: nat)
    requires Resp.IsRequest(args) && from <= |Resp.ArrayBytes(args)|
    requires Answered(steps, c, Resp.ArrayBytes(args), from)
    requires forall i :: 0 <= i < |steps| && ReadsFrom(steps[i], c) ==> steps[i].nread > 0
    ensures var m, total := Resp.ArrayBytes(args), from + TotalRead(steps, c);
            && total <= |m|
            && Commands(steps, c) == One(from < |m| && total == |m|)
            && (total < |m| ==> forall i :: 0 <= i < |steps| && ReadsFrom(steps[i], c) ==> steps[i].verdict == 0)
    decreases |steps|
  {
    hide Resp.ClassifyRequest, Resp.IsRequest, Resp.ArrayBytes;
    if steps == [] {
    } else {
      var step, rest, m := steps[0], steps[1..], Resp.ArrayBytes(args);
      forall i | 0 <= i < |rest| && ReadsFrom(rest[i], c) ensures rest[i].nread > 0 {
        assert rest[i] == steps[i + 1];
      }
      if ReadsFrom(step, c) {
        PieceOfCommand(args, from + step.nread);
        OneCommand(rest, c, args, from + step.nread);
      } else {
        OneCommand(rest, c, args, from);
      }
      if from + TotalRead(steps, c) < |m| {
        forall i | 0 <= i < |steps| && ReadsFrom(steps[i], c) ensures steps[i].verdict == 0 {
          if i > 0 { assert steps[i] == rest[i - 1]; }
        }
      }
    }
  }

  lemma PieceOfCommand(args: seq<Resp.Bulk>, n: nat)
    requires Resp.IsRequest(args) && 0 < n <= |Resp.ArrayBytes(args)|
    ensures Resp.ClassifyRequest(Resp.ArrayBytes(args)[..n])
            == if n < |Resp.ArrayBytes(args)| then Resp.Incomplete else Resp.Complete
  {
    hide Resp.ClassifyRequest, Resp.IsRequest, Resp.ArrayBytes;
    var m := Resp.ArrayBytes(args);
    Resp.RequestExpected(args, m[..n]);
    assert n == |m| ==> m[..n] == m;
  }
}

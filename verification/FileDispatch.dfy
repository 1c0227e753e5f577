/** The dispatch of fired file events in redis-server/ae.c, while handlers register, delete
    and close descriptors. */
module FileDispatch {
  import opened FileEvents

  /** What the poll reports. */
  datatype Fired = Fired(fd: nat, mask: Mask)

  /** A handler is called, or changes something. */
  datatype Happening = Called(fd: nat, dir: Direction, procedure: nat, data: nat) | Did(op: Op)

  /** What a handler does may depend on all that has happened, its call last. */
  type Script = seq<Happening> -> seq<Op>

  function Ops(trace: seq<Happening>): seq<Op> {
    if trace == [] then [] else (if trace[0].Did? then [trace[0].op] else []) + Ops(trace[1..])
  }

  function Doings(ops: seq<Op>): (trace: seq<Happening>)
    ensures |trace| == |ops| && forall i :: 0 <= i < |ops| ==> trace[i] == Did(ops[i])
  {
    seq(|ops|, i requires 0 <= i < |ops| => Did(ops[i]))
  }

  ghost predicate IsSized(s: State) { |s.events| == AE_SETSIZE && s.maxfd < AE_SETSIZE }

  function Calling(s: State, trace: seq<Happening>, call: Happening, script: Script): (r: (State, seq<Happening>))
    requires IsSized(s)
    ensures IsSized(r.0)
  {
    var ops := script(trace + [call]);
    (RunAll(s, ops), trace + [call] + Doings(ops))
  }

  /** First the read handler; then the write handler, if that is still registered and is not
      the one just called. */
  function FireOne(s: State, trace: seq<Happening>, f: Fired, script: Script): (r: (State, seq<Happening>))
    requires IsSized(s) && f.fd < AE_SETSIZE
    ensures IsSized(r.0)
  {
    var fe := s.events[f.fd];
    var rfired := fe.mask.readable && f.mask.readable;
    var r := if rfired then Calling(s, trace, Called(f.fd, Reading, fe.rProc, fe.data), script) else (s, trace);
    var fe' := r.0.events[f.fd];
    if fe'.mask.writable && f.mask.writable && (!rfired || fe'.wProc != fe'.rProc)
    then Calling(r.0, r.1, Called(f.fd, Writing, fe'.wProc, fe'.data), script) else r
  }

  function FireAll(s: State, trace: seq<Happening>, fired: seq<Fired>, script: Script): (r: (State, seq<Happening>))
    requires IsSized(s) && forall i :: 0 <= i < |fired| ==> fired[i].fd < AE_SETSIZE
    ensures IsSized(r.0)
    decreases |fired|
  {
    if fired == [] then (s, trace)
    else
      var r := FireOne(s, trace, fired[0], script);
      FireAll(r.0, r.1, fired[1..], script)
  }

  // ---------------------------------------------------------------- which handlers are called

  /** The call goes to the handler and with the data that are registered at its time. */
  ghost predicate IsRight(start: State, trace: seq<Happening>, i: nat)
    requires IsSized(start) && i < |trace|
  {
    trace[i].Called? ==>
      && trace[i].fd < AE_SETSIZE
      && var fe := RunAll(start, Ops(trace[..i])).events[trace[i].fd];
         Names(fe.mask, trace[i].dir) && trace[i].procedure == HandlerOf(fe, trace[i].dir) && trace[i].data == fe.data
  }

  ghost predicate AllRight(start: State, s: State, trace: seq<Happening>)
    requires IsSized(start)
  {
    s == RunAll(start, Ops(trace)) && forall i :: 0 <= i < |trace| ==> IsRight(start, trace, i)
  }

  lemma {:induction false} OpsJoin(a: seq<Happening>, b: seq<Happening>)
    ensures Ops(a + b) == Ops(a) + Ops(b)
    decreases |a|
  {
    if a == [] {
      assert a + b == b;
    } else {
      OpsJoin(a[1..], b);
      assert (a + b)[1..] == a[1..] + b && (a + b)[0] == a[0];
      var first := if a[0].Did? then [a[0].op] else [];
      assert first + (Ops(a[1..]) + Ops(b)) == (first + Ops(a[1..])) + Ops(b);
    }
  }

  lemma {:induction false} OpsOfDoings(ops: seq<Op>)
    ensures Ops(Doings(ops)) == ops
  {
    if ops == [] {
    } else {
      OpsOfDoings(ops[1..]);
      assert Doings(ops)[1..] == Doings(ops[1..]);
    }
  }

  lemma CallingRight(start: State, s: State, trace: seq<Happening>, call: Happening, script: Script)
    requires IsSized(start) && IsSized(s) && AllRight(start, s, trace)
    requires call.Called? && call.fd < AE_SETSIZE && Names(s.events[call.fd].mask, call.dir)
    requires call.procedure == HandlerOf(s.events[call.fd], call.dir) && call.data == s.events[call.fd].data
    ensures var r := Calling(s, trace, call, script); AllRight(start, r.0, r.1)
  {
    hide HandlerOf, Names;
    var ops := script(trace + [call]);
    var all := trace + [call] + Doings(ops);
    OpsJoin(trace, [call]);
    assert [call][1..] == [] && Ops([call]) == [];
    OpsJoin(trace + [call], Doings(ops));
    OpsOfDoings(ops);
    RunJoin(start, Ops(trace), ops);
    assert Ops(trace) + [] == Ops(trace);
    forall i | 0 <= i < |all| ensures IsRight(start, all, i) {
      if i < |trace| {
        assert all[..i] == trace[..i] && IsRight(start, trace, i);
      } else if i == |trace| {
        assert all[..i] == trace;
      }
    }
  }

  lemma FireOneRight(start: State, s: State, trace: seq<Happening>, f: Fired, script: Script)
    requires IsSized(start) && IsSized(s) && AllRight(start, s, trace) && f.fd < AE_SETSIZE
    ensures var r := FireOne(s, trace, f, script); AllRight(start, r.0, r.1)
  {
    hide Calling, AllRight;
    var fe := s.events[f.fd];
    var t, more := s, trace;
    if fe.mask.readable && f.mask.readable {
      var call := Called(f.fd, Reading, fe.rProc, fe.data);
      CallingRight(start, s, trace, call, script);
      var r := Calling(s, trace, call, script);
      t, more := r.0, r.1;
    }
    var fe' := t.events[f.fd];
    if fe'.mask.writable { CallingRight(start, t, more, Called(f.fd, Writing, fe'.wProc, fe'.data), script); }
  }

  /** In a whole pass over fired events, whatever handlers do to the table: each call goes to
      the handler registered at its time for that direction, with the data registered then.
      Nothing is called for a direction that an earlier handler has deleted. */
  lemma {:induction false} CallsAreRight(start: State, s: State, trace: seq<Happening>, fired: seq<Fired>,
                                         script: Script)
    requires IsSized(start) && IsSized(s) && AllRight(start, s, trace)
    requires forall i :: 0 <= i < |fired| ==> fired[i].fd < AE_SETSIZE
    ensures var r := FireAll(s, trace, fired, script); AllRight(start, r.0, r.1)
    decreases |fired|
  {
    hide FireOne, AllRight;
    if fired == [] {
    } else {
      FireOneRight(start, s, trace, fired[0], script);
      var r := FireOne(s, trace, fired[0], script);
      CallsAreRight(start, r.0, r.1, fired[1..], script);
    }
  }

  /** And that is the handler of the last successful registration that names the direction,
      before the pass or in it; the data are those of the last one at all. */
  lemma {:induction false} CalledIsLastRegistered(start: State, before: seq<Op>, fired: seq<Fired>, script: Script,
                                                  all: seq<Happening>, i: nat) returns (k: nat, j: nat)
    requires IsSized(start) && forall fd :: 0 <= fd < AE_SETSIZE ==> start.events[fd].mask == AE_NONE
    requires forall j :: 0 <= j < |fired| ==> fired[j].fd < AE_SETSIZE
    requires all == FireAll(RunAll(start, before), [], fired, script).1 && i < |all| && all[i].Called?
    ensures var ops := before + Ops(all[..i]);
            && IsLastFor(start, ops, k, all[i].fd, all[i].dir) && all[i].procedure == ops[k].procedure
            && IsLast(start, ops, j, all[i].fd) && all[i].data == ops[j].data
  {
    hide FireAll, RunAll, IsLastFor, IsLast, HandlerOf, Names, Ops;
    var s := RunAll(start, before);
    CallsAreRight(s, s, [], fired, script) by { NothingYet(s); }
    assert IsRight(s, all, i);
    RunJoin(start, before, Ops(all[..i]));
    k, j := HandlersOfRun(start, before + Ops(all[..i]), all[i].fd, all[i].dir);
  }

  lemma NothingYet(s: State)
    requires IsSized(s)
    ensures AllRight(s, s, [])
  {}

  /** No handler changes this descriptor. */
  ghost predicate Leaves(script: Script, fd: nat) {
    forall t: seq<Happening>, i :: 0 <= i < |script(t)| ==> script(t)[i].fd != fd
  }

  lemma {:induction false} RunLeaves(s: State, ops: seq<Op>, fd: nat)
    requires IsSized(s) && fd < AE_SETSIZE && forall i :: 0 <= i < |ops| ==> ops[i].fd != fd
    ensures RunAll(s, ops).events[fd] == s.events[fd]
    decreases |ops|
  {
    hide Apply;
    if ops == [] {
    } else {
      ApplyLeaves(s, ops[0], fd);
      RunLeaves(Apply(s, ops[0]).0, ops[1..], fd);
    }
  }

  lemma ApplyLeaves(s: State, op: Op, fd: nat)
    requires IsSized(s) && fd < AE_SETSIZE && op.fd != fd
    ensures Apply(s, op).0.events[fd] == s.events[fd]
  {}

  ghost predicate IsCallOf(h: Happening, fd: nat, fe: FileEvent, dir: Direction) {
    h.Called? && h.fd == fd && h.procedure == HandlerOf(fe, dir) && h.data == fe.data
  }

  /** A fired descriptor that no handler changes: the handler of each direction that is fired
      and registered is called, no handler twice, and nothing else. */
  lemma {:induction false} EachCalledOnce(s: State, trace: seq<Happening>, f: Fired, script: Script)
    requires IsSized(s) && f.fd < AE_SETSIZE && Leaves(script, f.fd)
    ensures var fe, all := s.events[f.fd], FireOne(s, trace, f, script).1;
            && trace <= all
            && (forall dir :: Names(fe.mask, dir) && Names(f.mask, dir) ==>
                  exists i :: |trace| <= i < |all| && IsCallOf(all[i], f.fd, fe, dir))
            && (forall i, j :: |trace| <= i < j < |all| && all[i].Called? && all[j].Called? ==>
                  all[i].procedure != all[j].procedure)
            && (forall i :: |trace| <= i < |all| && all[i].Called? ==>
                  && Names(fe.mask, all[i].dir) && Names(f.mask, all[i].dir)
                  && IsCallOf(all[i], f.fd, fe, all[i].dir))
  {
    hide RunAll;
    var fe := s.events[f.fd];
    var r := FireOne(s, trace, f, script);
    var call := Called(f.fd, Reading, fe.rProc, fe.data);
    var ops := script(trace + [call]);
    RunLeaves(s, ops, f.fd);
    if fe.mask.readable && f.mask.readable { assert r.1[|trace|] == call; }
    if fe.mask.writable && f.mask.writable && !(fe.mask.readable && f.mask.readable && fe.wProc == fe.rProc) {
      var k := |trace| + if fe.mask.readable && f.mask.readable then 1 + |ops| else 0;
      assert r.1[k] == Called(f.fd, Writing, fe.wProc, fe.data);
    }
  }

  // ---------------------------------------------------------------- the event loop

  lemma CloseIs(s: State, fd: nat)
    requires IsSized(s)
    ensures Apply(s, Close(fd)).0 == s.(interest := s.interest - {fd})
  {}

  method Perform(loop: EventLoop, ops: seq<Op>)
    requires loop.Valid()
    modifies loop, loop.events, loop.epoll
    ensures loop.Valid() && loop.Abstract() == RunAll(old(loop.Abstract()), ops)
  {
    hide Apply;
    var k := 0;
    while k < |ops|
      invariant k <= |ops| && loop.Valid()
      invariant RunAll(old(loop.Abstract()), ops) == RunAll(loop.Abstract(), ops[k..])
    {
      assert ops[k..][1..] == ops[k + 1..];
      match ops[k] {
        case Create(fd, mask, procedure, data, able) => var _ := loop.CreateFileEvent(fd, mask, procedure, data, able);
        case Delete(fd, mask, able) => var _ := loop.DeleteFileEvent(fd, mask, able);
        case Close(fd) =>
          CloseIs(loop.Abstract(), fd);
          loop.epoll.Closed(fd);
      }
      k := k + 1;
    }
  }

  method CallProc(loop: EventLoop, trace: seq<Happening>, call: Happening, script: Script)
    returns (more: seq<Happening>)
    requires loop.Valid()
    modifies loop, loop.events, loop.epoll
    ensures loop.Valid() && (loop.Abstract(), more) == Calling(old(loop.Abstract()), trace, call, script)
  {
    hide RunAll;
    var ops := script(trace + [call]);
    Perform(loop, ops);
    more := trace + [call] + Doings(ops);
  }

  /** The entry of the table is read again behind the read handler. */
  method FireFileEvent(loop: EventLoop, trace: seq<Happening>, f: Fired, script: Script)
    returns (all: seq<Happening>)
    requires loop.Valid() && f.fd < AE_SETSIZE
    modifies loop, loop.events, loop.epoll
    ensures loop.Valid() && (loop.Abstract(), all) == FireOne(old(loop.Abstract()), trace, f, script)
  {
    hide Calling;
    all := trace;
    var rfired := false;
    if loop.events[f.fd].mask.readable && f.mask.readable {
      rfired := true;
      var fe := loop.events[f.fd];
      all := CallProc(loop, all, Called(f.fd, Reading, fe.rProc, fe.data), script);
    }
    if loop.events[f.fd].mask.writable && f.mask.writable {
      var fe := loop.events[f.fd];
      if !rfired || fe.wProc != fe.rProc {
        all := CallProc(loop, all, Called(f.fd, Writing, fe.wProc, fe.data), script);
      }
    }
  }

  /** The part of aeProcessEvents behind the poll: every call goes to the handler registered
      at its time. */
  method ProcessFileEvents(loop: EventLoop, fired: seq<Fired>, script: Script)
    returns (processed: nat, all: seq<Happening>)
    requires loop.Valid() && forall i :: 0 <= i < |fired| ==> fired[i].fd < AE_SETSIZE
    modifies loop, loop.events, loop.epoll
    ensures loop.Valid() && processed == |fired|
    ensures (loop.Abstract(), all) == FireAll(old(loop.Abstract()), [], fired, script)
    ensures AllRight(old(loop.Abstract()), loop.Abstract(), all)
  {
    hide FireOne, AllRight;
    ghost var s := loop.Abstract();
    NothingYet(s);
    CallsAreRight(s, s, [], fired, script);
    processed, all := 0, [];
    while processed < |fired|
      invariant processed <= |fired| && loop.Valid()
      invariant FireAll(s, [], fired, script) == FireAll(loop.Abstract(), all, fired[processed..], script)
    {
      assert fired[processed..][1..] == fired[processed + 1..];
      all := FireFileEvent(loop, all, fired[processed], script);
      processed := processed + 1;
    }
  }
}

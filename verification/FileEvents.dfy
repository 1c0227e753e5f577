/** The table of file events of redis-server/ae.c and the interest set that
    redis-server/ae_epoll.c keeps in the kernel. */
module FileEvents {
  import opened Options

  const AE_SETSIZE: nat := 10240

  datatype Mask = Mask(readable: bool, writable: bool)

  const AE_NONE := Mask(false, false)

  function Or(a: Mask, b: Mask): Mask { Mask(a.readable || b.readable, a.writable || b.writable) }

  function AndNot(a: Mask, b: Mask): Mask { Mask(a.readable && !b.readable, a.writable && !b.writable) }

  datatype FileEvent = FileEvent(mask: Mask, rProc: nat, wProc: nat, data: nat)

  // ---------------------------------------------------------------- the kernel

  datatype Ctl = CtlAdd | CtlMod | CtlDel

  /** epoll_ctl refuses to add a descriptor it has, or to change or drop one it has not. */
  function EpollCtl(interest: map<nat, Mask>, op: Ctl, fd: nat, events: Mask): Option<map<nat, Mask>> {
    match op
    case CtlAdd => if fd in interest then None else Some(interest[fd := events])
    case CtlMod => if fd in interest then Some(interest[fd := events]) else None
    case CtlDel => if fd in interest then Some(interest - {fd}) else None
  }

  class Epoll {
    var interest: map<nat, Mask>

    constructor ()
      ensures interest == map[]
    {
      interest := map[];
    }

    /** `able` is false when the kernel fails for a reason of its own. */
    method Control(op: Ctl, fd: nat, events: Mask, able: bool) returns (ok: bool)
      modifies this
      ensures ok == (able && EpollCtl(old(interest), op, fd, events).Some?)
      ensures interest == if ok then EpollCtl(old(interest), op, fd, events).value else old(interest)
    {
      var after := EpollCtl(interest, op, fd, events);
      ok := able && after.Some?;
      if ok { interest := after.value; }
    }

    /** Closing a descriptor takes it out of the interest set. */
    method Closed(fd: nat)
      modifies this
      ensures interest == old(interest) - {fd}
    {
      interest := interest - {fd};
    }
  }

  // ---------------------------------------------------------------- the table

  datatype State = State(events: seq<FileEvent>, maxfd: int, interest: map<nat, Mask>)

  /** Creating and deleting, with a kernel that is able or not, and closing the descriptor. */
  datatype Op =
    | Create(fd: nat, mask: Mask, procedure: nat, data: nat, able: bool)
    | Delete(fd: nat, mask: Mask, able: bool)
    | Close(fd: nat)

  /** The largest registered descriptor below n, or -1. */
  function Highest(events: seq<FileEvent>, n: nat): (r: int)
    requires n <= |events|
    ensures -1 <= r < n
    ensures r >= 0 ==> events[r].mask != AE_NONE
    ensures forall k :: r < k < n ==> events[k].mask == AE_NONE
  {
    if n == 0 then -1 else if events[n - 1].mask != AE_NONE then n - 1 else Highest(events, n - 1)
  }

  function Registered(fe: FileEvent, mask: Mask, procedure: nat, data: nat): FileEvent {
    FileEvent(Or(fe.mask, mask), if mask.readable then procedure else fe.rProc,
              if mask.writable then procedure else fe.wProc, data)
  }

  function Apply(s: State, op: Op): (r: (State, bool))
    requires |s.events| == AE_SETSIZE && s.maxfd < AE_SETSIZE
    ensures |r.0.events| == AE_SETSIZE && r.0.maxfd < AE_SETSIZE
  {
    match op
    case Create(fd, mask, procedure, data, able) =>
      if fd >= AE_SETSIZE then (s, false)
      else
        var fe := s.events[fd];
        var after := EpollCtl(s.interest, if fe.mask == AE_NONE then CtlAdd else CtlMod, fd, Or(mask, fe.mask));
        if !able || after.None? then (s, false)
        else (State(s.events[fd := Registered(fe, mask, procedure, data)],
                    if fd > s.maxfd then fd else s.maxfd, after.value), true)
    case Delete(fd, mask, able) =>
      if fd >= AE_SETSIZE || s.events[fd].mask == AE_NONE then (s, true)
      else
        var left := AndNot(s.events[fd].mask, mask);
        var events := s.events[fd := s.events[fd].(mask := left)];
        var after := EpollCtl(s.interest, if left != AE_NONE then CtlMod else CtlDel, fd, left);
        (State(events, if fd == s.maxfd && left == AE_NONE then Highest(events, fd) else s.maxfd,
               if able && after.Some? then after.value else s.interest), able && after.Some?)
    case Close(fd) => (s.(interest := s.interest - {fd}), true)
  }

  /** The kernel's interest set is exactly the table. */
  ghost predicate InStep(s: State) {
    && (forall fd :: 0 <= fd < |s.events| ==> (fd in s.interest <==> s.events[fd].mask != AE_NONE))
    && (forall fd :: fd in s.interest ==> fd < |s.events| && s.interest[fd] == s.events[fd].mask)
  }

  /** maxfd is the largest registered descriptor, or -1. */
  ghost predicate MaxInStep(s: State) {
    && -1 <= s.maxfd < |s.events|
    && (s.maxfd >= 0 ==> s.events[s.maxfd].mask != AE_NONE)
    && (forall fd :: s.maxfd < fd < |s.events| ==> s.events[fd].mask == AE_NONE)
  }

  ghost predicate Inv(s: State) {
    |s.events| == AE_SETSIZE && InStep(s) && MaxInStep(s)
  }

  function Start(events: seq<FileEvent>): State {
    State(events, -1, map[])
  }

  /** What a caller may do: register something for a descriptor not registered yet, and
      close a descriptor only once it is not registered any more.  A kernel that fails to
      change or remove a registration does no harm only if there was nothing to take away:
      its answer is not looked at. */
  predicate Allowed(s: State, op: Op)
    requires |s.events| == AE_SETSIZE
  {
    match op
    case Create(fd, mask, _, _, able) => fd >= AE_SETSIZE || !able || mask != AE_NONE || s.events[fd].mask != AE_NONE
    case Delete(fd, mask, able) => fd >= AE_SETSIZE || able || AndNot(s.events[fd].mask, mask) == s.events[fd].mask
    case Close(fd) => fd >= AE_SETSIZE || s.events[fd].mask == AE_NONE
  }

  /** One operation keeps table, kernel and maxfd in step if and only if it is one the
      caller may do. */
  lemma StepKeepsIff(s: State, op: Op)
    requires Inv(s)
    ensures Inv(Apply(s, op).0) <==> Allowed(s, op)
  {
    match op
    case Create(fd, mask, procedure, data, able) =>
      if fd < AE_SETSIZE { CreateKeepsIff(s, fd, mask, procedure, data, able); }
    case Delete(fd, mask, able) => if fd < AE_SETSIZE { DeleteKeepsIff(s, fd, mask, able); }
    case Close(fd) =>
      if fd < AE_SETSIZE && s.events[fd].mask != AE_NONE { assert fd !in Apply(s, op).0.interest; }
  }

  lemma CreateKeepsIff(s: State, fd: nat, mask: Mask, procedure: nat, data: nat, able: bool)
    requires Inv(s) && fd < AE_SETSIZE
    ensures var op := Create(fd, mask, procedure, data, able);
            Inv(Apply(s, op).0) <==> Allowed(s, op)
  {
    var t := Apply(s, Create(fd, mask, procedure, data, able)).0;
    if able && mask == AE_NONE && s.events[fd].mask == AE_NONE {
      assert fd in t.interest && t.events[fd].mask == AE_NONE;
    }
  }

  lemma DeleteKeepsIff(s: State, fd: nat, mask: Mask, able: bool)
    requires Inv(s) && fd < AE_SETSIZE
    ensures var op := Delete(fd, mask, able);
            Inv(Apply(s, op).0) <==> Allowed(s, op)
  {
    var t := Apply(s, Delete(fd, mask, able)).0;
    var left := AndNot(s.events[fd].mask, mask);
    if !able && left != s.events[fd].mask {
      assert fd in t.interest && t.interest[fd] == s.events[fd].mask && t.events[fd].mask == left;
    }
  }

  /** While table and kernel are in step, no request is refused for being an addition of
      a descriptor that is there, or a change of one that is not. */
  lemma NothingRefused(s: State, op: Op)
    requires Inv(s)
    ensures Apply(s, op).1 <==> match op
                                case Create(fd, _, _, _, able) => fd < AE_SETSIZE && able
                                case Delete(fd, _, able) => fd >= AE_SETSIZE || s.events[fd].mask == AE_NONE || able
                                case Close(_) => true
  {}

  function RunAll(s: State, ops: seq<Op>): (t: State)
    requires |s.events| == AE_SETSIZE && s.maxfd < AE_SETSIZE
    ensures |t.events| == AE_SETSIZE && t.maxfd < AE_SETSIZE
    decreases |ops|
  {
    if ops == [] then s else RunAll(Apply(s, ops[0]).0, ops[1..])
  }

  ghost predicate AllAllowed(s: State, ops: seq<Op>)
    requires |s.events| == AE_SETSIZE && s.maxfd < AE_SETSIZE
    decreases |ops|
  {
    ops == [] || (Allowed(s, ops[0]) && AllAllowed(Apply(s, ops[0]).0, ops[1..]))
  }

  /** Over any run of such operations the kernel's interest set equals the table and
      maxfd is the largest registered descriptor. */
  lemma {:induction false} RunKeeps(s: State, ops: seq<Op>)
    requires Inv(s) && AllAllowed(s, ops)
    ensures Inv(RunAll(s, ops))
    decreases |ops|
  {
    hide Apply, Inv, Allowed;
    if ops == [] {
    } else {
      InvBounds(s);
      StepKeepsIff(s, ops[0]);
      RunKeeps(Apply(s, ops[0]).0, ops[1..]);
    }
  }

  lemma InvBounds(s: State)
    requires Inv(s)
    ensures |s.events| == AE_SETSIZE && s.maxfd < AE_SETSIZE
  {}

  lemma StartInStep(events: seq<FileEvent>)
    requires |events| == AE_SETSIZE && forall fd :: 0 <= fd < |events| ==> events[fd].mask == AE_NONE
    ensures Inv(Start(events))
  {}

  /** A descriptor closed while registered: when its number comes back, it cannot be
      registered, whatever the mask, until it is deleted as a whole. */
  lemma ClosedTooEarly(s: State, fd: nat, mask: Mask, procedure: nat, data: nat, able: bool)
    requires Inv(s) && fd < AE_SETSIZE && s.events[fd].mask != AE_NONE
    ensures var closed := Apply(s, Close(fd)).0;
            && Apply(closed, Create(fd, mask, procedure, data, able)) == (closed, false)
            && Inv(Apply(closed, Delete(fd, Mask(true, true), able)).0)
  {}

  /** A removal that fails: the descriptor cannot be registered either, whatever the mask,
      until it is closed. */
  lemma RemovalFailed(s: State, fd: nat, gone: Mask, mask: Mask, procedure: nat, data: nat, able: bool)
    requires Inv(s) && fd < AE_SETSIZE && s.events[fd].mask != AE_NONE
    requires AndNot(s.events[fd].mask, gone) == AE_NONE
    ensures var stuck := Apply(s, Delete(fd, gone, false)).0;
            && Apply(stuck, Create(fd, mask, procedure, data, able)) == (stuck, false)
            && Inv(Apply(stuck, Close(fd)).0)
  {
    var stuck := Apply(s, Delete(fd, gone, false)).0;
    assert fd in stuck.interest && stuck.events[fd].mask == AE_NONE;
  }

  // ---------------------------------------------------------------- the handlers

  datatype Direction = Reading | Writing

  predicate Names(mask: Mask, dir: Direction) { if dir == Reading then mask.readable else mask.writable }

  /** The handler that an event in this direction calls. */
  function HandlerOf(fe: FileEvent, dir: Direction): nat { if dir == Reading then fe.rProc else fe.wProc }

  /** The i-th operation registers something for the descriptor. */
  ghost predicate Creates(s: State, ops: seq<Op>, i: nat, fd: nat)
    requires |s.events| == AE_SETSIZE && s.maxfd < AE_SETSIZE
  {
    i < |ops| && ops[i].Create? && ops[i].fd == fd && Apply(RunAll(s, ops[..i]), ops[i]).1
  }

  /** It is the last one that does, and the last one for this direction. */
  ghost predicate IsLast(s: State, ops: seq<Op>, i: nat, fd: nat)
    requires |s.events| == AE_SETSIZE && s.maxfd < AE_SETSIZE
  {
    Creates(s, ops, i, fd) && forall j: nat :: i < j && Creates(s, ops, j, fd) ==> false
  }

  ghost predicate IsLastFor(s: State, ops: seq<Op>, i: nat, fd: nat, dir: Direction)
    requires |s.events| == AE_SETSIZE && s.maxfd < AE_SETSIZE
  {
    && Creates(s, ops, i, fd) && Names(ops[i].mask, dir)
    && forall j: nat :: i < j && Creates(s, ops, j, fd) ==> !Names(ops[j].mask, dir)
  }

  lemma {:induction false} RunJoin(s: State, a: seq<Op>, b: seq<Op>)
    requires |s.events| == AE_SETSIZE && s.maxfd < AE_SETSIZE
    ensures RunAll(s, a + b) == RunAll(RunAll(s, a), b)
    decreases |a|
  {
    hide Apply;
    if a == [] {
      assert a + b == b;
    } else {
      RunJoin(Apply(s, a[0]).0, a[1..], b);
      assert (a + b)[1..] == a[1..] + b;
    }
  }

  lemma RunLast(s: State, ops: seq<Op>, op: Op)
    requires |s.events| == AE_SETSIZE && s.maxfd < AE_SETSIZE
    ensures RunAll(s, ops + [op]) == Apply(RunAll(s, ops), op).0
  {
    hide Apply;
    RunJoin(s, ops, [op]);
    assert [op][1..] == [];
  }

  predicate Drops(op: Op, fd: nat, dir: Direction) { op.Delete? && op.fd == fd && Names(op.mask, dir) }

  /** One operation: only a registration of this descriptor that succeeds changes its handlers,
      for the directions it names, and its data; only that adds a direction, and only a deletion
      that names it takes it away. */
  lemma HandlersOfStep(s: State, op: Op, fd: nat, dir: Direction)
    requires |s.events| == AE_SETSIZE && s.maxfd < AE_SETSIZE && fd < AE_SETSIZE
    ensures var fe, fe' := s.events[fd], Apply(s, op).0.events[fd];
            var created := op.Create? && op.fd == fd && Apply(s, op).1;
            && HandlerOf(fe', dir) == (if created && Names(op.mask, dir) then op.procedure else HandlerOf(fe, dir))
            && fe'.data == (if created then op.data else fe.data)
            && (Names(fe'.mask, dir) <==>
                  (created && Names(op.mask, dir)) || (Names(fe.mask, dir) && !Drops(op, fd, dir)))
  {}

  lemma CreatesBefore(s: State, ops: seq<Op>, op: Op, fd: nat)
    requires |s.events| == AE_SETSIZE && s.maxfd < AE_SETSIZE
    ensures forall i: nat :: i < |ops| ==> (Creates(s, ops + [op], i, fd) <==> Creates(s, ops, i, fd))
    ensures Creates(s, ops + [op], |ops|, fd)
            <==> op.Create? && op.fd == fd && Apply(RunAll(s, ops), op).1
  {
    hide Apply, RunAll;
    forall i: nat | i < |ops| ensures Creates(s, ops + [op], i, fd) <==> Creates(s, ops, i, fd) {
      assert (ops + [op])[..i] == ops[..i];
    }
    assert (ops + [op])[..|ops|] == ops;
  }

  lemma LastBefore(s: State, ops: seq<Op>, op: Op, fd: nat, dir: Direction, i: nat)
    requires |s.events| == AE_SETSIZE && s.maxfd < AE_SETSIZE
    ensures var now := Creates(s, ops + [op], |ops|, fd);
            && (IsLast(s, ops + [op], i, fd) <==> if now then i == |ops| else IsLast(s, ops, i, fd))
            && (IsLastFor(s, ops + [op], i, fd, dir)
                <==> if now && Names(op.mask, dir) then i == |ops| else IsLastFor(s, ops, i, fd, dir))
  {
    hide Apply, RunAll;
    CreatesBefore(s, ops, op, fd);
    assert forall j: nat :: Creates(s, ops, j, fd) ==> j < |ops|;
    assert forall j: nat :: Creates(s, ops + [op], j, fd) ==> j <= |ops|;
  }

  lemma {:induction false} HandlerOfLast(s: State, ops: seq<Op>, fd: nat, dir: Direction, i: nat)
    requires |s.events| == AE_SETSIZE && s.maxfd < AE_SETSIZE && fd < AE_SETSIZE && IsLastFor(s, ops, i, fd, dir)
    ensures HandlerOf(RunAll(s, ops).events[fd], dir) == ops[i].procedure
    decreases |ops|
  {
    hide Apply, HandlerOf, Names;
    if ops == [] {
      assert false;
    } else {
      var front, op := ops[..|ops| - 1], ops[|ops| - 1];
      assert ops == front + [op];
      RunLast(s, front, op);
      HandlersOfStep(RunAll(s, front), op, fd, dir);
      CreatesBefore(s, front, op, fd);
      LastBefore(s, front, op, fd, dir, i);
      if i < |front| { HandlerOfLast(s, front, fd, dir, i); }
    }
  }

  lemma {:induction false} HandlerWithoutLast(s: State, ops: seq<Op>, fd: nat, dir: Direction)
    requires |s.events| == AE_SETSIZE && s.maxfd < AE_SETSIZE && fd < AE_SETSIZE
    requires forall i: nat :: !IsLastFor(s, ops, i, fd, dir)
    ensures var fe, fe' := s.events[fd], RunAll(s, ops).events[fd];
            HandlerOf(fe', dir) == HandlerOf(fe, dir) && (Names(fe'.mask, dir) ==> Names(fe.mask, dir))
    decreases |ops|
  {
    hide Apply, HandlerOf, Names, IsLastFor;
    if ops == [] {
    } else {
      var front, op := ops[..|ops| - 1], ops[|ops| - 1];
      assert ops == front + [op];
      RunLast(s, front, op);
      HandlersOfStep(RunAll(s, front), op, fd, dir);
      CreatesBefore(s, front, op, fd);
      LastBefore(s, front, op, fd, dir, |front|);
      forall i: nat ensures !IsLastFor(s, front, i, fd, dir) { LastBefore(s, front, op, fd, dir, i); }
      HandlerWithoutLast(s, front, fd, dir);
    }
  }

  lemma {:induction false} DataOfLast(s: State, ops: seq<Op>, fd: nat, i: nat)
    requires |s.events| == AE_SETSIZE && s.maxfd < AE_SETSIZE && fd < AE_SETSIZE && IsLast(s, ops, i, fd)
    ensures RunAll(s, ops).events[fd].data == ops[i].data
    decreases |ops|
  {
    hide Apply, HandlerOf, Names;
    if ops == [] {
      assert false;
    } else {
      var front, op := ops[..|ops| - 1], ops[|ops| - 1];
      assert ops == front + [op];
      RunLast(s, front, op);
      HandlersOfStep(RunAll(s, front), op, fd, Reading);
      CreatesBefore(s, front, op, fd);
      LastBefore(s, front, op, fd, Reading, i);
      if i < |front| { DataOfLast(s, front, fd, i); }
    }
  }

  /** Over any run from a table without registrations, whatever fails in it: a registered
      direction has the handler of the last successful registration that names it, and the
      data of the last successful one at all. */
  lemma HandlersOfRun(s: State, ops: seq<Op>, fd: nat, dir: Direction) returns (i: nat, j: nat)
    requires |s.events| == AE_SETSIZE && s.maxfd < AE_SETSIZE && fd < AE_SETSIZE && s.events[fd].mask == AE_NONE
    requires Names(RunAll(s, ops).events[fd].mask, dir)
    ensures IsLastFor(s, ops, i, fd, dir) && HandlerOf(RunAll(s, ops).events[fd], dir) == ops[i].procedure
    ensures IsLast(s, ops, j, fd) && RunAll(s, ops).events[fd].data == ops[j].data
  {
    hide IsLastFor, IsLast, RunAll;
    if forall k: nat :: !IsLastFor(s, ops, k, fd, dir) { HandlerWithoutLast(s, ops, fd, dir); }
    i :| IsLastFor(s, ops, i, fd, dir);
    HandlerOfLast(s, ops, fd, dir, i);
    j := LastCreate(s, ops, fd, dir, i);
    DataOfLast(s, ops, fd, j);
  }

  lemma LastCreate(s: State, ops: seq<Op>, fd: nat, dir: Direction, i: nat) returns (j: nat)
    requires |s.events| == AE_SETSIZE && s.maxfd < AE_SETSIZE && IsLastFor(s, ops, i, fd, dir)
    ensures IsLast(s, ops, j, fd)
  {
    hide Apply, RunAll;
    j := i;
    var k := i + 1;
    while k < |ops|
      invariant i < k <= |ops| && Creates(s, ops, j, fd) && j < k
      invariant forall l: nat :: j < l < k ==> !Creates(s, ops, l, fd)
    {
      if Creates(s, ops, k, fd) { j := k; }
      k := k + 1;
    }
  }

  /** This operation registers the direction, and none behind it drops it. */
  ghost predicate Holds(s: State, ops: seq<Op>, i: nat, fd: nat, dir: Direction)
    requires |s.events| == AE_SETSIZE && s.maxfd < AE_SETSIZE
  {
    && Creates(s, ops, i, fd) && Names(ops[i].mask, dir)
    && forall j :: i < j < |ops| ==> !Drops(ops[j], fd, dir)
  }

  lemma HoldsBefore(s: State, ops: seq<Op>, op: Op, fd: nat, dir: Direction, i: nat)
    requires |s.events| == AE_SETSIZE && s.maxfd < AE_SETSIZE
    ensures Holds(s, ops + [op], i, fd, dir) <==>
            if i == |ops| then Creates(s, ops + [op], i, fd) && Names(op.mask, dir)
            else Holds(s, ops, i, fd, dir) && !Drops(op, fd, dir)
  {
    hide Apply, RunAll, Creates, Drops;
    CreatesBefore(s, ops, op, fd);
    CreatesWithin(s, ops, i, fd);
    CreatesWithin(s, ops + [op], i, fd);
    assert forall j :: 0 <= j < |ops| ==> (ops + [op])[j] == ops[j];
    assert (ops + [op])[|ops|] == op;
  }

  lemma CreatesWithin(s: State, ops: seq<Op>, i: nat, fd: nat)
    requires |s.events| == AE_SETSIZE && s.maxfd < AE_SETSIZE
    ensures Creates(s, ops, i, fd) ==> i < |ops| && ops[i].Create?
  {}

  /** A direction is registered if and only if a successful registration named it and no
      deletion has since. */
  lemma {:induction false} RegisteredIff(s: State, ops: seq<Op>, fd: nat, dir: Direction)
    requires |s.events| == AE_SETSIZE && s.maxfd < AE_SETSIZE && fd < AE_SETSIZE && s.events[fd].mask == AE_NONE
    ensures Names(RunAll(s, ops).events[fd].mask, dir) <==> exists i: nat :: Holds(s, ops, i, fd, dir)
    decreases |ops|
  {
    hide Apply, Creates, Drops, Holds;
    if ops == [] {
      forall i: nat ensures !Holds(s, [], i, fd, dir) { NothingHolds(s, fd, dir, i); }
    } else {
      var n, front, op := |ops| - 1, ops[..|ops| - 1], ops[|ops| - 1];
      assert ops == front + [op];
      RegisteredIff(s, front, fd, dir);
      RunLast(s, front, op);
      HandlersOfStep(RunAll(s, front), op, fd, dir);
      CreatesBefore(s, front, op, fd);
      forall i: nat ensures
        Holds(s, ops, i, fd, dir) <==>
        if i == n then Creates(s, ops, i, fd) && Names(op.mask, dir)
        else Holds(s, front, i, fd, dir) && !Drops(op, fd, dir)
      {
        HoldsBefore(s, front, op, fd, dir, i);
      }
      NotHeldBehind(s, front, fd, dir);
      if exists i: nat :: Holds(s, front, i, fd, dir) {
        var i: nat :| Holds(s, front, i, fd, dir);
        assert Holds(s, ops, i, fd, dir) <==> !Drops(op, fd, dir);
      }
      assert Holds(s, ops, n, fd, dir) <==> Creates(s, ops, n, fd) && Names(op.mask, dir);
    }
  }

  lemma NotHeldBehind(s: State, ops: seq<Op>, fd: nat, dir: Direction)
    requires |s.events| == AE_SETSIZE && s.maxfd < AE_SETSIZE
    ensures !Holds(s, ops, |ops|, fd, dir)
  {}

  lemma NothingHolds(s: State, fd: nat, dir: Direction, i: nat)
    requires |s.events| == AE_SETSIZE && s.maxfd < AE_SETSIZE
    ensures !Holds(s, [], i, fd, dir)
  {}

  // ---------------------------------------------------------------- the event loop

  class EventLoop {
    const events: array<FileEvent>
    const epoll: Epoll
    var maxfd: int

    constructor ()
      ensures Valid() && fresh(events) && fresh(epoll) && Inv(Abstract())
    {
      events := new FileEvent[AE_SETSIZE](i => FileEvent(AE_NONE, 0, 0, 0));
      epoll := new Epoll();
      maxfd := -1;
      new;
      StartInStep(events[..]);
    }

    ghost predicate Valid()
      reads this
    {
      events.Length == AE_SETSIZE && maxfd < AE_SETSIZE
    }

    ghost function Abstract(): (s: State)
      reads this, events, epoll
      ensures Valid() ==> |s.events| == AE_SETSIZE && s.maxfd < AE_SETSIZE
    {
      State(events[..], maxfd, epoll.interest)
    }

    method ApiAddEvent(fd: nat, mask: Mask, able: bool) returns (ok: bool)
      requires Valid() && fd < AE_SETSIZE
      modifies epoll
      ensures var after := EpollCtl(old(epoll.interest), if events[fd].mask == AE_NONE then CtlAdd else CtlMod,
                                    fd, Or(mask, events[fd].mask));
              && ok == (able && after.Some?)
              && epoll.interest == if ok then after.value else old(epoll.interest)
    {
      var op := if events[fd].mask == AE_NONE then CtlAdd else CtlMod;
      ok := epoll.Control(op, fd, Or(mask, events[fd].mask), able);
    }

    method ApiDelEvent(fd: nat, delmask: Mask, able: bool) returns (ok: bool)
      requires Valid() && fd < AE_SETSIZE
      modifies epoll
      ensures var left := AndNot(events[fd].mask, delmask);
              var after := EpollCtl(old(epoll.interest), if left != AE_NONE then CtlMod else CtlDel, fd, left);
              ok == (able && after.Some?) && epoll.interest == if ok then after.value else old(epoll.interest)
    {
      var mask := AndNot(events[fd].mask, delmask);
      if mask != AE_NONE {
        ok := epoll.Control(CtlMod, fd, mask, able);
      } else {
        ok := epoll.Control(CtlDel, fd, mask, able);
      }
    }

    method CreateFileEvent(fd: nat, mask: Mask, procedure: nat, data: nat, able: bool) returns (ok: bool)
      requires Valid()
      modifies this, events, epoll
      ensures Valid() && (Abstract(), ok) == Apply(old(Abstract()), Create(fd, mask, procedure, data, able))
      ensures ok ==> fd < AE_SETSIZE && events[fd].data == data
      ensures ok ==> forall dir :: HandlerOf(events[fd], dir)
                                   == if Names(mask, dir) then procedure else HandlerOf(old(events[fd]), dir)
    {
      if fd >= AE_SETSIZE { return false; }
      ok := ApiAddEvent(fd, mask, able);
      if !ok { return; }
      var fe := events[fd];
      fe := fe.(mask := Or(fe.mask, mask));
      if mask.readable { fe := fe.(rProc := procedure); }
      if mask.writable { fe := fe.(wProc := procedure); }
      events[fd] := fe.(data := data);
      if fd > maxfd { maxfd := fd; }
    }

    /** `issued` is what the kernel answers, which the source does not look at. */
    method DeleteFileEvent(fd: nat, mask: Mask, able: bool) returns (issued: bool)
      requires Valid()
      modifies this, events, epoll
      ensures Valid() && (Abstract(), issued) == Apply(old(Abstract()), Delete(fd, mask, able))
    {
      if fd >= AE_SETSIZE || events[fd].mask == AE_NONE { return true; }
      events[fd] := events[fd].(mask := AndNot(events[fd].mask, mask));
      if fd == maxfd && events[fd].mask == AE_NONE {
        var j: int := maxfd - 1;
        while j >= 0
          invariant -1 <= j < fd && Highest(events[..], fd) == Highest(events[..], j + 1)
        {
          if events[j].mask != AE_NONE { break; }
          j := j - 1;
        }
        maxfd := j;
      }
      issued := ApiDelEvent(fd, mask, able);
    }
  }
}

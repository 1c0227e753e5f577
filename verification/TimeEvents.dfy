/** The timers of redis-server/ae.c: creation, deletion, the search for the nearest one,
    and a pass over all of them while callbacks change the list. */
module TimeEvents {
  import opened Options

  const AE_NOMORE: int := -1

  datatype Time = Time(sec: int, ms: int)

  datatype Timer = Timer(id: nat, when: Time)

  predicate IsTime(t: Time) { 0 <= t.ms < 1000 }

  function Millis(t: Time): int { 1000 * t.sec + t.ms }

  /** C's / and %, which truncate. */
  function CDiv(a: int, b: int): int
    requires b > 0
  {
    if a >= 0 then a / b else -(-a / b)
  }

  function CRem(a: int, b: int): int
    requires b > 0
  {
    a - b * CDiv(a, b)
  }

  function After(now: Time, millis: int): Time {
    var sec, ms := now.sec + CDiv(millis, 1000), now.ms + CRem(millis, 1000);
    if ms >= 1000 then Time(sec + 1, ms - 1000) else Time(sec, ms)
  }

  predicate Earlier(a: Time, b: Time) { a.sec < b.sec || (a.sec == b.sec && a.ms < b.ms) }

  predicate Due(t: Timer, now: Time) { !Earlier(now, t.when) }

  /** A delay leads to the point in time it names. */
  lemma AfterIsLater(now: Time, millis: int)
    requires IsTime(now)
    ensures Millis(After(now, millis)) == Millis(now) + millis
    ensures millis >= 0 ==> IsTime(After(now, millis))
  {}

  lemma AfterMillis(now: Time, millis: int)
    ensures IsTime(now) ==> Millis(After(now, millis)) == Millis(now) + millis
  {
    if IsTime(now) { AfterIsLater(now, millis); }
  }

  /** A timer that its callback reschedules is still due on the same clock, and would
      fire again in the same pass, if and only if the delay is not positive. */
  lemma StillDueIff(now: Time, id: nat, millis: int)
    requires IsTime(now)
    ensures Due(Timer(id, After(now, millis)), now) <==> millis <= 0
  {
    AfterIsLater(now, millis);
  }

  // ---------------------------------------------------------------- the list of timers

  datatype Loop = Loop(timers: seq<Timer>, nextId: nat)

  /** What a callback does to the list, and its return value. */
  datatype Op = Create(millis: int) | Delete(id: nat)

  datatype Effect = Effect(ops: seq<Op>, retval: int)

  /** On a frozen clock a callback can depend on nothing but which events have fired. */
  type Script = (seq<nat>, nat) -> Effect

  ghost predicate WellFormed(st: Loop) {
    && DistinctIds(st.timers)
    && (forall i :: 0 <= i < |st.timers| ==> st.timers[i].id < st.nextId)
  }

  function Created(st: Loop, now: Time, millis: int): Loop {
    Loop([Timer(st.nextId, After(now, millis))] + st.timers, st.nextId + 1)
  }

  /** The list without the first timer of that id. */
  function Without(timers: seq<Timer>, id: nat): (r: seq<Timer>)
    ensures id in (set t <- timers :: t.id) ==> |r| == |timers| - 1
    ensures id !in (set t <- timers :: t.id) ==> r == timers
  {
    if timers == [] then [] else if timers[0].id == id then timers[1..] else [timers[0]] + Without(timers[1..], id)
  }

  function Rescheduled(timers: seq<Timer>, id: nat, when: Time): (r: seq<Timer>)
    ensures |r| == |timers|
    ensures forall i :: 0 <= i < |r| ==> r[i] == if timers[i].id == id then Timer(id, when) else timers[i]
  {
    seq(|timers|, i requires 0 <= i < |timers| => if timers[i].id == id then Timer(id, when) else timers[i])
  }

  function Apply(st: Loop, now: Time, op: Op): Loop {
    match op
    case Create(millis) => Created(st, now, millis)
    case Delete(id) => st.(timers := Without(st.timers, id))
  }

  function ApplyAll(st: Loop, now: Time, ops: seq<Op>): Loop
    decreases |ops|
  {
    if ops == [] then st else ApplyAll(Apply(st, now, ops[0]), now, ops[1..])
  }

  /** An event fires: its callback runs, then it is rescheduled or deleted. */
  function Fire(st: Loop, now: Time, id: nat, e: Effect): Loop {
    var s := ApplyAll(st, now, e.ops);
    if e.retval != AE_NOMORE then s.(timers := Rescheduled(s.timers, id, After(now, e.retval)))
    else s.(timers := Without(s.timers, id))
  }

  /** The ids below the limit whose timer is due. */
  function Eligible(st: Loop, now: Time, limit: nat): set<nat> {
    set t <- st.timers | t.id < limit && Due(t, now) :: t.id
  }

  function DeletedIn(ops: seq<Op>): set<nat> {
    set op <- ops | op.Delete? :: op.id
  }

  ghost predicate DistinctIds(timers: seq<Timer>) {
    forall i, j :: 0 <= i < j < |timers| ==> timers[i].id != timers[j].id
  }

  lemma {:induction false} WithoutIs(timers: seq<Timer>, id: nat)
    requires DistinctIds(timers)
    ensures DistinctIds(Without(timers, id))
    ensures forall t :: t in Without(timers, id) <==> t in timers && t.id != id
  {
    if timers == [] || timers[0].id == id {
    } else {
      var rest, r := timers[1..], Without(timers[1..], id);
      WithoutIs(rest, id);
      assert timers == [timers[0]] + rest && Without(timers, id) == [timers[0]] + r;
      forall j | 0 <= j < |r| ensures r[j].id != timers[0].id {
        assert r[j] in rest;
      }
    }
  }

  lemma ApplyKeeps(st: Loop, now: Time, op: Op, limit: nat)
    requires WellFormed(st) && limit <= st.nextId
    ensures WellFormed(Apply(st, now, op)) && limit <= Apply(st, now, op).nextId
    ensures Eligible(Apply(st, now, op), now, limit) == Eligible(st, now, limit) - if op.Delete? then {op.id} else {}
  {
    match op
    case Create(_) =>
    case Delete(id) => WithoutIs(st.timers, id);
  }

  lemma {:induction false} ApplyAllKeeps(st: Loop, now: Time, ops: seq<Op>, limit: nat)
    requires WellFormed(st) && limit <= st.nextId
    ensures WellFormed(ApplyAll(st, now, ops)) && limit <= ApplyAll(st, now, ops).nextId
    ensures Eligible(ApplyAll(st, now, ops), now, limit) == Eligible(st, now, limit) - DeletedIn(ops)
    decreases |ops|
  {
    hide Apply, Eligible, WellFormed;
    if ops == [] {
    } else {
      ApplyKeeps(st, now, ops[0], limit);
      ApplyAllKeeps(Apply(st, now, ops[0]), now, ops[1..], limit);
      assert DeletedIn(ops) == (if ops[0].Delete? then {ops[0].id} else {}) + DeletedIn(ops[1..]);
    }
  }

  /** A callback that deletes its own event although it wants it rescheduled: the node that
      the pass holds is freed, and then written. */
  predicate Dangles(id: nat, e: Effect) {
    id in DeletedIn(e.ops) && e.retval != AE_NOMORE
  }

  /** A callback returns "no more", or a positive delay for an event it does not delete. */
  ghost predicate Polite(script: Script) {
    forall fired: seq<nat>, id: nat ::
      && (script(fired, id).retval == AE_NOMORE || script(fired, id).retval > 0)
      && !Dangles(id, script(fired, id))
  }

  /** The ids below the limit that are in the list. */
  function Present(st: Loop, limit: nat): set<nat> {
    set t <- st.timers | t.id < limit :: t.id
  }

  lemma ApplyPresent(st: Loop, now: Time, op: Op, limit: nat)
    requires WellFormed(st) && limit <= st.nextId
    ensures WellFormed(Apply(st, now, op)) && limit <= Apply(st, now, op).nextId
    ensures Present(Apply(st, now, op), limit) == Present(st, limit) - if op.Delete? then {op.id} else {}
  {
    match op
    case Create(_) =>
    case Delete(id) => WithoutIs(st.timers, id);
  }

  /** Of the events there were, exactly those that are deleted are gone. */
  lemma {:induction false} ApplyAllPresent(st: Loop, now: Time, ops: seq<Op>, limit: nat)
    requires WellFormed(st) && limit <= st.nextId
    ensures Present(ApplyAll(st, now, ops), limit) == Present(st, limit) - DeletedIn(ops)
    decreases |ops|
  {
    hide Apply, Present, WellFormed;
    if ops == [] {
    } else {
      ApplyPresent(st, now, ops[0], limit);
      ApplyAllPresent(Apply(st, now, ops[0]), now, ops[1..], limit);
      assert DeletedIn(ops) == (if ops[0].Delete? then {ops[0].id} else {}) + DeletedIn(ops[1..]);
    }
  }

  /** Firing an event takes it, and what its callback deletes, out of those still to
      fire: nothing else, and nothing is added. */
  lemma FireKeeps(st: Loop, now: Time, id: nat, e: Effect, limit: nat)
    requires WellFormed(st) && limit <= st.nextId && IsTime(now)
    requires e.retval == AE_NOMORE || e.retval > 0
    ensures WellFormed(Fire(st, now, id, e)) && limit <= Fire(st, now, id, e).nextId
    ensures Eligible(Fire(st, now, id, e), now, limit) == Eligible(st, now, limit) - DeletedIn(e.ops) - {id}
  {
    hide ApplyAll, DeletedIn;
    ApplyAllKeeps(st, now, e.ops, limit);
    var s := ApplyAll(st, now, e.ops);
    if e.retval == AE_NOMORE {
      WithoutIs(s.timers, id);
    } else {
      StillDueIff(now, id, e.retval);
      RescheduledEligible(s, now, id, After(now, e.retval), limit);
    }
  }

  lemma RescheduledEligible(s: Loop, now: Time, id: nat, when: Time, limit: nat)
    requires WellFormed(s) && !Due(Timer(id, when), now)
    ensures WellFormed(s.(timers := Rescheduled(s.timers, id, when)))
    ensures Eligible(s.(timers := Rescheduled(s.timers, id, when)), now, limit) == Eligible(s, now, limit) - {id}
  {
    var r := Rescheduled(s.timers, id, when);
    forall t | t in s.timers && t.id != id ensures t in r {
      var i :| 0 <= i < |s.timers| && s.timers[i] == t;
      assert r[i] == t;
    }
  }

  // ---------------------------------------------------------------- when the timers are due

  /** The delays with which a callback creates events, in order. */
  function Delays(ops: seq<Op>): seq<int> {
    if ops == [] then [] else (if ops[0].Create? then [ops[0].millis] else []) + Delays(ops[1..])
  }

  /** A timer behind some operations: one that was there, or the one that was created with the
      delay of its number. */
  ghost predicate IsThereOrNew(st: Loop, now: Time, delays: seq<int>, t: Timer) {
    if t.id < st.nextId then t in st.timers
    else t.id - st.nextId < |delays| && Millis(t.when) == Millis(now) + delays[t.id - st.nextId]
  }

  lemma ApplyTimes(st: Loop, now: Time, op: Op)
    requires WellFormed(st) && IsTime(now)
    ensures Apply(st, now, op).nextId == st.nextId + |Delays([op])|
    ensures forall t :: t in Apply(st, now, op).timers ==> IsThereOrNew(st, now, Delays([op]), t)
  {
    assert [op][1..] == [] && Delays([op]) == if op.Create? then [op.millis] else [];
    match op
    case Create(millis) => AfterIsLater(now, millis);
    case Delete(id) => WithoutIs(st.timers, id);
  }

  lemma {:induction false} ApplyAllTimes(st: Loop, now: Time, ops: seq<Op>)
    requires WellFormed(st) && IsTime(now)
    ensures ApplyAll(st, now, ops).nextId == st.nextId + |Delays(ops)|
    ensures forall t :: t in ApplyAll(st, now, ops).timers ==> IsThereOrNew(st, now, Delays(ops), t)
    decreases |ops|
  {
    hide Apply, WellFormed, IsThereOrNew, Delays;
    DelaysFirst(ops);
    if ops == [] {
      NothingNew(st, now);
    } else {
      var s := Apply(st, now, ops[0]);
      assert WellFormed(s) by { ApplyKeeps(st, now, ops[0], 0); }
      ApplyTimes(st, now, ops[0]);
      ApplyAllTimes(s, now, ops[1..]);
      forall t | t in ApplyAll(st, now, ops).timers ensures IsThereOrNew(st, now, Delays(ops), t) {
        NewJoins(st, s, now, Delays([ops[0]]), Delays(ops[1..]), t);
      }
    }
  }

  lemma DelaysFirst(ops: seq<Op>)
    ensures Delays(ops) == if ops == [] then [] else Delays([ops[0]]) + Delays(ops[1..])
  {
    if ops != [] { assert [ops[0]][1..] == []; }
  }

  lemma NothingNew(st: Loop, now: Time)
    requires WellFormed(st)
    ensures forall t :: t in st.timers ==> IsThereOrNew(st, now, [], t)
  {}

  lemma NewJoins(st: Loop, s: Loop, now: Time, a: seq<int>, b: seq<int>, t: Timer)
    requires s.nextId == st.nextId + |a| && IsThereOrNew(s, now, b, t)
    requires t in s.timers ==> IsThereOrNew(st, now, a, t)
    ensures IsThereOrNew(st, now, a + b, t)
  {}

  /** A timer behind the event that fired: its own, due so long after now as its callback
      asked for; or one that was there; or one that the callback has created. */
  ghost predicate IsDueRight(st: Loop, now: Time, id: nat, e: Effect, t: Timer) {
    if t.id == id then e.retval != AE_NOMORE && Millis(t.when) == Millis(now) + e.retval
    else IsThereOrNew(st, now, Delays(e.ops), t)
  }

  lemma FireTimes(st: Loop, now: Time, id: nat, e: Effect)
    requires WellFormed(st) && IsTime(now)
    ensures Fire(st, now, id, e).nextId == st.nextId + |Delays(e.ops)|
    ensures forall t :: t in Fire(st, now, id, e).timers ==> IsDueRight(st, now, id, e, t)
  {
    hide ApplyAll, IsThereOrNew;
    ApplyAllTimes(st, now, e.ops);
    ApplyAllKeeps(st, now, e.ops, 0);
    AfterIsLater(now, e.retval);
    WithoutIs(ApplyAll(st, now, e.ops).timers, id);
  }

  lemma FirePresent(st: Loop, now: Time, id: nat, e: Effect, limit: nat)
    requires WellFormed(st) && limit <= st.nextId
    ensures Present(Fire(st, now, id, e), limit)
            == Present(st, limit) - DeletedIn(e.ops) - if e.retval == AE_NOMORE then {id} else {}
  {
    hide ApplyAll, DeletedIn;
    ApplyAllPresent(st, now, e.ops, limit);
    ApplyAllKeeps(st, now, e.ops, limit);
    var s := ApplyAll(st, now, e.ops);
    WithoutIs(s.timers, id);
    SameIds(s.timers, Rescheduled(s.timers, id, After(now, e.retval)), limit, s.nextId);
  }

  lemma SameIds(a: seq<Timer>, b: seq<Timer>, limit: nat, n: nat)
    requires |a| == |b| && forall i :: 0 <= i < |a| ==> a[i].id == b[i].id
    ensures Present(Loop(a, n), limit) == Present(Loop(b, n), limit)
  {
    forall x | x in Present(Loop(a, n), limit) ensures x in Present(Loop(b, n), limit) {
      var i :| 0 <= i < |a| && a[i].id == x;
      assert b[i] in b;
    }
    forall x | x in Present(Loop(b, n), limit) ensures x in Present(Loop(a, n), limit) {
      var i :| 0 <= i < |b| && b[i].id == x;
      assert a[i] in a;
    }
  }

  // ---------------------------------------------------------------- a pass

  function Replay(st: Loop, now: Time, script: Script, fired: seq<nat>): Loop {
    if fired == [] then st
    else
      var k := |fired| - 1;
      Fire(Replay(st, now, script, fired[..k]), now, fired[k], script(fired[..k], fired[k]))
  }

  /** The i-th timer is the first that may fire. */
  predicate FirstAt(st: Loop, now: Time, limit: nat, i: nat) {
    && i < |st.timers| && st.timers[i].id < limit && Due(st.timers[i], now)
    && forall j :: 0 <= j < i ==> !(st.timers[j].id < limit && Due(st.timers[j], now))
  }

  /** The event is the first in the list that may fire. */
  ghost predicate IsNext(st: Loop, now: Time, limit: nat, id: nat) {
    exists i: nat :: FirstAt(st, now, limit, i) && st.timers[i].id == id
  }

  /** Every event of the sequence was, when its turn came, the next. */
  ghost predicate InTurn(st: Loop, now: Time, script: Script, fired: seq<nat>) {
    forall k :: 0 <= k < |fired| ==> IsNext(Replay(st, now, script, fired[..k]), now, st.nextId, fired[k])
  }

  /** A complete pass: in turn, and nothing left that might fire. */
  ghost predicate IsPass(st: Loop, now: Time, script: Script, fired: seq<nat>) {
    InTurn(st, now, script, fired) && Eligible(Replay(st, now, script, fired), now, st.nextId) == {}
  }

  /** What the callbacks of the first n events delete. */
  function Deleted(script: Script, fired: seq<nat>): set<nat> {
    if fired == [] then {}
    else
      var k := |fired| - 1;
      Deleted(script, fired[..k]) + DeletedIn(script(fired[..k], fired[k]).ops)
  }

  function Ids(s: seq<nat>): set<nat> { set x <- s }

  lemma {:induction false} ReplayEligible(st: Loop, now: Time, script: Script, fired: seq<nat>)
    requires WellFormed(st) && IsTime(now) && Polite(script)
    ensures WellFormed(Replay(st, now, script, fired)) && st.nextId <= Replay(st, now, script, fired).nextId
    ensures Eligible(Replay(st, now, script, fired), now, st.nextId)
            == Eligible(st, now, st.nextId) - Ids(fired) - Deleted(script, fired)
    decreases |fired|
  {
    hide Fire, Eligible, DeletedIn, WellFormed;
    if fired == [] {
    } else {
      var k := |fired| - 1;
      ReplayEligible(st, now, script, fired[..k]);
      FireKeeps(Replay(st, now, script, fired[..k]), now, fired[k], script(fired[..k], fired[k]), st.nextId);
      assert fired == fired[..k] + [fired[k]];
      assert Ids(fired) == Ids(fired[..k]) + {fired[k]};
    }
  }

  /** In a pass on a frozen clock no event fires twice, every event that fires was there
      and due at the start, and none fires after a callback has deleted it. */
  lemma PassIsSafe(st: Loop, now: Time, script: Script, fired: seq<nat>, k: nat)
    requires WellFormed(st) && IsTime(now) && Polite(script) && InTurn(st, now, script, fired) && k < |fired|
    ensures fired[k] in Eligible(st, now, st.nextId)
    ensures fired[k] !in fired[..k] && fired[k] !in Deleted(script, fired[..k])
  {
    hide Replay, Deleted, Eligible, IsNext;
    ReplayEligible(st, now, script, fired[..k]);
    NextIsEligible(Replay(st, now, script, fired[..k]), now, st.nextId, fired[k]);
  }

  /** Every event that is due at the start and that no callback deletes fires: by
      PassIsSafe, exactly once. */
  lemma PassIsComplete(st: Loop, now: Time, script: Script, fired: seq<nat>, id: nat)
    requires WellFormed(st) && IsTime(now) && Polite(script) && IsPass(st, now, script, fired)
    requires id in Eligible(st, now, st.nextId)
    ensures id in fired || id in Deleted(script, fired)
  {
    hide Replay, Deleted, Eligible;
    ReplayEligible(st, now, script, fired);
    assert id !in Eligible(Replay(st, now, script, fired), now, st.nextId);
  }

  /** An event created during the pass does not fire in it, however early it is due. */
  lemma CreatedDoNotFire(st: Loop, now: Time, script: Script, fired: seq<nat>, k: nat)
    requires WellFormed(st) && IsTime(now) && Polite(script) && InTurn(st, now, script, fired) && k < |fired|
    ensures fired[k] < st.nextId && exists t :: t in st.timers && t.id == fired[k] && Due(t, now)
  {
    hide InTurn;
    PassIsSafe(st, now, script, fired, k);
  }

  /** The delays with which the callbacks of a pass create events, in order. */
  function AllDelays(script: Script, fired: seq<nat>): seq<int> {
    if fired == [] then []
    else
      var k := |fired| - 1;
      AllDelays(script, fired[..k]) + Delays(script(fired[..k], fired[k]).ops)
  }

  /** The events whose callback answers "no more". */
  function Ended(script: Script, fired: seq<nat>): set<nat> {
    if fired == [] then {}
    else
      var k := |fired| - 1;
      Ended(script, fired[..k]) + if script(fired[..k], fired[k]).retval == AE_NOMORE then {fired[k]} else {}
  }

  /** When a timer is due behind a pass: one that fired so long after now as its callback
      answered, one that did not when it was before, and a new one after the delay with which
      it was created. */
  ghost predicate IsDueThen(st: Loop, now: Time, script: Script, fired: seq<nat>, t: Timer) {
    if t.id >= st.nextId then
      t.id - st.nextId < |AllDelays(script, fired)|
      && Millis(t.when) == Millis(now) + AllDelays(script, fired)[t.id - st.nextId]
    else if t.id in fired then
      exists k :: 0 <= k < |fired| && fired[k] == t.id
                  && Millis(t.when) == Millis(now) + script(fired[..k], t.id).retval
    else t in st.timers
  }

  lemma DueThenStep(st: Loop, s: Loop, now: Time, script: Script, fired: seq<nat>, id: nat, t: Timer)
    requires s.nextId == st.nextId + |AllDelays(script, fired)| && id < st.nextId
    requires IsDueRight(s, now, id, script(fired, id), t)
    requires t in s.timers ==> IsDueThen(st, now, script, fired, t)
    ensures IsDueThen(st, now, script, fired + [id], t)
  {
    var all := fired + [id];
    assert all[..|fired|] == fired && all[|fired|] == id;
    if t.id < st.nextId && t.id != id && t.id in fired {
      var k :| 0 <= k < |fired| && fired[k] == t.id
               && Millis(t.when) == Millis(now) + script(fired[..k], t.id).retval;
      assert all[k] == t.id && all[..k] == fired[..k];
    }
  }

  /** Behind a pass, or a part of one, every timer is due when it should be; and of those there
      were at its start exactly those are there that no callback deleted and whose callback
      did not answer "no more". */
  lemma {:induction false} PassTimes(st: Loop, now: Time, script: Script, fired: seq<nat>)
    requires WellFormed(st) && IsTime(now) && Polite(script) && InTurn(st, now, script, fired)
    ensures var s := Replay(st, now, script, fired);
            && s.nextId == st.nextId + |AllDelays(script, fired)|
            && Present(s, st.nextId) == Present(st, st.nextId) - Deleted(script, fired) - Ended(script, fired)
            && forall t :: t in s.timers ==> IsDueThen(st, now, script, fired, t)
    decreases |fired|
  {
    hide Fire, WellFormed, Present, IsDueThen, IsDueRight, Eligible, IsNext, DeletedIn, Polite, InTurn;
    if fired == [] {
      DueBefore(st, now, script);
    } else {
      var k := |fired| - 1;
      var front, id := fired[..k], fired[k];
      var s, e := Replay(st, now, script, front), script(front, id);
      assert fired == front + [id];
      InTurnFront(st, now, script, fired);
      PassTimes(st, now, script, front);
      ReplayEligible(st, now, script, front);
      PassIsSafe(st, now, script, fired, k);
      FireTimes(s, now, id, e);
      FirePresent(s, now, id, e, st.nextId);
      assert id < st.nextId by { EligibleIsOld(st, now, id); }
      forall t | t in Replay(st, now, script, fired).timers ensures IsDueThen(st, now, script, fired, t) {
        DueThenStep(st, s, now, script, front, id, t);
      }
    }
  }

  lemma EligibleIsOld(st: Loop, now: Time, id: nat)
    requires id in Eligible(st, now, st.nextId)
    ensures id < st.nextId
  {}

  lemma DueBefore(st: Loop, now: Time, script: Script)
    requires WellFormed(st)
    ensures forall t :: t in st.timers ==> IsDueThen(st, now, script, [], t)
  {}

  // ---------------------------------------------------------------- when a pass ends

  /** Callbacks that delete nothing, and whose return value depends on the event alone. */
  ghost predicate Returns(script: Script, ret: nat -> int) {
    forall fired: seq<nat>, id: nat ::
      DeletedIn(script(fired, id).ops) == {} && script(fired, id).retval == ret(id)
  }

  predicate Ends(ret: nat -> int, id: nat) {
    ret(id) == AE_NOMORE || ret(id) > 0
  }

  /** An event that is rescheduled without a positive delay stays due. */
  lemma FireStays(st: Loop, now: Time, id: nat, e: Effect, limit: nat)
    requires WellFormed(st) && limit <= st.nextId && IsTime(now) && id in Eligible(st, now, limit)
    requires DeletedIn(e.ops) == {} && e.retval != AE_NOMORE && e.retval <= 0
    ensures WellFormed(Fire(st, now, id, e)) && limit <= Fire(st, now, id, e).nextId
    ensures Eligible(Fire(st, now, id, e), now, limit) == Eligible(st, now, limit)
  {
    hide ApplyAll, DeletedIn;
    ApplyAllKeeps(st, now, e.ops, limit);
    var s := ApplyAll(st, now, e.ops);
    StillDueIff(now, id, e.retval);
    RescheduledStays(s, now, id, After(now, e.retval), limit);
  }

  lemma RescheduledStays(s: Loop, now: Time, id: nat, when: Time, limit: nat)
    requires WellFormed(s) && Due(Timer(id, when), now) && id in Eligible(s, now, limit)
    ensures WellFormed(s.(timers := Rescheduled(s.timers, id, when)))
    ensures Eligible(s.(timers := Rescheduled(s.timers, id, when)), now, limit) == Eligible(s, now, limit)
  {
    var r := Rescheduled(s.timers, id, when);
    forall x | x in Eligible(s, now, limit) ensures x in Eligible(s.(timers := r), now, limit) {
      var t :| t in s.timers && t.id == x && t.id < limit && Due(t, now);
      var i :| 0 <= i < |s.timers| && s.timers[i] == t;
      assert r[i] in r;
    }
  }

  /** What may still fire after events of a run: everything due at the start but those
      that have fired and ended. */
  ghost predicate Remaining(st: Loop, now: Time, script: Script, ret: nat -> int, fired: seq<nat>) {
    var s := Replay(st, now, script, fired);
    && WellFormed(s) && st.nextId <= s.nextId
    && forall id :: id in Eligible(s, now, st.nextId)
                    <==> id in Eligible(st, now, st.nextId) && !(id in fired && Ends(ret, id))
  }

  lemma RemainingAtStart(st: Loop, now: Time, script: Script, ret: nat -> int)
    requires WellFormed(st)
    ensures Remaining(st, now, script, ret, [])
  {
    hide Eligible, WellFormed;
  }

  lemma FireRemaining(st: Loop, now: Time, script: Script, ret: nat -> int, fired: seq<nat>, id: nat)
    requires WellFormed(st) && IsTime(now) && Returns(script, ret) && Remaining(st, now, script, ret, fired)
    requires id in Eligible(Replay(st, now, script, fired), now, st.nextId)
    ensures Remaining(st, now, script, ret, fired + [id])
    ensures Replay(st, now, script, fired + [id]) == Fire(Replay(st, now, script, fired), now, id, script(fired, id))
    ensures Ends(ret, id) ==>
              Eligible(Replay(st, now, script, fired + [id]), now, st.nextId)
              < Eligible(Replay(st, now, script, fired), now, st.nextId)
  {
    hide Eligible, WellFormed, Fire, DeletedIn, ApplyAll;
    var s, e := Replay(st, now, script, fired), script(fired, id);
    assert (fired + [id])[..|fired|] == fired;
    if Ends(ret, id) { FireKeeps(s, now, id, e, st.nextId); } else { FireStays(s, now, id, e, st.nextId); }
    assert forall x :: x in fired + [id] <==> x in fired || x == id;
  }

  lemma {:induction false} InTurnRemaining(st: Loop, now: Time, script: Script, ret: nat -> int, fired: seq<nat>)
    requires WellFormed(st) && IsTime(now) && Returns(script, ret) && InTurn(st, now, script, fired)
    ensures Remaining(st, now, script, ret, fired)
    decreases |fired|
  {
    hide Eligible, WellFormed, Fire, Replay, Remaining, IsNext, Returns;
    if fired == [] {
      RemainingAtStart(st, now, script, ret);
    } else {
      var front, id := fired[..|fired| - 1], fired[|fired| - 1];
      assert front + [id] == fired;
      InTurnFront(st, now, script, fired);
      InTurnRemaining(st, now, script, ret, front);
      NextIsEligible(Replay(st, now, script, front), now, st.nextId, id);
      FireRemaining(st, now, script, ret, front, id);
    }
  }

  lemma InTurnFront(st: Loop, now: Time, script: Script, fired: seq<nat>)
    requires fired != [] && InTurn(st, now, script, fired)
    ensures var front := fired[..|fired| - 1];
            && InTurn(st, now, script, front)
            && IsNext(Replay(st, now, script, front), now, st.nextId, fired[|fired| - 1])
  {
    hide IsNext, Replay;
    var n := |fired| - 1;
    var front := fired[..n];
    forall k | 0 <= k < n ensures IsNext(Replay(st, now, script, front[..k]), now, st.nextId, front[k]) {
      assert front[..k] == fired[..k];
    }
  }

  lemma SomeIsNext(s: Loop, now: Time, limit: nat) returns (id: nat)
    requires Eligible(s, now, limit) != {}
    ensures IsNext(s, now, limit, id)
  {
    var i := FirstFrom(s, now, limit, 0);
    id := s.timers[i].id;
  }

  lemma {:induction false} FirstFrom(s: Loop, now: Time, limit: nat, k: nat) returns (i: nat)
    requires Eligible(s, now, limit) != {} && k <= |s.timers|
    requires forall j :: 0 <= j < k ==> !(s.timers[j].id < limit && Due(s.timers[j], now))
    ensures FirstAt(s, now, limit, i)
    decreases |s.timers| - k
  {
    SomeLeft(s, now, limit, k);
    if s.timers[k].id < limit && Due(s.timers[k], now) {
      i := k;
    } else {
      i := FirstFrom(s, now, limit, k + 1);
    }
  }

  lemma SomeLeft(s: Loop, now: Time, limit: nat, k: nat)
    requires Eligible(s, now, limit) != {} && k <= |s.timers|
    requires forall j :: 0 <= j < k ==> !(s.timers[j].id < limit && Due(s.timers[j], now))
    ensures k < |s.timers|
  {}

  /** Going on in turn comes to an end. */
  lemma {:induction false} PassFrom(st: Loop, now: Time, script: Script, ret: nat -> int, fired: seq<nat>)
    returns (all: seq<nat>)
    requires WellFormed(st) && IsTime(now) && Returns(script, ret) && InTurn(st, now, script, fired)
    requires Remaining(st, now, script, ret, fired)
    requires forall id :: id in Eligible(st, now, st.nextId) ==> Ends(ret, id)
    ensures IsPass(st, now, script, all)
    decreases Eligible(Replay(st, now, script, fired), now, st.nextId)
  {
    hide WellFormed, Fire, Replay, IsNext, Returns, Ends, Eligible;
    var s := Replay(st, now, script, fired);
    if Eligible(s, now, st.nextId) == {} {
      all := fired;
    } else {
      var id := SomeIsNext(s, now, st.nextId);
      NextIsEligible(s, now, st.nextId, id);
      NextInTurn(st, now, script, fired, id);
      FireRemaining(st, now, script, ret, fired, id);
      all := PassFrom(st, now, script, ret, fired + [id]);
    }
  }

  /** A pass over any list of timers ends if and only if every event due at its start
      returns "no more" or a positive delay. */
  lemma PassEndsIff(st: Loop, now: Time, script: Script, ret: nat -> int)
    requires WellFormed(st) && IsTime(now) && Returns(script, ret)
    ensures (exists fired :: IsPass(st, now, script, fired))
            <==> forall id :: id in Eligible(st, now, st.nextId) ==> Ends(ret, id)
  {
    hide WellFormed, Replay, Returns, Ends, Eligible, InTurn;
    if forall id :: id in Eligible(st, now, st.nextId) ==> Ends(ret, id) {
      RemainingAtStart(st, now, script, ret);
      NoTurns(st, now, script);
      var fired := PassFrom(st, now, script, ret, []);
    } else {
      forall fired | IsPass(st, now, script, fired) ensures false {
        InTurnRemaining(st, now, script, ret, fired);
      }
    }
  }

  // ---------------------------------------------------------------- the event loop

  class TimerNode {
    const id: nat
    var when: Time
    var next: TimerNode?

    constructor (id: nat, when: Time, next: TimerNode?)
      ensures this.id == id && this.when == when && this.next == next
    {
      this.id, this.when, this.next := id, when, next;
    }
  }

  /** The i-th of the nodes, null beyond either end. */
  function At(nodes: seq<TimerNode>, i: int): TimerNode? {
    if 0 <= i < |nodes| then nodes[i] else null
  }

  ghost predicate Linked(nodes: seq<TimerNode>)
    reads nodes`next
  {
    && (forall i, j :: 0 <= i < j < |nodes| ==> nodes[i] != nodes[j])
    && (forall i {:trigger nodes[i].next} :: 0 <= i < |nodes| ==> nodes[i].next == At(nodes, i + 1))
  }

  ghost function TimersOf(nodes: seq<TimerNode>): (ts: seq<Timer>)
    reads nodes
    ensures |ts| == |nodes|
  {
    seq(|nodes|, i requires 0 <= i < |nodes| reads nodes => Timer(nodes[i].id, nodes[i].when))
  }

  function Remove<T>(s: seq<T>, k: nat): seq<T>
    requires k < |s|
  {
    s[..k] + s[k + 1..]
  }

  lemma RemoveFirst(timers: seq<Timer>, k: nat)
    requires k < |timers|
    ensures Remove(timers, k) == if k == 0 then timers[1..] else [timers[0]] + Remove(timers[1..], k - 1)
  {}

  lemma {:induction false} WithoutAt(timers: seq<Timer>, k: nat, id: nat)
    requires k <= |timers| && forall j :: 0 <= j < k ==> timers[j].id != id
    requires k < |timers| ==> timers[k].id == id
    ensures Without(timers, id) == if k < |timers| then Remove(timers, k) else timers
    decreases |timers|
  {
    hide Remove;
    if timers == [] {
    } else if k == 0 {
      assert Remove(timers, 0) == timers[1..] by { RemoveFirst(timers, 0); }
    } else {
      WithoutAt(timers[1..], k - 1, id);
      if k < |timers| { RemoveFirst(timers, k); }
    }
  }

  lemma StillAlive(nodes: seq<TimerNode>, freed: set<TimerNode>, k: nat)
    requires k < |nodes| && Alive(nodes, freed) && nodes[k] !in Remove(nodes, k)
    ensures Alive(Remove(nodes, k), freed + {nodes[k]})
  {}

  lemma RemoveTimers(nodes: seq<TimerNode>, k: nat)
    requires k < |nodes|
    ensures TimersOf(Remove(nodes, k)) == Remove(TimersOf(nodes), k)
    ensures |Remove(nodes, k)| == |nodes| - 1 && At(Remove(nodes, k), 0) == At(nodes, if k == 0 then 1 else 0)
    ensures forall i :: 0 <= i < |nodes| - 1 ==> Remove(nodes, k)[i] in nodes
  {}

  /** None of the nodes is freed. */
  ghost predicate Alive(nodes: seq<TimerNode>, freed: set<TimerNode>) {
    forall i :: 0 <= i < |nodes| ==> nodes[i] !in freed
  }

  /** The bridge over node k. */
  lemma StillLinked(nodes: seq<TimerNode>, rest: seq<TimerNode>, k: nat)
    requires k < |nodes| && rest == Remove(nodes, k)
    requires forall i, j :: 0 <= i < j < |nodes| ==> nodes[i] != nodes[j]
    requires forall i {:trigger nodes[i].next} :: 0 <= i < |nodes| && i != k ==>
               nodes[i].next == At(nodes, if i == k - 1 then k + 1 else i + 1)
    ensures Linked(rest) && nodes[k] !in rest
    ensures forall n :: n in nodes && n != nodes[k] ==> n in rest
  {
    forall i | 0 <= i < |rest| ensures rest[i].next == At(rest, i + 1) {
      if i < k { assert rest[i] == nodes[i]; } else { assert rest[i] == nodes[i + 1]; }
    }
    forall n | n in nodes && n != nodes[k] ensures n in rest {
      var i :| 0 <= i < |nodes| && nodes[i] == n;
      assert rest[if i < k then i else i - 1] == n;
    }
  }

  /** Old nodes of other ids are still in the list. */
  ghost predicate Keeps(before: seq<TimerNode>, after: seq<TimerNode>, gone: set<nat>) {
    forall n :: n in before && n.id !in gone ==> n in after
  }

  /** Old nodes that are not in the list any more are freed. */
  ghost predicate Accounted(before: seq<TimerNode>, after: seq<TimerNode>, freed: set<TimerNode>) {
    forall n :: n in before ==> n in after || n in freed
  }

  class EventLoop {
    var head: TimerNode?
    var nextId: nat

    /** The nodes from the head on. */
    ghost var nodes: seq<TimerNode>

    /** History: the events deleted so far, each handed to its finalizer then, if it has one,
        and the nodes given back to the allocator. */
    ghost var finalized: seq<nat>
    ghost var freed: set<TimerNode>

    constructor ()
      ensures Valid() && State() == Loop([], 0) && finalized == [] && freed == {}
    {
      head, nextId, nodes, finalized, freed := null, 0, [], [], {};
    }

    ghost predicate Valid()
      reads `head, `nodes, `freed, nodes`next
    {
      head == At(nodes, 0) && Linked(nodes) && Alive(nodes, freed)
    }

    ghost function State(): Loop
      reads `nodes, `nextId, nodes
    {
      Loop(TimersOf(nodes), nextId)
    }

    method CreateTimeEvent(now: Time, millis: int) returns (id: nat)
      requires Valid()
      modifies this`head, this`nextId, this`nodes
      ensures Valid() && id == old(nextId) && State() == Created(old(State()), now, millis)
      ensures nodes[0].id == id && (IsTime(now) ==> Millis(nodes[0].when) == Millis(now) + millis)
      ensures |nodes| == |old(nodes)| + 1 && nodes[1..] == old(nodes) && fresh(nodes[0])
    {
      AfterMillis(now, millis);
      id := nextId;
      nextId := nextId + 1;
      var te := new TimerNode(id, After(now, millis), head);
      head := te;
      nodes := [te] + nodes;
    }

    method Unlink(te: TimerNode, prev: TimerNode?, ghost k: nat)
      requires Valid() && k < |nodes| && te == nodes[k] && prev == At(nodes, k - 1)
      modifies this`head, this`nodes, this`freed, nodes`next
      ensures Valid() && freed == old(freed) + {te}
      ensures nodes == Remove(old(nodes), k) && TimersOf(nodes) == Remove(old(TimersOf(nodes)), k)
      ensures forall n :: n in old(nodes) && n != te ==> n in nodes
      ensures forall j :: 0 <= j < |nodes| ==> nodes[j] in old(nodes)
    {
      hide Alive, Remove;
      ghost var timers := TimersOf(nodes);
      if prev == null {
        head := te.next;
      } else {
        prev.next := te.next;
      }
      StillLinked(nodes, Remove(nodes, k), k);
      StillAlive(nodes, freed, k);
      assert TimersOf(nodes) == timers;
      RemoveTimers(nodes, k);
      nodes, freed := Remove(nodes, k), freed + {te};
    }

    /** Walks the list with the node before in hand, and links around the one found. */
    method DeleteTimeEvent(id: nat) returns (found: bool)
      requires Valid()
      modifies this`head, this`nodes, this`finalized, this`freed, nodes`next
      ensures Valid() && State() == old(State()).(timers := Without(old(State().timers), id))
      ensures found <==> exists i :: 0 <= i < |old(nodes)| && old(nodes)[i].id == id
      ensures finalized == old(finalized) + if found then [id] else []
      ensures Keeps(old(nodes), nodes, {id}) && old(freed) <= freed && Accounted(old(nodes), nodes, freed)
      ensures forall k :: 0 <= k < |nodes| ==> nodes[k] in old(nodes)
    {
      hide Without, Remove, Alive;
      var te, prev: TimerNode? := head, null;
      ghost var k := 0;
      while te != null
        invariant k <= |nodes| && te == At(nodes, k) && prev == At(nodes, k - 1)
        invariant forall j :: 0 <= j < k ==> nodes[j].id != id
        decreases |nodes| - k
      {
        if te.id == id {
          WithoutAt(TimersOf(nodes), k, id);
          Unlink(te, prev, k);
          finalized := finalized + [id];
          return true;
        }
        prev := te;
        te := te.next;
        k := k + 1;
      }
      WithoutAt(TimersOf(nodes), k, id);
      found := false;
    }

    /** The first of the timers that come earliest. */
    method SearchNearestTimer() returns (nearest: TimerNode?)
      requires Valid()
      ensures nearest == null <==> nodes == []
      ensures nearest != null ==>
                exists k :: 0 <= k < |nodes| && nodes[k] == nearest
                  && (forall j :: 0 <= j < |nodes| ==> !Earlier(nodes[j].when, nearest.when))
                  && (forall j :: 0 <= j < k ==> Earlier(nearest.when, nodes[j].when))
    {
      var te := head;
      nearest := null;
      ghost var i, k := 0, 0;
      while te != null
        invariant i <= |nodes| && te == At(nodes, i) && (nearest == null <==> i == 0)
        invariant i > 0 ==> k < i && nodes[k] == nearest
        invariant i > 0 ==> forall j :: 0 <= j < i ==> !Earlier(nodes[j].when, nearest.when)
        invariant i > 0 ==> forall j :: 0 <= j < k ==> Earlier(nearest.when, nodes[j].when)
        decreases |nodes| - i
      {
        if nearest == null || Earlier(te.when, nearest.when) {
          nearest := te;
          k := i;
        }
        te := te.next;
        i := i + 1;
      }
    }

    /** What a callback does to the list; nodes it does not delete stay where they are. */
    method RunCallback(now: Time, ops: seq<Op>)
      requires Valid()
      modifies this, nodes`next
      ensures Valid() && State() == ApplyAll(old(State()), now, ops)
      ensures Keeps(old(nodes), nodes, DeletedIn(ops)) && Accounted(old(nodes), nodes, freed)
      ensures forall k :: 0 <= k < |nodes| ==> nodes[k] in old(nodes) || fresh(nodes[k])
    {
      hide Valid, Without;
      var k := 0;
      assert ops[0..] == ops && ops[..0] == [];
      while k < |ops|
        invariant k <= |ops| && Valid() && ApplyAll(old(State()), now, ops) == ApplyAll(State(), now, ops[k..])
        invariant Keeps(old(nodes), nodes, DeletedIn(ops[..k])) && Accounted(old(nodes), nodes, freed)
        invariant forall j :: 0 <= j < |nodes| ==> nodes[j] in old(nodes) || fresh(nodes[j])
        decreases |ops| - k
      {
        assert ops[k..][1..] == ops[k + 1..];
        DeletedMore(ops, k);
        match ops[k] {
          case Create(millis) =>
            var _ := CreateTimeEvent(now, millis);
            assert forall j :: 1 <= j < |nodes| ==> nodes[j] == nodes[1..][j - 1];
          case Delete(id) =>
            var _ := DeleteTimeEvent(id);
        }
        k := k + 1;
      }
      assert ops[..k] == ops;
    }

    /** The callback runs while te is held; then te itself is rescheduled, or its event
        deleted.  The node is written after it was freed if and only if the callback deletes
        its own event and does not return "no more". */
    method FireEvent(now: Time, te: TimerNode, e: Effect) returns (ghost dangling: bool)
      requires Valid() && WellFormed(State()) && te in nodes
      modifies this, nodes
      ensures dangling <==> Dangles(te.id, e)
      ensures !dangling ==> Valid() && State() == Fire(old(State()), now, te.id, e)
      ensures !dangling && IsTime(now) ==>
                forall t :: t in State().timers ==> IsDueRight(old(State()), now, te.id, e, t)
      ensures forall k :: 0 <= k < |nodes| ==> nodes[k] in old(nodes) || fresh(nodes[k])
    {
      hide ApplyAll, Without, Valid, DeletedIn, Dangles, IsDueRight;
      ghost var st, was := State(), nodes;
      if IsTime(now) { FireTimes(st, now, te.id, e); }
      IsPresent(this, te);
      ApplyAllKeeps(st, now, e.ops, 0);
      RunCallback(now, e.ops);
      HeldIsFreedIff(this, st, now, e.ops, was, te);
      dangling := e.retval != AE_NOMORE && te in freed;
      DanglesIff(te.id, e);
      if e.retval != AE_NOMORE {
        if te in nodes { OnlyOne(this, te, After(now, e.retval)); }
        te.when := After(now, e.retval);
      } else {
        var _ := DeleteTimeEvent(te.id);
      }
    }

    /** The pass terminates: after every event the scan restarts from the head, but then
        fewer events are left that may fire. */
    method ProcessTimeEvents(now: Time, script: Script) returns (processed: nat, fired: seq<nat>)
      requires Valid() && WellFormed(State()) && IsTime(now) && Polite(script)
      modifies this, nodes
      ensures Valid() && processed == |fired| && IsPass(old(State()), now, script, fired)
      ensures State() == Replay(old(State()), now, script, fired) && WellFormed(State())
      ensures forall t :: t in State().timers ==> IsDueThen(old(State()), now, script, fired, t)
      ensures Present(State(), old(nextId))
              == Present(old(State()), old(nextId)) - Deleted(script, fired) - Ended(script, fired)
    {
      hide Fire, WellFormed, Deleted, Ended, Polite, Replay, InTurn, IsDueThen, Present;
      ghost var st := State();
      var limit, te := nextId, head;
      ghost var i := 0;
      processed, fired := 0, [];
      NoTurns(st, now, script);
      while te != null
        invariant Valid() && i <= |nodes| && te == At(nodes, i) && processed == |fired| && limit == st.nextId
        invariant forall k :: 0 <= k < |nodes| ==> nodes[k] in old(nodes) || fresh(nodes[k])
        invariant State() == Replay(st, now, script, fired) && InTurn(st, now, script, fired)
        invariant forall j :: 0 <= j < i ==> !(nodes[j].id < limit && Due(Timer(nodes[j].id, nodes[j].when), now))
        decreases Eligible(State(), now, limit), |nodes| - i
      {
        if te.id < limit && Due(Timer(te.id, te.when), now) {
          var id := te.id;
          assert FirstAt(State(), now, limit, i) && State().timers[i].id == id;
          NextInTurn(st, now, script, fired, id);
          FewerEligible(st, now, script, fired, id);
          ReplayEligible(st, now, script, fired);
          PoliteAt(script, fired, id);
          ghost var dangling := FireEvent(now, te, script(fired, id));
          processed, fired, i := processed + 1, fired + [id], 0;
          te := head;
        } else {
          te := te.next;
          i := i + 1;
        }
      }
      ReplayEligible(st, now, script, fired);
      PassTimes(st, now, script, fired);
    }
  }

  lemma DanglesIff(id: nat, e: Effect)
    ensures Dangles(id, e) <==> id in DeletedIn(e.ops) && e.retval != AE_NOMORE
  {
    hide DeletedIn;
  }

  lemma IsPresent(loop: EventLoop, te: TimerNode)
    requires WellFormed(loop.State()) && te in loop.nodes
    ensures te.id in Present(loop.State(), loop.nextId)
  {
    var i :| 0 <= i < |loop.nodes| && loop.nodes[i] == te;
    assert loop.State().timers[i] in loop.State().timers && loop.State().timers[i].id == te.id;
  }

  /** After a callback the node held is freed if and only if the callback deleted its event. */
  lemma HeldIsFreedIff(loop: EventLoop, st: Loop, now: Time, ops: seq<Op>, was: seq<TimerNode>, te: TimerNode)
    requires WellFormed(st) && te.id in Present(st, st.nextId) && te in was
    requires loop.Valid() && loop.State() == ApplyAll(st, now, ops)
    requires Keeps(was, loop.nodes, DeletedIn(ops)) && Accounted(was, loop.nodes, loop.freed)
    ensures te in loop.freed <==> te.id in DeletedIn(ops)
    ensures te in loop.freed <==> te !in loop.nodes
  {
    hide ApplyAll, DeletedIn, Linked;
    ApplyAllPresent(st, now, ops, st.nextId);
    if te in loop.nodes {
      var i :| 0 <= i < |loop.nodes| && loop.nodes[i] == te;
      assert loop.State().timers[i].id == te.id;
      assert loop.State().timers[i] in loop.State().timers;
      assert te.id in Present(loop.State(), st.nextId);
    }
  }

  /** Rescheduling through the node held is rescheduling by id. */
  lemma OnlyOne(loop: EventLoop, te: TimerNode, when: Time)
    requires loop.Valid() && WellFormed(loop.State()) && te in loop.nodes
    ensures forall i :: 0 <= i < |loop.nodes| ==> (loop.nodes[i] == te <==> loop.nodes[i].id == te.id)
  {
    var k :| 0 <= k < |loop.nodes| && loop.nodes[k] == te;
    var ts := loop.State().timers;
    forall i | 0 <= i < |loop.nodes| && loop.nodes[i].id == te.id ensures i == k {
      assert ts[i].id == loop.nodes[i].id && ts[k].id == te.id;
    }
  }

  lemma DeletedMore(ops: seq<Op>, k: nat)
    requires k < |ops|
    ensures DeletedIn(ops[..k + 1]) == DeletedIn(ops[..k]) + if ops[k].Delete? then {ops[k].id} else {}
  {
    assert ops[..k + 1] == ops[..k] + [ops[k]];
  }

  lemma NextInTurn(st: Loop, now: Time, script: Script, fired: seq<nat>, id: nat)
    requires InTurn(st, now, script, fired) && IsNext(Replay(st, now, script, fired), now, st.nextId, id)
    ensures InTurn(st, now, script, fired + [id])
    ensures Replay(st, now, script, fired + [id]) == Fire(Replay(st, now, script, fired), now, id, script(fired, id))
  {
    hide Fire, IsNext;
    var all := fired + [id];
    assert all[..|fired|] == fired;
    forall k | 0 <= k < |all| ensures IsNext(Replay(st, now, script, all[..k]), now, st.nextId, all[k]) {
      if k < |fired| { assert all[..k] == fired[..k] && all[k] == fired[k]; }
    }
  }

  lemma NextIsEligible(s: Loop, now: Time, limit: nat, id: nat)
    requires IsNext(s, now, limit, id)
    ensures id in Eligible(s, now, limit)
  {
    var i: nat :| FirstAt(s, now, limit, i) && s.timers[i].id == id;
    assert s.timers[i] in s.timers;
  }

  lemma FewerEligible(st: Loop, now: Time, script: Script, fired: seq<nat>, id: nat)
    requires WellFormed(st) && IsTime(now) && Polite(script)
    requires IsNext(Replay(st, now, script, fired), now, st.nextId, id)
    ensures Eligible(Fire(Replay(st, now, script, fired), now, id, script(fired, id)), now, st.nextId)
            < Eligible(Replay(st, now, script, fired), now, st.nextId)
  {
    hide Fire, WellFormed, Deleted, Polite, Replay, Eligible, IsNext;
    var s := Replay(st, now, script, fired);
    ReplayEligible(st, now, script, fired);
    NextIsEligible(s, now, st.nextId, id);
    PoliteAt(script, fired, id);
    FireKeeps(s, now, id, script(fired, id), st.nextId);
  }

  lemma NoTurns(st: Loop, now: Time, script: Script)
    ensures InTurn(st, now, script, []) && Replay(st, now, script, []) == st
  {}

  lemma PoliteAt(script: Script, fired: seq<nat>, id: nat)
    requires Polite(script)
    ensures script(fired, id).retval == AE_NOMORE || script(fired, id).retval > 0
    ensures !Dangles(id, script(fired, id))
  {
    hide Dangles;
  }

  // ---------------------------------------------------------------- the sleep

  /** The timeout passed to the poll, in milliseconds: the time until the nearest timer,
      the seconds and the rest each cut off at zero. */
  function Sleep(when: Time, now: Time): int {
    var borrow := when.ms < now.ms;
    var sec := when.sec - now.sec - (if borrow then 1 else 0);
    var ms := (if borrow then when.ms + 1000 else when.ms) - now.ms;
    1000 * (if sec < 0 then 0 else sec) + (if ms < 0 then 0 else ms)
  }

  /** The loop sleeps exactly until the nearest timer, or not at all if that is overdue,
      if and only if it is not overdue by a broken number of seconds. */
  lemma SleepIsExactIff(when: Time, now: Time)
    requires IsTime(when) && IsTime(now)
    ensures var left := Millis(when) - Millis(now);
            && (Sleep(when, now) == (if left < 0 then 0 else left)) <==> (left >= 0 || -left % 1000 == 0)
    ensures var left := Millis(when) - Millis(now);
            left < 0 ==> Sleep(when, now) == left % 1000
  {}
}

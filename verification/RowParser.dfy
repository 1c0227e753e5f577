/** The incremental parser of ebinlog/BinlogRow.h: event framing, positions within the
    log file, and the labels of emitted rows.  This module is what the parser computes;
    module RowLogParser holds the parser itself. */
module RowParser {
  import opened Bytes
  import opened LittleEndian
  import opened Options
  import opened TableMap
  import opened RowImage

  const ROTATE_EVENT: Byte := 4
  const TABLE_MAP_EVENT: Byte := 19
  const HEADER_SIZE: nat := 19

  function U32(x: int): (r: nat)
    ensures r < 0x1_0000_0000
  {
    x % 0x1_0000_0000
  }

  // ---------------------------------------------------------------- framing

  datatype Event = Event(ty: Byte, len: nat, body: Octets)

  function EventLength(bs: Octets): nat
    requires |bs| >= HEADER_SIZE
  {
    Le(bs[9..13])
  }

  predicate Complete(bs: Octets) { |bs| >= HEADER_SIZE && |bs| >= EventLength(bs) }

  /** The complete events at the front of the bytes and what is left of them, unless an
      event claims to be shorter than its own header. */
  datatype Framed = Framed(events: seq<Event>, rest: Octets) | Malformed

  function FirstEvent(bs: Octets): Event
    requires Complete(bs) && EventLength(bs) >= HEADER_SIZE
  {
    Event(bs[4], EventLength(bs), bs[HEADER_SIZE..EventLength(bs)])
  }

  function Frames(bs: Octets): Framed
    decreases |bs|
  {
    if !Complete(bs) then Framed([], bs)
    else if EventLength(bs) < HEADER_SIZE then Malformed
    else Behind([FirstEvent(bs)], Frames(bs[EventLength(bs)..]))
  }

  function Behind(es: seq<Event>, f: Framed): Framed {
    if f.Malformed? then Malformed else Framed(es + f.events, f.rest)
  }

  lemma BehindBoth(a: seq<Event>, b: seq<Event>, f: Framed)
    ensures Behind(a, Behind(b, f)) == Behind(a + b, f)
  {
    if f.Framed? { assert a + (b + f.events) == a + b + f.events; }
  }

  lemma BehindNothing(f: Framed)
    ensures Behind([], f) == f
  {
    if f.Framed? { assert [] + f.events == f.events; }
  }

  lemma HeaderIsStable(a: Octets, b: Octets)
    requires Complete(a)
    ensures Complete(a + b) && EventLength(a + b) == EventLength(a)
    ensures EventLength(a) >= HEADER_SIZE ==>
              FirstEvent(a + b) == FirstEvent(a) && (a + b)[EventLength(a)..] == a[EventLength(a)..] + b
  {
    hide Le;
    assert (a + b)[9..13] == a[9..13];
    if EventLength(a) >= HEADER_SIZE {
      assert (a + b)[HEADER_SIZE..EventLength(a)] == a[HEADER_SIZE..EventLength(a)];
    }
  }

  /** Later bytes do not change the events already complete, and the unconsumed tail
      carries over to them. */
  lemma {:induction false} FramesCarryOver(a: Octets, b: Octets)
    ensures Frames(a + b) ==
            if Frames(a).Malformed? then Malformed
            else Behind(Frames(a).events, Frames(Frames(a).rest + b))
    decreases |a|
  {
    hide FirstEvent, EventLength, Behind;
    if !Complete(a) {
      BehindNothing(Frames(a + b));
    } else {
      HeaderIsStable(a, b);
      if EventLength(a) >= HEADER_SIZE {
        FramesCarryOver(a[EventLength(a)..], b);
        FramesOfFirst(a);
        var g := Frames(a[EventLength(a)..]);
        if g.Framed? { BehindBoth([FirstEvent(a)], g.events, Frames(g.rest + b)); }
      }
    }
  }

  lemma FirstLength(bs: Octets)
    requires Complete(bs) && EventLength(bs) >= HEADER_SIZE
    ensures FirstEvent(bs).len == EventLength(bs) <= |bs| && EventLength(bs) > 0
  {}

  lemma FramesOfFirst(a: Octets)
    requires Complete(a) && EventLength(a) >= HEADER_SIZE
    ensures var g := Frames(a[EventLength(a)..]);
            Frames(a) == if g.Malformed? then Malformed else Framed([FirstEvent(a)] + g.events, g.rest)
  {
    hide EventLength, FirstEvent;
  }

  lemma {:induction false} RestIsIncomplete(bs: Octets)
    requires Frames(bs).Framed?
    ensures !Complete(Frames(bs).rest)
    decreases |bs|
  {
    if !Complete(bs) {
    } else {
      RestIsIncomplete(bs[EventLength(bs)..]);
    }
  }

  function Length(es: seq<Event>): nat {
    if es == [] then 0 else es[0].len + Length(es[1..])
  }

  /** Feeding the bytes from an event's offset on yields the events from there on. */
  lemma {:induction false} FramesFrom(bs: Octets, i: nat)
    requires Frames(bs).Framed? && i <= |Frames(bs).events|
    ensures Length(Frames(bs).events[..i]) <= |bs|
    ensures Frames(bs[Length(Frames(bs).events[..i])..]) == Framed(Frames(bs).events[i..], Frames(bs).rest)
    decreases i
  {
    hide EventLength, Behind;
    if i == 0 {
      assert bs[0..] == bs;
    } else {
      var n := EventLength(bs);
      var es, f := Frames(bs).events, Frames(bs[n..]);
      FramesOfFirst(bs);
      FramesFrom(bs[n..], i - 1);
      PrefixLength(es, f.events, i);
      DropBoth(bs, n, Length(f.events[..i - 1]));
    }
  }

  lemma PrefixLength(es: seq<Event>, rest: seq<Event>, i: nat)
    requires es != [] && es[1..] == rest && 0 < i <= |es|
    ensures Length(es[..i]) == es[0].len + Length(rest[..i - 1]) && es[i..] == rest[i - 1..]
  {
    assert es[..i][1..] == rest[..i - 1];
  }

  lemma DropBoth(bs: Octets, a: nat, b: nat)
    requires a + b <= |bs|
    ensures bs[a..][b..] == bs[a + b..]
  {}

  // ---------------------------------------------------------------- state

  /** The fields of the parser that outlive an event.  `stat` is 0 until a table map or
      an end flag has been seen. */
  datatype State = State(log: Octets, tablePos: nat, curPos: nat, startPos: nat, startIndex: nat,
                         stat: nat, itemIndex: nat, table: Table)

  datatype Label = Label(log: Octets, pos: nat, index: nat)

  datatype Entry = Entry(at: Label, db: Octets, table: Octets, change: Change)

  /** A log name: a C string within its buffer. */
  predicate IsName(n: Octets) { |n| < NAME_MAX_LENGTH && forall i :: 0 <= i < |n| ==> n[i] != 0 }

  ghost predicate IsState(st: State) { IsName(st.log) && |st.table.types| == |st.table.metas| }

  function Init(name: Octets, startPos: nat, startIndex: nat): (st: State)
  {
    State(name, 0, 0, startPos, startIndex, 0, 0, NO_TABLE)
  }

  /** memcpy over the old name, without a terminator: a longer old name shows through. */
  function CopyName(old_: Octets, name: Octets): Octets {
    if |old_| <= |name| then name else name + old_[|name|..]
  }

  /** The rows of one event with their labels, those below the start index left out. */
  function Emit(st: State, cs: seq<Change>, index: nat): seq<Entry> {
    if cs == [] then []
    else
      (if index >= st.startIndex
       then [Entry(Label(st.log, st.tablePos, index), st.table.db, st.table.name, cs[0])] else [])
      + Emit(st, cs[1..], index + 1)
  }

  function ApplyTableMap(st: State, e: Event): Option<(State, seq<Entry>)> {
    var t := Parse(e.body);
    var cur := U32(st.curPos + e.len);
    var pos :=
      if st.stat != 0 then U32(st.tablePos + U32(cur - e.len))
      else if st.startPos > 4 then st.startPos
      else if st.startPos == 4 then U32(4 + U32(cur - e.len))
      else st.tablePos;
    if t.None? then None
    else Some((st.(tablePos := pos, curPos := e.len, stat := 1, itemIndex := 0, table := t.value,
                   startIndex := if st.stat != 0 then 0 else st.startIndex,
                   startPos := if st.stat == 0 && st.startPos == 4 then 0 else st.startPos), []))
  }

  function ApplyRotate(st: State, e: Event): Option<(State, seq<Entry>)> {
    if |e.body| < 8 || !IsName(e.body[8..]) then None
    else Some((st.(log := CopyName(st.log, e.body[8..]), curPos := 0, tablePos := 4), []))
  }

  predicate IsRows(ty: Byte) { ty == WRITE_ROWS_EVENT || ty == DELETE_ROWS_EVENT || ty == UPDATE_ROWS_EVENT }

  function ApplyRows(st: State, e: Event): Option<(State, seq<Entry>)>
    requires |st.table.types| == |st.table.metas|
  {
    var r := RowsBody(e.ty, e.body, st.table);
    if r.None? then None
    else Some((st.(curPos := U32(st.curPos + e.len), stat := if r.value.0 then 2 else st.stat,
                   itemIndex := st.itemIndex + |r.value.1|),
               Emit(st, r.value.1, st.itemIndex)))
  }

  /** One event; none if its body would be read or copied out of bounds. */
  function Apply(st: State, e: Event): (r: Option<(State, seq<Entry>)>)
    requires IsState(st)
    ensures r.Some? ==> IsState(r.value.0)
  {
    if e.ty == TABLE_MAP_EVENT then ApplyTableMap(st, e)
    else if e.ty == ROTATE_EVENT then ApplyRotate(st, e)
    else if IsRows(e.ty) then ApplyRows(st, e)
    else Some((st.(curPos := U32(st.curPos + e.len)), []))
  }

  function Run(st: State, es: seq<Event>): (r: Option<(State, seq<Entry>)>)
    requires IsState(st)
    ensures r.Some? ==> IsState(r.value.0)
    decreases |es|
  {
    if es == [] then Some((st, []))
    else
      var a := Apply(st, es[0]);
      if a.None? then None else
      var b := Run(a.value.0, es[1..]);
      if b.None? then None else Some((b.value.0, a.value.1 + b.value.1))
  }

  /** One call of process: state, rows, and the bytes it does not consume. */
  function Process(st: State, bs: Octets): (r: Option<(State, seq<Entry>, Octets)>)
    requires IsState(st)
    ensures r.Some? ==> IsState(r.value.0)
  {
    var f := Frames(bs);
    if f.Malformed? then None else
    var r := Run(st, f.events);
    if r.None? then None else Some((r.value.0, r.value.1, f.rest))
  }

  // ---------------------------------------------------------------- chunks

  lemma {:induction false} RunConcat(st: State, a: seq<Event>, b: seq<Event>)
    requires IsState(st)
    ensures Run(st, a + b) ==
            var x := Run(st, a);
            if x.None? then None else
            var y := Run(x.value.0, b);
            if y.None? then None else Some((y.value.0, x.value.1 + y.value.1))
    decreases |a|
  {
    hide Apply;
    if a == [] {
      assert a + b == b;
      if Run(st, b).Some? { assert [] + Run(st, b).value.1 == Run(st, b).value.1; }
    } else {
      assert (a + b)[1..] == a[1..] + b;
      var x := Apply(st, a[0]);
      if x.Some? {
        RunConcat(x.value.0, a[1..], b);
        var y := Run(x.value.0, a[1..]);
        if y.Some? && Run(y.value.0, b).Some? {
          var more := Run(y.value.0, b).value.1;
          assert x.value.1 + (y.value.1 + more) == (x.value.1 + y.value.1) + more;
        }
      }
    }
  }

  /** The listener: every chunk is appended to the unconsumed tail and processed. */
  function Feed(st: State, pending: Octets, chunks: seq<Octets>): (r: Option<(State, seq<Entry>, Octets)>)
    requires IsState(st)
    ensures r.Some? ==> IsState(r.value.0)
    decreases |chunks|
  {
    if chunks == [] then Some((st, [], pending))
    else
      var a := Process(st, pending + chunks[0]);
      if a.None? then None else
      var b := Feed(a.value.0, a.value.2, chunks[1..]);
      if b.None? then None else Some((b.value.0, a.value.1 + b.value.1, b.value.2))
  }

  lemma ProcessConcat(st: State, a: Octets, b: Octets)
    requires IsState(st)
    ensures Process(st, a + b) ==
            var x := Process(st, a);
            if x.None? then None else
            var y := Process(x.value.0, x.value.2 + b);
            if y.None? then None else Some((y.value.0, x.value.1 + y.value.1, y.value.2))
  {
    hide Frames, Run;
    FramesCarryOver(a, b);
    var f := Frames(a);
    if f.Framed? {
      var g := Frames(f.rest + b);
      if g.Framed? { RunConcat(st, f.events, g.events); }
    }
  }

  /** Chunking does not matter: however the stream is cut, carrying the unconsumed tail
      forward gives the rows, the final state and the tail of the uncut stream. */
  lemma {:induction false} ChunkingDoesNotMatter(st: State, pending: Octets, chunks: seq<Octets>)
    requires IsState(st) && !Complete(pending)
    ensures Feed(st, pending, chunks) == Process(st, pending + Concat(chunks))
    decreases |chunks|
  {
    hide Run;
    if chunks == [] {
      assert pending + [] == pending;
      assert Frames(pending) == Framed([], pending);
      assert Run(st, []) == Some((st, [])) by { RunNothing(st); }
    } else {
      var a := pending + chunks[0];
      ProcessConcat(st, a, Concat(chunks[1..]));
      assert pending + Concat(chunks) == a + Concat(chunks[1..]);
      var x := Process(st, a);
      if x.Some? {
        RestIsIncomplete(a);
        ChunkingDoesNotMatter(x.value.0, x.value.2, chunks[1..]);
      }
    }
  }

  lemma RunNothing(st: State)
    requires IsState(st)
    ensures Run(st, []) == Some((st, []))
  {}

  // ---------------------------------------------------------------- positions

  /** The offset of event i in its log file, the first one lying at offset o: a rotate
      event leads to offset 4 of the next file. */
  function Offset(o: nat, es: seq<Event>, i: nat): nat
    requires i <= |es|
    decreases i
  {
    if i == 0 then o else Offset(if es[0].ty == ROTATE_EVENT then 4 else o + es[0].len, es[1..], i - 1)
  }

  /** The fields point at the next event, at offset o. */
  predicate PointsAt(st: State, o: nat) {
    U32(st.tablePos + st.curPos) == U32(o) && (st.stat == 0 ==> st.startPos == 4 && st.tablePos == 4)
  }

  lemma ApplyPointsAt(st: State, e: Event, o: nat)
    requires IsState(st) && PointsAt(st, o) && Apply(st, e).Some?
    ensures PointsAt(Apply(st, e).value.0, if e.ty == ROTATE_EVENT then 4 else o + e.len)
    ensures e.ty == TABLE_MAP_EVENT ==> Apply(st, e).value.0.tablePos == U32(o)
  {
    hide Parse, RowsBody, IsName, Emit, U32;
    U32Add(st.curPos + e.len, -(e.len as int));
    U32Add(U32(st.curPos + e.len) - e.len, st.tablePos);
    U32Add(st.curPos, st.tablePos);
    U32Add(st.tablePos + st.curPos, e.len);
    U32Add(o, e.len);
    U32Add(st.curPos + e.len, st.tablePos);
    assert st.curPos + e.len - e.len == st.curPos;
  }

  lemma U32Add(a: int, b: int)
    ensures U32(U32(a) + b) == U32(a + b)
  {}

  lemma {:induction false} RunPointsAt(st: State, es: seq<Event>, o: nat)
    requires IsState(st) && PointsAt(st, o) && Run(st, es).Some?
    ensures PointsAt(Run(st, es).value.0, Offset(o, es, |es|))
    decreases |es|
  {
    hide Apply, PointsAt;
    if es == [] {
    } else {
      ApplyPointsAt(st, es[0], o);
      RunPointsAt(Apply(st, es[0]).value.0, es[1..], if es[0].ty == ROTATE_EVENT then 4 else o + es[0].len);
    }
  }

  lemma {:induction false} OffsetOfPrefix(o: nat, es: seq<Event>, i: nat)
    requires i <= |es|
    ensures Offset(o, es[..i], i) == Offset(o, es, i)
    decreases i
  {
    if i == 0 {
    } else {
      OffsetOfPrefix(if es[0].ty == ROTATE_EVENT then 4 else o + es[0].len, es[1..], i - 1);
      assert es[..i][1..] == es[1..][..i - 1];
    }
  }

  /** In a stream that begins with a rotate event and start position 4, the parser's
      table position after any table map is that event's offset in its own log file,
      across any number of later rotate events (modulo the 32 bits it is kept in). */
  lemma TablePosIsTheOffset(name: Octets, startIndex: nat, rotate: Event, es: seq<Event>, i: nat)
    requires IsName(name) && rotate.ty == ROTATE_EVENT
    requires i < |es| && es[i].ty == TABLE_MAP_EVENT
    requires Run(Init(name, 4, startIndex), [rotate] + es[..i + 1]).Some?
    ensures Run(Init(name, 4, startIndex), [rotate] + es[..i + 1]).value.0.tablePos == U32(Offset(4, es, i))
  {
    hide Apply, Offset;
    var st0 := Init(name, 4, startIndex);
    AfterRotate(name, startIndex, rotate);
    RunFirst(st0, rotate, es[..i + 1]);
    var st := Apply(st0, rotate).value.0;
    assert es[..i + 1] == es[..i] + [es[i]];
    RunConcat(st, es[..i], [es[i]]);
    RunPointsAt(st, es[..i], 4);
    OffsetOfPrefix(4, es, i);
    var st1 := Run(st, es[..i]).value.0;
    RunFirst(st1, es[i], []);
    RunNothing(Apply(st1, es[i]).value.0);
    assert [es[i]] == [es[i]] + [];
    ApplyPointsAt(st1, es[i], Offset(4, es, i));
  }

  lemma AfterRotate(name: Octets, startIndex: nat, rotate: Event)
    requires IsName(name) && rotate.ty == ROTATE_EVENT
    ensures var r := Apply(Init(name, 4, startIndex), rotate);
            r.Some? ==> PointsAt(r.value.0, 4) && r.value.1 == []
                        && r.value.0 == Init(name, 4, startIndex).(tablePos := 4, log := r.value.0.log)
  {
    hide IsName;
  }

  lemma RunFirst(st: State, e: Event, es: seq<Event>)
    requires IsState(st)
    ensures Run(st, [e] + es) ==
            var a := Apply(st, e);
            if a.None? then None else
            var b := Run(a.value.0, es);
            if b.None? then None else Some((b.value.0, a.value.1 + b.value.1))
  {
    hide Apply;
    assert ([e] + es)[1..] == es;
  }

  // ---------------------------------------------------------------- names

  ghost predicate NoRotate(es: seq<Event>) {
    forall i :: 0 <= i < |es| ==> es[i].ty != ROTATE_EVENT
  }

  /** The log a rotate event names. */
  function NameIn(rotate: Event): Octets
    requires |rotate.body| >= 8
  {
    rotate.body[8..]
  }

  /** The length of the longest log name so far. */
  function Longest(len: nat, es: seq<Event>): nat
    decreases |es|
  {
    if es == [] then len
    else
      var named := es[0].ty == ROTATE_EVENT && |es[0].body| >= 8 && |NameIn(es[0])| > len;
      Longest(if named then |NameIn(es[0])| else len, es[1..])
  }

  lemma {:induction false} LogLength(st: State, es: seq<Event>)
    requires IsState(st) && Run(st, es).Some?
    ensures |Run(st, es).value.0.log| == Longest(|st.log|, es)
    decreases |es|
  {
    hide Apply;
    if es == [] {
    } else {
      ApplyLog(st, es[0]);
      LogLength(Apply(st, es[0]).value.0, es[1..]);
    }
  }

  lemma ApplyLog(st: State, e: Event)
    requires IsState(st) && Apply(st, e).Some?
    ensures var (t, rows) := Apply(st, e).value;
            && (e.ty == ROTATE_EVENT ==> |e.body| >= 8 && t.log == CopyName(st.log, NameIn(e)) && rows == [])
            && (e.ty != ROTATE_EVENT ==> t.log == st.log && forall k :: 0 <= k < |rows| ==> rows[k].at.log == st.log)
  {
    hide Parse, RowsBody, U32, Emit;
    if IsRows(e.ty) { EmitLog(st, RowsBody(e.ty, e.body, st.table).value.1, st.itemIndex); }
  }

  lemma {:induction false} EmitLog(st: State, cs: seq<Change>, index: nat)
    ensures forall k :: 0 <= k < |Emit(st, cs, index)| ==> Emit(st, cs, index)[k].at.log == st.log
  {
    if cs == [] {
    } else {
      EmitLog(st, cs[1..], index + 1);
    }
  }

  /** Up to the next rotate event all rows carry one log name. */
  lemma {:induction false} OneLog(st: State, es: seq<Event>)
    requires IsState(st) && Run(st, es).Some? && NoRotate(es)
    ensures Run(st, es).value.0.log == st.log
    ensures forall k :: 0 <= k < |Run(st, es).value.1| ==> Run(st, es).value.1[k].at.log == st.log
    decreases |es|
  {
    hide Apply;
    if es == [] {
    } else {
      ApplyLog(st, es[0]);
      OneLog(Apply(st, es[0]).value.0, es[1..]);
    }
  }

  /** After any events of a run, a rotate event and rows behind it: the labels of those
      rows name the log the rotate event names, if and only if no name before it was
      longer (or there are no rows). */
  lemma RotateNamesTheLog(name: Octets, startPos: nat, startIndex: nat, es: seq<Event>, rotate: Event, more: seq<Event>)
    requires IsName(name) && rotate.ty == ROTATE_EVENT && NoRotate(more)
    requires Run(Init(name, startPos, startIndex), es + ([rotate] + more)).Some?
    ensures |rotate.body| >= 8
    ensures var before := Run(Init(name, startPos, startIndex), es);
            && before.Some?
            && var all := Run(Init(name, startPos, startIndex), es + ([rotate] + more)).value.1;
               && before.value.1 <= all
               && ((forall k :: |before.value.1| <= k < |all| ==> all[k].at.log == NameIn(rotate))
                   <==> all == before.value.1 || Longest(|name|, es) <= |NameIn(rotate)|)
  {
    hide Apply, Run, Longest, NameIn, CopyName;
    var st0 := Init(name, startPos, startIndex);
    RunConcat(st0, es, [rotate] + more);
    LogLength(st0, es);
    var st := Run(st0, es).value.0;
    RunFirst(st, rotate, more);
    ApplyLog(st, rotate);
    CopyIsNameIff(st.log, NameIn(rotate));
    OneLog(Apply(st, rotate).value.0, more);
    var rows := Run(Apply(st, rotate).value.0, more).value.1;
    var all := Run(st0, es + ([rotate] + more)).value.1;
    assert all == Run(st0, es).value.1 + ([] + rows) && [] + rows == rows;
    RowsBehind(Run(st0, es).value.1, rows, NameIn(rotate), Apply(st, rotate).value.0.log);
  }

  lemma CopyIsNameIff(old_: Octets, name: Octets)
    ensures CopyName(old_, name) == name <==> |old_| <= |name|
  {
    if |old_| > |name| { assert |CopyName(old_, name)| == |old_|; }
  }

  lemma RowsBehind(before: seq<Entry>, rows: seq<Entry>, name: Octets, log: Octets)
    requires forall k :: 0 <= k < |rows| ==> rows[k].at.log == log
    ensures (forall k :: |before| <= k < |before + rows| ==> (before + rows)[k].at.log == name)
            <==> before + rows == before || log == name
  {
    if rows != [] { assert (before + rows)[|before|] == rows[0]; }
  }

  /** From log "b.10" to log "b.9": the rows that follow are labelled "b.90". */
  lemma ShorterName(position: Octets)
    requires |position| == 8
    ensures var rotates := [Event(ROTATE_EVENT, 31, position + [98, 46, 49, 48]),
                            Event(ROTATE_EVENT, 30, position + [98, 46, 57])];
            && Run(Init([], 4, 0), rotates).Some?
            && Run(Init([], 4, 0), rotates).value.0.log == [98, 46, 57, 48]
  {
    var long, short: Octets := [98, 46, 49, 48], [98, 46, 57];
    var e, f := Event(ROTATE_EVENT, 31, position + long), Event(ROTATE_EVENT, 30, position + short);
    assert e.body[8..] == long && f.body[8..] == short;
    Rotates(Init([], 4, 0), e);
    var st := Apply(Init([], 4, 0), e).value.0;
    Rotates(st, f);
    RunFirst(Init([], 4, 0), e, [f]);
    RunFirst(st, f, []);
    RunNothing(Apply(st, f).value.0);
    assert [e] + [f] == [e, f] && [f] + [] == [f];
    assert CopyName([], long) == long && CopyName(long, short) == [98, 46, 57, 48];
  }

  lemma Rotates(st: State, e: Event)
    requires IsState(st) && e.ty == ROTATE_EVENT && |e.body| >= 8 && IsName(NameIn(e))
    ensures Apply(st, e).Some? && Apply(st, e).value.0.log == CopyName(st.log, NameIn(e))
  {}
}

/** From the bytes of a transaction to its rows: framing, positions, table map and row images
    of ebinlog/BinlogRow.h together, in terms of what the server logged. */
module RowTransaction {
  import opened Bytes
  import opened LittleEndian
  import opened Options
  import opened TableMap
  import opened RowImage
  import opened RowParser
  import opened RowStream
  import RowLogParser

  /** What a table map event says. */
  datatype Mapped = Mapped(id: nat, flags: Octets, db: Octets, name: Octets, cols: seq<Column>, nullable: seq<bool>)

  /** What a rows event says. */
  datatype Rows = Rows(ty: Byte, flags: Octets, present: Octets, changes: seq<Logged>)

  const ROWS_EVENTS: set<Byte> := {WRITE_ROWS_EVENT, UPDATE_ROWS_EVENT, DELETE_ROWS_EVENT}

  ghost predicate IsMapped(m: Mapped) {
    && m.id < Pow256(6) && |m.flags| == 2 && |m.db| < NAME_MAX_LENGTH && |m.name| < NAME_MAX_LENGTH
    && AreColumns(m.cols) && 0 < |m.cols| <= MAX_COLUMNS && |m.nullable| == |m.cols|
  }

  ghost predicate AreRows(r: Rows, m: Mapped) {
    && IsMapped(m) && r.ty in ROWS_EVENTS && |r.flags| == 2 && |r.present| == BitmapSize(|m.cols|)
    && AllFit(r.changes, r.ty, m.cols)
  }

  ghost predicate IsMapEvent(e: LogEvent, m: Mapped) {
    && IsMapped(m) && IsLogEvent(e) && e.ty == TABLE_MAP_EVENT
    && e.body == TableMap.Encode(m.id, m.flags, m.db, m.name, m.cols, m.nullable)
  }

  ghost predicate IsRowsEvent(e: LogEvent, r: Rows, m: Mapped) {
    && AreRows(r, m) && IsLogEvent(e) && e.ty == r.ty
    && e.body == RowsEvent(ToLe(m.id, 6), r.flags, r.present, r.changes, r.ty, m.cols)
  }

  /** A rotate event: the position to go on from, and the name of the log. */
  ghost predicate IsRotateEvent(e: LogEvent, pos: nat, log: Octets) {
    IsName(log) && IsLogEvent(e) && e.ty == ROTATE_EVENT && e.body == ToLe(pos, 8) + log
  }

  /** Events that carry neither rows nor what their labels need. */
  ghost predicate IsOther(e: LogEvent) {
    IsLogEvent(e) && e.ty !in {TABLE_MAP_EVENT, ROTATE_EVENT} + ROWS_EVENTS
  }

  function AllChanges(rs: seq<Rows>): seq<Logged> {
    if rs == [] then [] else rs[0].changes + AllChanges(rs[1..])
  }

  /** The changes in order, each with its label, indices counted from `index` on. */
  ghost predicate Labelled(rows: seq<Entry>, log: Octets, pos: nat, index: nat, m: Mapped, cs: seq<Logged>) {
    && |rows| == |cs|
    && forall k :: 0 <= k < |cs| ==> rows[k] == Entry(Label(log, pos, index + k), m.db, m.name, Seen(cs[k]))
  }

  // ---------------------------------------------------------------- single events

  lemma {:induction false} EmitLabels(st: State, m: Mapped, cs: seq<Logged>, index: nat)
    requires st.startIndex == 0 && st.table.db == m.db && st.table.name == m.name
    ensures Labelled(Emit(st, AllSeen(cs), index), st.log, st.tablePos, index, m, cs)
  {
    hide Seen;
    if cs == [] {
    } else {
      var all, rest := Emit(st, AllSeen(cs), index), Emit(st, AllSeen(cs[1..]), index + 1);
      EmitLabels(st, m, cs[1..], index + 1);
      assert AllSeen(cs)[1..] == AllSeen(cs[1..]);
      assert all == [Entry(Label(st.log, st.tablePos, index), m.db, m.name, Seen(cs[0]))] + rest;
      forall k | 0 <= k < |cs|
        ensures all[k] == Entry(Label(st.log, st.tablePos, index + k), m.db, m.name, Seen(cs[k]))
      {
        if k > 0 { assert all[k] == rest[k - 1] && cs[k] == cs[1..][k - 1]; }
      }
    }
  }

  /** A state behind the table map of m. */
  ghost predicate BehindMap(st: State, log: Octets, pos: nat, index: nat, m: Mapped) {
    && IsState(st) && st.log == log && st.tablePos == pos && st.itemIndex == index && st.startIndex == 0
    && IsMapped(m) && Some(st.table) == Parse(TableMap.Encode(m.id, m.flags, m.db, m.name, m.cols, m.nullable))
  }

  lemma RowsApplied(st: State, log: Octets, pos: nat, index: nat, m: Mapped, e: LogEvent, r: Rows)
    requires BehindMap(st, log, pos, index, m) && IsRowsEvent(e, r, m)
    ensures var a := Apply(st, EventOf(e));
            && a.Some? && Labelled(a.value.1, log, pos, index, m, r.changes)
            && BehindMap(a.value.0, log, pos, index + |r.changes|, m)
  {
    hide Parse, TableMap.Encode, RowsBody, RowsEvent, AllFit, AreColumns, Labelled, Emit, IsName, U32, ToLe;
    RowsEventRoundTrip(m.id, m.flags, m.db, m.name, m.cols, m.nullable, r.flags, r.present, r.changes, r.ty);
    TableNames(m);
    EmitLabels(st, m, r.changes, index);
  }

  lemma TableNames(m: Mapped)
    requires IsMapped(m)
    ensures var t := Parse(TableMap.Encode(m.id, m.flags, m.db, m.name, m.cols, m.nullable));
            t.Some? && t.value.db == m.db && t.value.name == m.name
  {
    hide Parse, TableMap.Encode, AreColumns;
    TableMapRoundTrip(m.id, m.flags, m.db, m.name, m.cols, m.nullable);
  }

  lemma MapApplied(st: State, log: Octets, e: LogEvent, m: Mapped)
    requires IsState(st) && st.log == log && IsMapEvent(e, m)
    requires st.stat == 0 && st.startPos == 4 && st.startIndex == 0 && st.curPos + |EventBytes(e)| < 0x1_0000_0000
    requires 4 + st.curPos < 0x1_0000_0000
    ensures var a := Apply(st, EventOf(e));
            a.Some? && a.value.1 == [] && BehindMap(a.value.0, log, 4 + st.curPos, 0, m)
  {
    hide Parse, TableMap.Encode, AreColumns;
    TableMapRoundTrip(m.id, m.flags, m.db, m.name, m.cols, m.nullable);
  }

  /** A parser in the first run over a file, past `n` bytes of it, that has seen no table yet. */
  ghost predicate Started(st: State, log: Octets, n: nat) {
    IsName(log) && st == Init(log, 4, 0).(tablePos := 4, curPos := n)
  }

  lemma RotateApplied(old_: Octets, log: Octets, e: LogEvent, pos: nat)
    requires IsName(old_) && |old_| <= |log| && IsRotateEvent(e, pos, log)
    ensures var a := Apply(Init(old_, 4, 0), EventOf(e));
            a.Some? && a.value.1 == [] && Started(a.value.0, log, 0)
  {
    hide ToLe;
    assert e.body[8..] == log;
  }

  // ---------------------------------------------------------------- runs of events

  lemma {:induction false} OthersRun(st: State, log: Octets, n: nat, es: seq<LogEvent>)
    requires Started(st, log, n) && n + |StreamBytes(es)| < 0x1_0000_0000
    requires forall i :: 0 <= i < |es| ==> IsOther(es[i])
    ensures var r := Run(st, EventsOf(es));
            r.Some? && r.value.1 == [] && Started(r.value.0, log, n + |StreamBytes(es)|)
    decreases |es|
  {
    hide EventBytes;
    if es == [] {
    } else {
      assert EventsOf(es)[1..] == EventsOf(es[1..]);
      var a := Apply(st, EventOf(es[0])).value;
      OthersRun(a.0, log, n + |EventBytes(es[0])|, es[1..]);
    }
  }

  lemma {:induction false} RowsRun(st: State, log: Octets, pos: nat, index: nat, m: Mapped,
                                   es: seq<LogEvent>, rs: seq<Rows>)
    requires BehindMap(st, log, pos, index, m) && |es| == |rs|
    requires forall i :: 0 <= i < |es| ==> IsRowsEvent(es[i], rs[i], m)
    ensures var r := Run(st, EventsOf(es)); r.Some? && Labelled(r.value.1, log, pos, index, m, AllChanges(rs))
    decreases |es|
  {
    hide Apply, EventOf, IsRowsEvent, Labelled, Parse, TableMap.Encode, IsMapped, IsName;
    NoLabels(log, pos, index, m);
    if es == [] {
    } else {
      assert EventsOf(es)[1..] == EventsOf(es[1..]);
      RowsApplied(st, log, pos, index, m, es[0], rs[0]);
      var a := Apply(st, EventOf(es[0])).value;
      var more := index + |rs[0].changes|;
      RowsRun(a.0, log, pos, more, m, es[1..], rs[1..]);
      LabelsJoin(a.1, Run(a.0, EventsOf(es[1..])).value.1, log, pos, index, m, rs[0].changes, AllChanges(rs[1..]));
    }
  }

  lemma NoLabels(log: Octets, pos: nat, index: nat, m: Mapped)
    ensures Labelled([], log, pos, index, m, [])
  {}

  lemma LabelsJoin(a: seq<Entry>, b: seq<Entry>, log: Octets, pos: nat, index: nat, m: Mapped,
                   cs: seq<Logged>, ds: seq<Logged>)
    requires Labelled(a, log, pos, index, m, cs) && Labelled(b, log, pos, index + |cs|, m, ds)
    ensures Labelled(a + b, log, pos, index, m, cs + ds)
  {}

  lemma EventsJoin(a: seq<LogEvent>, b: seq<LogEvent>)
    ensures EventsOf(a + b) == EventsOf(a) + EventsOf(b)
  {
    hide EventOf;
  }

  /** The parts of the stream one after the other, run from the first state. */
  lemma PartsRun(st: State, a: seq<LogEvent>, b: seq<LogEvent>)
    requires IsState(st) && Run(st, EventsOf(a)).Some? && Run(st, EventsOf(a)).value.1 == []
    ensures Run(st, EventsOf(a + b)).Some? == Run(Run(st, EventsOf(a)).value.0, EventsOf(b)).Some?
    ensures Run(st, EventsOf(a + b)).Some? ==>
              Run(st, EventsOf(a + b)).value.1 == Run(Run(st, EventsOf(a)).value.0, EventsOf(b)).value.1
  {
    hide Run, EventsOf;
    EventsJoin(a, b);
    RunConcat(st, EventsOf(a), EventsOf(b));
  }

  lemma OneRun(st: State, e: LogEvent)
    requires IsState(st) && Apply(st, EventOf(e)).Some?
    ensures Run(st, EventsOf([e])) == Apply(st, EventOf(e))
  {
    hide Apply, EventOf;
    var a := Apply(st, EventOf(e)).value;
    assert EventsOf([e]) == [EventOf(e)] && [EventOf(e)][1..] == [];
    assert a.1 + [] == a.1;
  }

  lemma TransactionRun(old_: Octets, log: Octets, rotate: LogEvent, at: nat, others: seq<LogEvent>,
                       map_: LogEvent, m: Mapped, es: seq<LogEvent>, rs: seq<Rows>)
    requires IsName(old_) && |old_| <= |log| && IsRotateEvent(rotate, at, log)
    requires forall i :: 0 <= i < |others| ==> IsOther(others[i])
    requires IsMapEvent(map_, m) && |es| == |rs| && forall i :: 0 <= i < |es| ==> IsRowsEvent(es[i], rs[i], m)
    requires 4 + |StreamBytes(others)| + |EventBytes(map_)| < 0x1_0000_0000
    ensures var r := Run(Init(old_, 4, 0), EventsOf([rotate] + (others + ([map_] + es))));
            r.Some? && Labelled(r.value.1, log, 4 + |StreamBytes(others)|, 0, m, AllChanges(rs))
  {
    hide Run, EventsOf, EventOf, Apply, StreamBytes, EventBytes, Labelled, BehindMap;
    hide IsRotateEvent, IsMapEvent, IsRowsEvent, IsOther;
    var s0 := Init(old_, 4, 0);
    RotateApplied(old_, log, rotate, at);
    OneRun(s0, rotate);
    PartsRun(s0, [rotate], others + ([map_] + es));
    var s1 := Apply(s0, EventOf(rotate)).value.0;
    OthersRun(s1, log, 0, others);
    PartsRun(s1, others, [map_] + es);
    var s2 := Run(s1, EventsOf(others)).value.0;
    MapApplied(s2, log, map_, m);
    OneRun(s2, map_);
    PartsRun(s2, [map_], es);
    var s3 := Apply(s2, EventOf(map_)).value.0;
    RowsRun(s3, log, 4 + |StreamBytes(others)|, 0, m, es, rs);
  }

  lemma AllAreEvents(rotate: LogEvent, at: nat, log: Octets, others: seq<LogEvent>,
                     map_: LogEvent, m: Mapped, es: seq<LogEvent>, rs: seq<Rows>)
    requires IsRotateEvent(rotate, at, log) && IsMapEvent(map_, m) && |es| == |rs|
    requires forall i :: 0 <= i < |others| ==> IsOther(others[i])
    requires forall i :: 0 <= i < |es| ==> IsRowsEvent(es[i], rs[i], m)
    ensures AreLogEvents([rotate] + (others + ([map_] + es)))
  {
    hide IsLogEvent, IsMapped, AreRows;
    assert forall i :: 0 <= i < |es| ==> IsRowsEvent(es[i], rs[i], m) && IsLogEvent(es[i]);
  }

  /** Any stream of whole events, its bytes cut in any way, has the effect of these events. */
  lemma StreamRuns(st: State, es: seq<LogEvent>, chunks: seq<Octets>)
    requires IsState(st) && AreLogEvents(es) && Concat(chunks) == StreamBytes(es)
    ensures Feed(st, [], chunks) ==
            var r := Run(st, EventsOf(es)); if r.None? then None else Some((r.value.0, r.value.1, []))
  {
    hide Run, EventsOf, EventBytes, StreamBytes, Frames, Feed, IsName;
    var none := LogEvent(0, 0, 0, 0, 0, []);
    PowersOf256();
    StreamFrames(es, none, 0);
    assert StreamBytes(es) + EventBytes(none)[..0] == StreamBytes(es) == [] + Concat(chunks);
    ChunkingDoesNotMatter(st, [], chunks);
  }

  /** A first run over a log file, its bytes cut in any way: behind the rotate event that names
      the log and any events without rows, each change of the rows events behind a table map
      comes out once and in order, with the log, the offset of the table map in the file and
      its number among those changes.  No byte is left. */
  lemma TransactionArrives(old_: Octets, log: Octets, rotate: LogEvent, at: nat, others: seq<LogEvent>,
                           map_: LogEvent, m: Mapped, es: seq<LogEvent>, rs: seq<Rows>, chunks: seq<Octets>)
    requires IsName(old_) && |old_| <= |log| && IsRotateEvent(rotate, at, log)
    requires forall i :: 0 <= i < |others| ==> IsOther(others[i])
    requires IsMapEvent(map_, m) && |es| == |rs| && forall i :: 0 <= i < |es| ==> IsRowsEvent(es[i], rs[i], m)
    requires 4 + |StreamBytes(others)| + |EventBytes(map_)| < 0x1_0000_0000
    requires Concat(chunks) == StreamBytes([rotate] + (others + ([map_] + es)))
    ensures var r := Feed(Init(old_, 4, 0), [], chunks);
            && r.Some? && r.value.2 == []
            && Labelled(r.value.1, log, 4 + |StreamBytes(others)|, 0, m, AllChanges(rs))
  {
    hide Run, EventsOf, EventBytes, StreamBytes, Labelled, Feed, IsMapEvent, IsRowsEvent, IsOther, IsRotateEvent;
    TransactionRun(old_, log, rotate, at, others, map_, m, es, rs);
    AllAreEvents(rotate, at, log, others, map_, m, es, rs);
    StreamRuns(Init(old_, 4, 0), [rotate] + (others + ([map_] + es)), chunks);
  }

  // ---------------------------------------------------------------- packets

  /** The packets in which the server sends events: a status byte, then the event. */
  function Sent(es: seq<LogEvent>, status: Byte): (r: seq<RowLogParser.Received>)
    ensures |r| == |es|
  {
    seq(|es|, i requires 0 <= i < |es| => RowLogParser.Packet([status] + EventBytes(es[i])))
  }

  lemma {:induction false} SentPackets(es: seq<LogEvent>, status: Byte)
    ensures var packets := RowLogParser.Packets(Sent(es, status));
            |packets| == |es| && Concat(RowLogParser.Payloads(packets)) == StreamBytes(es)
    decreases |es|
  {
    hide EventBytes;
    if es == [] {
    } else {
      var sent, packets := Sent(es, status), RowLogParser.Packets(Sent(es, status));
      SentPackets(es[1..], status);
      assert sent[1..] == Sent(es[1..], status);
      assert packets == [[status] + EventBytes(es[0])] + RowLogParser.Packets(sent[1..]);
      assert RowLogParser.Payloads(packets)[1..] == RowLogParser.Payloads(packets[1..]);
      assert ([status] + EventBytes(es[0]))[1..] == EventBytes(es[0]);
    }
  }

  /** A listener that is sent these packets runs these events. */
  lemma PacketsRun(st: State, es: seq<LogEvent>, status: Byte)
    requires IsState(st) && AreLogEvents(es)
    ensures Feed(st, [], RowLogParser.Payloads(RowLogParser.Packets(Sent(es, status)))) ==
            var r := Run(st, EventsOf(es)); if r.None? then None else Some((r.value.0, r.value.1, []))
  {
    hide Run, EventsOf, StreamBytes, Feed, Sent, IsName;
    SentPackets(es, status);
    StreamRuns(st, es, RowLogParser.Payloads(RowLogParser.Packets(Sent(es, status))));
  }
}

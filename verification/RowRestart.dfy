/** Restarting the row parser from the label of a row it has emitted. */
module RowRestart {
  import opened Bytes
  import opened LittleEndian
  import opened Options
  import opened TableMap
  import opened RowImage
  import opened RowParser

  ghost predicate Sized(es: seq<Event>) {
    forall i :: 0 <= i < |es| ==> es[i].len >= HEADER_SIZE
  }

  lemma Later(es: seq<Event>, i: nat)
    requires i < |es| - 1
    ensures es[1..][i..] == es[i + 1..]
    ensures Length(es[..i + 1]) == es[0].len + Length(es[1..][..i])
  {
    assert es[..i + 1][1..] == es[1..][..i];
  }

  /** How many rows come before the next table map. */
  function Group(st: State, es: seq<Event>): nat
    requires IsState(st) && Run(st, es).Some?
    decreases |es|
  {
    if es == [] || es[0].ty == TABLE_MAP_EVENT then 0
    else
      var a := Apply(st, es[0]);
      (a.value.0.itemIndex - st.itemIndex) + Group(a.value.0, es[1..])
  }

  function Clamp(x: int, hi: nat): (r: nat)
    ensures r <= hi
  {
    if x < 0 then 0 else if x > hi then hi else x
  }

  lemma {:induction false} EmitAll(st: State, cs: seq<Change>, index: nat)
    requires st.startIndex == 0
    ensures |Emit(st, cs, index)| == |cs|
    ensures forall k :: 0 <= k < |cs| ==> Emit(st, cs, index)[k].at == Label(st.log, st.tablePos, index + k)
  {
    if cs == [] {
    } else {
      EmitAll(st, cs[1..], index + 1);
    }
  }

  /** A start index leaves out exactly the rows below it. */
  lemma {:induction false} EmitFrom(st: State, cs: seq<Change>, index: nat, start: nat, p: nat)
    requires st.startIndex == 0
    ensures |Emit(st, cs, index)| == |cs|
    ensures Emit(st.(startIndex := start, startPos := p), cs, index)
            == Emit(st, cs, index)[Clamp(start - index, |cs|)..]
  {
    if cs == [] {
    } else {
      EmitFrom(st, cs[1..], index + 1, start, p);
    }
  }

  /** Two parsers inside a log that differ only in their start index. */
  ghost predicate Resumed(st: State, st': State, start: nat) {
    IsState(st) && st.stat != 0 && st.startIndex == 0
    && st' == st.(startIndex := start, startPos := st'.startPos)
  }

  lemma ApplyResumed(st: State, st': State, start: nat, e: Event)
    requires Resumed(st, st', start) && Apply(st, e).Some?
    ensures IsState(st') && Apply(st', e).Some?
    ensures var (t, rows) := Apply(st, e).value;
            var (t', rows') := Apply(st', e).value;
            if e.ty == TABLE_MAP_EVENT then Resumed(t, t', 0) && rows == rows' == [] && t.itemIndex == 0
            else
              Resumed(t, t', start) && t.itemIndex >= st.itemIndex && |rows| == t.itemIndex - st.itemIndex
              && rows' == rows[Clamp(start - st.itemIndex, |rows|)..]
  {
    hide Parse, RowsBody, IsName, Emit, U32;
    if IsRows(e.ty) {
      EmitFrom(st, RowsBody(e.ty, e.body, st.table).value.1, st.itemIndex, start, st'.startPos);
    }
  }

  lemma ResumedStates(st: State, st': State, start: nat)
    requires Resumed(st, st', start)
    ensures IsState(st) && IsState(st') && st'.log == st.log && st'.table == st.table
  {
    hide IsName;
  }

  lemma RunStep(st: State, es: seq<Event>)
    requires IsState(st) && es != []
    ensures Run(st, es) ==
            var a := Apply(st, es[0]);
            if a.None? then None else
            var b := Run(a.value.0, es[1..]);
            if b.None? then None else Some((b.value.0, a.value.1 + b.value.1))
  {
    hide Apply;
  }

  lemma GroupStep(st: State, es: seq<Event>)
    requires IsState(st) && es != [] && Run(st, es).Some?
    ensures Apply(st, es[0]).Some? && Run(Apply(st, es[0]).value.0, es[1..]).Some?
    ensures Group(st, es) ==
            if es[0].ty == TABLE_MAP_EVENT then 0
            else var t := Apply(st, es[0]).value.0; (t.itemIndex - st.itemIndex) + Group(t, es[1..])
  {
    hide Apply;
  }

  /** The start index takes rows away only before the next table map. */
  lemma {:induction false} RunResumed(st: State, st': State, start: nat, es: seq<Event>)
    requires Resumed(st, st', start) && Run(st, es).Some?
    ensures IsState(st') && Run(st', es).Some?
    ensures Group(st, es) <= |Run(st, es).value.1|
    ensures Run(st', es).value.1 == Run(st, es).value.1[Clamp(start - st.itemIndex, Group(st, es))..]
    decreases |es|
  {
    hide Apply, Run, Group, Resumed, Clamp;
    ResumedStates(st, st', start);
    if es == [] {
      NothingResumed(st, st');
      AtMostZero(start - st.itemIndex);
    } else {
      GroupStep(st, es);
      ApplyResumed(st, st', start, es[0]);
      RunStep(st, es);
      RunStep(st', es);
      var (t, rows) := Apply(st, es[0]).value;
      var (t', rows') := Apply(st', es[0]).value;
      var more := Run(t, es[1..]).value.1;
      if es[0].ty == TABLE_MAP_EVENT {
        RunResumed(t, t', 0, es[1..]);
        NoneDropped(more, Group(t, es[1..]), start - st.itemIndex);
      } else {
        RunResumed(t, t', start, es[1..]);
        DropSplit(rows, more, start - st.itemIndex, Group(t, es[1..]));
      }
    }
  }

  lemma NothingResumed(st: State, st': State)
    requires IsState(st) && IsState(st')
    ensures Group(st, []) == 0 && Run(st, []) == Some((st, [])) && Run(st', []) == Some((st', []))
  {}

  lemma AtMostZero(x: int)
    ensures Clamp(x, 0) == 0
  {}

  lemma NoneDropped(rows: seq<Entry>, g: nat, x: int)
    requires g <= |rows|
    ensures Clamp(0, g) == 0 && rows[Clamp(0, g)..] == rows && [] + rows == rows
    ensures Clamp(x, 0) == 0 && rows[Clamp(x, 0)..] == rows
  {}

  lemma DropSplit(a: seq<Entry>, b: seq<Entry>, x: int, g: nat)
    requires g <= |b|
    ensures a[Clamp(x, |a|)..] + b[Clamp(x - |a|, g)..] == (a + b)[Clamp(x, |a| + g)..]
  {}

  /** A fresh parser initialised with the label and fed the events emits these rows. */
  ghost predicate RestartGives(l: Label, es: seq<Event>, rows: seq<Entry>) {
    && IsName(l.log)
    && Run(Init(l.log, l.pos, l.index), es).Some?
    && Run(Init(l.log, l.pos, l.index), es).value.1 == rows
  }

  /** Rows up to the next table map carry consecutive indices. */
  lemma {:induction false} GroupLabels(st: State, es: seq<Event>, k: nat)
    requires IsState(st) && Run(st, es).Some? && st.startIndex == 0 && NoRotate(es)
    ensures Group(st, es) <= |Run(st, es).value.1|
    ensures k < Group(st, es) ==> Run(st, es).value.1[k].at == Label(st.log, st.tablePos, st.itemIndex + k)
    decreases |es|
  {
    hide Apply, Emit;
    if es == [] || es[0].ty == TABLE_MAP_EVENT {
    } else {
      RowsKeepPosition(st, es[0]);
      var (t, rows) := Apply(st, es[0]).value;
      GroupLabels(t, es[1..], if k < |rows| then 0 else k - |rows|);
    }
  }

  lemma RowsKeepPosition(st: State, e: Event)
    requires IsState(st) && st.startIndex == 0 && Apply(st, e).Some?
    requires e.ty != TABLE_MAP_EVENT && e.ty != ROTATE_EVENT
    ensures var (t, rows) := Apply(st, e).value;
            && t.startIndex == 0 && t.log == st.log && t.tablePos == st.tablePos
            && t.itemIndex == st.itemIndex + |rows|
            && forall k :: 0 <= k < |rows| ==> rows[k].at == Label(st.log, st.tablePos, st.itemIndex + k)
  {
    hide RowsBody, Emit, U32;
    if IsRows(e.ty) { EmitAll(st, RowsBody(e.ty, e.body, st.table).value.1, st.itemIndex); }
  }

  /** Restarting at a table map, in the middle of the rows that follow it. */
  lemma RestartAtTableMap(st: State, e: Event, es: seq<Event>, o: nat, k: nat)
    requires IsState(st) && st.startIndex == 0 && PointsAt(st, o) && 4 <= o < 0x1_0000_0000
    requires e.ty == TABLE_MAP_EVENT && NoRotate(es)
    requires Apply(st, e).Some? && Run(Apply(st, e).value.0, es).Some?
    requires k < Group(Apply(st, e).value.0, es)
    ensures var rows := Run(Apply(st, e).value.0, es).value.1;
            && k < |rows| && rows[k].at == Label(st.log, o, k)
            && RestartGives(rows[k].at, [e] + es, rows[k..])
  {
    hide Apply, Group, Run, PointsAt;
    ApplyPointsAt(st, e, o);
    RestartedTableMap(st, e, o, k);
    var st1, st1' := Apply(st, e).value.0, Apply(Init(st.log, o, k), e).value.0;
    GroupLabels(st1, es, k);
    RunResumed(st1, st1', k, es);
    RunFirst(Init(st.log, o, k), e, es);
  }

  lemma FirstTableMap(st: State, es: seq<Event>, o: nat, k: nat)
    requires IsState(st) && st.startIndex == 0 && PointsAt(st, o) && 4 <= o
    requires es != [] && es[0].ty == TABLE_MAP_EVENT && NoRotate(es) && Sized(es) && o + Length(es) <= 0x1_0000_0000
    requires Run(st, es).Some? && k < |Run(st, es).value.1|
    ensures var t := Apply(st, es[0]).value.0;
            && t.startIndex == 0 && t.log == st.log && Run(st, es).value.1 == Run(t, es[1..]).value.1
            && (k < Group(t, es[1..]) ==>
                  Run(st, es).value.1[k].at == Label(st.log, o, k)
                  && RestartGives(Run(st, es).value.1[k].at, es, Run(st, es).value.1[k..]))
  {
    hide Apply, RestartGives, Group;
    ApplyPointsAt(st, es[0], o);
    RestartedTableMap(st, es[0], o, 0);
    var t := Apply(st, es[0]).value.0;
    if k < Group(t, es[1..]) {
      RestartAtTableMap(st, es[0], es[1..], o, k);
      assert [es[0]] + es[1..] == es;
    }
  }

  lemma RestartedTableMap(st: State, e: Event, o: nat, k: nat)
    requires IsState(st) && st.startIndex == 0 && 4 <= o < 0x1_0000_0000
    requires e.ty == TABLE_MAP_EVENT && Apply(st, e).Some? && Apply(st, e).value.0.tablePos == o
    ensures var r := Apply(Init(st.log, o, k), e);
            && r.Some? && r.value.1 == [] && Resumed(Apply(st, e).value.0, r.value.0, k)
            && Apply(st, e).value.0.itemIndex == 0 && Apply(st, e).value.0.startIndex == 0
            && Apply(st, e).value.0.log == st.log && Apply(st, e).value.1 == []
  {
    hide Parse;
  }

  /** Every row of a run lies in the group of the current table map, or belongs to a
      later table map i: its position is that of event i, and restarting there with the
      row's label gives that row and all later ones. */
  lemma {:induction false} EveryRowResumes(st: State, es: seq<Event>, o: nat, k: nat) returns (i: nat)
    requires IsState(st) && st.startIndex == 0 && PointsAt(st, o) && 4 <= o
    requires NoRotate(es) && Sized(es) && o + Length(es) <= 0x1_0000_0000
    requires Run(st, es).Some? && k < |Run(st, es).value.1|
    ensures k >= Group(st, es) ==>
              var l := Run(st, es).value.1[k].at;
              && i < |es| && es[i].ty == TABLE_MAP_EVENT
              && l.log == st.log && l.pos == o + Length(es[..i])
              && RestartGives(l, es[i..], Run(st, es).value.1[k..])
    decreases |es|
  {
    hide Apply, RestartGives, PointsAt;
    i := 0;
    ApplyPointsAt(st, es[0], o);
    var (t, rows) := Apply(st, es[0]).value;
    var tail := Run(t, es[1..]).value.1;
    if es[0].ty == TABLE_MAP_EVENT {
      FirstTableMap(st, es, o, k);
      if k >= Group(t, es[1..]) {
        i := EveryRowResumes(t, es[1..], o + es[0].len, k);
        Later(es, i);
        i := i + 1;
      }
    } else {
      RowsKeepPosition(st, es[0]);
      if k >= |rows| {
        i := EveryRowResumes(t, es[1..], o + es[0].len, k - |rows|);
        assert (rows + tail)[k..] == tail[k - |rows|..];
        if k - |rows| >= Group(t, es[1..]) {
          Later(es, i);
          i := i + 1;
        }
      }
    }
  }

  // ---------------------------------------------------------------- the file

  /** No rows precede the first table map: the parser's table has no columns yet. */
  lemma {:induction false} NoRowsBeforeTable(st: State, es: seq<Event>)
    requires IsState(st) && st.table == NO_TABLE && Run(st, es).Some? && NoRotate(es)
    ensures Group(st, es) == 0
    decreases |es|
  {
    hide Apply, Emit;
    if es == [] || es[0].ty == TABLE_MAP_EVENT {
    } else {
      NoTableNoRows(st, es[0]);
      NoRowsBeforeTable(Apply(st, es[0]).value.0, es[1..]);
    }
  }

  lemma NoTableNoRows(st: State, e: Event)
    requires IsState(st) && st.table == NO_TABLE && Apply(st, e).Some?
    requires e.ty != TABLE_MAP_EVENT && e.ty != ROTATE_EVENT
    ensures Apply(st, e).value.0.table == NO_TABLE && Apply(st, e).value.0.itemIndex == st.itemIndex
  {
    hide Emit, U32, PacketInt, BitmapSize;
  }

  lemma {:induction false} EventsOfFile(bs: Octets)
    requires Frames(bs).Framed?
    ensures Sized(Frames(bs).events) && Length(Frames(bs).events) <= |bs|
    decreases |bs|
  {
    hide FirstEvent, EventLength;
    if !Complete(bs) {
    } else {
      FramesOfFirst(bs);
      assert FirstEvent(bs).len == EventLength(bs) by { FirstLength(bs); }
      EventsOfFile(bs[EventLength(bs)..]);
    }
  }

  /** A log file: a rotate event can only be its last event. */
  ghost predicate IsOneFile(es: seq<Event>) {
    forall i :: 0 <= i < |es| - 1 ==> es[i].ty != ROTATE_EVENT
  }

  lemma RotateAtTheEnd(st: State, es: seq<Event>, last: Event)
    requires IsState(st) && last.ty == ROTATE_EVENT && |last.body| >= 8 && IsName(NameIn(last))
    ensures Run(st, es + [last]).Some? <==> Run(st, es).Some?
    ensures Run(st, es).Some? ==> Run(st, es + [last]).value.1 == Run(st, es).value.1
  {
    hide Run;
    RunConcat(st, es, [last]);
    if Run(st, es).Some? {
      var t, rows := Run(st, es).value.0, Run(st, es).value.1;
      assert [last] == [last] + [];
      RunFirst(t, last, []);
      Rotates(t, last);
      RunNothing(Apply(t, last).value.0);
      assert rows + ([] + []) == rows;
    }
  }

  lemma LastIsRotate(st: State, es: seq<Event>, last: Event)
    requires IsState(st) && last.ty == ROTATE_EVENT && Run(st, es + [last]).Some?
    ensures |last.body| >= 8 && IsName(NameIn(last))
  {
    hide Run, IsName, CopyName;
    RunConcat(st, es, [last]);
    assert [last] == [last] + [];
    RunFirst(Run(st, es).value.0, last, []);
  }

  /** Every row of a file, from offset 4 on. */
  lemma EveryRowOfAFile(st: State, es: seq<Event>, k: nat) returns (i: nat)
    requires IsState(st) && st.startIndex == 0 && PointsAt(st, 4) && st.table == NO_TABLE
    requires IsOneFile(es) && Sized(es) && 4 + Length(es) <= 0x1_0000_0000
    requires Run(st, es).Some? && k < |Run(st, es).value.1|
    ensures var l := Run(st, es).value.1[k].at;
            && i < |es| && es[i].ty == TABLE_MAP_EVENT
            && l.log == st.log && l.pos == 4 + Length(es[..i])
            && RestartGives(l, es[i..], Run(st, es).value.1[k..])
  {
    hide Run, PointsAt, Group, Apply, IsName;
    var n := |es| - 1;
    if NoRotate(es) {
      NoRowsBeforeTable(st, es);
      i := EveryRowResumes(st, es, 4, k);
    } else {
      var body, last := es[..n], es[n];
      assert es == body + [last];
      LastIsRotate(st, body, last);
      RotateAtTheEnd(st, body, last);
      LengthOfFront(es);
      NoRowsBeforeTable(st, body);
      i := EveryRowResumes(st, body, 4, k);
      var l := Run(st, es).value.1[k].at;
      RotateAtTheEnd(Init(l.log, l.pos, l.index), body[i..], last);
      assert es[i..] == body[i..] + [last] && es[..i] == body[..i];
    }
  }

  lemma {:induction false} LengthOfFront(es: seq<Event>)
    requires es != []
    ensures Length(es[..|es| - 1]) <= Length(es)
    decreases |es|
  {
    if |es| == 1 {
    } else {
      LengthOfFront(es[1..]);
      assert es[..|es| - 1][1..] == es[1..][..|es[1..]| - 1];
    }
  }

  const FORMAT_DESCRIPTION_EVENT: Byte := 15

  /** The rotate event with which the server names the log on every connection. */
  ghost predicate NamesLog(e: Event, log: Octets) {
    e.ty == ROTATE_EVENT && |e.body| >= 8 && NameIn(e) == log
  }

  /** Fed the bytes, the parser emits these rows and leaves this tail. */
  ghost predicate Gives(st: State, bs: Octets, rows: seq<Entry>, rest: Octets) {
    IsState(st) && Process(st, bs).Some? && Process(st, bs).value.1 == rows && Process(st, bs).value.2 == rest
  }

  /** What the server may send before the events asked for: its rotate events naming the log
      and, unless the file is sent from its beginning, a format description and any other
      events that are neither table maps nor rows. */
  ghost predicate IsPreamble(es: seq<Event>, l: Label) {
    forall i :: 0 <= i < |es| ==>
      && es[i].ty != TABLE_MAP_EVENT && !IsRows(es[i].ty)
      && (NamesLog(es[i], l.log) || (es[i].ty != ROTATE_EVENT && l.pos > 4))
  }

  /** A fresh parser, but for the position fields. */
  ghost predicate IsFresh(st: State, l: Label) {
    && st == Init(l.log, l.pos, l.index).(tablePos := st.tablePos, curPos := st.curPos)
    && (l.pos > 4 || st.curPos == 0)
  }

  lemma PreambleStep(st: State, l: Label, e: Event)
    requires IsName(l.log) && IsFresh(st, l) && IsPreamble([e], l)
    ensures IsState(st) && Apply(st, e).Some?
    ensures IsFresh(Apply(st, e).value.0, l) && Apply(st, e).value.1 == []
  {
    hide IsName, U32;
    assert [e][0] == e;
  }

  lemma {:induction false} PreambleRun(st: State, l: Label, es: seq<Event>)
    requires IsName(l.log) && IsFresh(st, l) && IsPreamble(es, l)
    ensures IsState(st) && Run(st, es).Some?
    ensures IsFresh(Run(st, es).value.0, l) && Run(st, es).value.1 == []
    decreases |es|
  {
    hide IsName, Apply, IsFresh, NamesLog;
    FreshIsState(st, l);
    if es == [] {
      RunNothing(st);
    } else {
      PreambleStep(st, l, es[0]);
      PreambleRun(Apply(st, es[0]).value.0, l, es[1..]);
      RunStep(st, es);
    }
  }

  lemma FreshIsState(st: State, l: Label)
    requires IsName(l.log) && IsFresh(st, l)
    ensures IsState(st)
  {
    hide IsName;
  }

  /** A fresh parser goes on from a table map alike, whatever the preamble was. */
  lemma AfterPreamble(st: State, l: Label, es: seq<Event>)
    requires IsName(l.log) && 4 <= l.pos && IsFresh(st, l)
    requires es != [] && es[0].ty == TABLE_MAP_EVENT
    ensures IsState(st) && Run(st, es) == Run(Init(l.log, l.pos, l.index), es)
  {
    hide IsName, Apply;
    var begin := Init(l.log, l.pos, l.index);
    TableMapOfFresh(st, l, es[0]);
    RunStep(st, es);
    RunStep(begin, es);
  }

  lemma TableMapOfFresh(st: State, l: Label, e: Event)
    requires IsName(l.log) && 4 <= l.pos && IsFresh(st, l) && e.ty == TABLE_MAP_EVENT
    ensures IsState(st) && Apply(st, e) == Apply(Init(l.log, l.pos, l.index), e)
  {
    hide Parse, U32, IsName;
  }

  /** Restart is exact.  The server first names the log in a rotate event, then sends the
      file from offset 4 on, up to the rotate event that ends it if it is finished.  For
      every row emitted, a fresh parser initialised with that row's label and fed the file
      from the label's position, after whatever preamble of the new connection, emits
      exactly that row and all later ones, labels included, and leaves the same tail. */
  lemma RestartIsExact(name: Octets, rotate: Event, file: Octets, k: nat)
    requires IsName(name) && rotate.ty == ROTATE_EVENT
    requires Apply(Init(name, 4, 0), rotate).Some?
    requires |file| + 4 <= 0x1_0000_0000 && Frames(file).Framed? && IsOneFile(Frames(file).events)
    requires Process(Apply(Init(name, 4, 0), rotate).value.0, file).Some?
    requires k < |Process(Apply(Init(name, 4, 0), rotate).value.0, file).value.1|
    ensures var (_, rows, rest) := Process(Apply(Init(name, 4, 0), rotate).value.0, file).value;
            var l := rows[k].at;
            && IsName(l.log) && 4 <= l.pos <= 4 + |file|
            && forall before :: IsPreamble(before, l) ==>
                 && Run(Init(l.log, l.pos, l.index), before).Some?
                 && Run(Init(l.log, l.pos, l.index), before).value.1 == []
                 && Gives(Run(Init(l.log, l.pos, l.index), before).value.0, file[l.pos - 4..], rows[k..], rest)
  {
    hide Apply, Run, Frames, IsPreamble, IsName, PointsAt, IsFresh;
    var st := Apply(Init(name, 4, 0), rotate).value.0;
    var es := Frames(file).events;
    AfterRotate(name, 0, rotate);
    EventsOfFile(file);
    var i := EveryRowOfAFile(st, es, k);
    FramesFrom(file, i);
    var l := Process(st, file).value.1[k].at;
    forall before | IsPreamble(before, l)
      ensures Run(Init(l.log, l.pos, l.index), before).Some?
      ensures var (t, rows) := Run(Init(l.log, l.pos, l.index), before).value;
              rows == [] && IsState(t) && Run(t, es[i..]) == Run(Init(l.log, l.pos, l.index), es[i..])
    {
      InitIsFresh(l);
      PreambleRun(Init(l.log, l.pos, l.index), l, before);
      AfterPreamble(Run(Init(l.log, l.pos, l.index), before).value.0, l, es[i..]);
    }
  }

  lemma InitIsFresh(l: Label)
    ensures IsFresh(Init(l.log, l.pos, l.index), l)
  {}

  /** The empty preamble is one, and so are a rotate event and a format description. */
  lemma Preambles(l: Label, rotate: Event, description: Event)
    requires NamesLog(rotate, l.log) && description.ty == FORMAT_DESCRIPTION_EVENT
    ensures IsPreamble([], l) && IsPreamble([rotate], l)
    ensures IsPreamble([rotate, description], l) <==> l.pos > 4
  {
    var es := [rotate, description];
    if IsPreamble(es, l) { assert es[1] == description; }
  }
}

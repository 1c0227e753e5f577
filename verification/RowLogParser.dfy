/** The classes of ebinlog/BinlogRow.h and ebinlog/BinlogListener.py, proved against the
    functions of RowParser. */
module RowLogParser {
  import opened Bytes
  import opened LittleEndian
  import opened Options
  import opened TableMap
  import opened RowImage
  import opened RowParser
  import opened RowStream

  lemma ProcessStep(st: State, bs: Octets)
    requires IsState(st) && Process(st, bs).Some? && Complete(bs)
    ensures EventLength(bs) >= HEADER_SIZE && Apply(st, FirstEvent(bs)).Some?
    ensures var (t, rows) := Apply(st, FirstEvent(bs)).value;
            && Process(t, bs[EventLength(bs)..]).Some?
            && Process(st, bs).value.0 == Process(t, bs[EventLength(bs)..]).value.0
            && Process(st, bs).value.1 == rows + Process(t, bs[EventLength(bs)..]).value.1
            && Process(st, bs).value.2 == Process(t, bs[EventLength(bs)..]).value.2
  {
    hide Apply, Run, FirstEvent, EventLength;
    FramesOfFirst(bs);
    RunFirst(st, FirstEvent(bs), Frames(bs[EventLength(bs)..]).events);
  }

  lemma ProcessNothing(st: State, bs: Octets)
    requires IsState(st) && !Complete(bs)
    ensures Process(st, bs) == Some((st, [], bs))
  {
    RunNothing(st);
  }

  /** What is still to come after these rows makes up the whole. */
  ghost predicate Along(st: State, bs: Octets, rows: seq<Entry>, all: (State, seq<Entry>, Octets)) {
    && IsState(st) && Process(st, bs).Some?
    && var p := Process(st, bs).value;
       all == (p.0, rows + p.1, p.2)
  }

  lemma AlongStep(st: State, bs: Octets, rows: seq<Entry>, all: (State, seq<Entry>, Octets))
    requires Along(st, bs, rows, all) && Complete(bs)
    ensures EventLength(bs) >= HEADER_SIZE && Apply(st, FirstEvent(bs)).Some?
    ensures var (t, more) := Apply(st, FirstEvent(bs)).value;
            Along(t, bs[EventLength(bs)..], rows + more, all)
  {
    hide Process, Apply, FirstEvent, EventLength;
    ProcessStep(st, bs);
    var (t, more) := Apply(st, FirstEvent(bs)).value;
    var p := Process(t, bs[EventLength(bs)..]).value;
    assert rows + (more + p.1) == (rows + more) + p.1;
  }

  lemma AlongEnd(st: State, bs: Octets, rows: seq<Entry>, all: (State, seq<Entry>, Octets))
    requires Along(st, bs, rows, all) && !Complete(bs)
    ensures all == (st, rows, bs)
  {
    hide Process;
    ProcessNothing(st, bs);
    assert rows + [] == rows;
  }

  lemma AlongStart(st: State, bs: Octets)
    requires IsState(st) && Process(st, bs).Some?
    ensures Along(st, bs, [], Process(st, bs).value)
  {
    hide Process;
    assert [] + Process(st, bs).value.1 == Process(st, bs).value.1;
  }

  lemma ColumnsStep(bs: Octets, bits: Octets, t: Table, i: nat)
    requires IsTable(t) && i < |t.types| && BitmapSize(|t.types|) <= |bits|
    requires Columns(bs, bits, t, i).Some?
    ensures var v := if Bit(bits[i / 8], i % 8) then Some((Int(0), 0)) else Item(bs, t.types[i], t.metas[i]);
            && v.Some?
            && var rest := Columns(bs[v.value.1..], bits, t, i + 1);
               && rest.Some?
               && Columns(bs, bits, t, i).value == ([v.value.0] + rest.value.0, v.value.1 + rest.value.1)
  {
    hide Item, Bit;
    assert bs[0..] == bs;
  }

  lemma ColumnsEnd(bs: Octets, bits: Octets, t: Table)
    requires IsTable(t) && BitmapSize(|t.types|) <= |bits|
    ensures Columns(bs, bits, t, |t.types|) == Some(([], 0))
  {}

  lemma ChangesStep(ty: Byte, data: Octets, t: Table, pos: nat)
    requires IsTable(t) && pos < |data| && Changes(ty, data[pos..], t).Some?
    ensures var c := OneChange(ty, data[pos..], t);
            && c.Some? && c.value.1 > 0 && Changes(ty, data[pos + c.value.1..], t).Some?
            && Changes(ty, data[pos..], t).value == [c.value.0] + Changes(ty, data[pos + c.value.1..], t).value
  {
    hide OneChange;
    var n := OneChange(ty, data[pos..], t).value.1;
    assert data[pos..][n..] == data[pos + n..];
  }

  lemma ChangesEnd(ty: Byte, t: Table, st: State, index: nat)
    requires IsTable(t)
    ensures Changes(ty, [], t) == Some([]) && Emit(st, [], index) == []
  {}

  /** One more row, labelled or left out. */
  lemma EmitStep(rows: seq<Entry>, st: State, c: Change, rest: seq<Change>, index: nat)
    ensures var e := Entry(Label(st.log, st.tablePos, index), st.table.db, st.table.name, c);
            rows + Emit(st, [c] + rest, index)
            == (if index >= st.startIndex then rows + [e] else rows) + Emit(st, rest, index + 1)
  {
    assert ([c] + rest)[1..] == rest;
  }

  /** The C string at the front of a buffer. */
  function CString(bs: Octets): (s: Octets)
    ensures |s| <= |bs| && s == bs[..|s|] && (|s| == |bs| || bs[|s|] == 0)
    ensures forall i :: 0 <= i < |s| ==> s[i] != 0
  {
    if bs == [] || bs[0] == 0 then [] else [bs[0]] + CString(bs[1..])
  }

  /** The buffer holds the name and zeros behind it. */
  ghost predicate InPlace(bs: Octets, name: Octets) {
    && |bs| == NAME_MAX_LENGTH && IsName(name)
    && forall i :: 0 <= i < NAME_MAX_LENGTH ==> bs[i] == if i < |name| then name[i] else 0
  }

  lemma InPlaceIsRead(bs: Octets, name: Octets)
    requires InPlace(bs, name)
    ensures CString(bs) == name
  {
    var c := CString(bs);
    forall i | 0 <= i < |name| ensures bs[i] != 0 { assert bs[i] == name[i]; }
    forall i | 0 <= i < |c| ensures bs[i] != 0 { assert bs[i] == c[i]; }
    assert bs[|name|] == 0;
    assert bs[..|name|] == name;
  }

  lemma CopiedInPlace(bs: Octets, log: Octets, name: Octets)
    requires InPlace(bs, log) && IsName(name)
    ensures InPlace(name + bs[|name|..], CopyName(log, name))
  {
    var all, copied := name + bs[|name|..], CopyName(log, name);
    assert |all| == NAME_MAX_LENGTH;
    forall i | 0 <= i < NAME_MAX_LENGTH ensures all[i] == if i < |copied| then copied[i] else 0 {
      if i >= |name| { assert all[i] == bs[i]; }
    }
  }

  /** A name copied over another is read back as that copy. */
  lemma CopiedOver(bs: Octets, log: Octets, name: Octets)
    requires InPlace(bs, log) && IsName(name)
    ensures InPlace(name + bs[|name|..], CopyName(log, name))
    ensures CString(name + bs[|name|..]) == CopyName(log, name)
  {
    hide CString, CopyName;
    CopiedInPlace(bs, log, name);
    InPlaceIsRead(name + bs[|name|..], CopyName(log, name));
  }

  /** A name copied over unset memory is the name read back if and only if the memory
      behind it happens to hold a NUL. */
  lemma CopiedIsNameIff(name: Octets, memory: Octets)
    requires IsName(name) && |memory| == NAME_MAX_LENGTH
    ensures CString(name + memory[|name|..]) == name <==> memory[|name|] == 0
  {
    var bs := name + memory[|name|..];
    assert bs[|name|] == memory[|name|] && forall i :: 0 <= i < |name| ==> bs[i] == name[i];
    var s := CString(bs);
    assert |s| < |bs| ==> bs[|s|] == 0;
    assert |name| < |s| ==> s[|name|] == bs[|name|];
  }

  class CMyRowLogParser {
    var tablePos: nat
    var bufOffset: nat
    var startPos: nat
    var curStat: nat
    var itemIndex: nat
    var startIndex: nat
    var curPos: nat
    var buf: Octets
    var curEvent: Event
    const szCurLogName: array<Byte>
    const tableMap: CMyTableMap

    /** The C string in szCurLogName. */
    ghost var log: Octets

    /** The buffer of the name holds whatever the memory held before. */
    constructor (memory: seq<Byte>)
      requires |memory| == NAME_MAX_LENGTH
      ensures fresh(Repr()) && Allocated() && tableMap.Contents() == NO_TABLE
      ensures szCurLogName[..] == memory && log == CString(memory)
    {
      tablePos, curPos, startPos, curStat, itemIndex, startIndex, bufOffset := 0, 0, 0, 0, 0, 0, 0;
      buf, curEvent := [], Event(0, 0, []);
      log := CString(memory);
      szCurLogName := new Byte[NAME_MAX_LENGTH](i requires 0 <= i < |memory| => memory[i]);
      tableMap := new CMyTableMap();
    }

    /** Nothing is asked of the memory behind the name.  Called again on an object in use, it
        keeps the table, and the tail of a longer name. */
    method Init(name: Octets, startPos: nat, startIndex: nat)
      requires IsName(name) && Allocated()
      modifies this, szCurLogName
      ensures Allocated() && Repr() == old(Repr()) && tableMap.Contents() == old(tableMap.Contents())
      ensures szCurLogName[..] == name + old(szCurLogName[|name|..]) && log == CString(szCurLogName[..])
      ensures tablePos == 0 && curPos == 0 && curStat == 0 && itemIndex == 0 && bufOffset == 0
      ensures this.startPos == startPos && this.startIndex == startIndex
      ensures old(Valid()) ==>
                && Valid()
                && Abstract() == RowParser.Init(CopyName(old(log), name), startPos, startIndex)
                                   .(table := old(tableMap.Contents()))
    {
      hide CString, CopyName, CMyTableMap.Contents, CMyTableMap.Valid;
      ghost var was, old_ := szCurLogName[..], log;
      forall i | 0 <= i < |name| { szCurLogName[i] := name[i]; }
      assert szCurLogName[..] == name + was[|name|..];
      log := CString(szCurLogName[..]);
      if InPlace(was, old_) { CopiedOver(was, old_, name); }
      tablePos, curPos, this.startPos, curStat := 0, 0, startPos, 0;
      itemIndex, this.startIndex, bufOffset := 0, startIndex, 0;
    }

    ghost predicate Allocated()
      reads Repr()
    {
      tableMap.types != szCurLogName && tableMap.Valid() && szCurLogName.Length == NAME_MAX_LENGTH
    }

    ghost function Repr(): set<object>
      reads this
    {
      {this, szCurLogName, tableMap, tableMap.metas, tableMap.types, tableMap.nullable}
    }

    ghost predicate NameInPlace()
      reads `log, szCurLogName
    {
      InPlace(szCurLogName[..], log)
    }

    ghost predicate Valid()
      reads Repr()
    {
      tableMap.types != szCurLogName && tableMap.Valid() && NameInPlace()
    }

    ghost function Abstract(): (st: State)
      requires Valid()
      reads Repr()
      ensures IsState(st)
    {
      State(log, tablePos, curPos, startPos, startIndex, curStat, itemIndex, tableMap.Contents())
    }

    /** Moves to the next event if it is there as a whole.  An event that claims to be
        shorter than its header is taken too, and one of length 0 leaves the buffer as it
        was. */
    method GetEvent() returns (found: bool)
      requires Valid()
      modifies this`curEvent, this`curPos, this`buf, this`bufOffset
      ensures Valid() && found == old(Complete(buf))
      ensures !found ==> buf == old(buf) && curPos == old(curPos) && bufOffset == old(bufOffset)
      ensures found ==>
                && curEvent.ty == old(buf[4]) && curEvent.len == old(EventLength(buf))
                && buf == old(buf[EventLength(buf)..]) && bufOffset == old(bufOffset + EventLength(buf))
                && Abstract() == old(Abstract()).(curPos := U32(old(curPos + EventLength(buf))))
      ensures found && old(EventLength(buf)) >= HEADER_SIZE ==> curEvent == old(FirstEvent(buf))
      ensures forall e, rest :: IsLogEvent(e) && old(buf) == EventBytes(e) + rest ==>
                found && curEvent == EventOf(e) && buf == rest
      ensures forall e, n :: 0 <= n < |EventBytes(e)| && IsLogEvent(e) && old(buf) == EventBytes(e)[..n] ==> !found
    {
      hide Le, U32, EventBytes, IsLogEvent, EventOf;
      forall e, rest | IsLogEvent(e) && buf == EventBytes(e) + rest
        ensures Complete(buf) && EventLength(buf) >= HEADER_SIZE && FirstEvent(buf) == EventOf(e)
        ensures buf[EventLength(buf)..] == rest
      {
        WholeEvent(e, rest);
      }
      forall e, n | 0 <= n < |EventBytes(e)| && IsLogEvent(e) && buf == EventBytes(e)[..n] ensures !Complete(buf) {
        PartOfEvent(e, n);
      }
      if |buf| < 19 { return false; }
      var pos := 4;
      var typeCode := buf[pos];
      pos := pos + 1 + 4;
      var eventLen := Le(buf[pos..pos + 4]);
      pos := pos + 4 + 4 + 2;
      if |buf| < eventLen { return false; }
      curEvent := Event(typeCode, eventLen, if pos <= eventLen then buf[pos..eventLen] else []);
      curPos := U32(curPos + eventLen);
      bufOffset := bufOffset + eventLen;
      buf := buf[eventLen..];
      found := true;
    }

    method CurLogName() returns (name: Octets)
      requires Valid()
      ensures name == log
    {
      var i := 0;
      while szCurLogName[i] != 0
        invariant 0 <= i <= |log|
        decreases |log| - i
      {
        i := i + 1;
      }
      name := szCurLogName[..i];
    }

    method DecodeOneRow(data: Octets, pos: nat) returns (row: seq<Value>, end: nat)
      requires Valid() && pos <= |data| && Row(data[pos..], tableMap.Contents()).Some?
      ensures row == Row(data[pos..], tableMap.Contents()).value.0
      ensures end == pos + Row(data[pos..], tableMap.Contents()).value.1
    {
      hide Item, Bit, Columns;
      ghost var t := tableMap.Contents();
      var k := BitmapSize(tableMap.columns);
      var bits := data[pos..pos + k];
      assert bits == data[pos..][..k] && data[pos + k..] == data[pos..][k..];
      ghost var all := Columns(data[pos + k..], bits, t, 0).value;
      row, end := [], pos + k;
      for i := 0 to tableMap.columns
        invariant end <= |data| && Columns(data[end..], bits, t, i).Some?
        invariant all.0 == row + Columns(data[end..], bits, t, i).value.0
        invariant pos + k + all.1 == end + Columns(data[end..], bits, t, i).value.1
      {
        ColumnsStep(data[end..], bits, t, i);
        if !Bit(bits[i / 8], i % 8) {
          var v := Item(data[end..], tableMap.types[i], tableMap.metas[i]).value;
          DropBoth(data, end, v.1);
          row, end := row + [v.0], end + v.1;
        } else {
          DropBoth(data, end, 0);
          row := row + [Int(0)];
        }
      }
      ColumnsEnd(data[end..], bits, t);
    }

    method DecodeChange(data: Octets, pos: nat) returns (change: Change, end: nat)
      requires Valid() && pos <= |data| && OneChange(curEvent.ty, data[pos..], tableMap.Contents()).Some?
      ensures change == OneChange(curEvent.ty, data[pos..], tableMap.Contents()).value.0
      ensures end == pos + OneChange(curEvent.ty, data[pos..], tableMap.Contents()).value.1
    {
      hide Row;
      var row;
      row, end := DecodeOneRow(data, pos);
      if curEvent.ty == UPDATE_ROWS_EVENT {
        var newRow;
        assert data[pos..][end - pos..] == data[end..];
        newRow, end := DecodeOneRow(data, end);
        change := Update(row, newRow);
      } else if curEvent.ty == DELETE_ROWS_EVENT {
        change := Delete(row);
      } else {
        change := Insert(row);
      }
    }

    method DecodeEvent(data: Octets, pRows: seq<Entry>) returns (rows: seq<Entry>)
      requires Valid() && Changes(curEvent.ty, Images(data), tableMap.Contents()).Some?
      modifies this`itemIndex
      ensures Valid()
      ensures var cs := Changes(curEvent.ty, old(Images(data)), old(tableMap.Contents())).value;
              && rows == pRows + Emit(old(Abstract()), cs, old(itemIndex))
              && itemIndex == old(itemIndex) + |cs|
    {
      hide OneChange, Changes, NameInPlace, BitmapSize, Emit;
      ghost var t, st := tableMap.Contents(), Abstract();
      ghost var cs := Changes(curEvent.ty, Images(data), t).value;
      rows := pRows;
      ChangesEnd(curEvent.ty, t, st, itemIndex);
      var pos := if curEvent.ty == UPDATE_ROWS_EVENT then BitmapSize(tableMap.columns) else 0;
      if pos >= |data| { return; }
      while pos < |data|
        invariant Valid() && pos <= |data| && Changes(curEvent.ty, data[pos..], t).Some?
        invariant itemIndex + |Changes(curEvent.ty, data[pos..], t).value| == old(itemIndex) + |cs|
        invariant rows + Emit(st, Changes(curEvent.ty, data[pos..], t).value, itemIndex)
                  == pRows + Emit(st, cs, old(itemIndex))
      {
        ChangesStep(curEvent.ty, data, t, pos);
        var change, end := DecodeChange(data, pos);
        EmitStep(rows, st, change, Changes(curEvent.ty, data[end..], t).value, itemIndex);
        var name := CurLogName();
        if itemIndex >= startIndex {
          rows := rows + [Entry(Label(name, tablePos, itemIndex), tableMap.db, tableMap.name, change)];
        }
        itemIndex, pos := itemIndex + 1, end;
      }
      assert data[pos..] == [];
      ChangesEnd(curEvent.ty, t, st, itemIndex);
    }

    /** The row images of an event behind the bitmap of updated columns. */
    ghost function Images(data: Octets): Octets
      reads this, tableMap
    {
      var k := if curEvent.ty == UPDATE_ROWS_EVENT then BitmapSize(tableMap.columns) else 0;
      if |data| <= k then [] else data[k..]
    }

    method ProcessTableMap()
      requires Valid() && Parse(curEvent.body).Some?
      modifies this`tablePos, this`startIndex, this`startPos, this`curStat, this`itemIndex, this`curPos
      modifies tableMap, tableMap.metas, tableMap.types, tableMap.nullable
      ensures Valid()
      ensures forall st: State :: old(Abstract()) == Moved(st, curEvent) ==>
                ApplyTableMap(st, curEvent) == Some((Abstract(), []))
    {
      hide Parse, U32;
      tableMap.Process(curEvent.body);
      if curStat != 0 {
        tablePos := U32(tablePos + U32(curPos - curEvent.len));
        startIndex := 0;
      } else if startPos > 4 {
        tablePos := startPos;
      } else if startPos == 4 {
        tablePos := U32(4 + U32(curPos - curEvent.len));
        startPos := 0;
      }
      curStat, itemIndex, curPos := 1, 0, curEvent.len;
    }

    method ProcessRotate()
      requires Valid() && |curEvent.body| >= 8 && IsName(curEvent.body[8..])
      modifies this`tablePos, this`curPos, this`log, szCurLogName
      ensures Valid()
      ensures forall st: State :: old(Abstract()) == Moved(st, curEvent) ==>
                ApplyRotate(st, curEvent) == Some((Abstract(), []))
    {
      var name := curEvent.body[8..];
      forall i | 0 <= i < |name| { szCurLogName[i] := name[i]; }
      log := CopyName(log, name);
      curPos, tablePos := 0, 4;
    }

    method ProcessRows(pRows: seq<Entry>) returns (rows: seq<Entry>)
      requires Valid() && RowsBody(curEvent.ty, curEvent.body, tableMap.Contents()).Some?
      modifies this`curStat, this`itemIndex
      ensures Valid()
      ensures forall st: State :: IsState(st) && old(Abstract()) == Moved(st, curEvent) ==>
                ApplyRows(st, curEvent).Some? && ApplyRows(st, curEvent).value.0 == Abstract()
                && rows == pRows + ApplyRows(st, curEvent).value.1
    {
      hide Changes, U32, Emit, PacketInt, BitmapSize;
      var offset := 6;
      var endFlag := curEvent.body[offset];
      offset := offset + 2;
      var columns := PacketInt(curEvent.body[offset..]).value;
      offset := offset + columns.1 + BitmapSize(columns.0);
      ghost var before := Abstract();
      if endFlag % 2 == 1 { curStat := 2; }
      ghost var cs := Changes(curEvent.ty, Images(curEvent.body[offset..]), tableMap.Contents()).value;
      forall st | before == Moved(st, curEvent) ensures Emit(Abstract(), cs, itemIndex) == Emit(st, cs, itemIndex) {
        EmitReads(Abstract(), st, cs, itemIndex);
      }
      rows := DecodeEvent(curEvent.body[offset..], pRows);
    }

    method ProcessRowEvent(ghost st: State, pRows: seq<Entry>) returns (rows: seq<Entry>)
      requires IsState(st) && Valid() && Abstract() == Moved(st, curEvent) && Apply(st, curEvent).Some?
      modifies this`tablePos, this`startIndex, this`startPos, this`curStat, this`itemIndex, this`curPos, this`log
      modifies szCurLogName, tableMap, tableMap.metas, tableMap.types, tableMap.nullable
      ensures Valid() && Abstract() == Apply(st, curEvent).value.0
      ensures rows == pRows + Apply(st, curEvent).value.1
    {
      hide RowsBody, Parse, IsName, U32, CopyName, Emit;
      rows := pRows;
      if curEvent.ty == TABLE_MAP_EVENT {
        ProcessTableMap();
      } else if curEvent.ty == ROTATE_EVENT {
        ProcessRotate();
      } else if IsRows(curEvent.ty) {
        rows := ProcessRows(pRows);
      }
    }

    /** One round of the loop: the next event, if it is complete. */
    method NextEvent(pRows: seq<Entry>, ghost all: (State, seq<Entry>, Octets))
      returns (found: bool, rows: seq<Entry>)
      requires Valid() && Along(Abstract(), buf, pRows, all)
      modifies Repr()
      ensures Valid() && Repr() == old(Repr()) && Along(Abstract(), buf, rows, all)
      ensures found == old(Complete(buf))
      ensures !found ==> buf == old(buf) && bufOffset == old(bufOffset)
      ensures found ==>
                && HEADER_SIZE <= old(EventLength(buf)) <= old(|buf|)
                && buf == old(buf[EventLength(buf)..]) && bufOffset == old(bufOffset + EventLength(buf))
    {
      hide Along, Apply, FirstEvent, EventLength, U32, NameInPlace, CMyTableMap.Contents, CMyTableMap.Valid;
      ghost var st, bs := Abstract(), buf;
      if Complete(buf) { AlongStep(st, bs, pRows, all); FirstLength(bs); }
      found := GetEvent();
      rows := pRows;
      if found { rows := ProcessRowEvent(st, rows); }
    }

    /** One call of process on the bytes received and not yet consumed: the rows of the
        complete events, and how many bytes those take. */
    method Process(data: Octets) returns (rows: seq<Entry>, consumed: nat)
      requires Valid() && RowParser.Process(Abstract(), data).Some?
      modifies Repr()
      ensures Valid() && consumed <= |data|
      ensures RowParser.Process(old(Abstract()), data) == Some((Abstract(), rows, data[consumed..]))
    {
      hide RowParser.Process, Along, EventLength, CMyTableMap.Contents, CMyTableMap.Valid;
      ghost var all := RowParser.Process(Abstract(), data).value;
      AlongStart(Abstract(), data);
      buf, bufOffset, rows := data, 0, [];
      while |buf| > 0
        invariant Valid() && Repr() == old(Repr()) && bufOffset <= |data| && buf == data[bufOffset..]
        invariant Along(Abstract(), buf, rows, all)
        decreases |buf|
      {
        var found;
        found, rows := NextEvent(rows, all);
        if !found { break; }
      }
      AlongEnd(Abstract(), buf, rows, all);
      consumed := bufOffset;
    }
  }

  /** The state once the event has been taken from the buffer. */
  ghost function Moved(st: State, e: Event): State {
    st.(curPos := U32(st.curPos + e.len))
  }

  lemma {:induction false} EmitReads(a: State, b: State, cs: seq<Change>, index: nat)
    requires a.log == b.log && a.tablePos == b.tablePos && a.startIndex == b.startIndex && a.table == b.table
    ensures Emit(a, cs, index) == Emit(b, cs, index)
  {
    if cs == [] {
    } else {
      EmitReads(a, b, cs[1..], index + 1);
    }
  }

  // ---------------------------------------------------------------- the listener

  /** What the receive call returns: a packet; -1; 0, for a connection that is closed; or
      another negative number. */
  datatype Received = Packet(bytes: Octets) | NoSocket | Closed | Failed

  /** Rows; nothing; an exception; or no end yet, when nothing more has been received. */
  datatype Outcome = Rows(rows: seq<Entry>) | Nothing | Raised | Pending

  /** What follows the status byte of a packet. */
  function Payload(packet: Octets): Octets {
    if packet == [] then [] else packet[1..]
  }

  function Payloads(packets: seq<Octets>): (r: seq<Octets>)
    ensures |r| == |packets|
  {
    seq(|packets|, i requires 0 <= i < |packets| => Payload(packets[i]))
  }

  /** The packets before the first answer that is none. */
  function Packets(received: seq<Received>): (r: seq<Octets>)
    ensures |r| <= |received| && (|r| < |received| ==> !received[|r|].Packet?)
    ensures forall i :: 0 <= i < |r| ==> received[i] == Packet(r[i])
  {
    if received == [] || !received[0].Packet? then [] else [received[0].bytes] + Packets(received[1..])
  }

  class BinlogListener {
    var data: Octets
    const parser: CMyRowLogParser

    constructor (name: Octets, position: nat, index: nat)
      requires IsName(name)
      ensures data == [] && parser.Valid() && parser.Abstract() == RowParser.Init(name, position, index)
      ensures fresh(parser.Repr())
    {
      data := [];
      parser := new CMyRowLogParser(seq(NAME_MAX_LENGTH, i => 0));
      new;
      parser.Init(name, position, index);
    }

    /** Appends a payload, runs the parser, and keeps the tail it did not consume. */
    method Take(payload: Octets) returns (rows: seq<Entry>)
      requires this !in parser.Repr() && parser.Valid()
      requires RowParser.Process(parser.Abstract(), data + payload).Some?
      modifies this, parser.Repr()
      ensures parser.Valid() && parser.Repr() == old(parser.Repr())
      ensures RowParser.Process(old(parser.Abstract()), old(data) + payload) == Some((parser.Abstract(), rows, data))
    {
      hide RowParser.Process, CMyRowLogParser.NameInPlace, CMyTableMap.Valid, CMyTableMap.Contents;
      data := data + payload;
      var consumed;
      rows, consumed := parser.Process(data);
      data := data[consumed..];
    }

    /** Receives packets until one of them completes a row, or the receive call says that
        there will be none.  The state, the rows and the carried-over tail are those of
        feeding the payloads of the packets taken. */
    method GetEvent(received: seq<Received>) returns (result: Outcome, taken: nat)
      requires this !in parser.Repr() && parser.Valid()
      requires Feed(parser.Abstract(), data, Payloads(Packets(received))).Some?
      modifies this, parser.Repr()
      ensures parser.Valid() && taken <= |Packets(received)|
      ensures Feed(old(parser.Abstract()), old(data), Payloads(Packets(received)[..taken]))
              == Some((parser.Abstract(), if result.Rows? then result.rows else [], data))
      ensures match result
              case Rows(rows) => rows != []
              case Pending => taken == |received|
              case Nothing => taken < |received| && received[taken] == NoSocket
              case Raised => taken < |received| && (received[taken] == Closed || received[taken] == Failed)
      ensures forall n :: 0 <= n < taken ==>
                NoRowsYet(old(parser.Abstract()), old(data), Payloads(Packets(received)[..n]))
    {
      hide RowParser.Process, Feed, NoRowsYet, Payload, CMyRowLogParser.NameInPlace;
      hide CMyTableMap.Valid, CMyTableMap.Contents;
      ghost var st0, data0, packets := parser.Abstract(), data, Packets(received);
      taken := 0;
      FeedNothing(st0, data0, packets);
      while taken < |received| && received[taken].Packet?
        invariant taken <= |packets| && parser.Valid()
        invariant Feed(st0, data0, Payloads(packets[..taken])) == Some((parser.Abstract(), [], data))
        invariant Feed(parser.Abstract(), data, Payloads(packets[taken..])).Some?
        invariant forall n :: 0 <= n < taken ==> NoRowsYet(st0, data0, Payloads(packets[..n]))
        decreases |received| - taken
      {
        ghost var st1, data1 := parser.Abstract(), data;
        FeedOne(st0, data0, packets, taken, st1, data1);
        FeedsNoRows(st0, data0, Payloads(packets[..taken]), st1, data1);
        var rows := Take(Payload(received[taken].bytes));
        taken := taken + 1;
        if rows != [] { return Rows(rows), taken; }
      }
      if taken == |received| { return Pending, taken; }
      result := if received[taken] == NoSocket then Nothing else Raised;
    }
  }

  lemma FeedsNoRows(st: State, pending: Octets, chunks: seq<Octets>, t: State, rest: Octets)
    requires IsState(st) && Feed(st, pending, chunks) == Some((t, [], rest))
    ensures NoRowsYet(st, pending, chunks)
  {
    hide Feed;
  }

  ghost predicate NoRowsYet(st: State, pending: Octets, chunks: seq<Octets>)
    requires IsState(st)
  {
    Feed(st, pending, chunks).Some? && Feed(st, pending, chunks).value.1 == []
  }

  lemma FeedNothing(st: State, pending: Octets, packets: seq<Octets>)
    requires IsState(st)
    ensures Feed(st, pending, Payloads(packets[..0])) == Some((st, [], pending))
    ensures Payloads(packets[0..]) == Payloads(packets)
  {}

  lemma FeedOne(st0: State, data0: Octets, packets: seq<Octets>, n: nat, st: State, data: Octets)
    requires IsState(st0) && IsState(st) && n < |packets|
    requires Feed(st0, data0, Payloads(packets[..n])) == Some((st, [], data))
    requires Feed(st, data, Payloads(packets[n..])).Some?
    ensures var a := RowParser.Process(st, data + Payload(packets[n]));
            && a.Some?
            && Feed(st0, data0, Payloads(packets[..n + 1])) == a
            && Feed(a.value.0, a.value.2, Payloads(packets[n + 1..])).Some?
  {
    hide RowParser.Process;
    assert Payloads(packets[n..])[1..] == Payloads(packets[n + 1..]);
    assert Payloads(packets[..n + 1]) == Payloads(packets[..n]) + [Payload(packets[n])];
    FeedLast(st0, data0, Payloads(packets[..n]), Payload(packets[n]));
    var a := RowParser.Process(st, data + Payload(packets[n])).value;
    assert [] + a.1 == a.1;
  }

  lemma {:induction false} FeedLast(st: State, pending: Octets, chunks: seq<Octets>, c: Octets)
    requires IsState(st) && Feed(st, pending, chunks).Some?
    ensures Feed(st, pending, chunks + [c]) ==
            var (t, rows, rest) := Feed(st, pending, chunks).value;
            var a := RowParser.Process(t, rest + c);
            if a.None? then None else Some((a.value.0, rows + a.value.1, a.value.2))
    decreases |chunks|
  {
    hide RowParser.Process;
    if chunks == [] {
      assert [c][1..] == [] && [] + [c] == [c];
      var a := RowParser.Process(st, pending + c);
      if a.Some? { assert Feed(a.value.0, a.value.2, []).value.1 == [] && a.value.1 + [] == [] + a.value.1; }
    } else {
      assert (chunks + [c])[1..] == chunks[1..] + [c];
      var a := RowParser.Process(st, pending + chunks[0]).value;
      FeedLast(a.0, a.2, chunks[1..], c);
      var b := Feed(a.0, a.2, chunks[1..]).value;
      var last := RowParser.Process(b.0, b.2 + c);
      if last.Some? { assert a.1 + (b.1 + last.value.1) == (a.1 + b.1) + last.value.1; }
    }
  }
}

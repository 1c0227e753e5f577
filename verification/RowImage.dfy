/** Row images of the binary log (ebinlog/BinlogRow.h): a null bitmap followed by the
    typed values of the columns that are not null. */
module RowImage {
  import opened Bytes
  import opened LittleEndian
  import opened Options
  import opened TableMap

  const WRITE_ROWS_EVENT: Byte := 23
  const UPDATE_ROWS_EVENT: Byte := 24
  const DELETE_ROWS_EVENT: Byte := 25

  datatype Value = Int(n: int) | Str(s: Octets)

  /** One entry of a rows event. */
  datatype Change = Insert(new_: seq<Value>) | Delete(old_: seq<Value>) | Update(before: seq<Value>, after: seq<Value>)

  // ---------------------------------------------------------------- decoding

  function IntItem(bs: Octets, k: nat): Option<(Value, nat)> {
    if |bs| < k then None else Some((Int(Signed(Le(bs[..k]), k)), k))
  }

  function StrItem(bs: Octets, k: nat): Option<(Value, nat)> {
    if |bs| < k || |bs| < k + Le(bs[..k]) then None
    else Some((Str(bs[k..k + Le(bs[..k])]), k + Le(bs[..k])))
  }

  /** The value at the front of the bytes and how many of them it takes; none if the
      bytes end first or the column type is not one of those modelled. */
  function Item(bs: Octets, ty: Byte, meta: nat): (r: Option<(Value, nat)>)
    ensures r.Some? ==> 0 < r.value.1 <= |bs|
  {
    if ty == MYSQL_TYPE_LONG || ty == MYSQL_TYPE_TIMESTAMP then IntItem(bs, 4)
    else if ty == MYSQL_TYPE_TINY then IntItem(bs, 1)
    else if ty == MYSQL_TYPE_SHORT then IntItem(bs, 2)
    else if ty == MYSQL_TYPE_LONGLONG then IntItem(bs, 8)
    else if ty == MYSQL_TYPE_INT24 then IntItem(bs, 3)
    else if ty == MYSQL_TYPE_BLOB then if 1 <= meta <= 4 then StrItem(bs, meta) else None
    else if ty == MYSQL_TYPE_VARCHAR || ty == MYSQL_TYPE_VAR_STRING then StrItem(bs, if meta < 256 then 1 else 2)
    else None
  }

  /** The columns from the i-th on; a null column yields the integer 0. */
  function Columns(bs: Octets, bits: Octets, t: Table, i: nat): (r: Option<(seq<Value>, nat)>)
    requires |t.types| == |t.metas| && i <= |t.types| && BitmapSize(|t.types|) <= |bits|
    ensures r.Some? ==> r.value.1 <= |bs| && |r.value.0| == |t.types| - i
    decreases |t.types| - i
  {
    if i == |t.types| then Some(([], 0))
    else if Bit(bits[i / 8], i % 8) then
      var rest := Columns(bs, bits, t, i + 1);
      if rest.None? then None else Some(([Int(0)] + rest.value.0, rest.value.1))
    else
      var v := Item(bs, t.types[i], t.metas[i]);
      if v.None? then None else
      var rest := Columns(bs[v.value.1..], bits, t, i + 1);
      if rest.None? then None else Some(([v.value.0] + rest.value.0, v.value.1 + rest.value.1))
  }

  ghost predicate IsTable(t: Table) { |t.types| == |t.metas| }

  function Row(bs: Octets, t: Table): (r: Option<(seq<Value>, nat)>)
    requires |t.types| == |t.metas|
    ensures r.Some? ==> BitmapSize(|t.types|) <= r.value.1 <= |bs|
  {
    var k := BitmapSize(|t.types|);
    if |bs| < k then None else
    var r := Columns(bs[k..], bs[..k], t, 0);
    if r.None? then None else Some((r.value.0, k + r.value.1))
  }

  function OneChange(ty: Byte, bs: Octets, t: Table): (r: Option<(Change, nat)>)
    requires |t.types| == |t.metas|
    ensures r.Some? ==> BitmapSize(|t.types|) <= r.value.1 <= |bs|
  {
    var a := Row(bs, t);
    if a.None? then None
    else if ty == UPDATE_ROWS_EVENT then
      var b := Row(bs[a.value.1..], t);
      if b.None? then None else Some((Update(a.value.0, b.value.0), a.value.1 + b.value.1))
    else if ty == DELETE_ROWS_EVENT then Some((Delete(a.value.0), a.value.1))
    else Some((Insert(a.value.0), a.value.1))
  }

  /** The changes of an event.  A table without columns would read no byte per row, so
      the source's loop over a non-empty body would not end; that is none here. */
  function Changes(ty: Byte, bs: Octets, t: Table): Option<seq<Change>>
    requires |t.types| == |t.metas|
    decreases |bs|
  {
    if bs == [] then Some([])
    else if t.types == [] then None
    else
      var c := OneChange(ty, bs, t);
      if c.None? then None else
      var rest := Changes(ty, bs[c.value.1..], t);
      if rest.None? then None else Some([c.value.0] + rest.value)
  }

  /** The end flag and the changes of a rows event body. */
  function RowsBody(ty: Byte, body: Octets, t: Table): Option<(bool, seq<Change>)>
    requires |t.types| == |t.metas|
  {
    if |body| < 8 then None else
    var n := PacketInt(body[8..]);
    if n.None? || |body| < 8 + n.value.1 + BitmapSize(n.value.0) then None else
    var rows := body[8 + n.value.1 + BitmapSize(n.value.0)..];
    var k := if ty == UPDATE_ROWS_EVENT then BitmapSize(|t.types|) else 0;
    var cs := Changes(ty, if |rows| <= k then [] else rows[k..], t);
    if cs.None? then None else Some((body[6] % 2 == 1, cs.value))
  }

  // ---------------------------------------------------------------- encoding

  function LengthBytes(c: Column): nat {
    match c
    case Varchar(n) => if n < 256 then 1 else 2
    case Blob(k) => k
    case Plain(ty) => if ty == MYSQL_TYPE_VAR_STRING then 1 else 0
    case _ => 0
  }

  function IntBytes(c: Column): nat {
    match c
    case Tiny => 1
    case Short => 2
    case Int24 => 3
    case Long => 4
    case LongLong => 8
    case Plain(ty) => if ty == MYSQL_TYPE_TIMESTAMP then 4 else 0
    case _ => 0
  }

  /** The value belongs to the column's domain. */
  predicate Fits(v: Value, c: Column) {
    match v
    case Int(n) => IntBytes(c) > 0 && -Half(IntBytes(c)) <= n < Half(IntBytes(c))
    case Str(s) =>
      && LengthBytes(c) > 0 && |s| < Pow256(LengthBytes(c))
      && (c.Varchar? ==> |s| <= c.maxLen)
  }

  function ItemBytes(v: Value, c: Column): Octets
    requires Fits(v, c)
  {
    match v
    case Int(n) => SignedBytes(n, IntBytes(c))
    case Str(s) => ToLe(|s|, LengthBytes(c)) + s
  }

  ghost predicate RowFits(row: seq<Option<Value>>, cols: seq<Column>) {
    |row| == |cols| && forall i :: 0 <= i < |row| && row[i].Some? ==> Fits(row[i].value, cols[i])
  }

  function NullFlags(row: seq<Option<Value>>): (f: seq<bool>)
    ensures |f| == |row|
  {
    seq(|row|, i requires 0 <= i < |row| => row[i].None?)
  }

  function ItemsBytes(row: seq<Option<Value>>, cols: seq<Column>, i: nat): Octets
    requires RowFits(row, cols) && i <= |row|
    decreases |row| - i
  {
    if i == |row| then []
    else if row[i].None? then ItemsBytes(row, cols, i + 1)
    else ItemBytes(row[i].value, cols[i]) + ItemsBytes(row, cols, i + 1)
  }

  function RowBytes(row: seq<Option<Value>>, cols: seq<Column>): Octets
    requires RowFits(row, cols)
  {
    Pack(NullFlags(row)) + ItemsBytes(row, cols, 0)
  }

  /** What the decoder makes of a row: null becomes the integer 0. */
  function NullAsZero(row: seq<Option<Value>>): (r: seq<Value>)
    ensures |r| == |row|
  {
    seq(|row|, i requires 0 <= i < |row| => if row[i].None? then Int(0) else row[i].value)
  }

  lemma ItemRoundTrip(v: Value, c: Column, rest: Octets)
    requires IsColumn(c) && Fits(v, c)
    ensures Item(ItemBytes(v, c) + rest, RealTypeOf(c), MetaWord(c)) == Some((v, |ItemBytes(v, c)|))
  {
    hide Le, Pow256;
    var bs := ItemBytes(v, c) + rest;
    match v
    case Int(n) =>
      var k := IntBytes(c);
      assert bs[..k] == SignedBytes(n, k);
      SignedRoundTrip(n, k);
    case Str(s) =>
      var k := LengthBytes(c);
      LeRoundTrip(|s|, k);
      assert bs[..k] == ToLe(|s|, k);
      assert bs[k..k + |s|] == s;
  }

  ghost predicate Describes(t: Table, cols: seq<Column>) {
    t.types == RealTypesOf(cols) && t.metas == MetaWords(cols)
  }

  lemma BehindHead(head: Octets, more: Octets, rest: Octets)
    ensures (head + more) + rest == head + (more + rest) && (head + (more + rest))[|head|..] == more + rest
  {}

  lemma ItemsStep(row: seq<Option<Value>>, cols: seq<Column>, i: nat)
    requires RowFits(row, cols) && i <= |row|
    ensures ItemsBytes(row, cols, |row|) == []
    ensures i < |row| && row[i].None? ==> ItemsBytes(row, cols, i) == ItemsBytes(row, cols, i + 1)
  {}

  lemma ItemRead(row: seq<Option<Value>>, cols: seq<Column>, t: Table, i: nat, rest: Octets)
    requires AreColumns(cols) && RowFits(row, cols) && Describes(t, cols) && i < |row| && row[i].Some?
    ensures var bs, v := ItemsBytes(row, cols, i) + rest, row[i].value;
            var n := |ItemBytes(v, cols[i])|;
            && |ItemsBytes(row, cols, i)| == n + |ItemsBytes(row, cols, i + 1)|
            && Item(bs, t.types[i], t.metas[i]) == Some((v, n))
            && bs[n..] == ItemsBytes(row, cols, i + 1) + rest
  {
    hide Item, ItemBytes;
    var head, more := ItemBytes(row[i].value, cols[i]), ItemsBytes(row, cols, i + 1);
    ItemRoundTrip(row[i].value, cols[i], more + rest);
    BehindHead(head, more, rest);
  }

  lemma {:induction false} ColumnsRoundTrip(row: seq<Option<Value>>, cols: seq<Column>, t: Table, i: nat, rest: Octets)
    requires AreColumns(cols) && RowFits(row, cols) && Describes(t, cols) && i <= |row|
    ensures Columns(ItemsBytes(row, cols, i) + rest, Pack(NullFlags(row)), t, i)
            == Some((NullAsZero(row)[i..], |ItemsBytes(row, cols, i)|))
    decreases |row| - i
  {
    hide Item, ItemBytes, Pack, Bit, ItemsBytes, AreColumns;
    ItemsStep(row, cols, i);
    if i == |row| {
      assert NullAsZero(row)[i..] == [];
    } else {
      PackBits(NullFlags(row), i);
      ColumnsRoundTrip(row, cols, t, i + 1, rest);
      assert NullAsZero(row)[i..] == [NullAsZero(row)[i]] + NullAsZero(row)[i + 1..];
      if row[i].Some? { ItemRead(row, cols, t, i, rest); }
    }
  }

  /** A row image decodes to its row, null read as 0, and takes exactly its bytes. */
  lemma RowRoundTrip(row: seq<Option<Value>>, cols: seq<Column>, t: Table, rest: Octets)
    requires AreColumns(cols) && RowFits(row, cols) && Describes(t, cols)
    ensures Row(RowBytes(row, cols) + rest, t) == Some((NullAsZero(row), |RowBytes(row, cols)|))
  {
    hide Columns, ItemsBytes, Pack;
    var bits, k := Pack(NullFlags(row)), BitmapSize(|cols|);
    var bs := RowBytes(row, cols) + rest;
    ColumnsRoundTrip(row, cols, t, 0, rest);
    assert bs[..k] == bits && bs[k..] == ItemsBytes(row, cols, 0) + rest;
    assert NullAsZero(row)[0..] == NullAsZero(row);
  }

  /** A change as the server logged it, nulls included. */
  datatype Logged =
    | Inserted(row: seq<Option<Value>>)
    | Deleted(row: seq<Option<Value>>)
    | Updated(before: seq<Option<Value>>, after: seq<Option<Value>>)

  ghost predicate LoggedFits(c: Logged, ty: Byte, cols: seq<Column>) {
    match c
    case Inserted(row) => ty == WRITE_ROWS_EVENT && RowFits(row, cols)
    case Deleted(row) => ty == DELETE_ROWS_EVENT && RowFits(row, cols)
    case Updated(a, b) => ty == UPDATE_ROWS_EVENT && RowFits(a, cols) && RowFits(b, cols)
  }

  function ChangeBytes(c: Logged, ty: Byte, cols: seq<Column>): Octets
    requires LoggedFits(c, ty, cols)
  {
    match c
    case Inserted(row) => RowBytes(row, cols)
    case Deleted(row) => RowBytes(row, cols)
    case Updated(a, b) => RowBytes(a, cols) + RowBytes(b, cols)
  }

  function Seen(c: Logged): Change {
    match c
    case Inserted(row) => Insert(NullAsZero(row))
    case Deleted(row) => Delete(NullAsZero(row))
    case Updated(a, b) => Update(NullAsZero(a), NullAsZero(b))
  }

  ghost predicate AllFit(cs: seq<Logged>, ty: Byte, cols: seq<Column>) {
    forall i :: 0 <= i < |cs| ==> LoggedFits(cs[i], ty, cols)
  }

  function ChangesBytes(cs: seq<Logged>, ty: Byte, cols: seq<Column>): Octets
    requires AllFit(cs, ty, cols)
  {
    if cs == [] then [] else ChangeBytes(cs[0], ty, cols) + ChangesBytes(cs[1..], ty, cols)
  }

  function AllSeen(cs: seq<Logged>): seq<Change> {
    seq(|cs|, i requires 0 <= i < |cs| => Seen(cs[i]))
  }

  lemma ChangeRoundTrip(c: Logged, ty: Byte, cols: seq<Column>, t: Table, rest: Octets)
    requires AreColumns(cols) && LoggedFits(c, ty, cols) && Describes(t, cols)
    ensures OneChange(ty, ChangeBytes(c, ty, cols) + rest, t) == Some((Seen(c), |ChangeBytes(c, ty, cols)|))
  {
    hide Row, RowBytes, RowFits;
    match c
    case Inserted(row) => RowRoundTrip(row, cols, t, rest);
    case Deleted(row) => RowRoundTrip(row, cols, t, rest);
    case Updated(a, b) =>
      var x, y := RowBytes(a, cols), RowBytes(b, cols);
      RowRoundTrip(a, cols, t, y + rest);
      RowRoundTrip(b, cols, t, rest);
      assert x + y + rest == x + (y + rest);
      assert (x + (y + rest))[|x|..] == y + rest;
  }

  /** The images of an event, one after the other, decode to the changes in order and
      consume exactly all bytes. */
  lemma {:induction false} ChangesRoundTrip(cs: seq<Logged>, ty: Byte, cols: seq<Column>, t: Table)
    requires AreColumns(cols) && cols != [] && AllFit(cs, ty, cols) && Describes(t, cols)
    ensures Changes(ty, ChangesBytes(cs, ty, cols), t) == Some(AllSeen(cs))
  {
    hide OneChange, ChangeBytes, LoggedFits, Seen, AreColumns;
    if cs == [] {
      assert AllSeen(cs) == [];
    } else {
      var head, tail := ChangeBytes(cs[0], ty, cols), ChangesBytes(cs[1..], ty, cols);
      ChangeRoundTrip(cs[0], ty, cols, t, tail);
      ChangesRoundTrip(cs[1..], ty, cols, t);
      Drops(head, tail);
      assert AllSeen(cs) == [Seen(cs[0])] + AllSeen(cs[1..]);
    }
  }

  /** A rows event body: table id, flags, column count, the bitmaps of present columns
      (two of them for updates), then the images. */
  function RowsEvent(id: Octets, flags: Octets, present: Octets, cs: seq<Logged>, ty: Byte, cols: seq<Column>): Octets
    requires |id| == 6 && |flags| == 2 && |cols| <= MAX_COLUMNS && AllFit(cs, ty, cols)
    requires |present| == BitmapSize(|cols|)
  {
    id + flags + ([|cols|] + present + ((if ty == UPDATE_ROWS_EVENT then present else []) + ChangesBytes(cs, ty, cols)))
  }

  lemma EventPrefix(id: Octets, flags: Octets, n: Byte, present: Octets, rows: Octets)
    requires |id| == 6 && |flags| == 2 && n < 251 && |present| == BitmapSize(n)
    ensures var body := id + flags + ([n] + present + rows);
            && |body| >= 8 && PacketInt(body[8..]) == Some((n as nat, 1))
            && |body| >= 9 + BitmapSize(n) && body[9 + BitmapSize(n)..] == rows && body[6] == flags[0]
  {
    Drops(id + flags, [n] + present + rows);
    var body := id + flags + ([n] + present + rows);
    assert body[9 + BitmapSize(n)..] == body[8..][1 + BitmapSize(n)..];
  }

  /** Whole rows events round-trip, given the table described by the encoded table map:
      parse the map, then the rows, and the logged changes come back. */
  lemma RowsEventRoundTrip(id: nat, mapFlags: Octets, db: Octets, name: Octets, cols: seq<Column>, nullable: seq<bool>,
                           rowFlags: Octets, present: Octets, cs: seq<Logged>, ty: Byte)
    requires id < Pow256(6) && |mapFlags| == 2 && |db| < NAME_MAX_LENGTH && |name| < NAME_MAX_LENGTH
    requires AreColumns(cols) && 0 < |cols| <= MAX_COLUMNS && |nullable| == |cols|
    requires |rowFlags| == 2 && |present| == BitmapSize(|cols|) && AllFit(cs, ty, cols)
    ensures var t := Parse(TableMap.Encode(id, mapFlags, db, name, cols, nullable));
            && t.Some? && |t.value.types| == |t.value.metas|
            && RowsBody(ty, RowsEvent(ToLe(id, 6), rowFlags, present, cs, ty, cols), t.value)
               == Some((rowFlags[0] % 2 == 1, AllSeen(cs)))
  {
    hide Parse, TableMap.Encode, ChangesBytes, Changes, ToLe, AllFit, Types, RealTypesOf, MetaWords, AreColumns;
    TableMapRoundTrip(id, mapFlags, db, name, cols, nullable);
    var t := Parse(TableMap.Encode(id, mapFlags, db, name, cols, nullable)).value;
    var second := if ty == UPDATE_ROWS_EVENT then present else [];
    var images := ChangesBytes(cs, ty, cols);
    EventPrefix(ToLe(id, 6), rowFlags, |cols|, present, second + images);
    ChangesRoundTrip(cs, ty, cols, t);
    Drops(second, images);
    if |second + images| <= |second| { assert images == []; }
  }

  /** The bytes of a row image tell any two rows apart, nulls from zeros included. */
  lemma BytesTellApart(a: seq<Option<Value>>, b: seq<Option<Value>>, cols: seq<Column>, t: Table)
    requires AreColumns(cols) && RowFits(a, cols) && RowFits(b, cols) && Describes(t, cols)
    ensures RowBytes(a, cols) == RowBytes(b, cols) <==> a == b
  {
    hide Row, ItemsBytes, Pack, AreColumns, Describes;
    if RowBytes(a, cols) == RowBytes(b, cols) {
      RowRoundTrip(a, cols, t, []);
      RowRoundTrip(b, cols, t, []);
      assert Pack(NullFlags(a)) == Pack(NullFlags(b)) by { BitmapFirst(a, cols); BitmapFirst(b, cols); }
      forall i | 0 <= i < |a| ensures a[i] == b[i] {
        PackBits(NullFlags(a), i);
        PackBits(NullFlags(b), i);
        assert NullFlags(a)[i] == NullFlags(b)[i] && NullAsZero(a)[i] == NullAsZero(b)[i];
      }
    }
  }

  lemma BitmapFirst(row: seq<Option<Value>>, cols: seq<Column>)
    requires RowFits(row, cols)
    ensures BitmapSize(|cols|) <= |RowBytes(row, cols)|
    ensures RowBytes(row, cols)[..BitmapSize(|cols|)] == Pack(NullFlags(row))
  {
    hide Pack, ItemsBytes;
  }

  /** Equal, or a null against the integer 0. */
  predicate Alike(a: Option<Value>, b: Option<Value>) {
    a == b || (a == None && b == Some(Int(0))) || (a == Some(Int(0)) && b == None)
  }

  /** Two row images decode alike if and only if their rows agree at every place, up to a
      null against a zero: that is all of a row that is not kept. */
  lemma DecodeAlikeIff(a: seq<Option<Value>>, b: seq<Option<Value>>, cols: seq<Column>, t: Table)
    requires AreColumns(cols) && RowFits(a, cols) && RowFits(b, cols) && Describes(t, cols)
    ensures Row(RowBytes(a, cols), t).Some? && Row(RowBytes(b, cols), t).Some?
    ensures Row(RowBytes(a, cols), t).value.0 == Row(RowBytes(b, cols), t).value.0
            <==> forall i :: 0 <= i < |cols| ==> Alike(a[i], b[i])
  {
    hide Row, RowBytes, RowFits, AreColumns, Describes;
    RowRoundTrip(a, cols, t, []);
    RowRoundTrip(b, cols, t, []);
    assert RowBytes(a, cols) + [] == RowBytes(a, cols) && RowBytes(b, cols) + [] == RowBytes(b, cols);
    RowLength(a, cols);
    RowLength(b, cols);
    if NullAsZero(a) == NullAsZero(b) {
      forall i | 0 <= i < |cols| ensures Alike(a[i], b[i]) {
        assert NullAsZero(a)[i] == NullAsZero(b)[i];
      }
    }
  }

  lemma RowLength(row: seq<Option<Value>>, cols: seq<Column>)
    requires RowFits(row, cols)
    ensures |row| == |cols|
  {}
}

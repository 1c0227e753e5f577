/** The table map event (ebinlog/BinlogTable.h): names, column types, type metadata and
    the nullable bitmap of the table whose rows follow. */
module TableMap {
  import opened Bytes
  import opened LittleEndian
  import opened Options

  const MYSQL_TYPE_TINY: Byte := 1
  const MYSQL_TYPE_SHORT: Byte := 2
  const MYSQL_TYPE_LONG: Byte := 3
  const MYSQL_TYPE_FLOAT: Byte := 4
  const MYSQL_TYPE_DOUBLE: Byte := 5
  const MYSQL_TYPE_TIMESTAMP: Byte := 7
  const MYSQL_TYPE_LONGLONG: Byte := 8
  const MYSQL_TYPE_INT24: Byte := 9
  const MYSQL_TYPE_VARCHAR: Byte := 15
  const MYSQL_TYPE_BIT: Byte := 16
  const MYSQL_TYPE_NEWDECIMAL: Byte := 246
  const MYSQL_TYPE_ENUM: Byte := 247
  const MYSQL_TYPE_SET: Byte := 248
  const MYSQL_TYPE_TINY_BLOB: Byte := 249
  const MYSQL_TYPE_MEDIUM_BLOB: Byte := 250
  const MYSQL_TYPE_LONG_BLOB: Byte := 251
  const MYSQL_TYPE_BLOB: Byte := 252
  const MYSQL_TYPE_VAR_STRING: Byte := 253
  const MYSQL_TYPE_STRING: Byte := 254
  const MYSQL_TYPE_GEOMETRY: Byte := 255

  const MAX_COLUMNS: nat := 128
  const NAME_MAX_LENGTH: nat := 128

  datatype Table = Table(id: nat, db: Octets, name: Octets,
                         types: seq<Byte>, metas: seq<nat>, nullable: seq<bool>)

  /** The table of a parser that has seen no table map yet. */
  const NO_TABLE := Table(0, [], [], [], [], [])

  function BitmapSize(columns: nat): nat { (columns + 7) / 8 }

  /** (b >> i) & 1 */
  predicate Bit(b: Byte, i: nat) {
    if i == 0 then b % 2 == 1 else Bit(b / 2, i - 1)
  }

  /** Metadata bytes of a column type. */
  function MetaSize(ty: Byte): nat {
    if ty == MYSQL_TYPE_TINY_BLOB || ty == MYSQL_TYPE_BLOB || ty == MYSQL_TYPE_MEDIUM_BLOB
       || ty == MYSQL_TYPE_LONG_BLOB || ty == MYSQL_TYPE_DOUBLE || ty == MYSQL_TYPE_FLOAT
       || ty == MYSQL_TYPE_GEOMETRY then 1
    else if ty == MYSQL_TYPE_SET || ty == MYSQL_TYPE_ENUM || ty == MYSQL_TYPE_STRING
            || ty == MYSQL_TYPE_BIT || ty == MYSQL_TYPE_VARCHAR || ty == MYSQL_TYPE_NEWDECIMAL then 2
    else 0
  }

  /** The metadata word of a column.  A VARCHAR length is read as a signed 16-bit number
      and widened to 32 bits; in the BIT case the sum is shifted as a whole. */
  function MetaOf(ty: Byte, m: Octets): nat
    requires |m| == MetaSize(ty)
  {
    if |m| == 0 then 0
    else if |m| == 1 then m[0] as nat
    else if ty == MYSQL_TYPE_VARCHAR then
      if m[1] >= 128 then Le(m) + 0xFFFF_0000 else Le(m)
    else if ty == MYSQL_TYPE_BIT then (m[0] as nat + m[1] as nat) * 256
    else m[0] as nat * 256 + m[1] as nat
  }

  /** A STRING column whose metadata names ENUM or SET is of that type. */
  function RealType(ty: Byte, meta: nat): Byte {
    var kind := meta / 256 % 256;
    if ty == MYSQL_TYPE_STRING && (kind == MYSQL_TYPE_ENUM as int || kind == MYSQL_TYPE_SET as int) then kind else ty
  }

  /** Metadata of the columns, one after the other; none if the bytes end first. */
  function Metas(types: seq<Byte>, m: Octets): (r: Option<seq<nat>>)
    ensures r.Some? ==> |r.value| == |types|
  {
    if types == [] then Some([])
    else if |m| < MetaSize(types[0]) then None
    else
      var k := MetaSize(types[0]);
      var rest := Metas(types[1..], m[k..]);
      if rest.None? then None else Some([MetaOf(types[0], m[..k])] + rest.value)
  }

  function RealTypes(types: seq<Byte>, metas: seq<nat>): (r: seq<Byte>)
    requires |types| == |metas|
    ensures |r| == |types|
  {
    seq(|types|, i requires 0 <= i < |types| => RealType(types[i], metas[i]))
  }

  function NullableBits(n: nat, bits: Octets): (r: seq<bool>)
    requires BitmapSize(n) <= |bits|
    ensures |r| == n
  {
    seq(n, i requires 0 <= i < n => Bit(bits[i / 8], i % 8))
  }

  /** A length byte, the name, and a terminator. */
  function Name(bs: Octets): Option<Octets> {
    if bs == [] || bs[0] as nat >= NAME_MAX_LENGTH || |bs| < bs[0] as nat + 2 then None
    else Some(bs[1..1 + bs[0]])
  }

  /** The table described by an event body; none if a read or a copy would leave the
      event or overrun the fixed arrays of the class. */
  function Parse(bs: Octets): Option<Table> {
    if |bs| < 8 then None else
    var db := Name(bs[8..]);
    if db.None? then None else
    var p := 8 + |db.value| + 2;
    var name := Name(bs[p..]);
    if name.None? then None else
    var q := p + |name.value| + 2;
    var n := PacketInt(bs[q..]);
    if n.None? || n.value.0 > MAX_COLUMNS || |bs| < q + n.value.1 + n.value.0 then None else
    ParseColumns(Le(bs[..6]), db.value, name.value,
                 bs[q + n.value.1..q + n.value.1 + n.value.0], bs[q + n.value.1 + n.value.0..])
  }

  function ParseColumns(id: nat, db: Octets, name: Octets, types: seq<Byte>, bs: Octets): Option<Table> {
    var len := PacketInt(bs);
    if len.None? || |bs| < len.value.1 + len.value.0 + BitmapSize(|types|) then None else
    var metas := Metas(types, bs[len.value.1..]);
    if metas.None? then None else
    Some(Table(id, db, name, RealTypes(types, metas.value), metas.value,
               NullableBits(|types|, bs[len.value.1 + len.value.0..])))
  }

  // ---------------------------------------------------------------- encoding

  /** Columns: those of the row round trip, and all others by their type and metadata. */
  datatype Column =
    | Tiny | Short | Int24 | Long | LongLong
    | Varchar(maxLen: nat)
    | Blob(lengthBytes: nat)
    | Plain(ty: Byte)                            // no metadata: dates, times, YEAR
    | Sized(ty: Byte, size: Byte)                // FLOAT, DOUBLE, the other blobs, GEOMETRY
    | Paired(ty: Byte, high: Byte, low: Byte)    // STRING, ENUM, SET, NEWDECIMAL
    | Bits(bits: Byte, octets: Byte)             // BIT

  /** The types that the server logs with one byte of metadata, and those with two, apart from
      VARCHAR and BIT. */
  const ONE_BYTE_TYPES: set<Byte> :=
    {MYSQL_TYPE_FLOAT, MYSQL_TYPE_DOUBLE, MYSQL_TYPE_GEOMETRY,
     MYSQL_TYPE_TINY_BLOB, MYSQL_TYPE_BLOB, MYSQL_TYPE_MEDIUM_BLOB, MYSQL_TYPE_LONG_BLOB}
  const TWO_BYTE_TYPES: set<Byte> :=
    {MYSQL_TYPE_STRING, MYSQL_TYPE_ENUM, MYSQL_TYPE_SET, MYSQL_TYPE_NEWDECIMAL}

  predicate IsColumn(c: Column) {
    match c
    case Varchar(n) => n < 0x1_0000
    case Blob(k) => 1 <= k <= 4
    case Plain(ty) => ty !in ONE_BYTE_TYPES && ty !in TWO_BYTE_TYPES && ty != MYSQL_TYPE_VARCHAR && ty != MYSQL_TYPE_BIT
    case Sized(ty, _) => ty in ONE_BYTE_TYPES
    case Paired(ty, _, _) => ty in TWO_BYTE_TYPES
    case _ => true
  }

  /** The type as logged. */
  function TypeOf(c: Column): Byte {
    match c
    case Tiny => MYSQL_TYPE_TINY
    case Short => MYSQL_TYPE_SHORT
    case Int24 => MYSQL_TYPE_INT24
    case Long => MYSQL_TYPE_LONG
    case LongLong => MYSQL_TYPE_LONGLONG
    case Varchar(_) => MYSQL_TYPE_VARCHAR
    case Blob(_) => MYSQL_TYPE_BLOB
    case Plain(ty) => ty
    case Sized(ty, _) => ty
    case Paired(ty, _, _) => ty
    case Bits(_, _) => MYSQL_TYPE_BIT
  }

  /** The type in effect: ENUM and SET are logged as STRING, with the type in the metadata. */
  function RealTypeOf(c: Column): Byte {
    match c
    case Paired(ty, high, _) =>
      if ty == MYSQL_TYPE_STRING && (high == MYSQL_TYPE_ENUM || high == MYSQL_TYPE_SET) then high else ty
    case _ => TypeOf(c)
  }

  function MetaBytes(c: Column): (m: Octets)
    requires IsColumn(c)
    ensures |m| == MetaSize(TypeOf(c))
  {
    match c
    case Varchar(n) => ToLe(n, 2)
    case Blob(k) => [k]
    case Sized(_, size) => [size]
    case Paired(_, high, low) => [high, low]
    case Bits(bits, octets) => [bits, octets]
    case _ => []
  }

  function MetaWord(c: Column): nat {
    match c
    case Varchar(n) => if n >= 0x8000 then n + 0xFFFF_0000 else n
    case Blob(k) => k
    case Sized(_, size) => size
    case Paired(_, high, low) => 256 * high as nat + low as nat
    case Bits(bits, octets) => 256 * (bits as nat + octets as nat)
    case _ => 0
  }

  ghost predicate AreColumns(cols: seq<Column>) {
    forall i :: 0 <= i < |cols| ==> IsColumn(cols[i])
  }

  function Types(cols: seq<Column>): (r: seq<Byte>)
    ensures |r| == |cols|
  {
    seq(|cols|, i requires 0 <= i < |cols| => TypeOf(cols[i]))
  }

  function RealTypesOf(cols: seq<Column>): (r: seq<Byte>)
    ensures |r| == |cols|
  {
    seq(|cols|, i requires 0 <= i < |cols| => RealTypeOf(cols[i]))
  }

  function MetaWords(cols: seq<Column>): (r: seq<nat>)
    ensures |r| == |cols|
  {
    seq(|cols|, i requires 0 <= i < |cols| => MetaWord(cols[i]))
  }

  function AllMetaBytes(cols: seq<Column>): (m: Octets)
    requires AreColumns(cols)
    ensures |m| <= 2 * |cols|
  {
    if cols == [] then [] else MetaBytes(cols[0]) + AllMetaBytes(cols[1..])
  }

  /** Up to eight flags as a byte, least significant first. */
  function PackByte(f: seq<bool>): (b: Byte)
    requires |f| <= 8
    ensures |f| == 0 ==> b == 0
    ensures |f| == 1 ==> b < 2
    ensures |f| == 2 ==> b < 4
    ensures |f| == 3 ==> b < 8
    ensures |f| == 4 ==> b < 16
    ensures |f| == 5 ==> b < 32
    ensures |f| == 6 ==> b < 64
    ensures |f| == 7 ==> b < 128
  {
    if f == [] then 0 else (if f[0] then 1 else 0) + 2 * PackByte(f[1..])
  }

  function Pack(flags: seq<bool>): (bits: Octets)
    ensures |bits| == BitmapSize(|flags|)
  {
    if |flags| == 0 then []
    else if |flags| <= 8 then [PackByte(flags)]
    else [PackByte(flags[..8])] + Pack(flags[8..])
  }

  lemma {:induction false} PackByteBits(f: seq<bool>, i: nat)
    requires i < |f| <= 8
    ensures Bit(PackByte(f), i) == f[i]
  {
    if i == 0 {
    } else {
      PackByteBits(f[1..], i - 1);
    }
  }

  lemma {:induction false} PackBits(flags: seq<bool>, i: nat)
    requires i < |flags|
    ensures Bit(Pack(flags)[i / 8], i % 8) == flags[i]
  {
    hide Bit, PackByte;
    if |flags| <= 8 {
      PackByteBits(flags, i);
    } else if i < 8 {
      PackByteBits(flags[..8], i);
    } else {
      PackBits(flags[8..], i - 8);
      assert (i - 8) / 8 == i / 8 - 1 && (i - 8) % 8 == i % 8;
    }
  }

  lemma PackRoundTrip(flags: seq<bool>, rest: Octets)
    ensures NullableBits(|flags|, Pack(flags) + rest) == flags
  {
    forall i: nat | i < |flags|
      ensures Bit((Pack(flags) + rest)[i / 8], i % 8) == flags[i]
    {
      PackBits(flags, i);
    }
  }

  /** A table map event body. */
  function Encode(id: nat, flags: Octets, db: Octets, name: Octets, cols: seq<Column>, nullable: seq<bool>): Octets
    requires id < Pow256(6) && |flags| == 2
    requires |db| < NAME_MAX_LENGTH && |name| < NAME_MAX_LENGTH
    requires AreColumns(cols) && |cols| <= MAX_COLUMNS && |nullable| == |cols|
  {
    ToLe(id, 6) + flags + (NameBytes(db) + (NameBytes(name) + (
      [|cols|] + Types(cols) + (ToPacketInt(|AllMetaBytes(cols)|) + AllMetaBytes(cols) + Pack(nullable)))))
  }

  function NameBytes(n: Octets): (bs: Octets)
    requires |n| < NAME_MAX_LENGTH
    ensures |bs| == |n| + 2
  {
    [|n|] + n + [0]
  }

  lemma NameRoundTrip(n: Octets, rest: Octets)
    requires |n| < NAME_MAX_LENGTH
    ensures Name(NameBytes(n) + rest) == Some(n)
  {
    assert (NameBytes(n) + rest)[1..1 + |n|] == n;
  }

  lemma MetaRoundTrip(c: Column)
    requires IsColumn(c)
    ensures MetaOf(TypeOf(c), MetaBytes(c)) == MetaWord(c)
  {
    hide Le, ToLe;
    PowersOf256();
    match c
    case Varchar(n) => VarcharMeta(n);
    case _ =>
  }

  lemma VarcharMeta(n: nat)
    requires n < 0x1_0000
    ensures MetaOf(MYSQL_TYPE_VARCHAR, ToLe(n, 2)) == if n >= 0x8000 then n + 0xFFFF_0000 else n
  {
    PowersOf256();
    LeRoundTrip(n, 2);
  }

  lemma RealTypeIs(c: Column)
    requires IsColumn(c)
    ensures RealType(TypeOf(c), MetaWord(c)) == RealTypeOf(c)
  {}

  lemma FirstColumn(cols: seq<Column>, rest: Octets)
    requires AreColumns(cols) && cols != []
    ensures Types(cols) == [TypeOf(cols[0])] + Types(cols[1..])
    ensures MetaWords(cols) == [MetaWord(cols[0])] + MetaWords(cols[1..])
    ensures AllMetaBytes(cols) + rest == MetaBytes(cols[0]) + (AllMetaBytes(cols[1..]) + rest)
  {
    hide MetaSize, MetaBytes, TypeOf, MetaWord, IsColumn;
  }

  lemma {:induction false} MetasRoundTrip(cols: seq<Column>, rest: Octets)
    requires AreColumns(cols)
    ensures Metas(Types(cols), AllMetaBytes(cols) + rest) == Some(MetaWords(cols))
  {
    hide MetaSize, MetaOf, MetaBytes, TypeOf, MetaWord, IsColumn, AllMetaBytes, Types, MetaWords;
    if cols == [] {
      assert Types(cols) == [] && MetaWords(cols) == [];
    } else {
      FirstColumn(cols, rest);
      MetaRoundTrip(cols[0]);
      MetasRoundTrip(cols[1..], rest);
      Drops(MetaBytes(cols[0]), AllMetaBytes(cols[1..]) + rest);
      assert Types(cols)[1..] == Types(cols[1..]);
    }
  }

  lemma ColumnsRoundTrip(id: nat, db: Octets, name: Octets, cols: seq<Column>, nullable: seq<bool>)
    requires AreColumns(cols) && |cols| <= MAX_COLUMNS && |nullable| == |cols|
    ensures ParseColumns(id, db, name, Types(cols),
                         ToPacketInt(|AllMetaBytes(cols)|) + AllMetaBytes(cols) + Pack(nullable))
            == Some(Table(id, db, name, RealTypesOf(cols), MetaWords(cols), nullable))
  {
    var m, k := AllMetaBytes(cols), ToPacketInt(|AllMetaBytes(cols)|);
    var bs := k + m + Pack(nullable);
    PacketIntRoundTrip(|m|, m + Pack(nullable));
    assert bs == k + (m + Pack(nullable));
    assert bs[|k|..] == m + Pack(nullable);
    assert bs[|k| + |m|..] == Pack(nullable) + [];
    MetasRoundTrip(cols, Pack(nullable));
    PackRoundTrip(nullable, []);
    forall i | 0 <= i < |cols| ensures RealType(TypeOf(cols[i]), MetaWord(cols[i])) == RealTypeOf(cols[i]) {
      RealTypeIs(cols[i]);
    }
    assert RealTypes(Types(cols), MetaWords(cols)) == RealTypesOf(cols);
  }

  lemma Drops(a: Octets, b: Octets)
    ensures (a + b)[|a|..] == b && (a + b)[..|a|] == a
  {}

  lemma DropTake(bs: Octets, q: nat, a: nat, n: nat)
    requires q + a + n <= |bs|
    ensures bs[q + a..q + a + n] == bs[q..][a..a + n] && bs[q + a + n..] == bs[q..][a + n..]
  {}

  /** Where the parts of an event body lie. */
  lemma PartsInPlace(id: Octets, flags: Octets, db: Octets, name: Octets, rest: Octets)
    requires |id| == 6 && |flags| == 2
    ensures var bs := id + flags + (db + (name + rest));
            && bs[..6] == id && bs[8..] == db + (name + rest)
            && bs[8 + |db|..] == name + rest
            && bs[8 + |db| + |name|..] == rest
  {
    var bs := id + flags + (db + (name + rest));
    Drops(id + flags, db + (name + rest));
    assert bs[8 + |db|..] == bs[8..][|db|..];
    assert bs[8 + |db| + |name|..] == bs[8 + |db|..][|name|..];
  }

  lemma CountedColumns(cols: seq<Column>, tail: Octets)
    requires |cols| <= MAX_COLUMNS
    ensures var counted := [|cols|] + Types(cols) + tail;
            && PacketInt(counted) == Some((|cols| as nat, 1))
            && counted[1..1 + |cols|] == Types(cols) && counted[1 + |cols|..] == tail
  {
    hide Types;
  }

  /** A table map event describes its table: parsing the encoded event gives back the
      id, the names, and the type in effect, metadata and nullability of every column. */
  lemma TableMapRoundTrip(id: nat, flags: Octets, db: Octets, name: Octets, cols: seq<Column>, nullable: seq<bool>)
    requires id < Pow256(6) && |flags| == 2
    requires |db| < NAME_MAX_LENGTH && |name| < NAME_MAX_LENGTH
    requires AreColumns(cols) && |cols| <= MAX_COLUMNS && |nullable| == |cols|
    ensures Parse(Encode(id, flags, db, name, cols, nullable))
            == Some(Table(id, db, name, RealTypesOf(cols), MetaWords(cols), nullable))
  {
    hide Name, NameBytes, ParseColumns, ToLe, Le, Metas, Types, IsColumn, AllMetaBytes, ToPacketInt, Pack, PacketInt;
    var tail := ToPacketInt(|AllMetaBytes(cols)|) + AllMetaBytes(cols) + Pack(nullable);
    var counted := [|cols|] + Types(cols) + tail;
    var bs := Encode(id, flags, db, name, cols, nullable);
    LeRoundTrip(id, 6);
    PartsInPlace(ToLe(id, 6), flags, NameBytes(db), NameBytes(name), counted);
    NameRoundTrip(db, NameBytes(name) + counted);
    NameRoundTrip(name, counted);
    CountedColumns(cols, tail);
    ColumnsRoundTrip(id, db, name, cols, nullable);
    DropTake(bs, 8 + |db| + 2 + |name| + 2, 1, |cols|);
  }

  // ---------------------------------------------------------------- the parser

  class CMyTableMap {
    var id: nat
    var columns: nat
    var db: Octets
    var name: Octets
    const metas: array<nat>
    const types: array<Byte>
    const nullable: array<bool>

    constructor ()
      ensures Valid() && Contents() == NO_TABLE && fresh(metas) && fresh(types) && fresh(nullable)
    {
      id, columns, db, name := 0, 0, [], [];
      metas := new nat[MAX_COLUMNS];
      types := new Byte[MAX_COLUMNS];
      nullable := new bool[MAX_COLUMNS];
    }

    ghost predicate Valid()
      reads this
    {
      metas.Length == types.Length == nullable.Length == MAX_COLUMNS && columns <= MAX_COLUMNS
    }

    ghost function Contents(): Table
      requires Valid()
      reads this, metas, types, nullable
    {
      Table(id, db, name, types[..columns], metas[..columns], nullable[..columns])
    }

    method DecodeMetaData(typeBuf: seq<Byte>, metaBuf: Octets)
      requires |typeBuf| <= metas.Length && Metas(typeBuf, metaBuf).Some?
      modifies metas
      ensures metas[..|typeBuf|] == Metas(typeBuf, metaBuf).value
    {
      hide MetaOf, MetaSize;
      var i, j := 0, 0;
      while i < |typeBuf|
        invariant 0 <= i <= |typeBuf| && 0 <= j <= |metaBuf|
        invariant Metas(typeBuf[i..], metaBuf[j..]).Some?
        invariant Metas(typeBuf, metaBuf).value == metas[..i] + Metas(typeBuf[i..], metaBuf[j..]).value
      {
        var ty := typeBuf[i];
        assert typeBuf[i..][1..] == typeBuf[i + 1..] && metaBuf[j..][MetaSize(ty)..] == metaBuf[j + MetaSize(ty)..];
        assert metaBuf[j..][..MetaSize(ty)] == metaBuf[j..j + MetaSize(ty)];
        metas[i] := MetaWordAt(ty, metaBuf, j);
        i, j := i + 1, j + MetaSize(ty);
      }
    }

    method DecodeDataType(typeBuf: seq<Byte>)
      requires |typeBuf| <= metas.Length == types.Length
      modifies types
      ensures types[..|typeBuf|] == RealTypes(typeBuf, metas[..|typeBuf|])
    {
      for i := 0 to |typeBuf|
        invariant forall k :: 0 <= k < i ==> types[k] == RealType(typeBuf[k], metas[k])
      {
        types[i] := RealType(typeBuf[i], metas[i]);
      }
    }

    method DecodeNullAble(n: nat, bits: Octets)
      requires n <= nullable.Length && BitmapSize(n) <= |bits|
      modifies nullable
      ensures nullable[..n] == NullableBits(n, bits)
    {
      for i := 0 to n
        invariant forall k :: 0 <= k < i ==> nullable[k] == Bit(bits[k / 8], k % 8)
      {
        nullable[i] := Bit(bits[i / 8], i % 8);
      }
    }

    /** The metadata and the bitmap, after the column types. */
    method ProcessColumns(typeBuf: seq<Byte>, buf: Octets)
      requires Valid() && |typeBuf| == columns && ParseColumns(id, db, name, typeBuf, buf).Some?
      modifies metas, types, nullable
      ensures Valid() && Contents() == ParseColumns(id, db, name, typeBuf, buf).value
    {
      hide Metas, NullableBits, RealTypes, Le;
      var m := PacketInt(buf).value;
      var pos := m.1;
      DecodeMetaData(typeBuf, buf[pos..]);
      DecodeDataType(typeBuf);
      DecodeNullAble(columns, buf[pos + m.0..]);
    }

    method Process(buf: Octets)
      requires Valid() && Parse(buf).Some?
      modifies this, metas, types, nullable
      ensures Valid() && Contents() == Parse(buf).value
    {
      hide ParseColumns, PacketInt, Le;
      id := Le(buf[..6]);
      var pos := 8;
      db := buf[pos + 1..pos + 1 + buf[pos]];
      assert db == Name(buf[pos..]).value;
      pos := pos + 1 + buf[pos] + 1;
      name := buf[pos + 1..pos + 1 + buf[pos]];
      assert name == Name(buf[pos..]).value;
      pos := pos + 1 + buf[pos] + 1;
      var n := PacketInt(buf[pos..]).value;
      columns, pos := n.0, pos + n.1;
      ProcessColumns(buf[pos..pos + columns], buf[pos + columns..]);
    }
  }

  /** The metadata word of one column, as the branches of _decodeMetaData compute it. */
  function MetaWordAt(ty: Byte, m: Octets, j: nat): (w: nat)
    requires j + MetaSize(ty) <= |m|
    ensures w == MetaOf(ty, m[j..j + MetaSize(ty)])
  {
    if MetaSize(ty) == 0 then 0
    else if MetaSize(ty) == 1 then m[j] as nat
    else
      assert m[j..j + 2][1..] == [m[j + 1]];
      assert Le([m[j + 1]]) == m[j + 1] as nat;
      if ty == MYSQL_TYPE_VARCHAR then
        var x := m[j] as nat + m[j + 1] as nat * 256;
        if x >= 0x8000 then x - 0x1_0000 + 0x1_0000_0000 else x
      else if ty == MYSQL_TYPE_BIT then (m[j] as nat + m[j + 1] as nat) * 256
      else m[j] as nat * 256 + m[j + 1] as nat
  }
}

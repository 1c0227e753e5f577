/** Little-endian integers, as the korr macros of ebinlog/BinlogTypes.h read them. */
module LittleEndian {
  import opened Bytes
  import opened Options

  function Le(bs: Octets): nat {
    if bs == [] then 0 else bs[0] + 256 * Le(bs[1..])
  }

  function ToLe(v: nat, k: nat): (bs: Octets)
    ensures |bs| == k
  {
    if k == 0 then [] else [v % 256] + ToLe(v / 256, k - 1)
  }

  lemma {:induction false} LeRoundTrip(v: nat, k: nat)
    requires v < Pow256(k)
    ensures Le(ToLe(v, k)) == v
  {
    if k == 0 {
    } else {
      LeRoundTrip(v / 256, k - 1);
    }
  }

  lemma {:induction false} LeBound(bs: Octets)
    ensures Le(bs) < Pow256(|bs|)
  {
    if bs == [] {
    } else {
      LeBound(bs[1..]);
    }
  }

  /** The k bytes of a two's complement number. */
  function SignedBytes(x: int, k: nat): (bs: Octets)
    requires -Half(k) <= x < Half(k)
    ensures |bs| == k
  {
    ToLe(if x < 0 then x + Pow256(k) else x, k)
  }

  function Half(k: nat): (h: int)
    ensures k > 0 ==> 2 * h == Pow256(k)
  {
    Pow256(k) / 2
  }

  lemma SignedRoundTrip(x: int, k: nat)
    requires k > 0 && -Half(k) <= x < Half(k)
    ensures Signed(Le(SignedBytes(x, k)), k) == x
  {
    LeRoundTrip(if x < 0 then x + Pow256(k) else x, k);
  }

  /** The macro sint3korr: three bytes, sign-extended by hand. */
  function Sint3Korr(bs: Octets): int
    requires |bs| == 3
  {
    var low: int := bs[2] as int * 0x1_0000 + bs[1] as int * 0x100 + bs[0] as int;
    if bs[2] >= 128 then 0xFF00_0000 + low - 0x1_0000_0000 else low
  }

  lemma Sint3KorrIsSigned(bs: Octets)
    requires |bs| == 3
    ensures Sint3Korr(bs) == Signed(Le(bs), 3)
  {
    PowersOf256();
    assert bs[1..][1..] == bs[2..] && bs[2..][1..] == [];
    assert Le(bs[2..]) == bs[2];
  }

  /** DecodePacketInt: the value and the number of bytes read; none if the bytes end
      first or the value does not fit a non-negative int. */
  function PacketInt(bs: Octets): (r: Option<(nat, nat)>)
    ensures r.Some? ==> 1 <= r.value.1 <= |bs|
  {
    if bs == [] then None
    else if bs[0] < 251 then Some((bs[0] as nat, 1))
    else if bs[0] == 251 then Some((0, 1))
    else if bs[0] == 252 then if |bs| < 3 then None else Some((Le(bs[1..3]), 3))
    else if bs[0] == 253 then if |bs| < 4 then None else Some((Le(bs[1..4]), 4))
    else if |bs| < 9 || Le(bs[1..5]) >= 0x8000_0000 then None
    else Some((Le(bs[1..5]), 9))
  }

  /** The length encoding of the MySQL protocol, for lengths that an int can hold. */
  function ToPacketInt(n: nat): (bs: Octets)
    requires n < 0x8000_0000
  {
    if n < 251 then [n] else if n < 0x1_0000 then [252] + ToLe(n, 2)
    else if n < 0x100_0000 then [253] + ToLe(n, 3) else [254] + (ToLe(n, 4) + [0, 0, 0, 0])
  }

  lemma PacketIntRoundTrip(n: nat, rest: Octets)
    requires n < 0x8000_0000
    ensures PacketInt(ToPacketInt(n) + rest) == Some((n, |ToPacketInt(n)|))
  {
    hide Le, ToLe;
    PowersOf256();
    var bs := ToPacketInt(n) + rest;
    if 251 <= n < 0x1_0000 {
      LeRoundTrip(n, 2);
      assert bs[1..3] == ToLe(n, 2);
    } else if 0x1_0000 <= n < 0x100_0000 {
      LeRoundTrip(n, 3);
      assert bs[1..4] == ToLe(n, 3);
    } else if n >= 0x100_0000 {
      LeRoundTrip(n, 4);
      assert bs[1..5] == ToLe(n, 4);
    }
  }
}

/** The MySQL binary format of DECIMAL(p,s), as a mathematical object: p digits cut
    into groups (a leading partial group, full groups of nine, a trailing partial
    group), each group big-endian in as many bytes as its digits need, all bytes
    complemented for a negative number, and the top bit of the first byte flipped. */
module DecimalFormat {
  import opened Bytes

  const DIG_PER_DEC1: nat := 9
  const DIG_BASE: nat := 1_000_000_000
  const DIG_MAX: nat := DIG_BASE - 1

  /** Bytes taken by a group of d digits (the table dig2bytes). */
  function Dig2Bytes(d: nat): nat
    requires d <= DIG_PER_DEC1
  {
    [0, 1, 1, 2, 2, 3, 3, 4, 4, 4][d]
  }

  /** A byte for every two digits, but four bytes for nine. */
  lemma TwoDigitsToAByte(d: nat)
    requires d <= DIG_PER_DEC1
    ensures Dig2Bytes(d) == if d == 9 then 4 else (d + 1) / 2
  {}

  // ---------------------------------------------------------------- arithmetic

  /** A digit below its radix, followed by a number below the rest's radix. */
  lemma Carry(g: nat, q: nat, p: nat, j: nat)
    requires g < q && j < p
    ensures g * p + j < q * p
  {
    assert (g + 1) * p <= q * p;
  }

  lemma MulLess(a: nat, b: nat, m: nat)
    requires a * m < b * m
    ensures a < b
  {
    if b <= a {
      MulMonotone(b, a, m);
      assert false;
    }
  }

  lemma MulMonotone(a: nat, b: nat, m: nat)
    requires a <= b
    ensures a * m <= b * m
  {}

  function Quot(v: nat, m: nat): nat
    requires m > 0
  {
    v / m
  }

  function Rem(v: nat, m: nat): nat
    requires m > 0
  {
    v % m
  }

  lemma QuotRem(v: nat, m: nat)
    requires m > 0
    ensures v == Quot(v, m) * m + Rem(v, m) && Rem(v, m) < m
  {}

  lemma QuotBound(v: nat, m: nat, c: nat)
    requires m > 0 && v < c * m
    ensures Quot(v, m) < c
  {
    hide Quot, Rem;
    QuotRem(v, m);
    MulLess(Quot(v, m), c, m);
  }

  lemma QuotRemUnique(q: nat, m: nat, r: nat)
    requires r < m
    ensures Quot(q * m + r, m) == q && Rem(q * m + r, m) == r
  {
    hide Quot, Rem;
    var v := q * m + r;
    QuotRem(v, m);
    assert Quot(v, m) * m < (q + 1) * m;
    assert q * m < (Quot(v, m) + 1) * m;
    MulLess(Quot(v, m), q + 1, m);
    MulLess(q, Quot(v, m) + 1, m);
  }

  // ---------------------------------------------------------------- powers

  lemma {:induction false} PowAdd(a: nat, b: nat)
    ensures Pow10(a + b) == Pow10(a) * Pow10(b)
  {
    if a == 0 {
    } else {
      PowAdd(a - 1, b);
    }
  }

  lemma PowTable()
    ensures Pow10(0) == 1 && Pow10(1) == 10 && Pow10(2) == 100 && Pow10(3) == 1000 && Pow10(4) == 10_000
    ensures Pow10(5) == 100_000 && Pow10(6) == 1_000_000 && Pow10(7) == 10_000_000
    ensures Pow10(8) == 100_000_000 && Pow10(9) == DIG_BASE
  {
    assert Pow10(2) == 100;
    assert Pow10(4) == 10_000;
    assert Pow10(6) == 1_000_000;
    assert Pow10(8) == 100_000_000;
  }

  /** A group of d digits leaves the top bit of its bytes clear. */
  lemma GroupFits(d: nat)
    requires 1 <= d <= DIG_PER_DEC1
    ensures 2 * Pow10(d) <= Pow256(Dig2Bytes(d))
  {
    PowTable();
    assert Pow256(1) == 0x100;
    assert Pow256(2) == 0x1_0000;
    assert Pow256(3) == 0x100_0000;
    assert Pow256(4) == 0x1_0000_0000;
  }

  // ---------------------------------------------------------------- big-endian bytes

  function BigEndian(bs: Octets): nat {
    if bs == [] then 0 else bs[0] * Pow256(|bs| - 1) + BigEndian(bs[1..])
  }

  function ToBigEndian(v: nat, k: nat): (bs: Octets)
    requires v < Pow256(k)
    ensures |bs| == k
  {
    if k == 0 then []
    else
      QuotBound(v, Pow256(k - 1), 256);
      QuotRem(v, Pow256(k - 1));
      [Quot(v, Pow256(k - 1))] + ToBigEndian(Rem(v, Pow256(k - 1)), k - 1)
  }

  lemma {:induction false} BigEndianBound(bs: Octets)
    ensures BigEndian(bs) < Pow256(|bs|)
  {
    if bs == [] {
    } else {
      BigEndianBound(bs[1..]);
      Carry(bs[0], 256, Pow256(|bs| - 1), BigEndian(bs[1..]));
    }
  }

  lemma {:induction false} BigEndianRoundTrip(v: nat, k: nat)
    requires v < Pow256(k)
    ensures BigEndian(ToBigEndian(v, k)) == v
  {
    if k == 0 {
    } else {
      var p := Pow256(k - 1);
      hide Quot, Rem, Pow256;
      QuotBound(v, p, 256);
      QuotRem(v, p);
      BigEndianRoundTrip(Rem(v, p), k - 1);
      assert ToBigEndian(v, k) == [Quot(v, p)] + ToBigEndian(Rem(v, p), k - 1);
    }
  }

  lemma {:induction false} BytesRoundTrip(bs: Octets)
    ensures BigEndian(bs) < Pow256(|bs|)
    ensures ToBigEndian(BigEndian(bs), |bs|) == bs
  {
    BigEndianBound(bs);
    if bs == [] {
    } else {
      BigEndianBound(bs[1..]);
      BytesRoundTrip(bs[1..]);
      QuotRemUnique(bs[0], Pow256(|bs| - 1), BigEndian(bs[1..]));
    }
  }

  // ---------------------------------------------------------------- groups of digits

  type Layout = seq<nat>

  ghost predicate IsLayout(l: Layout) {
    forall i :: 0 <= i < |l| ==> 1 <= l[i] <= DIG_PER_DEC1
  }

  function Digits(l: Layout): nat {
    if l == [] then 0 else l[0] + Digits(l[1..])
  }

  function Size(l: Layout): nat
    requires forall i :: 0 <= i < |l| ==> l[i] <= DIG_PER_DEC1
  {
    if l == [] then 0 else Dig2Bytes(l[0]) + Size(l[1..])
  }

  /** m cut into groups of digits, most significant first. */
  function Cut(m: nat, l: Layout): (g: seq<nat>)
    ensures |g| == |l|
    decreases |l|
  {
    hide Pow10, Quot, Rem;
    if l == [] then []
    else
      var p := Pow10(Digits(l[1..]));
      [Quot(m, p)] + Cut(Rem(m, p), l[1..])
  }

  function Join(g: seq<nat>, l: Layout): nat
    requires |g| == |l|
  {
    if l == [] then 0 else g[0] * Pow10(Digits(l[1..])) + Join(g[1..], l[1..])
  }

  ghost predicate InRange(g: seq<nat>, l: Layout)
  {
    |g| == |l| && forall i :: 0 <= i < |l| ==> g[i] < Pow10(l[i])
  }

  lemma {:induction false} JoinBound(g: seq<nat>, l: Layout)
    requires InRange(g, l)
    ensures Join(g, l) < Pow10(Digits(l))
  {
    hide Pow10;
    if l == [] {
      PowTable();
    } else {
      JoinBound(g[1..], l[1..]);
      PowAdd(l[0], Digits(l[1..]));
      Carry(g[0], Pow10(l[0]), Pow10(Digits(l[1..])), Join(g[1..], l[1..]));
    }
  }

  lemma {:induction false} JoinOfCut(m: nat, l: Layout)
    requires m < Pow10(Digits(l))
    ensures InRange(Cut(m, l), l) && Join(Cut(m, l), l) == m
  {
    hide Pow10, Quot, Rem;
    if l == [] {
      PowTable();
    } else {
      var p := Pow10(Digits(l[1..]));
      PowAdd(l[0], Digits(l[1..]));
      QuotBound(m, p, Pow10(l[0]));
      QuotRem(m, p);
      JoinOfCut(Rem(m, p), l[1..]);
      assert Cut(m, l) == [Quot(m, p)] + Cut(Rem(m, p), l[1..]);
    }
  }

  lemma {:induction false} CutOfJoin(g: seq<nat>, l: Layout)
    requires InRange(g, l)
    ensures Cut(Join(g, l), l) == g
  {
    hide Pow10, Quot, Rem;
    if l == [] {
    } else {
      JoinBound(g[1..], l[1..]);
      CutOfJoin(g[1..], l[1..]);
      QuotRemUnique(g[0], Pow10(Digits(l[1..])), Join(g[1..], l[1..]));
    }
  }

  /** The group values found in a string of bytes. */
  function Groups(bs: Octets, l: Layout): (g: seq<nat>)
    requires IsLayout(l) && |bs| == Size(l)
    ensures |g| == |l|
  {
    if l == [] then []
    else [BigEndian(bs[..Dig2Bytes(l[0])])] + Groups(bs[Dig2Bytes(l[0])..], l[1..])
  }

  function GroupBytes(g: seq<nat>, l: Layout): (bs: Octets)
    requires IsLayout(l) && InRange(g, l)
    ensures |bs| == Size(l)
  {
    if l == [] then []
    else
      GroupFits(l[0]);
      ToBigEndian(g[0], Dig2Bytes(l[0])) + GroupBytes(g[1..], l[1..])
  }

  lemma {:induction false} GroupsRoundTrip(g: seq<nat>, l: Layout)
    requires IsLayout(l) && InRange(g, l)
    ensures Groups(GroupBytes(g, l), l) == g
  {
    if l == [] {
    } else {
      GroupFits(l[0]);
      var k, bs := Dig2Bytes(l[0]), GroupBytes(g, l);
      BigEndianRoundTrip(g[0], k);
      GroupsRoundTrip(g[1..], l[1..]);
      assert bs[..k] == ToBigEndian(g[0], k);
      assert bs[k..] == GroupBytes(g[1..], l[1..]);
    }
  }

  lemma {:induction false} GroupBytesRoundTrip(bs: Octets, l: Layout)
    requires IsLayout(l) && |bs| == Size(l) && InRange(Groups(bs, l), l)
    ensures GroupBytes(Groups(bs, l), l) == bs
  {
    hide BigEndian, ToBigEndian, Pow10, Pow256;
    if l == [] {
    } else {
      var k, g := Dig2Bytes(l[0]), Groups(bs, l);
      var head, tail := bs[..k], bs[k..];
      assert g == [BigEndian(head)] + Groups(tail, l[1..]);
      assert InRange(Groups(tail, l[1..]), l[1..]);
      GroupBytesRoundTrip(tail, l[1..]);
      BytesRoundTrip(head);
      assert GroupBytes(g, l) == ToBigEndian(g[0], k) + GroupBytes(g[1..], l[1..]);
    }
  }

  // ---------------------------------------------------------------- DECIMAL(p,s)

  function Nines(n: nat): (l: Layout)
    ensures IsLayout(l) && |l| == n && forall i :: 0 <= i < n ==> l[i] == 9
  {
    seq(n, _ => DIG_PER_DEC1)
  }

  /** The integer part: a leading partial group and full groups. */
  function IntLayout(digits: nat): Layout {
    Partial(digits % 9) + Nines(digits / 9)
  }

  /** The fraction: full groups and a trailing partial group. */
  function FracLayout(digits: nat): Layout {
    Nines(digits / 9) + Partial(digits % 9)
  }

  function LayoutOf(precision: nat, scale: nat): (l: Layout)
    requires scale <= precision
    ensures IsLayout(l)
  {
    IntLayout(precision - scale) + FracLayout(scale)
  }

  lemma {:induction false} DigitsOfConcat(a: Layout, b: Layout)
    ensures Digits(a + b) == Digits(a) + Digits(b)
  {
    if a == [] {
      assert a + b == b;
    } else {
      assert (a + b)[1..] == a[1..] + b;
      DigitsOfConcat(a[1..], b);
    }
  }

  lemma {:induction false} SizeOfConcat(a: Layout, b: Layout)
    requires IsLayout(a) && IsLayout(b)
    ensures Size(a + b) == Size(a) + Size(b)
  {
    if a == [] {
      assert a + b == b;
    } else {
      assert (a + b)[1..] == a[1..] + b;
      SizeOfConcat(a[1..], b);
    }
  }

  lemma {:induction false} NinesMeasure(n: nat)
    ensures Digits(Nines(n)) == 9 * n && Size(Nines(n)) == 4 * n
  {
    if n == 0 {
    } else {
      NinesMeasure(n - 1);
      assert Nines(n)[1..] == Nines(n - 1);
    }
  }

  function Partial(x: nat): (l: Layout)
    requires x < 9
    ensures IsLayout(l)
  {
    if x == 0 then [] else [x]
  }

  lemma PartialMeasure(x: nat)
    requires x < 9
    ensures Digits(Partial(x)) == x && Size(Partial(x)) == Dig2Bytes(x)
  {}

  lemma PartMeasure(x: nat, n: nat)
    requires x < 9
    ensures Digits(Partial(x) + Nines(n)) == n * 9 + x && Size(Partial(x) + Nines(n)) == n * 4 + Dig2Bytes(x)
    ensures Digits(Nines(n) + Partial(x)) == n * 9 + x && Size(Nines(n) + Partial(x)) == n * 4 + Dig2Bytes(x)
  {
    hide Digits, Size, Dig2Bytes, Partial, Nines;
    PartialMeasure(x);
    NinesMeasure(n);
    DigitsOfConcat(Partial(x), Nines(n));
    SizeOfConcat(Partial(x), Nines(n));
    DigitsOfConcat(Nines(n), Partial(x));
    SizeOfConcat(Nines(n), Partial(x));
  }

  lemma LayoutDigits(precision: nat, scale: nat)
    requires scale <= precision
    ensures Digits(IntLayout(precision - scale)) == precision - scale
    ensures Digits(FracLayout(scale)) == scale
    ensures Digits(LayoutOf(precision, scale)) == precision
  {
    hide Digits, Size, Nines, Partial;
    PartMeasure((precision - scale) % 9, (precision - scale) / 9);
    PartMeasure(scale % 9, scale / 9);
    DigitsOfConcat(IntLayout(precision - scale), FracLayout(scale));
  }

  function Abs(n: int): nat { if n < 0 then -n else n }

  function Complement(bs: Octets): (r: Octets)
    ensures |r| == |bs| && forall i :: 0 <= i < |bs| ==> r[i] == 255 - bs[i]
  {
    seq(|bs|, i requires 0 <= i < |bs| => 255 - bs[i])
  }

  function FlipTop(b: Byte): Byte { if b >= 128 then b - 128 else b + 128 }

  /** The stored bytes of a non-negative or negative magnitude. */
  function Mask(negative: bool, bs: Octets): (r: Octets)
    requires bs != []
    ensures |r| == |bs|
  {
    var m := if negative then Complement(bs) else bs;
    [FlipTop(m[0])] + m[1..]
  }

  predicate IsNegative(bs: Octets)
    requires bs != []
  {
    bs[0] < 128
  }

  function Unmask(bs: Octets): (r: Octets)
    requires bs != []
    ensures |r| == |bs|
  {
    var m := [FlipTop(bs[0])] + bs[1..];
    if IsNegative(bs) then Complement(m) else m
  }

  lemma MaskRoundTrip(negative: bool, bs: Octets)
    requires bs != [] && bs[0] < 128
    ensures IsNegative(Mask(negative, bs)) == negative && Unmask(Mask(negative, bs)) == bs
  {}

  lemma UnmaskRoundTrip(bs: Octets)
    requires bs != [] && Unmask(bs)[0] < 128
    ensures Mask(IsNegative(bs), Unmask(bs)) == bs
  {}

  lemma SizePositive(precision: nat, scale: nat)
    requires scale <= precision && precision > 0
    ensures LayoutOf(precision, scale) != [] && Size(LayoutOf(precision, scale)) > 0
  {
    hide LayoutOf, IntLayout, FracLayout;
    LayoutDigits(precision, scale);
    assert Digits([]) == 0;
  }

  /** The format's encoding of n / 10^scale. */
  function Encode(n: int, precision: nat, scale: nat): (bs: Octets)
    requires scale <= precision && precision > 0
    requires Abs(n) < Pow10(precision)
    ensures |bs| == Size(LayoutOf(precision, scale)) && bs != []
  {
    var l := LayoutOf(precision, scale);
    LayoutDigits(precision, scale);
    SizePositive(precision, scale);
    JoinOfCut(Abs(n), l);
    Mask(n < 0, GroupBytes(Cut(Abs(n), l), l))
  }

  /** The bytes are an encoding: every group is within its digits. */
  ghost predicate IsEncoding(bs: Octets, precision: nat, scale: nat)
    requires scale <= precision && precision > 0
  {
    var l := LayoutOf(precision, scale);
    && bs != [] && |bs| == Size(l)
    && InRange(Groups(Unmask(bs), l), l)
  }

  function Magnitude(bs: Octets, precision: nat, scale: nat): nat
    requires scale <= precision && precision > 0
    requires bs != [] && |bs| == Size(LayoutOf(precision, scale))
  {
    Join(Groups(Unmask(bs), LayoutOf(precision, scale)), LayoutOf(precision, scale))
  }

  /** The number an encoding stands for, in units of 10^-scale. */
  function Value(bs: Octets, precision: nat, scale: nat): int
    requires scale <= precision && precision > 0
    requires bs != [] && |bs| == Size(LayoutOf(precision, scale))
  {
    if IsNegative(bs) then 0 - Magnitude(bs, precision, scale) else Magnitude(bs, precision, scale)
  }

  lemma FirstByteSmall(g: seq<nat>, l: Layout)
    requires IsLayout(l) && InRange(g, l) && l != []
    ensures GroupBytes(g, l) != [] && GroupBytes(g, l)[0] < 128
  {
    hide Quot;
    GroupFits(l[0]);
    var k := Dig2Bytes(l[0]);
    QuotBound(g[0], Pow256(k - 1), 128);
  }

  /** Encoding then reading the format back gives the number. */
  lemma EncodeRoundTrip(n: int, precision: nat, scale: nat)
    requires scale <= precision && precision > 0
    requires Abs(n) < Pow10(precision)
    ensures IsEncoding(Encode(n, precision, scale), precision, scale)
    ensures Value(Encode(n, precision, scale), precision, scale) == n
    ensures IsNegative(Encode(n, precision, scale)) <==> n < 0
  {
    hide Pow10, Mask, Unmask, Groups, GroupBytes, Cut, Join;
    var l := LayoutOf(precision, scale);
    var m := Abs(n);
    LayoutDigits(precision, scale);
    SizePositive(precision, scale);
    JoinOfCut(m, l);
    FirstByteSmall(Cut(m, l), l);
    MaskRoundTrip(n < 0, GroupBytes(Cut(m, l), l));
    GroupsRoundTrip(Cut(m, l), l);
  }

  /** Every encoding but that of negative zero is the encoding of its value, so the
      format stores each number in one way only. */
  lemma ValueRoundTrip(bs: Octets, precision: nat, scale: nat)
    requires scale <= precision && precision > 0 && IsEncoding(bs, precision, scale)
    requires !(IsNegative(bs) && Magnitude(bs, precision, scale) == 0)
    ensures Abs(Value(bs, precision, scale)) < Pow10(precision)
    ensures Encode(Value(bs, precision, scale), precision, scale) == bs
  {
    hide Pow10, Mask, Unmask, Groups, GroupBytes, Cut, Join;
    var l := LayoutOf(precision, scale);
    var g := Groups(Unmask(bs), l);
    LayoutDigits(precision, scale);
    SizePositive(precision, scale);
    JoinBound(g, l);
    CutOfJoin(g, l);
    GroupBytesRoundTrip(Unmask(bs), l);
    FirstByteSmall(g, l);
    UnmaskRoundTrip(bs);
  }

  // ---------------------------------------------------------------- order

  /** Byte-wise order of two strings of the same length. */
  predicate Below(a: Octets, b: Octets)
    requires |a| == |b|
  {
    a != [] && (a[0] < b[0] || (a[0] == b[0] && Below(a[1..], b[1..])))
  }

  lemma {:induction false} BelowSplits(a: Octets, b: Octets, k: nat)
    requires |a| == |b| && k <= |a| && Below(a, b)
    ensures Below(a[..k], b[..k]) || (a[..k] == b[..k] && Below(a[k..], b[k..]))
  {
    if k == 0 || a[0] != b[0] {
    } else {
      BelowSplits(a[1..], b[1..], k - 1);
      assert a[..k] == [a[0]] + a[1..][..k - 1] && b[..k] == [b[0]] + b[1..][..k - 1];
      assert a[k..] == a[1..][k - 1..] && b[k..] == b[1..][k - 1..];
    }
  }

  lemma {:induction false} BigEndianMonotone(a: Octets, b: Octets)
    requires |a| == |b| && Below(a, b)
    ensures BigEndian(a) < BigEndian(b)
  {
    hide Pow256;
    BigEndianBound(a[1..]);
    if a[0] < b[0] {
      Carry(a[0], b[0], Pow256(|a| - 1), BigEndian(a[1..]));
    } else {
      BigEndianMonotone(a[1..], b[1..]);
    }
  }

  lemma BelowNeedsBytes(a: Octets, b: Octets, l: Layout)
    requires IsLayout(l) && |a| == |b| == Size(l) && Below(a, b)
    ensures l != []
  {}

  lemma {:induction false} JoinMonotone(a: Octets, b: Octets, l: Layout)
    requires IsLayout(l) && |a| == |b| == Size(l) && Below(a, b)
    requires InRange(Groups(a, l), l) && InRange(Groups(b, l), l)
    ensures Join(Groups(a, l), l) < Join(Groups(b, l), l)
    decreases |l|
  {
    hide Pow10, BigEndian, Below, Digits;
    BelowNeedsBytes(a, b, l);
    var k, g, h := Dig2Bytes(l[0]), Groups(a, l), Groups(b, l);
    BelowSplits(a, b, k);
    assert g == [BigEndian(a[..k])] + Groups(a[k..], l[1..]);
    assert h == [BigEndian(b[..k])] + Groups(b[k..], l[1..]);
    if Below(a[..k], b[..k]) {
      BigEndianMonotone(a[..k], b[..k]);
      JoinBound(g[1..], l[1..]);
      Carry(g[0], h[0], Pow10(Digits(l[1..])), Join(g[1..], l[1..]));
    } else {
      JoinMonotone(a[k..], b[k..], l[1..]);
    }
  }

  lemma {:induction false} ComplementReverses(a: Octets, b: Octets)
    requires |a| == |b| && Below(a, b)
    ensures Below(Complement(b), Complement(a))
  {
    assert Complement(a)[1..] == Complement(a[1..]) && Complement(b)[1..] == Complement(b[1..]);
    if a[0] != b[0] {
    } else {
      ComplementReverses(a[1..], b[1..]);
    }
  }

  lemma UnmaskOrder(a: Octets, b: Octets)
    requires |a| == |b| && Below(a, b) && IsNegative(a) == IsNegative(b)
    ensures if IsNegative(a) then Below(Unmask(b), Unmask(a)) else Below(Unmask(a), Unmask(b))
  {
    var m, n := [FlipTop(a[0])] + a[1..], [FlipTop(b[0])] + b[1..];
    assert m[1..] == a[1..] && n[1..] == b[1..];
    assert Below(m, n);
    ComplementReverses(m, n);
  }

  /** Byte-wise order of encodings is the order of their values; two different
      encodings of one value are those of negative and positive zero. */
  lemma EncodingsSortLikeValues(a: Octets, b: Octets, precision: nat, scale: nat)
    requires scale <= precision && precision > 0
    requires IsEncoding(a, precision, scale) && IsEncoding(b, precision, scale) && Below(a, b)
    ensures Value(a, precision, scale) <= Value(b, precision, scale)
    ensures Value(a, precision, scale) == Value(b, precision, scale) ==>
              IsNegative(a) && !IsNegative(b) && Value(a, precision, scale) == 0
  {
    hide Groups, Join, Unmask;
    var l := LayoutOf(precision, scale);
    if IsNegative(a) == IsNegative(b) {
      UnmaskOrder(a, b);
      if IsNegative(a) {
        JoinMonotone(Unmask(b), Unmask(a), l);
      } else {
        JoinMonotone(Unmask(a), Unmask(b), l);
      }
    }
  }
}

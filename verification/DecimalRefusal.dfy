/** Which bytes bin2decimal refuses, and for which precisions and scales those are the
    bytes that are no encoding. */
module DecimalRefusal {
  import opened Bytes
  import opened DecimalFormat
  import opened BinDecimal
  import opened DecimalMeaning

  /** The groups for which the range check is that of the format: full ones, and trailing
      ones of two or four digits. */
  predicate Exact(d: nat, frac: bool) {
    d == 9 || (frac && (d == 2 || d == 4))
  }

  /** What can be stored in the group's bytes below the top bit. */
  predicate Storable(u: nat, d: nat)
    requires d <= 9
  {
    2 * u < Pow256(Dig2Bytes(d))
  }

  lemma ExactGroup(u: nat, d: nat, frac: bool)
    requires 1 <= d <= 9 && Exact(d, frac) && u < Pow256(Dig2Bytes(d))
    ensures Accepted(u, d, frac) <==> u < Pow10(d)
  {
    hide Pow10, Pow256;
    PowersOf256();
    PowTable();
  }

  /** A value with too many digits that passes the check: a leading partial group may be
      ten times too large, and the product that fills up a trailing one wraps around. */
  function Stray(d: nat, frac: bool): nat {
    if !frac then Pow10(d)
    else if d == 1 then 43
    else if d == 3 then 4295
    else if d == 5 then 429497
    else if d == 6 then 4294968
    else if d == 7 then 42949673
    else 429496730
  }

  lemma StrayPasses(d: nat, frac: bool)
    requires 1 <= d < 9 && !Exact(d, frac)
    ensures var u := Stray(d, frac);
            u >= Pow10(d) && Storable(u, d) && Accepted(u, d, frac)
  {
    hide Pow10, Pow256;
    PowersOf256();
    PowTable();
    PowAdd(d, 1);
  }

  lemma TooLarge(d: nat)
    requires 1 <= d <= 9
    ensures Storable(Pow10(d), d) && Storable(0, d)
  {
    hide Pow10, Pow256;
    PowersOf256();
    PowTable();
  }

  // ---------------------------------------------------------------- bytes of a group value

  /** Bytes whose group i holds u, and whose other groups are zero. */
  function Only(l: Layout, i: nat, u: nat): (bs: Octets)
    requires IsLayout(l) && (i < |l| ==> Storable(u, l[i]))
    ensures |bs| == Size(l)
  {
    if l == [] then []
    else if i == 0 then ToBigEndian(u, Dig2Bytes(l[0])) + Only(l[1..], |l|, 0)
    else ToBigEndian(0, Dig2Bytes(l[0])) + Only(l[1..], i - 1, u)
  }

  lemma OnlyFirst(l: Layout, i: nat, u: nat)
    requires IsLayout(l) && l != [] && (i < |l| ==> Storable(u, l[i]))
    ensures var bs, k := Only(l, i, u), Dig2Bytes(l[0]);
            && k <= |bs| && BigEndian(bs[..k]) == (if i == 0 then u else 0)
            && bs[k..] == if i == 0 then Only(l[1..], |l|, 0) else Only(l[1..], i - 1, u)
  {
    hide ToBigEndian, BigEndian, Dig2Bytes;
    var v, k := if i == 0 then u else 0, Dig2Bytes(l[0]);
    BigEndianRoundTrip(v, k);
    var rest := if i == 0 then Only(l[1..], |l|, 0) else Only(l[1..], i - 1, u);
    assert Only(l, i, u) == ToBigEndian(v, k) + rest;
  }

  lemma {:induction false} OnlyGroup(l: Layout, i: nat, u: nat, k: nat)
    requires IsLayout(l) && (i < |l| ==> Storable(u, l[i])) && k < |l|
    ensures Groups(Only(l, i, u), l)[k] == if k == i then u else 0
    decreases |l|
  {
    hide Only, BigEndian, Dig2Bytes;
    OnlyFirst(l, i, u);
    if k == 0 {
    } else if i == 0 {
      OnlyGroup(l[1..], |l|, 0, k - 1);
    } else {
      OnlyGroup(l[1..], i - 1, u, k - 1);
    }
  }

  lemma OnlyTopClear(l: Layout, i: nat, u: nat)
    requires IsLayout(l) && l != [] && (i < |l| ==> Storable(u, l[i]))
    ensures Only(l, i, u) != [] && Only(l, i, u)[0] < 128
  {
    hide Quot;
    TooLarge(l[0]);
    var k := Dig2Bytes(l[0]);
    QuotBound(if i == 0 then u else 0, Pow256(k - 1), 128);
  }

  /** The input with value u in group i. */
  function Input(precision: nat, scale: nat, i: nat, u: nat): (bs: Octets)
    requires scale <= precision && precision > 0
    requires i < |LayoutOf(precision, scale)| && Storable(u, LayoutOf(precision, scale)[i])
    ensures bs != [] && |bs| == Size(LayoutOf(precision, scale))
  {
    SizePositive(precision, scale);
    Mask(false, Only(LayoutOf(precision, scale), i, u))
  }

  lemma InputGroups(precision: nat, scale: nat, i: nat, u: nat)
    requires scale <= precision && precision > 0
    requires i < |LayoutOf(precision, scale)| && Storable(u, LayoutOf(precision, scale)[i])
    ensures var l := LayoutOf(precision, scale);
            forall k :: 0 <= k < |l| ==> Groups(Unmask(Input(precision, scale, i, u)), l)[k] == if k == i then u else 0
  {
    hide Groups, Only, Mask, Unmask, LayoutOf, Size;
    var l := LayoutOf(precision, scale);
    SizePositive(precision, scale);
    OnlyTopClear(l, i, u);
    MaskRoundTrip(false, Only(l, i, u));
    forall k | 0 <= k < |l| ensures Groups(Only(l, i, u), l)[k] == if k == i then u else 0 {
      OnlyGroup(l, i, u, k);
    }
  }

  // ---------------------------------------------------------------- the theorem

  /** The decoder's verdict on these bytes is that of the format. */
  ghost predicate RightVerdict(bs: Octets, precision: nat, scale: nat)
    requires scale <= precision && precision > 0 && bs != [] && |bs| == Size(LayoutOf(precision, scale))
  {
    Decode(bs, precision, scale).error == E_DEC_BAD_NUM <==> !IsEncoding(bs, precision, scale)
  }

  /** The decoder refuses exactly the bytes that are no encoding. */
  ghost predicate RefusesExactly(precision: nat, scale: nat)
    requires scale <= precision && precision > 0
  {
    forall bs: Octets :: bs != [] && |bs| == Size(LayoutOf(precision, scale)) ==> RightVerdict(bs, precision, scale)
  }

  lemma VerdictIs(bs: Octets, precision: nat, scale: nat)
    requires scale <= precision && bs != [] && |bs| == Size(LayoutOf(precision, scale))
    ensures Decode(bs, precision, scale).error == E_DEC_BAD_NUM
            <==> exists i :: 0 <= i < |KeptLayout(precision, scale)| && !AcceptedAt(bs, precision, scale, i)
  {
    hide AcceptedAt, KeptLayout, FirstWords, Digits, StripZeros;
  }

  lemma GroupBound(bs: Octets, l: Layout, i: nat)
    requires IsLayout(l) && |bs| == Size(l) && i < |l|
    ensures Groups(bs, l)[i] < Pow256(Dig2Bytes(l[i]))
  {
    hide Groups, Size, Pow256, Dig2Bytes;
    GroupAt(bs, l, i);
    BigEndianBound(bs[Size(l[..i])..Size(l[..i + 1])]);
  }

  lemma WhatFitsIsKept(precision: nat, scale: nat)
    requires scale <= precision && FitsNineWords(precision, scale)
    ensures KeptLayout(precision, scale) == LayoutOf(precision, scale) && KeptGroups(precision, scale).first == 0
  {}

  /** If every group is checked exactly, so are the bytes. */
  lemma ExactGroupsSuffice(bs: Octets, precision: nat, scale: nat)
    requires scale <= precision && precision > 0 && bs != [] && |bs| == Size(LayoutOf(precision, scale))
    requires FitsNineWords(precision, scale)
    requires forall i :: 0 <= i < |KeptLayout(precision, scale)| ==>
               Exact(KeptLayout(precision, scale)[i], IsFrac(precision, scale, i))
    ensures RightVerdict(bs, precision, scale)
  {
    hide Groups, Accepted, Exact, IsFrac, KeptLayout, KeptGroups, FitsNineWords, Decode, Pow10, Pow256, Size, LayoutOf;
    WhatFitsIsKept(precision, scale);
    VerdictIs(bs, precision, scale);
    var l := LayoutOf(precision, scale);
    forall i | 0 <= i < |l| ensures AcceptedAt(bs, precision, scale, i) <==> Groups(Unmask(bs), l)[i] < Pow10(l[i]) {
      GroupBound(Unmask(bs), l, i);
      ExactGroup(GroupValue(bs, precision, scale, i), l[i], IsFrac(precision, scale, i));
    }
  }

  /** A kept group with an inexact check gives bytes that are accepted and no encoding. */
  lemma InexactGroupFails(precision: nat, scale: nat, i: nat)
    requires scale <= precision && precision > 0 && FitsNineWords(precision, scale)
    requires i < |KeptLayout(precision, scale)| && !Exact(KeptLayout(precision, scale)[i], IsFrac(precision, scale, i))
    ensures LayoutOf(precision, scale) == KeptLayout(precision, scale)
    ensures var u := Stray(KeptLayout(precision, scale)[i], IsFrac(precision, scale, i));
            && Storable(u, KeptLayout(precision, scale)[i])
            && var bs := Input(precision, scale, i, u);
               !IsEncoding(bs, precision, scale) && Decode(bs, precision, scale).error == E_DEC_OK
  {
    hide Groups, Accepted, IsFrac, KeptLayout, KeptGroups, FitsNineWords, Decode, Pow10, Pow256, Size, LayoutOf, Stray;
    WhatFitsIsKept(precision, scale);
    var l := KeptLayout(precision, scale);
    var u := Stray(l[i], IsFrac(precision, scale, i));
    StrayPasses(l[i], IsFrac(precision, scale, i));
    var bs := Input(precision, scale, i, u);
    InputGroups(precision, scale, i, u);
    forall k | 0 <= k < |l| ensures AcceptedAt(bs, precision, scale, k) {
      if k != i { ZeroAccepted(l[k], IsFrac(precision, scale, k)); }
    }
    assert Groups(Unmask(bs), l)[i] >= Pow10(l[i]);
    NoRejection(bs, precision, scale);
    FitsMeansNoError(precision, scale);
  }

  lemma ZeroAccepted(d: nat, frac: bool)
    requires 1 <= d <= 9
    ensures Accepted(0, d, frac)
  {
    PowersOf256();
  }

  lemma NoRejection(bs: Octets, precision: nat, scale: nat)
    requires scale <= precision && bs != [] && |bs| == Size(LayoutOf(precision, scale))
    requires forall i :: 0 <= i < |KeptLayout(precision, scale)| ==> AcceptedAt(bs, precision, scale, i)
    ensures Decode(bs, precision, scale).error == KeptGroups(precision, scale).error
  {
    hide AcceptedAt, KeptLayout, FirstWords, Digits, StripZeros;
  }

  /** A group that does not fit the nine words is not looked at. */
  lemma DroppedGroupFails(precision: nat, scale: nat)
    requires scale <= precision && precision > 0 && !FitsNineWords(precision, scale)
    ensures !RefusesExactly(precision, scale)
  {
    hide Groups, Accepted, KeptLayout, Decode, Pow10, Pow256, Size, LayoutOf;
    var i := DroppedGroup(precision, scale);
    var l := LayoutOf(precision, scale);
    TooLarge(l[i]);
    var bs := Input(precision, scale, i, Pow10(l[i]));
    InputGroups(precision, scale, i, Pow10(l[i]));
    forall k | 0 <= k < |KeptLayout(precision, scale)| ensures AcceptedAt(bs, precision, scale, k) {
      KeptIsASlice(precision, scale, k);
      ZeroAccepted(KeptLayout(precision, scale)[k], IsFrac(precision, scale, k));
    }
    NoRejection(bs, precision, scale);
    assert !RightVerdict(bs, precision, scale);
  }

  lemma DroppedGroup(precision: nat, scale: nat) returns (i: nat)
    requires scale <= precision && !FitsNineWords(precision, scale)
    ensures i < |LayoutOf(precision, scale)|
    ensures var first := KeptGroups(precision, scale).first;
            i < first || i >= first + |KeptLayout(precision, scale)|
  {
    i := if KeptGroups(precision, scale).first > 0 then 0 else 9;
  }

  /** The groups of DECIMAL(p,s) are all checked exactly. */
  lemma ExactShape(precision: nat, scale: nat) returns (i: nat)
    requires scale <= precision && FitsNineWords(precision, scale)
    ensures if (precision - scale) % 9 == 0 && scale % 9 in {0, 2, 4}
            then forall k :: 0 <= k < |KeptLayout(precision, scale)| ==>
                   Exact(KeptLayout(precision, scale)[k], IsFrac(precision, scale, k))
            else
              && i < |KeptLayout(precision, scale)|
              && !Exact(KeptLayout(precision, scale)[i], IsFrac(precision, scale, i))
  {
    var n := |KeptLayout(precision, scale)|;
    i := if (precision - scale) % 9 != 0 || n == 0 then 0 else n - 1;
  }

  /** bin2decimal refuses exactly the bytes that are no encoding if and only if all groups
      fit its nine words, the integer part is made of full groups, and the fraction ends
      with a full group or one of two or four digits. */
  lemma RefusesExactlyIff(precision: nat, scale: nat)
    requires scale <= precision && precision > 0
    ensures RefusesExactly(precision, scale)
            <==> FitsNineWords(precision, scale) && (precision - scale) % 9 == 0 && scale % 9 in {0, 2, 4}
  {
    hide FitsNineWords, KeptLayout, IsFrac, RightVerdict, Exact, LayoutOf, Size;
    if !FitsNineWords(precision, scale) {
      DroppedGroupFails(precision, scale);
    } else {
      var i := ExactShape(precision, scale);
      if (precision - scale) % 9 == 0 && scale % 9 in {0, 2, 4} {
        forall bs: Octets | bs != [] && |bs| == Size(LayoutOf(precision, scale))
          ensures RightVerdict(bs, precision, scale)
        {
          ExactGroupsSuffice(bs, precision, scale);
        }
      } else {
        InexactGroupFails(precision, scale, i);
        var stray := Stray(KeptLayout(precision, scale)[i], IsFrac(precision, scale, i));
        WrongVerdict(precision, scale, Input(precision, scale, i, stray));
      }
    }
  }

  lemma WrongVerdict(precision: nat, scale: nat, bs: Octets)
    requires scale <= precision && precision > 0 && bs != [] && |bs| == Size(LayoutOf(precision, scale))
    requires !IsEncoding(bs, precision, scale) && Decode(bs, precision, scale).error == E_DEC_OK
    ensures !RightVerdict(bs, precision, scale)
  {
    hide Decode, IsEncoding;
  }

  lemma OneGroup(x: nat)
    requires 0 < x < 9
    ensures Partial(x) + Nines(0) == [x] && Nines(0) + Partial(x) == [x]
    ensures Partial(0) + Nines(0) == [] && Nines(0) + Partial(0) == []
    ensures Size([x]) == Dig2Bytes(x)
  {}

  lemma OneDigit(scale: nat)
    requires scale <= 1
    ensures LayoutOf(1, scale) == [1] && Size(LayoutOf(1, scale)) == 1
    ensures KeptLayout(1, scale) == [1] && IsFrac(1, scale, 0) == (scale == 1) && FitsNineWords(1, scale)
  {
    hide Nines, Partial, Size;
    OneGroup(1);
    assert IntLayout(1 - scale) == (if scale == 0 then [1] else []);
    assert FracLayout(scale) == (if scale == 1 then [1] else []);
  }

  /** DECIMAL(1,0) takes the byte 138 for the number 10. */
  lemma TenInOneDigit()
    ensures Size(LayoutOf(1, 0)) == 1
    ensures !IsEncoding([138], 1, 0) && Decode([138], 1, 0).error == E_DEC_OK
  {
    hide Decode, IsEncoding, LayoutOf, KeptLayout, Size, FitsNineWords, IsFrac, Input;
    OneDigit(0);
    PowTable();
    PowersOf256();
    OneByte(1, 0, 10);
    InexactGroupFails(1, 0, 0);
  }

  /** DECIMAL(1,1) takes the byte 171, which would stand for 43 tenths. */
  lemma FortyThreeTenths()
    ensures Size(LayoutOf(1, 1)) == 1
    ensures !IsEncoding([171], 1, 1) && Decode([171], 1, 1).error == E_DEC_OK
  {
    hide Decode, IsEncoding, LayoutOf, KeptLayout, Size, FitsNineWords, IsFrac, Input;
    OneDigit(1);
    PowersOf256();
    OneByte(1, 1, 43);
    InexactGroupFails(1, 1, 0);
  }

  lemma OneByte(precision: nat, scale: nat, u: nat)
    requires scale <= precision && precision > 0 && LayoutOf(precision, scale) == [1] && u < 128 && Storable(u, 1)
    ensures Input(precision, scale, 0, u) == [u + 128]
  {
    hide LayoutOf;
    var l: Layout := [1];
    assert l[1..] == [] && Only(l[1..], 1, 0) == [];
    assert ToBigEndian(u, 1) == [u];
    assert Only(l, 0, u) == [u];
  }
}

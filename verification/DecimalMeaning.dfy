/** What the words left by bin2decimal denote. */
module DecimalMeaning {
  import opened Bytes
  import opened DecimalFormat
  import opened BinDecimal

  /** Base-10^9 words, most significant first. */
  function Val(ws: seq<int>): int {
    if ws == [] then 0 else ws[0] * Pow10(9 * (|ws| - 1)) + Val(ws[1..])
  }

  lemma {:induction false} StripKeepsVal(a: seq<int>, b: seq<int>)
    ensures Val(StripZeros(a) + b) == Val(a + b)
    ensures StripZeros(a) != [] ==> StripZeros(a)[0] != 0
    decreases |a|
  {
    hide Pow10;
    if a == [] || a[0] != 0 {
    } else {
      assert (a + b)[1..] == a[1..] + b;
      StripKeepsVal(a[1..], b);
    }
  }

  /** A group within its digits yields its value, scaled up to a whole word. */
  lemma WordOfGroup(u: nat, d: nat, frac: bool)
    requires 1 <= d <= 9 && u < Pow10(d)
    ensures WordOf(u, d, frac) == u * Pow10(if frac then 9 - d else 0)
    ensures Accepted(u, d, frac)
  {
    hide Pow10, Pow256;
    GroupFits(d);
    PowTable();
    PowAdd(d, 1);
    PowAdd(d, 9 - d);
    if frac { MulMonotone(u + 1, Pow10(d), Pow10(9 - d)); }
  }

  lemma {:induction false} TailDigits(l: Layout, pad: nat)
    requires l != [] && (forall i :: 0 <= i < |l| - 1 ==> l[i] == 9) && l[|l| - 1] + pad == 9
    ensures Digits(l) + pad == 9 * |l|
  {
    if |l| == 1 {
      assert l[1..] == [];
    } else {
      TailDigits(l[1..], pad);
    }
  }

  /** A layout whose groups after the first are full, but for a last one short by pad. */
  predicate Regular(l: Layout, pad: nat) {
    && (forall i :: 1 <= i < |l| - 1 ==> l[i] == 9)
    && (|l| > 1 ==> l[|l| - 1] + pad == 9)
  }

  lemma {:induction false} ValOfGroups(g: seq<nat>, l: Layout, ws: seq<int>, pad: nat)
    requires |g| == |l| == |ws| > 0 && Regular(l, pad)
    requires forall i :: 0 <= i < |l| - 1 ==> ws[i] == g[i]
    requires ws[|l| - 1] == g[|l| - 1] * Pow10(pad)
    ensures Val(ws) == Join(g, l) * Pow10(pad)
  {
    hide Pow10, Digits;
    PowTable();
    if |l| == 1 {
      NoDigits();
      assert l[1..] == [];
    } else {
      TailDigits(l[1..], pad);
      PowAdd(Digits(l[1..]), pad);
      ValOfGroups(g[1..], l[1..], ws[1..], pad);
      Distribute(g[0], Pow10(Digits(l[1..])), Join(g[1..], l[1..]), Pow10(pad));
    }
  }

  lemma NoDigits()
    ensures Digits([]) == 0
  {}

  lemma Distribute(a: nat, b: nat, c: nat, p: nat)
    ensures (a * b + c) * p == a * (b * p) + c * p
  {}

  /** Leading and trailing groups of a number are its quotient and remainder. */
  lemma {:induction false} JoinSplit(g: seq<nat>, l: Layout, i: nat)
    requires |g| == |l| && i <= |l|
    ensures Join(g, l) == Join(g[..i], l[..i]) * Pow10(Digits(l[i..])) + Join(g[i..], l[i..])
  {
    hide Pow10, Digits;
    if i == 0 {
      assert g[0..] == g && l[0..] == l;
    } else {
      JoinSplit(g[1..], l[1..], i - 1);
      var a, b := l[..i][1..], l[i..];
      assert l[1..] == a + b && l[1..][..i - 1] == a && l[1..][i - 1..] == b;
      assert g[1..][..i - 1] == g[..i][1..] && g[1..][i - 1..] == g[i..];
      DigitsOfConcat(a, b);
      PowAdd(Digits(a), Digits(b));
      Distribute(g[0], Pow10(Digits(a)), Join(g[..i][1..], a), Pow10(Digits(b)));
    }
  }

  lemma JoinQuotRem(g: seq<nat>, l: Layout, i: nat)
    requires InRange(g, l) && i <= |l|
    ensures Join(g[..i], l[..i]) == Quot(Join(g, l), Pow10(Digits(l[i..])))
    ensures Join(g[i..], l[i..]) == Rem(Join(g, l), Pow10(Digits(l[i..])))
  {
    hide Pow10, Digits, Join, Quot, Rem;
    JoinSplit(g, l, i);
    JoinBound(g[i..], l[i..]);
    QuotRemUnique(Join(g[..i], l[..i]), Pow10(Digits(l[i..])), Join(g[i..], l[i..]));
  }

  /** How many digits the last word has been filled up with. */
  function Pad(frac: nat): nat { 9 * RoundUp(frac) - frac }

  /** m, which ends with its frac-th fraction digit, in units of the last word. */
  function Filled(m: int, frac: nat): int { m * Pow10(Pad(frac)) }

  lemma RegularShape(x: nat, n: nat, f: nat, fx: nat)
    requires x < 9 && fx < 9
    ensures var ints, fracs := Partial(x) + Nines(n), Nines(f) + Partial(fx);
            var pad := Pad(f * 9 + fx);
            && Regular(ints + fracs, pad)
            && (fracs == [] ==> pad == 0)
            && (forall i :: 0 <= i < |fracs| - 1 ==> fracs[i] == 9)
            && (fracs != [] ==> fracs[|fracs| - 1] + pad == 9)
  {
    var ints, fracs := Partial(x) + Nines(n), Nines(f) + Partial(fx);
    assert forall i :: 0 <= i < |fracs| - 1 ==> fracs[i] == 9;
    assert forall i :: 1 <= i < |ints| ==> ints[i] == 9;
    assert Pad(f * 9 + fx) == if fx == 0 then 0 else 9 - fx;
  }

  lemma SomeKept(precision: nat, scale: nat)
    requires scale <= precision && precision > 0
    ensures KeptLayout(precision, scale) != []
  {
    hide Digits, Size;
    SizePositive(precision, scale);
  }

  lemma KeptRegular(precision: nat, scale: nat)
    requires scale <= precision && precision > 0
    ensures var k := KeptGroups(precision, scale);
            && KeptLayout(precision, scale) != []
            && Regular(KeptLayout(precision, scale), Pad(Digits(k.fracs)))
            && (k.fracs == [] ==> Pad(Digits(k.fracs)) == 0)
            && (forall i :: 0 <= i < |k.fracs| - 1 ==> k.fracs[i] == 9)
            && (k.fracs != [] ==> k.fracs[|k.fracs| - 1] + Pad(Digits(k.fracs)) == 9)
  {
    hide Digits, Size, Regular, Pad, Nines, Partial, KeptGroups, Fixed;
    var c := Fixed(precision, scale);
    FixedIsKept(precision, scale);
    RegularShape(c.intg0x, c.intg0, c.frac0, c.frac0x);
    SomeKept(precision, scale);
  }

  /** The kept groups of an encoding. */
  function KeptValues(bs: Octets, precision: nat, scale: nat): (g: seq<nat>)
    requires scale <= precision && bs != [] && |bs| == Size(LayoutOf(precision, scale))
    ensures |g| == |KeptLayout(precision, scale)|
  {
    seq(|KeptLayout(precision, scale)|, i requires 0 <= i < |KeptLayout(precision, scale)| =>
      GroupValue(bs, precision, scale, i))
  }

  lemma {:induction false} FirstWordsAt(bs: Octets, precision: nat, scale: nat, m: nat, i: nat)
    requires scale <= precision && bs != [] && |bs| == Size(LayoutOf(precision, scale))
    requires i < m <= |KeptLayout(precision, scale)|
    ensures FirstWords(bs, precision, scale, m)[i] == WordAt(bs, precision, scale, i)
  {
    hide WordAt;
    if i == m - 1 {
    } else {
      FirstWordsAt(bs, precision, scale, m - 1, i);
    }
  }

  /** Each kept group of an encoding is accepted and stored as it should be. */
  lemma KeptWord(bs: Octets, precision: nat, scale: nat, i: nat)
    requires scale <= precision && precision > 0 && IsEncoding(bs, precision, scale)
    requires i < |KeptLayout(precision, scale)|
    ensures var k, u := KeptGroups(precision, scale), GroupValue(bs, precision, scale, i);
            && AcceptedAt(bs, precision, scale, i)
            && u < Pow10(KeptLayout(precision, scale)[i])
            && WordAt(bs, precision, scale, i)
               == u * Pow10(if i == |KeptLayout(precision, scale)| - 1 then Pad(Digits(k.fracs)) else 0)
  {
    hide Pow10, Digits, WordOf, Accepted, Groups, KeptGroups;
    KeptRegular(precision, scale);
    KeptIsASlice(precision, scale, i);
    WordOfGroup(GroupValue(bs, precision, scale, i), KeptLayout(precision, scale)[i], IsFrac(precision, scale, i));
  }

  /** The integer words start with a non-zero one. */
  predicate NoLeadingZero(d: Decoded) { d.intg > 0 ==> d.words != [] && d.words[0] != 0 }

  /** The stored words denote the kept groups. */
  lemma KeptVal(bs: Octets, precision: nat, scale: nat)
    requires scale <= precision && precision > 0 && IsEncoding(bs, precision, scale)
    ensures var d, k := Decode(bs, precision, scale), KeptGroups(precision, scale);
            && d.error == k.error && d.sign == IsNegative(bs) && d.frac == Digits(k.fracs)
            && Val(d.words) == Filled(Join(KeptValues(bs, precision, scale), KeptLayout(precision, scale)), d.frac)
            && NoLeadingZero(d)
  {
    hide Pow10, Digits, WordAt, GroupValue, AcceptedAt, Regular, Pad, KeptLayout, KeptGroups;
    var n := |KeptLayout(precision, scale)|;
    var k, all := KeptGroups(precision, scale), FirstWords(bs, precision, scale, n);
    var g := KeptValues(bs, precision, scale);
    forall i: nat | i < n
      ensures AcceptedAt(bs, precision, scale, i)
      ensures all[i] == g[i] * Pow10(if i == n - 1 then Pad(Digits(k.fracs)) else 0)
    {
      KeptWord(bs, precision, scale, i);
      FirstWordsAt(bs, precision, scale, n, i);
    }
    PowTable();
    KeptRegular(precision, scale);
    ValOfGroups(g, KeptLayout(precision, scale), all, Pad(Digits(k.fracs)));
    AllWordsDenote(bs, precision, scale);
  }

  lemma AllWordsDenote(bs: Octets, precision: nat, scale: nat)
    requires scale <= precision && precision > 0 && IsEncoding(bs, precision, scale)
    requires forall i :: 0 <= i < |KeptLayout(precision, scale)| ==> AcceptedAt(bs, precision, scale, i)
    ensures var d, k := Decode(bs, precision, scale), KeptGroups(precision, scale);
            && d.error == k.error && d.sign == IsNegative(bs) && d.frac == Digits(k.fracs)
            && Val(d.words) == Val(FirstWords(bs, precision, scale, |KeptLayout(precision, scale)|))
            && NoLeadingZero(d)
  {
    hide FirstWords, AcceptedAt, Val, StripZeros, KeptGroups, Digits, Size, Groups, LayoutOf, Unmask, InRange;
    var ints := |KeptGroups(precision, scale).ints|;
    var all := FirstWords(bs, precision, scale, |KeptLayout(precision, scale)|);
    StripKeepsVal(all[..ints], all[ints..]);
    assert all == all[..ints] + all[ints..];
    NoDigits();
    var w := StripZeros(all[..ints]);
    if w == [] { assert KeptGroups(precision, scale).ints[ints..] == []; }
  }

  // ---------------------------------------------------------------- main results

  /** The groups that do not fit the nine words: none, trailing ones or leading ones. */
  lemma KeptPart(bs: Octets, precision: nat, scale: nat)
    requires scale <= precision && precision > 0 && IsEncoding(bs, precision, scale)
    ensures var k := KeptGroups(precision, scale);
            var m := Magnitude(bs, precision, scale);
            var kept := Join(KeptValues(bs, precision, scale), KeptLayout(precision, scale));
            && (k.error == E_DEC_OK ==> Digits(k.fracs) == scale && kept == m)
            && (k.error == E_DEC_TRUNCATED ==>
                  Digits(k.fracs) < scale && kept == Quot(m, Pow10(scale - Digits(k.fracs))))
            && (k.error == E_DEC_OVERFLOW ==>
                  Digits(k.fracs) == 0 && kept == Rem(Quot(m, Pow10(scale)), Pow10(81)))
  {
    hide Pow10, Digits, Quot, Rem, Join, Groups, Nines, Partial;
    var k, l := KeptGroups(precision, scale), LayoutOf(precision, scale);
    var g := Groups(Unmask(bs), l);
    var kept := KeptValues(bs, precision, scale);
    LayoutDigits(precision, scale);
    if k.error == E_DEC_OK {
      assert kept == g;
    } else if k.error == E_DEC_TRUNCATED {
      TruncatedPart(g, precision, scale);
      assert kept == g[..9];
    } else {
      OverflowPart(g, precision, scale);
      var n := |IntLayout(precision - scale)|;
      assert kept == g[..n][n - 9..];
    }
  }

  lemma TruncatedPart(g: seq<nat>, precision: nat, scale: nat)
    requires scale <= precision && InRange(g, LayoutOf(precision, scale))
    requires KeptGroups(precision, scale).error == E_DEC_TRUNCATED
    ensures var k, l := KeptGroups(precision, scale), LayoutOf(precision, scale);
            && |l| > 9 && KeptLayout(precision, scale) == l[..9] && Digits(k.fracs) < scale
            && Join(g[..9], l[..9]) == Quot(Join(g, l), Pow10(scale - Digits(k.fracs)))
  {
    hide Pow10, Digits, Quot, Rem, Join;
    var k, l := KeptGroups(precision, scale), LayoutOf(precision, scale);
    LayoutDigits(precision, scale);
    assert KeptLayout(precision, scale) == l[..9];
    assert l == k.ints + (k.fracs + l[9..]);
    DigitsOfConcat(k.ints, k.fracs + l[9..]);
    DigitsOfConcat(k.fracs, l[9..]);
    DigitsPositive(l[9..]);
    JoinQuotRem(g, l, 9);
  }

  lemma OverflowPart(g: seq<nat>, precision: nat, scale: nat)
    requires scale <= precision && InRange(g, LayoutOf(precision, scale))
    requires KeptGroups(precision, scale).error == E_DEC_OVERFLOW
    ensures var l, n := LayoutOf(precision, scale), |IntLayout(precision - scale)|;
            && 9 < n <= |l| && KeptLayout(precision, scale) == l[..n][n - 9..]
            && Digits(KeptGroups(precision, scale).fracs) == 0
            && Join(g[..n][n - 9..], l[..n][n - 9..]) == Rem(Quot(Join(g, l), Pow10(scale)), Pow10(81))
  {
    hide Pow10, Digits, Quot, Rem, Join;
    var l, n := LayoutOf(precision, scale), |IntLayout(precision - scale)|;
    LayoutDigits(precision, scale);
    NoDigits();
    assert l[n..] == FracLayout(scale);
    assert l[..n][n - 9..] == Nines(9) == KeptLayout(precision, scale);
    NinesMeasure(9);
    JoinQuotRem(g, l, n);
    JoinQuotRem(g[..n], l[..n], n - 9);
  }

  lemma DigitsPositive(l: Layout)
    requires IsLayout(l) && l != []
    ensures Digits(l) > 0
  {}

  lemma NothingFilled(m: nat)
    ensures Filled(m, 0) == m
  {}

  /** bin2decimal inverts the binary format.  For every encoding of m / 10^scale the
      call succeeds, with the sign, and words that denote exactly m when all groups fit
      nine words, m cut after the kept fraction digits when the fraction does not, and
      the low 81 integer digits of m when the integer part does not.  The last word is
      filled up with zero digits; zero integer words in front are stripped. */
  lemma DecodeInvertsEncoding(bs: Octets, precision: nat, scale: nat)
    requires scale <= precision && precision > 0 && IsEncoding(bs, precision, scale)
    ensures var d, m := Decode(bs, precision, scale), Magnitude(bs, precision, scale);
            && d.error != E_DEC_BAD_NUM && d.sign == IsNegative(bs) && NoLeadingZero(d)
            && (d.error == E_DEC_OK ==> d.frac == scale && Val(d.words) == Filled(m, scale))
            && (d.error == E_DEC_TRUNCATED ==>
                  d.frac < scale && Val(d.words) == Filled(Quot(m, Pow10(scale - d.frac)), d.frac))
            && (d.error == E_DEC_OVERFLOW ==>
                  d.frac == 0 && Val(d.words) == Rem(Quot(m, Pow10(scale)), Pow10(81)))
            && d.error == KeptGroups(precision, scale).error
  {
    hide Filled, Pow10, Digits, Quot, Rem, Join, Decode, Magnitude, Val, NoLeadingZero, Pad;
    hide KeptGroups, KeptLayout, KeptValues, Size, Groups, LayoutOf, Unmask, InRange;
    NothingFilled(Rem(Quot(Magnitude(bs, precision, scale), Pow10(scale)), Pow10(81)));
    KeptVal(bs, precision, scale);
    KeptPart(bs, precision, scale);
  }

  /** The integer and fraction groups of DECIMAL(p,s) fit the nine words. */
  predicate FitsNineWords(precision: nat, scale: nat)
    requires scale <= precision
  {
    RoundUp(precision - scale) + RoundUp(scale) <= 9
  }

  /** The number left by the decoder, in units of its last word. */
  ghost function DecodedNumber(bs: Octets, precision: nat, scale: nat): int
    requires scale <= precision && bs != [] && |bs| == Size(LayoutOf(precision, scale))
  {
    var d := Decode(bs, precision, scale);
    if d.sign then 0 - Val(d.words) else Val(d.words)
  }

  lemma FilledSign(m: nat, frac: nat)
    ensures Filled(0 - m, frac) == 0 - Filled(m, frac)
  {}

  lemma FitsMeansNoError(precision: nat, scale: nat)
    requires scale <= precision
    ensures FitsNineWords(precision, scale) <==> KeptGroups(precision, scale).error == E_DEC_OK
  {}

  lemma EncodingNumber(bs: Octets, precision: nat, scale: nat)
    requires scale <= precision && precision > 0 && IsEncoding(bs, precision, scale)
    requires FitsNineWords(precision, scale)
    ensures Decode(bs, precision, scale).error == E_DEC_OK && Decode(bs, precision, scale).frac == scale
    ensures DecodedNumber(bs, precision, scale) == Filled(Value(bs, precision, scale), scale)
  {
    hide Pow10, Quot, Rem, Decode, Magnitude, Val, KeptGroups, FitsNineWords, Filled;
    hide Size, Groups, LayoutOf, Unmask, InRange, IsLayout, NoLeadingZero, Pad;
    FitsMeansNoError(precision, scale);
    FilledSign(Magnitude(bs, precision, scale), scale);
    DecodeInvertsEncoding(bs, precision, scale);
  }

  /** Encoding a number and decoding it gives it back, for every sign, precision and
      scale that fit. */
  lemma DecimalRoundTrip(n: int, precision: nat, scale: nat)
    requires scale <= precision && precision > 0 && Abs(n) < Pow10(precision)
    requires FitsNineWords(precision, scale)
    ensures var d := Decode(Encode(n, precision, scale), precision, scale);
            && d.error == E_DEC_OK && d.sign == (n < 0) && d.frac == scale
            && DecodedNumber(Encode(n, precision, scale), precision, scale) == Filled(n, scale)
  {
    hide Pow10, Decode, DecodedNumber, IsEncoding, Value, Size, LayoutOf, Encode, Filled, Val;
    EncodeRoundTrip(n, precision, scale);
    EncodingNumber(Encode(n, precision, scale), precision, scale);
    DecodeInvertsEncoding(Encode(n, precision, scale), precision, scale);
  }

  /** The decoder is monotone: byte-wise smaller encodings decode to smaller numbers,
      negative and positive zero being the only two that decode alike. */
  lemma DecodeIsMonotone(a: Octets, b: Octets, precision: nat, scale: nat)
    requires scale <= precision && precision > 0 && FitsNineWords(precision, scale)
    requires IsEncoding(a, precision, scale) && IsEncoding(b, precision, scale) && Below(a, b)
    ensures DecodedNumber(a, precision, scale) <= DecodedNumber(b, precision, scale)
    ensures DecodedNumber(a, precision, scale) == DecodedNumber(b, precision, scale) ==>
              IsNegative(a) && !IsNegative(b) && DecodedNumber(a, precision, scale) == 0
  {
    hide Pow10, Decode, DecodedNumber, Value, Size, Groups, LayoutOf, Unmask, InRange, Below, Filled;
    EncodingNumber(a, precision, scale);
    EncodingNumber(b, precision, scale);
    EncodingsSortLikeValues(a, b, precision, scale);
    FilledOrder(Value(a, precision, scale), Value(b, precision, scale), scale);
  }

  lemma FilledOrder(x: int, y: int, frac: nat)
    requires x <= y
    ensures Filled(x, frac) <= Filled(y, frac) && (Filled(x, frac) == Filled(y, frac) ==> x == y)
    ensures Filled(0, frac) == 0
  {
    if x < y { assert (y - x) * Pow10(Pad(frac)) > 0; }
  }
}

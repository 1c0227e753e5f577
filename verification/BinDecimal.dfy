/** bin2decimal of ebinlog/BinlogTypes.h: the binary decimal decoder, over a caller's
    buffer of nine base-10^9 words. */
module BinDecimal {
  import opened Bytes
  import opened DecimalFormat

  const DECIMAL_BUFF_LENGTH: nat := 9

  const E_DEC_OK: int := 0
  const E_DEC_TRUNCATED: int := 1
  const E_DEC_OVERFLOW: int := 2
  const E_DEC_BAD_NUM: int := 8

  // ---------------------------------------------------------------- machine arithmetic

  function Int8(b: Byte): int { if b < 128 then b else b - 256 }

  /** The macros mi_sint1korr to mi_sint4korr. */
  function MiSintKorr(bs: Octets): int
    requires 1 <= |bs| <= 4
  {
    if |bs| == 1 then Int8(bs[0])
    else if |bs| == 2 then bs[1] + Int8(bs[0]) * 0x100
    else if |bs| == 3 then
      if bs[0] >= 128 then 0xFF00_0000 + bs[0] * 0x1_0000 + bs[1] * 0x100 + bs[2] - 0x1_0000_0000
      else bs[0] * 0x1_0000 + bs[1] * 0x100 + bs[2]
    else bs[3] + bs[2] * 0x100 + bs[1] * 0x1_0000 + Int8(bs[0]) * 0x100_0000
  }

  /** x ^ mask for the masks 0 and -1. */
  function Xor(x: int, mask: int): int
    requires mask == 0 || mask == -1
  {
    if mask == 0 then x else -1 - x
  }

  /** Signed overflow, taken as wrapping around at 32 bits. */
  function Wrap32(x: int): int { (x + 0x8000_0000) % 0x1_0000_0000 - 0x8000_0000 }

  lemma BigEndianUpTo4(bs: Octets)
    requires 1 <= |bs| <= 4
    ensures |bs| == 1 ==> BigEndian(bs) == bs[0]
    ensures |bs| == 2 ==> BigEndian(bs) == 0x100 * bs[0] as int + bs[1]
    ensures |bs| == 3 ==> BigEndian(bs) == 0x1_0000 * bs[0] as int + 0x100 * bs[1] as int + bs[2]
    ensures |bs| == 4 ==> BigEndian(bs) == 0x100_0000 * bs[0] as int + 0x1_0000 * bs[1] as int
                                           + 0x100 * bs[2] as int + bs[3]
  {
    hide Pow256;
    PowersOf256();
    if |bs| <= 1 {
    } else {
      BigEndianUpTo4(bs[1..]);
    }
  }

  /** Reading the masked bytes with the signed macros and exclusive-oring the result
      equals undoing the mask first. */
  lemma KorrUndoesMask(bs: Octets, mask: int)
    requires 1 <= |bs| <= 4 && (mask == 0 || mask == -1)
    ensures Xor(MiSintKorr(bs), mask) ==
            Signed(BigEndian(if mask == 0 then bs else Complement(bs)), |bs|)
  {
    hide BigEndian;
    PowersOf256();
    BigEndianUpTo4(if mask == 0 then bs else Complement(bs));
  }

  // ---------------------------------------------------------------- what is kept

  /** FIX_INTG_FRAC_ERROR: which groups fit the nine words.  `first` groups are
      skipped, then come the integer groups and the fraction groups. */
  datatype Kept = Kept(error: int, first: nat, ints: Layout, fracs: Layout)

  function KeptGroups(precision: nat, scale: nat): (k: Kept)
    requires scale <= precision
    ensures IsLayout(k.ints) && IsLayout(k.fracs)
    ensures k.error == E_DEC_OK || k.error == E_DEC_TRUNCATED || k.error == E_DEC_OVERFLOW
    ensures |k.ints| + |k.fracs| <= DECIMAL_BUFF_LENGTH
  {
    var ints, fracs := IntLayout(precision - scale), FracLayout(scale);
    if |ints| + |fracs| <= 9 then Kept(E_DEC_OK, 0, ints, fracs)
    else if |ints| > 9 then Kept(E_DEC_OVERFLOW, |ints| - 9, Nines(9), [])
    else Kept(E_DEC_TRUNCATED, 0, ints, Nines(9 - |ints|))
  }

  /** The word stored for a group of d digits with value u. */
  function WordOf(u: nat, d: nat, frac: bool): int
    requires 1 <= d <= 9
  {
    if frac && d < 9 then Wrap32(Signed(u, Dig2Bytes(d)) * Pow10(9 - d))
    else Signed(u, Dig2Bytes(d))
  }

  /** The decoder's range check of that word: a leading partial group may be ten
      times too large, everything else has to be a base-10^9 word. */
  predicate Accepted(u: nat, d: nat, frac: bool)
    requires 1 <= d <= 9
  {
    0 <= WordOf(u, d, frac) < if !frac && d < 9 then Pow10(d + 1) else DIG_BASE
  }

  function StripZeros(ws: seq<int>): (r: seq<int>)
    ensures |r| <= |ws|
  {
    if ws != [] && ws[0] == 0 then StripZeros(ws[1..]) else ws
  }

  function RoundUp(x: nat): nat { (x + 8) / 9 }

  lemma {:induction false} GroupAt(bs: Octets, l: Layout, i: nat)
    requires IsLayout(l) && |bs| == Size(l) && i < |l|
    ensures Size(l[..i]) + Dig2Bytes(l[i]) == Size(l[..i + 1]) <= |bs|
    ensures Groups(bs, l)[i] == BigEndian(bs[Size(l[..i])..Size(l[..i + 1])])
  {
    hide BigEndian, Dig2Bytes;
    if i == 0 {
      assert l[..1] == [l[0]];
    } else {
      var k := Dig2Bytes(l[0]);
      GroupAt(bs[k..], l[1..], i - 1);
      assert l[..i][1..] == l[1..][..i - 1] && l[..i + 1][1..] == l[1..][..i];
      var a, b := Size(l[1..][..i - 1]), Size(l[1..][..i]);
      assert bs[k..][a..b] == bs[k + a..k + b];
    }
  }

  lemma {:induction false} StripPush(ws: seq<int>, w: int)
    ensures StripZeros(ws + [w]) == if StripZeros(ws) == [] && w == 0 then [] else StripZeros(ws) + [w]
  {
    if ws == [] {
      assert [w][1..] == [];
    } else if ws[0] == 0 {
      assert (ws + [w])[1..] == ws[1..] + [w];
      StripPush(ws[1..], w);
    }
  }

  // ---------------------------------------------------------------- the decoder

  /** The words left in the buffer after the first groups have been stored. */
  function Stored(ws: seq<int>, nInts: nat): (r: seq<int>)
    ensures |r| <= |ws|
  {
    if |ws| <= nInts then StripZeros(ws) else StripZeros(ws[..nInts]) + ws[nInts..]
  }

  lemma StoredPush(ws: seq<int>, w: int, nInts: nat)
    ensures |ws| < nInts ==>
              Stored(ws + [w], nInts) == if Stored(ws, nInts) == [] && w == 0 then [] else Stored(ws, nInts) + [w]
    ensures |ws| >= nInts ==> Stored(ws + [w], nInts) == Stored(ws, nInts) + [w]
  {
    if |ws| < nInts {
      StripPush(ws, w);
    } else {
      assert (ws + [w])[..nInts] == ws[..nInts];
      if |ws| == nInts { assert ws[..nInts] == ws; }
    }
  }

  /** The group read at a cursor of the copied bytes, mask undone. */
  lemma GroupRead(bs: Octets, l: Layout, i: nat, copy: Octets, mask: int)
    requires IsLayout(l) && bs != [] && |bs| == Size(l) && i < |l|
    requires copy == [FlipTop(bs[0])] + bs[1..] && mask == if IsNegative(bs) then -1 else 0
    ensures Size(l[..i]) + Dig2Bytes(l[i]) == Size(l[..i + 1]) <= |bs| == |copy|
    ensures 1 <= Dig2Bytes(l[i]) <= 4
    ensures Xor(MiSintKorr(copy[Size(l[..i])..Size(l[..i + 1])]), mask)
            == Signed(Groups(Unmask(bs), l)[i], Dig2Bytes(l[i]))
  {
    hide Groups, Size, MiSintKorr, Signed, BigEndian, Pow256, Unmask, Complement, FlipTop, Xor, Dig2Bytes, IsNegative;
    GroupAt(Unmask(bs), l, i);
    GroupBytesUpTo4(l[i]);
    SliceRead(bs, copy, mask, Size(l[..i]), Size(l[..i + 1]));
  }

  lemma SliceRead(bs: Octets, copy: Octets, mask: int, a: nat, b: nat)
    requires bs != [] && a < b <= |bs| && b - a <= 4
    requires copy == [FlipTop(bs[0])] + bs[1..] && mask == if IsNegative(bs) then -1 else 0
    ensures Xor(MiSintKorr(copy[a..b]), mask) == Signed(BigEndian(Unmask(bs)[a..b]), b - a)
  {
    hide MiSintKorr, Signed, BigEndian, Unmask, Complement, FlipTop, Xor, IsNegative;
    SliceUnmask(bs, copy, a, b);
    KorrUndoesMask(copy[a..b], mask);
  }

  lemma GroupBytesUpTo4(d: nat)
    requires 1 <= d <= 9
    ensures 1 <= Dig2Bytes(d) <= 4
  {}

  lemma SliceUnmask(bs: Octets, copy: Octets, a: nat, b: nat)
    requires bs != [] && a <= b <= |bs| && copy == [FlipTop(bs[0])] + bs[1..]
    ensures Unmask(bs)[a..b] == if IsNegative(bs) then Complement(copy[a..b]) else copy[a..b]
  {
    hide FlipTop, Complement;
    var m := if IsNegative(bs) then Complement(copy) else copy;
    assert Unmask(bs) == m;
    if IsNegative(bs) { assert m[a..b] == Complement(copy[a..b]); }
  }

  /** The kept groups, integer ones first, and the word each one yields. */
  function KeptLayout(precision: nat, scale: nat): (l: Layout)
    requires scale <= precision
    ensures IsLayout(l) && |l| <= DECIMAL_BUFF_LENGTH
  {
    KeptGroups(precision, scale).ints + KeptGroups(precision, scale).fracs
  }

  lemma KeptIsASlice(precision: nat, scale: nat, i: nat)
    requires scale <= precision && i < |KeptLayout(precision, scale)|
    ensures var k := KeptGroups(precision, scale);
            && k.first + i < |LayoutOf(precision, scale)|
            && LayoutOf(precision, scale)[k.first + i] == KeptLayout(precision, scale)[i]
  {}

  predicate IsFrac(precision: nat, scale: nat, i: nat)
    requires scale <= precision
  {
    i >= |KeptGroups(precision, scale).ints|
  }

  function GroupValue(bs: Octets, precision: nat, scale: nat, i: nat): nat
    requires scale <= precision && bs != [] && |bs| == Size(LayoutOf(precision, scale))
    requires i < |KeptLayout(precision, scale)|
  {
    KeptIsASlice(precision, scale, i);
    Groups(Unmask(bs), LayoutOf(precision, scale))[KeptGroups(precision, scale).first + i]
  }

  function WordAt(bs: Octets, precision: nat, scale: nat, i: nat): int
    requires scale <= precision && bs != [] && |bs| == Size(LayoutOf(precision, scale))
    requires i < |KeptLayout(precision, scale)|
  {
    WordOf(GroupValue(bs, precision, scale, i), KeptLayout(precision, scale)[i], IsFrac(precision, scale, i))
  }

  predicate AcceptedAt(bs: Octets, precision: nat, scale: nat, i: nat)
    requires scale <= precision && bs != [] && |bs| == Size(LayoutOf(precision, scale))
    requires i < |KeptLayout(precision, scale)|
  {
    Accepted(GroupValue(bs, precision, scale, i), KeptLayout(precision, scale)[i], IsFrac(precision, scale, i))
  }

  function FirstWords(bs: Octets, precision: nat, scale: nat, m: nat): (w: seq<int>)
    requires scale <= precision && bs != [] && |bs| == Size(LayoutOf(precision, scale))
    requires m <= |KeptLayout(precision, scale)|
    ensures |w| == m
  {
    if m == 0 then [] else FirstWords(bs, precision, scale, m - 1) + [WordAt(bs, precision, scale, m - 1)]
  }

  datatype Decoded = Decoded(error: int, sign: bool, intg: nat, frac: nat, words: seq<int>)

  const BAD := Decoded(E_DEC_BAD_NUM, false, 1, 0, [0])

  /** What bin2decimal leaves for its caller. */
  ghost function Decode(bs: Octets, precision: nat, scale: nat): Decoded
    requires scale <= precision && bs != [] && |bs| == Size(LayoutOf(precision, scale))
  {
    var kept, n := KeptGroups(precision, scale), |KeptLayout(precision, scale)|;
    if exists i :: 0 <= i < n && !AcceptedAt(bs, precision, scale, i) then BAD
    else
      var all := FirstWords(bs, precision, scale, n);
      var ints := StripZeros(all[..|kept.ints|]);
      Decoded(kept.error, IsNegative(bs), Digits(kept.ints[|kept.ints| - |ints|..]), Digits(kept.fracs),
              ints + all[|kept.ints|..])
  }

  /** How many integer groups have been dropped as leading zeros. */
  function Dropped(ws: seq<int>, nInts: nat): nat {
    if |ws| <= nInts then |ws| - |StripZeros(ws)| else nInts - |StripZeros(ws[..nInts])|
  }

  /** Cursor, buffer and integer digits once the first m kept groups are stored. */
  datatype Progress = Progress(at: nat, words: seq<int>, intg: nat)

  function After(bs: Octets, precision: nat, scale: nat, m: nat): (r: Progress)
    requires scale <= precision && bs != [] && |bs| == Size(LayoutOf(precision, scale))
    requires m <= |KeptLayout(precision, scale)|
    ensures |r.words| <= m
  {
    var k, ws := KeptGroups(precision, scale), FirstWords(bs, precision, scale, m);
    Progress(Size(LayoutOf(precision, scale)[..k.first + m]),
             Stored(ws, |k.ints|),
             Digits(k.ints[Dropped(ws, |k.ints|)..]))
  }

  lemma ZeroIsDropped(ws: seq<int>, w: int, n: nat)
    requires |ws| < n && StripZeros(ws) == [] && w == 0
    ensures Dropped(ws, n) == |ws| && Dropped(ws + [w], n) == |ws| + 1
  {
    hide StripZeros;
    StripPush(ws, w);
  }

  lemma WordIsKept(ws: seq<int>, w: int, n: nat)
    requires |ws| < n && !(StripZeros(ws) == [] && w == 0)
    ensures Dropped(ws, n) == Dropped(ws + [w], n) <= |ws|
  {
    hide StripZeros;
    StripPush(ws, w);
  }

  lemma DigitsDrop(l: Layout, i: nat)
    requires i < |l|
    ensures Digits(l[i..]) == l[i] + Digits(l[i + 1..])
  {
    assert l[i..][1..] == l[i + 1..];
  }

  /** The next integer group: a zero is dropped while nothing is stored yet. */
  lemma AfterInt(bs: Octets, precision: nat, scale: nat, m: nat)
    requires scale <= precision && bs != [] && |bs| == Size(LayoutOf(precision, scale))
    requires m < |KeptGroups(precision, scale).ints|
    ensures var a, b := After(bs, precision, scale, m), After(bs, precision, scale, m + 1);
            var w, d := WordAt(bs, precision, scale, m), KeptLayout(precision, scale)[m];
            if a.words == [] && w == 0 then b.words == [] && a.intg == b.intg + d
            else b.words == a.words + [w] && a.intg == b.intg
  {
    hide WordAt, StripZeros, Digits;
    var l, ws := KeptGroups(precision, scale).ints, FirstWords(bs, precision, scale, m);
    StoredPush(ws, WordAt(bs, precision, scale, m), |l|);
    if StripZeros(ws) == [] && WordAt(bs, precision, scale, m) == 0 {
      ZeroIsDropped(ws, 0, |l|);
      DigitsDrop(l, m);
    } else {
      WordIsKept(ws, WordAt(bs, precision, scale, m), |l|);
    }
  }

  /** The next fraction group is always stored. */
  lemma AfterFrac(bs: Octets, precision: nat, scale: nat, m: nat)
    requires scale <= precision && bs != [] && |bs| == Size(LayoutOf(precision, scale))
    requires |KeptGroups(precision, scale).ints| <= m < |KeptLayout(precision, scale)|
    ensures var a, b := After(bs, precision, scale, m), After(bs, precision, scale, m + 1);
            b.words == a.words + [WordAt(bs, precision, scale, m)] && a.intg == b.intg
  {
    hide WordAt, StripZeros, Digits;
    var n, ws := |KeptGroups(precision, scale).ints|, FirstWords(bs, precision, scale, m);
    StoredPush(ws, WordAt(bs, precision, scale, m), n);
    assert (ws + [WordAt(bs, precision, scale, m)])[..n] == ws[..n];
    if m == n { assert ws[..n] == ws; }
  }

  /** The masked bytes at the cursor, read and unmasked as the code does it. */
  function RawWord(copy: Octets, at: nat, d: nat, mask: int): int
    requires 1 <= d <= 9 && at + Dig2Bytes(d) <= |copy| && (mask == 0 || mask == -1)
  {
    Xor(MiSintKorr(copy[at..at + Dig2Bytes(d)]), mask)
  }

  lemma AfterAt(bs: Octets, precision: nat, scale: nat, m: nat, copy: Octets, mask: int)
    requires scale <= precision && bs != [] && |bs| == Size(LayoutOf(precision, scale))
    requires m < |KeptLayout(precision, scale)|
    requires copy == [FlipTop(bs[0])] + bs[1..] && mask == if IsNegative(bs) then -1 else 0
    ensures var at, d := After(bs, precision, scale, m).at, KeptLayout(precision, scale)[m];
            && After(bs, precision, scale, m + 1).at == at + Dig2Bytes(d) <= |copy|
            && RawWord(copy, at, d, mask) == Signed(GroupValue(bs, precision, scale, m), Dig2Bytes(d))
  {
    hide Groups, Size, MiSintKorr, Signed, Unmask, Dig2Bytes, FirstWords, Stored, Dropped;
    KeptIsASlice(precision, scale, m);
    GroupRead(bs, LayoutOf(precision, scale), KeptGroups(precision, scale).first + m, copy, mask);
  }

  /** decimal_bin_size */
  function DecimalBinSize(precision: nat, scale: nat): nat
    requires scale <= precision
  {
    var intg0, frac0 := (precision - scale) / 9, scale / 9;
    intg0 * 4 + Dig2Bytes(precision - scale - intg0 * 9) + frac0 * 4 + Dig2Bytes(scale - frac0 * 9)
  }

  /** The size computed by decimal_bin_size is that of the format. */
  lemma BinSizeIsFormatSize(precision: nat, scale: nat)
    requires scale <= precision && precision > 0
    ensures DecimalBinSize(precision, scale) == Size(LayoutOf(precision, scale)) > 0
  {
    hide Size, Dig2Bytes;
    SizePositive(precision, scale);
    PartMeasure((precision - scale) % 9, (precision - scale) / 9);
    PartMeasure(scale % 9, scale / 9);
    SizeOfConcat(IntLayout(precision - scale), FracLayout(scale));
  }

  /** The group counts left by FIX_INTG_FRAC_ERROR, and the offset of the first group. */
  datatype Counts = Counts(error: int, start: nat, intg0x: nat, intg0: nat, frac0: nat, frac0x: nat)

  function Fixed(precision: nat, scale: nat): (c: Counts)
    requires scale <= precision
    ensures c.intg0x < 9 && c.frac0x < 9
  {
    var intg0, intg0x := (precision - scale) / 9, (precision - scale) % 9;
    var frac0, frac0x := scale / 9, scale % 9;
    var intg1, frac1 := intg0 + (if intg0x > 0 then 1 else 0), frac0 + (if frac0x > 0 then 1 else 0);
    if intg1 + frac1 <= 9 then Counts(E_DEC_OK, 0, intg0x, intg0, frac0, frac0x)
    else if intg1 > 9 then Counts(E_DEC_OVERFLOW, Dig2Bytes(intg0x) + 4 * (intg0 - 9), 0, 9, 0, 0)
    else Counts(E_DEC_TRUNCATED, 0, intg0x, intg0, 9 - intg1, 0)
  }

  lemma SizeOfNothing(l: Layout)
    requires IsLayout(l)
    ensures Size(l[..0]) == 0
  {}

  lemma SkippedGroups(x: nat, n: nat, rest: Layout)
    requires x < 9 && n >= 9
    ensures (Partial(x) + Nines(n) + rest)[..|Partial(x)| + n - 9] == Partial(x) + Nines(n - 9)
  {}

  /** The counts describe the kept groups. */
  lemma FixedIsKept(precision: nat, scale: nat)
    requires scale <= precision
    ensures var c, k := Fixed(precision, scale), KeptGroups(precision, scale);
            && k.error == c.error
            && k.ints == Partial(c.intg0x) + Nines(c.intg0) && Digits(k.ints) == c.intg0 * 9 + c.intg0x
            && k.fracs == Nines(c.frac0) + Partial(c.frac0x) && Digits(k.fracs) == c.frac0 * 9 + c.frac0x
            && k.first <= |LayoutOf(precision, scale)|
            && c.start == Size(LayoutOf(precision, scale)[..k.first])
  {
    hide Digits, Size, Dig2Bytes, Nines;
    var c, k := Fixed(precision, scale), KeptGroups(precision, scale);
    PartMeasure(c.intg0x, c.intg0);
    PartMeasure(c.frac0x, c.frac0);
    PartMeasure(0, 0);
    assert Partial(0) + Nines(9) == Nines(9) && Partial(0) + Nines(0) == [] == Nines(0) + Partial(0);
    if c.error == E_DEC_OVERFLOW {
      var x, n := (precision - scale) % 9, (precision - scale) / 9;
      PartMeasure(x, n - 9);
      SkippedGroups(x, n, FracLayout(scale));
    } else {
      assert Nines(c.frac0) + Partial(0) == Nines(c.frac0);
      SizeOfNothing(LayoutOf(precision, scale));
    }
  }

  lemma {:induction false} NinesRoundUp(x: nat, n: nat, i: nat)
    requires x < 9 && i <= |Partial(x)| + n
    ensures RoundUp(Digits((Partial(x) + Nines(n))[i..])) == |Partial(x)| + n - i
    ensures RoundUp(Digits(Nines(n) + Partial(x))) == |Partial(x)| + n
  {
    hide Digits;
    PartMeasure(x, n);
    if i == 0 {
      assert (Partial(x) + Nines(n))[0..] == Partial(x) + Nines(n);
    } else {
      var m := |Partial(x)| + n - i;
      PartMeasure(0, m);
      assert (Partial(x) + Nines(n))[i..] == Partial(0) + Nines(m);
    }
  }

  /** The digit counts tell how many words there are. */
  lemma WordCount(bs: Octets, precision: nat, scale: nat)
    requires scale <= precision && bs != [] && |bs| == Size(LayoutOf(precision, scale))
    ensures var d := Decode(bs, precision, scale);
            RoundUp(d.intg) + RoundUp(d.frac) == |d.words| <= DECIMAL_BUFF_LENGTH
  {
    hide Digits, FirstWords, StripZeros, AcceptedAt;
    var c, k, d := Fixed(precision, scale), KeptGroups(precision, scale), Decode(bs, precision, scale);
    if d != BAD {
      FixedIsKept(precision, scale);
      NinesRoundUp(c.intg0x, c.intg0, |k.ints| + |k.fracs| - |d.words|);
      NinesRoundUp(c.frac0x, c.frac0, 0);
    }
  }

  /** The buffer after the last kept group, seen from its start. */
  lemma AfterAll(bs: Octets, precision: nat, scale: nat)
    requires scale <= precision && bs != [] && |bs| == Size(LayoutOf(precision, scale))
    requires forall i :: 0 <= i < |KeptLayout(precision, scale)| ==> AcceptedAt(bs, precision, scale, i)
    ensures var k, r := KeptGroups(precision, scale), After(bs, precision, scale, |KeptLayout(precision, scale)|);
            Decode(bs, precision, scale) == Decoded(k.error, IsNegative(bs), r.intg, Digits(k.fracs), r.words)
  {
    hide FirstWords, AcceptedAt, Digits, StripZeros, KeptGroups, Size, LayoutOf;
    var n, all := |KeptGroups(precision, scale).ints|, FirstWords(bs, precision, scale, |KeptLayout(precision, scale)|);
    if |all| == n { assert all[..n] == all; }
  }

  lemma NothingYet(bs: Octets, precision: nat, scale: nat)
    requires scale <= precision && bs != [] && |bs| == Size(LayoutOf(precision, scale))
    ensures var k := KeptGroups(precision, scale);
            k.first <= |LayoutOf(precision, scale)|
            && After(bs, precision, scale, 0)
               == Progress(Size(LayoutOf(precision, scale)[..k.first]), [], Digits(k.ints))
  {
    hide Size, Digits;
    FixedIsKept(precision, scale);
    var l := KeptGroups(precision, scale).ints;
    assert l[0..] == l;
  }

  lemma SomeRejected(bs: Octets, precision: nat, scale: nat)
    requires scale <= precision && bs != [] && |bs| == Size(LayoutOf(precision, scale))
    requires !forall i :: 0 <= i < |KeptLayout(precision, scale)| ==> AcceptedAt(bs, precision, scale, i)
    ensures Decode(bs, precision, scale) == BAD
  {}

  class MyDecimal {
    var intg: int
    var frac: int
    var len: int
    var sign: bool
    const buf: array<int>

    constructor ()
      ensures len == buf.Length == DECIMAL_BUFF_LENGTH && fresh(buf)
    {
      len := DECIMAL_BUFF_LENGTH;
      buf := new int[DECIMAL_BUFF_LENGTH](i => i);
    }

    /** The first m kept groups are stored; the cursor is at the next one. */
    ghost predicate Holds(p: Progress, at: nat, k: nat)
      reads this, buf
    {
      && buf.Length == DECIMAL_BUFF_LENGTH && k <= buf.Length
      && at == p.at && buf[..k] == p.words && intg == p.intg
    }

    /** One integer group: read, check, store unless it is a leading zero. */
    method IntGroup(ghost bs: Octets, ghost precision: nat, ghost scale: nat, ghost m: nat,
                    copy: Octets, at: nat, d: nat, mask: int, limit: int, k: nat)
      returns (ok: bool, at': nat, k': nat)
      requires scale <= precision && bs != [] && |bs| == Size(LayoutOf(precision, scale))
      requires m < |KeptGroups(precision, scale).ints| && Holds(After(bs, precision, scale, m), at, k)
      requires d == KeptLayout(precision, scale)[m] && limit == if d < 9 then Pow10(d + 1) else DIG_BASE
      requires copy == [FlipTop(bs[0])] + bs[1..] && mask == if IsNegative(bs) then -1 else 0
      modifies buf, this`intg
      ensures ok <==> AcceptedAt(bs, precision, scale, m)
      ensures at' == at + Dig2Bytes(d)
      ensures ok ==> Holds(After(bs, precision, scale, m + 1), at', k')
    {
      hide After, GroupValue, Signed, Dig2Bytes, RawWord, KeptGroups;
      AfterAt(bs, precision, scale, m, copy, mask);
      AfterInt(bs, precision, scale, m);
      at' := at + Dig2Bytes(d);
      k' := k;
      buf[k] := RawWord(copy, at, d, mask);
      ok := 0 <= buf[k] < limit;
      if ok {
        if k > 0 || buf[k] != 0 {
          k' := k + 1;
        } else {
          intg := intg - d;
        }
      }
    }
 
    /** One fraction group: read, scale to a whole word, check, store. */
    method FracGroup(ghost bs: Octets, ghost precision: nat, ghost scale: nat, ghost m: nat,
                     copy: Octets, at: nat, d: nat, mask: int, k: nat)
      returns (ok: bool, at': nat, k': nat)
      requires scale <= precision && bs != [] && |bs| == Size(LayoutOf(precision, scale))
      requires |KeptGroups(precision, scale).ints| <= m < |KeptLayout(precision, scale)|
      requires Holds(After(bs, precision, scale, m), at, k) && d == KeptLayout(precision, scale)[m]
      requires copy == [FlipTop(bs[0])] + bs[1..] && mask == if IsNegative(bs) then -1 else 0
      modifies buf
      ensures ok <==> AcceptedAt(bs, precision, scale, m)
      ensures at' == at + Dig2Bytes(d)
      ensures ok ==> Holds(After(bs, precision, scale, m + 1), at', k')
    {
      hide After, GroupValue, Signed, Dig2Bytes, RawWord, KeptGroups, Pow10;
      AfterAt(bs, precision, scale, m, copy, mask);
      AfterFrac(bs, precision, scale, m);
      at' := at + Dig2Bytes(d);
      buf[k] := RawWord(copy, at, d, mask);
      if d < 9 { buf[k] := Wrap32(buf[k] * Pow10(9 - d)); }
      ok := 0 <= buf[k] <= DIG_MAX;
      k' := k + 1;
    }

    /** decimal_make_zero */
    method MakeZero()
      requires buf.Length > 0
      modifies this, buf
      ensures len == old(len) && intg == 1 && frac == 0 && !sign && buf[0] == 0
    {
      buf[0] := 0;
      intg := 1;
      frac := 0;
      sign := false;
    }
 
    /** The groups one after the other, stopping at the first one out of range. */
    method DecodeGroups(ghost bs: Octets, ghost precision: nat, ghost scale: nat, copy: Octets, mask: int,
                        start: nat, intg0x: nat, intg0: nat, frac0: nat, frac0x: nat)
      returns (ok: bool, at: nat, k: nat)
      requires scale <= precision && bs != [] && |bs| == Size(LayoutOf(precision, scale))
      requires copy == [FlipTop(bs[0])] + bs[1..] && mask == if IsNegative(bs) then -1 else 0
      requires intg0x < 9 && KeptGroups(precision, scale).ints == Partial(intg0x) + Nines(intg0)
      requires frac0x < 9 && KeptGroups(precision, scale).fracs == Nines(frac0) + Partial(frac0x)
      requires Holds(After(bs, precision, scale, 0), start, 0)
      modifies buf, this`intg
      ensures ok <==> forall i :: 0 <= i < |KeptLayout(precision, scale)| ==> AcceptedAt(bs, precision, scale, i)
      ensures ok ==> Holds(After(bs, precision, scale, |KeptLayout(precision, scale)|), at, k)
    {
      hide After, AcceptedAt, Holds, KeptGroups, Nines, GroupValue, Size, FlipTop, IsNegative, LayoutOf;
      ok, at, k := true, start, 0;
      ghost var m := 0;
      if intg0x > 0 {
        ok, at, k := IntGroup(bs, precision, scale, m, copy, at, intg0x, mask, Pow10(intg0x + 1), k);
        if !ok { return; }
        m := m + 1;
      }
      var stop := at + 4 * intg0;
      while at < stop
        invariant m <= |Partial(intg0x)| + intg0 && at == stop - 4 * (|Partial(intg0x)| + intg0 - m)
        invariant Holds(After(bs, precision, scale, m), at, k)
        invariant forall i :: 0 <= i < m ==> AcceptedAt(bs, precision, scale, i)
      {
        ok, at, k := IntGroup(bs, precision, scale, m, copy, at, 9, mask, DIG_BASE, k);
        if !ok { return; }
        m := m + 1;
      }
      stop := at + 4 * frac0;
      ghost var nInts := m;
      while at < stop
        invariant nInts <= m <= nInts + frac0 && at == stop - 4 * (nInts + frac0 - m)
        invariant Holds(After(bs, precision, scale, m), at, k)
        invariant forall i :: 0 <= i < m ==> AcceptedAt(bs, precision, scale, i)
      {
        ok, at, k := FracGroup(bs, precision, scale, m, copy, at, 9, mask, k);
        if !ok { return; }
        m := m + 1;
      }
      if frac0x > 0 {
        ok, at, k := FracGroup(bs, precision, scale, m, copy, at, frac0x, mask, k);
      }
    }

    /** The group counts, cut to the words of the buffer. */
    method FixCounts(precision: nat, scale: nat) returns (c: Counts)
      requires scale <= precision && len == DECIMAL_BUFF_LENGTH
      ensures c == Fixed(precision, scale)
    {
      var intg0, frac0 := (precision - scale) / 9, scale / 9;
      var intg0x, frac0x := precision - scale - intg0 * 9, scale - frac0 * 9;
      var intg1, frac1 := intg0 + (if intg0x > 0 then 1 else 0), frac0 + (if frac0x > 0 then 1 else 0);
      var error, start := E_DEC_OK, 0;
      if intg1 + frac1 > len {
        if intg1 > len {
          start := Dig2Bytes(intg0x) + 4 * (intg0 - len);
          frac0, frac0x, intg0x, intg0, error := 0, 0, 0, len, E_DEC_OVERFLOW;
        } else {
          frac0, frac0x, error := len - intg1, 0, E_DEC_TRUNCATED;
        }
      }
      c := Counts(error, start, intg0x, intg0, frac0, frac0x);
    }

    /** Decodes the leading bytes of `from` as DECIMAL(precision, scale). */
    method BinToDecimal(from: Octets, precision: nat, scale: nat) returns (error: int)
      requires scale <= precision && precision > 0
      requires |from| >= DecimalBinSize(precision, scale) && len == buf.Length == DECIMAL_BUFF_LENGTH
      modifies this, buf
      ensures len == old(len) && DecimalBinSize(precision, scale) == Size(LayoutOf(precision, scale)) > 0
      ensures 0 <= intg && 0 <= frac && RoundUp(intg) + RoundUp(frac) <= buf.Length
      ensures Decoded(error, sign, intg, frac, buf[..RoundUp(intg) + RoundUp(frac)])
              == Decode(from[..DecimalBinSize(precision, scale)], precision, scale)
    {
      hide Decode, After, KeptGroups, AcceptedAt, Size, Digits, Partial, Nines;
      BinSizeIsFormatSize(precision, scale);
      var mask := if from[0] >= 128 then 0 else -1;
      var binSize := DecimalBinSize(precision, scale);
      ghost var bs := from[..binSize];
      var copy := [FlipTop(from[0])] + from[1..binSize];
      var c := FixCounts(precision, scale);
      sign, intg, frac, error := mask != 0, c.intg0 * 9 + c.intg0x, c.frac0 * 9 + c.frac0x, c.error;

      FixedIsKept(precision, scale);
      NothingYet(bs, precision, scale);
      var ok, at, k := DecodeGroups(bs, precision, scale, copy, mask, c.start, c.intg0x, c.intg0, c.frac0, c.frac0x);
      WordCount(bs, precision, scale);
      if ok {
        AfterAll(bs, precision, scale);
      } else {
        SomeRejected(bs, precision, scale);
        MakeZero();
        error := E_DEC_BAD_NUM;
      }
    }
  }
}

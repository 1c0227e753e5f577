/** Framing of the Redis serialization protocol in the proxy (redis-proxy/echo.c): are
    the bytes received so far a complete message, the beginning of one, or neither? */
module Resp {
  import opened Bytes
  import opened Options
  import opened Ascii

  const STAR: Byte := 42
  const DOLLAR: Byte := 36
  const COLON: Byte := 58

  /** The results -1, 0, 1 and -2; exit(1); and what C leaves undefined: a search that
      meets a NUL first, a length line of more than ten bytes or beyond int, a cursor
      that a negative length has moved out of the buffer. */
  datatype Verdict = Wrong | Incomplete | Complete | Quit | Exit | Undefined

  const INT_LIMIT: int := 0x8000_0000

  predicate EndsCrlf(bs: Octets) {
    |bs| >= 3 && bs[|bs| - 2] == CR && bs[|bs| - 1] == LF
  }

  predicate CrlfAt(bs: Octets, i: nat) {
    i + 1 < |bs| && bs[i] == CR && bs[i + 1] == LF
  }

  /** strstr(bs + i, "\r\n"): stops at a NUL. */
  function Strstr(bs: Octets, i: nat): (r: Option<nat>)
    ensures r.Some? ==> i <= r.value && CrlfAt(bs, r.value)
    ensures r.Some? ==> forall k :: i <= k < r.value ==> !CrlfAt(bs, k) && bs[k] != 0
    ensures r.None? ==> forall k :: i <= k && CrlfAt(bs, k) ==> exists z :: i <= z < k && bs[z] == 0
    decreases |bs| - i
  {
    if i + 1 >= |bs| || bs[i] == 0 then None
    else if CrlfAt(bs, i) then Some(i)
    else Strstr(bs, i + 1)
  }

  /** A length line: its number and the position behind it. */
  function Number(bs: Octets, i: nat): (r: Option<(int, nat)>)
    ensures r.Some? ==> r.value.1 <= |bs|
  {
    var p := Strstr(bs, i);
    if p.None? || p.value - i > 10 then None
    else
      var v := Atoi(bs[i..p.value]);
      if v < -INT_LIMIT || v >= INT_LIMIT then None else Some((v, p.value + 2))
  }

  /** The position behind the bulk whose length line ends at next. */
  function Skip(v: int, next: nat): Option<int> {
    if v == -1 then Some(next)
    else if v + 2 >= INT_LIMIT then None
    else Some(next + v + 2)
  }

  /** The loop over the remaining bulks. */
  function Bulks(bs: Octets, cursor: int, argc: nat): Verdict
    decreases argc
  {
    if argc == 0 then if cursor == |bs| then Complete else Wrong
    else if !(0 <= cursor < |bs|) then Undefined
    else if bs[cursor] != DOLLAR then Wrong
    else
      var n := Number(bs, cursor + 1);
      if n.None? then Undefined else
      var c := Skip(n.value.0, n.value.1);
      if c.None? then Undefined
      else if c.value > |bs| || (c.value == |bs| && argc != 1) then Incomplete
      else Bulks(bs, c.value, argc - 1)
  }

  function Lower(b: Byte): Byte { if 65 <= b <= 90 then b + 32 else b }

  /** strcasecmp(bs, word) == 0 for a word of letters and its line end. */
  predicate InlineIs(bs: Octets, word: Octets) {
    && |bs| >= |word|
    && (forall i :: 0 <= i < |word| ==> Lower(bs[i]) == word[i])
    && (|bs| == |word| || bs[|word|] == 0)
  }

  const QUIT_LINE: Octets := [113, 117, 105, 116, CR, LF]
  const EXIT_LINE: Octets := [101, 120, 105, 116, CR, LF]

  function ClassifyInline(bs: Octets): Verdict {
    if InlineIs(bs, QUIT_LINE) then Quit else if InlineIs(bs, EXIT_LINE) then Exit else Complete
  }

  function ClassifyRequest(bs: Octets): Verdict {
    if !EndsCrlf(bs) then Incomplete
    else if bs[0] != STAR then ClassifyInline(bs)
    else
      var n := Number(bs, 1);
      if n.None? then Undefined
      else if n.value.0 <= 0 || n.value.0 > 1024 then Wrong
      else if n.value.1 >= |bs| then Incomplete
      else Bulks(bs, n.value.1, n.value.0)
  }

  /** Status, error and integer replies. */
  function ClassifyLine(bs: Octets): Verdict {
    if !EndsCrlf(bs) then Incomplete
    else if Strstr(bs, 0) == Some(|bs| - 2) then Complete
    else Wrong
  }

  function ClassifyBulk(bs: Octets): Verdict {
    if !EndsCrlf(bs) then Incomplete
    else
      var n := Number(bs, 1);
      if n.None? then Undefined else
      var c := Skip(n.value.0, n.value.1);
      if c.None? then Undefined
      else if c.value > |bs| then Incomplete
      else if c.value == |bs| then Complete
      else Wrong
  }

  function ClassifyMulti(bs: Octets): Verdict {
    if !EndsCrlf(bs) then Incomplete
    else
      var n := Number(bs, 1);
      if n.None? then Undefined
      else if n.value.0 < 0 || n.value.0 > 1024 then Wrong
      else if n.value.0 == 0 && n.value.1 == |bs| then Complete
      else if n.value.1 == |bs| then Incomplete
      else Bulks(bs, n.value.1, n.value.0)
  }

  function ClassifyReply(bs: Octets): Verdict
    requires bs != []
  {
    if bs[0] == PLUS || bs[0] == MINUS || bs[0] == COLON then ClassifyLine(bs)
    else if bs[0] == DOLLAR then ClassifyBulk(bs)
    else if bs[0] == STAR then ClassifyMulti(bs)
    else Wrong
  }

  // ---------------------------------------------------------------- the format

  datatype Bulk = Nil | Data(bytes: Octets)

  datatype Reply = Line(kind: Byte, text: Octets) | One(bulk: Bulk) | Multi(bulks: seq<Bulk>)

  function BulkBytes(b: Bulk): (bs: Octets)
    ensures |bs| >= 5 && bs[0] == DOLLAR && EndsCrlf(bs)
  {
    match b
    case Nil => [DOLLAR] + [MINUS, DIGIT_0 + 1] + CRLF
    case Data(d) => [DOLLAR] + Dec(|d|) + CRLF + (d + CRLF)
  }

  function BulksBytes(bulks: seq<Bulk>): (bs: Octets)
    ensures |bs| >= 5 * |bulks| && (bulks != [] ==> EndsCrlf(bs) && bs[0] == DOLLAR)
  {
    if bulks == [] then [] else BulkBytes(bulks[0]) + BulksBytes(bulks[1..])
  }

  function ArrayBytes(bulks: seq<Bulk>): (bs: Octets)
    ensures |bs| >= 4 && bs[0] == STAR && EndsCrlf(bs)
  {
    [STAR] + Dec(|bulks|) + CRLF + BulksBytes(bulks)
  }

  function ReplyBytes(r: Reply): (bs: Octets)
    ensures |bs| >= 3 && EndsCrlf(bs)
  {
    match r
    case Line(kind, text) => [kind] + text + CRLF
    case One(bulk) => BulkBytes(bulk)
    case Multi(bulks) => ArrayBytes(bulks)
  }

  /** The text of a line reply contains neither a line end nor a NUL. */
  ghost predicate IsText(text: Octets) {
    forall i :: 0 <= i < |text| ==> text[i] != 0 && !CrlfAt(text, i)
  }

  ghost predicate IsReply(r: Reply) {
    && |ReplyBytes(r)| < INT_LIMIT
    && match r
       case Line(kind, text) => (kind == PLUS || kind == MINUS || kind == COLON) && IsText(text)
       case One(_) => true
       case Multi(bulks) => |bulks| <= 1024
  }

  /** The commands the proxy takes: 1 to 1024 arguments of any bytes. */
  ghost predicate IsRequest(args: seq<Bulk>) {
    1 <= |args| <= 1024 && |ArrayBytes(args)| < INT_LIMIT
  }

  // ---------------------------------------------------------------- lemmas

  /** The bytes received and the message agree as far as both go. */
  ghost predicate Agree(bs: Octets, m: Octets) {
    forall i :: 0 <= i < |bs| && i < |m| ==> bs[i] == m[i]
  }

  /** What a receiver that knows the message would answer. */
  function Expected(bs: Octets, m: Octets): Verdict {
    if !EndsCrlf(bs) || |bs| < |m| then Incomplete
    else if |bs| == |m| then Complete
    else Wrong
  }

  /** The digits, or the -1, of a length line. */
  ghost predicate IsNumeral(num: Octets) {
    |num| <= 10 && forall i :: 0 <= i < |num| ==> num[i] == MINUS || IsDigit(num[i])
  }

  lemma {:induction false} StrstrFinds(bs: Octets, i: nat, p: nat)
    requires i <= p && CrlfAt(bs, p)
    requires forall k :: i <= k < p ==> bs[k] != CR && bs[k] != 0
    ensures Strstr(bs, i) == Some(p)
    decreases p - i
  {
    if i == p {
    } else {
      StrstrFinds(bs, i + 1, p);
    }
  }

  lemma LengthLine(pre: Octets, first: Byte, num: Octets, rest: Octets, k: nat)
    requires k < |num|
    ensures var m := pre + ([first] + num + CRLF + rest);
            m[|pre|] == first && m[|pre| + 1 + k] == num[k]
  {}

  lemma LineEnd(pre: Octets, first: Byte, num: Octets, rest: Octets)
    ensures var m := pre + ([first] + num + CRLF + rest);
            && |m| >= |pre| + 3 + |num| && m[|pre|] == first
            && m[|pre| + 1 + |num|] == CR && m[|pre| + 2 + |num|] == LF
  {}

  /** If the bytes end with a line end, the length line is there as a whole. */
  lemma LineArrived(bs: Octets, pre: Octets, first: Byte, num: Octets, rest: Octets)
    requires Agree(bs, pre + ([first] + num + CRLF + rest)) && EndsCrlf(bs) && |bs| > |pre|
    requires IsNumeral(num) && first != LF
    ensures |bs| >= |pre| + 3 + |num| && bs[|pre| + 1..|pre| + 1 + |num|] == num
    ensures CrlfAt(bs, |pre| + 1 + |num|)
  {
    LineEnd(pre, first, num, rest);
    var m := pre + ([first] + num + CRLF + rest);
    forall k | 0 <= k < |num| && |pre| + 1 + k < |bs| ensures bs[|pre| + 1 + k] == num[k] {
      LengthLine(pre, first, num, rest, k);
      assert bs[|pre| + 1 + k] == m[|pre| + 1 + k];
    }
    forall k | |pre| <= k <= |pre| + 1 + |num| && k < |bs| ensures bs[k] != LF {
      NoLineFeed(pre, first, num, rest, k);
      assert bs[k] == m[k];
    }
    assert bs[|bs| - 1] == LF;
  }

  lemma NoLineFeed(pre: Octets, first: Byte, num: Octets, rest: Octets, k: nat)
    requires IsNumeral(num) && first != LF && |pre| <= k <= |pre| + 1 + |num|
    ensures (pre + ([first] + num + CRLF + rest))[k] != LF
  {
    LineEnd(pre, first, num, rest);
    if |pre| < k < |pre| + 1 + |num| { LengthLine(pre, first, num, rest, k - |pre| - 1); }
  }

  lemma NumberFound(bs: Octets, pre: Octets, first: Byte, num: Octets, v: int, rest: Octets)
    requires Agree(bs, pre + ([first] + num + CRLF + rest)) && EndsCrlf(bs) && |bs| > |pre|
    requires IsNumeral(num) && Atoi(num) == v && -INT_LIMIT <= v < INT_LIMIT && first != LF
    ensures |bs| >= |pre| + 3 + |num|
    ensures Number(bs, |pre| + 1) == Some((v, |pre| + 3 + |num|))
  {
    hide Strstr, Atoi, Agree;
    LineArrived(bs, pre, first, num, rest);
    var p := |pre| + 1 + |num|;
    forall k | |pre| + 1 <= k < p ensures bs[k] != CR && bs[k] != 0 {
      assert bs[k] == num[k - |pre| - 1];
    }
    StrstrFinds(bs, |pre| + 1, p);
  }

  lemma NumeralOf(n: nat)
    requires n < INT_LIMIT
    ensures IsNumeral(Dec(n)) && Atoi(Dec(n)) == n
  {
    hide Dec, Atoi;
    AtoiOfDec(n);
    TenDigits(n);
  }

  lemma HeadAgrees(bs: Octets, pre: Octets, m: Octets)
    requires Agree(bs, pre + m) && |bs| > |pre| && m != []
    ensures bs[|pre|] == m[0]
  {
    assert (pre + m)[|pre|] == m[0];
  }

  /** One bulk: its length line leads behind it. */
  lemma BulkSkipped(bs: Octets, pre: Octets, b: Bulk, rest: Octets)
    requires Agree(bs, pre + (BulkBytes(b) + rest)) && EndsCrlf(bs) && |bs| > |pre|
    requires |BulkBytes(b)| < INT_LIMIT
    ensures bs[|pre|] == DOLLAR
    ensures var n := Number(bs, |pre| + 1);
            n.Some? && Skip(n.value.0, n.value.1) == Some(|pre| + |BulkBytes(b)|)
  {
    hide Number, Dec, Atoi, Agree, IsNumeral;
    HeadAgrees(bs, pre, BulkBytes(b) + rest);
    match b
    case Nil =>
      MinusOne();
      assert BulkBytes(b) + rest == [DOLLAR] + [MINUS, DIGIT_0 + 1] + CRLF + rest;
      NumberFound(bs, pre, DOLLAR, [MINUS, DIGIT_0 + 1], -1, rest);
    case Data(d) =>
      NumeralOf(|d|);
      assert BulkBytes(b) + rest == [DOLLAR] + Dec(|d|) + CRLF + ((d + CRLF) + rest);
      NumberFound(bs, pre, DOLLAR, Dec(|d|), |d|, (d + CRLF) + rest);
  }

  lemma MinusOne()
    ensures Atoi([MINUS, DIGIT_0 + 1]) == -1 && IsNumeral([MINUS, DIGIT_0 + 1])
  {
    assert [MINUS, DIGIT_0 + 1][1..] == [DIGIT_0 + 1];
    assert Digits([DIGIT_0 + 1], 0) == 1;
  }

  lemma {:induction false} BulksExpected(bs: Octets, pre: Octets, bulks: seq<Bulk>)
    requires Agree(bs, pre + BulksBytes(bulks)) && EndsCrlf(bs)
    requires |pre| < |bs| || (bulks == [] && |pre| <= |bs|)
    requires |BulksBytes(bulks)| < INT_LIMIT
    ensures Bulks(bs, |pre|, |bulks|) == Expected(bs, pre + BulksBytes(bulks))
    decreases |bulks|
  {
    hide Number, BulkBytes, Skip;
    if bulks == [] {
    } else {
      var b, rest := BulkBytes(bulks[0]), BulksBytes(bulks[1..]);
      BulkSkipped(bs, pre, bulks[0], rest);
      var n := Number(bs, |pre| + 1).value;
      assert Skip(n.0, n.1) == Some(|pre + b|);
      assert pre + (b + rest) == (pre + b) + rest;
      if |pre + b| < |bs| || (|bulks| == 1 && |pre + b| == |bs|) {
        BulksExpected(bs, pre + b, bulks[1..]);
      }
    }
  }

  lemma Nothing(bs: Octets)
    ensures [] + bs == bs
  {}

  lemma FirstAgrees(bs: Octets, m: Octets)
    requires Agree(bs, m) && bs != [] && m != []
    ensures bs[0] == m[0]
  {}

  lemma FirstNumber(bs: Octets, first: Byte, num: Octets, v: int, rest: Octets)
    requires Agree(bs, [first] + num + CRLF + rest) && EndsCrlf(bs)
    requires IsNumeral(num) && Atoi(num) == v && -INT_LIMIT <= v < INT_LIMIT && first != LF
    ensures |bs| >= 3 + |num| && bs[0] == first && Number(bs, 1) == Some((v, 3 + |num|))
  {
    hide Number, Atoi, IsNumeral, Agree;
    ghost var m := [first] + num + CRLF + rest;
    Nothing(m);
    NumberFound(bs, [], first, num, v, rest);
    assert bs[0] == first by { FirstAgrees(bs, m); }
  }

  /** A request is recognised exactly when it has arrived as a whole: a prefix is
      incomplete, and with anything behind it (pipelining) it is refused. */
  lemma RequestExpected(args: seq<Bulk>, bs: Octets)
    requires IsRequest(args) && Agree(bs, ArrayBytes(args)) && bs != []
    ensures ClassifyRequest(bs) == Expected(bs, ArrayBytes(args))
  {
    hide Dec, Number, Bulks, BulksBytes, ClassifyInline, Agree;
    if EndsCrlf(bs) {
      NumeralOf(|args|);
      FirstNumber(bs, STAR, Dec(|args|), |args|, BulksBytes(args));
      var pre := [STAR] + Dec(|args|) + CRLF;
      if |pre| < |bs| { BulksExpected(bs, pre, args); }
    }
  }

  lemma MultiExpected(bulks: seq<Bulk>, bs: Octets)
    requires |bulks| <= 1024 && |ArrayBytes(bulks)| < INT_LIMIT && Agree(bs, ArrayBytes(bulks)) && bs != []
    ensures ClassifyMulti(bs) == Expected(bs, ArrayBytes(bulks))
  {
    hide Dec, Number, Bulks, Agree, BulkBytes;
    if EndsCrlf(bs) {
      NumeralOf(|bulks|);
      FirstNumber(bs, STAR, Dec(|bulks|), |bulks|, BulksBytes(bulks));
      var pre := [STAR] + Dec(|bulks|) + CRLF;
      if |pre| < |bs| { BulksExpected(bs, pre, bulks); }
    }
  }

  lemma BulkExpected(b: Bulk, bs: Octets)
    requires |BulkBytes(b)| < INT_LIMIT && Agree(bs, BulkBytes(b)) && bs != []
    ensures ClassifyBulk(bs) == Expected(bs, BulkBytes(b))
  {
    hide Number, Skip, BulkBytes, Agree;
    var m := BulkBytes(b);
    assert [] + (m + []) == m;
    if EndsCrlf(bs) { BulkSkipped(bs, [], b, []); }
  }

  lemma LineParts(kind: Byte, text: Octets, k: nat)
    requires kind != CR && kind != 0 && k <= |text|
    ensures var m := [kind] + text + CRLF;
            && m[k] == (if k == 0 then kind else text[k - 1])
            && (m[k] == 0 <==> k > 0 && text[k - 1] == 0)
            && (CrlfAt(m, k) <==> k > 0 && CrlfAt(text, k - 1))
            && CrlfAt(m, |m| - 2)
  {
    var m := [kind] + text + CRLF;
    assert m[k + 1] == if k == |text| then CR else text[k];
  }

  /** A line reply, whatever its text: the first line end, with no NUL before it, must be
      the last one. */
  lemma LineCompleteIff(kind: Byte, text: Octets)
    requires kind != CR && kind != 0
    ensures ClassifyLine([kind] + text + CRLF) == if IsText(text) then Complete else Wrong
  {
    hide CrlfAt;
    var m := [kind] + text + CRLF;
    LineParts(kind, text, 0);
    assert EndsCrlf(m) by { EndsWithCrlf(m); }
    if IsText(text) {
      forall k | 0 <= k < |m| - 2 ensures m[k] != 0 && !CrlfAt(m, k) { LineParts(kind, text, k); }
    } else {
      var i :| 0 <= i < |text| && (text[i] == 0 || CrlfAt(text, i));
      LineParts(kind, text, i + 1);
    }
  }

  lemma EndsWithCrlf(bs: Octets)
    requires |bs| >= 3
    ensures EndsCrlf(bs) <==> CrlfAt(bs, |bs| - 2)
  {}

  lemma LineExpected(kind: Byte, text: Octets, bs: Octets)
    requires kind != CR && kind != 0 && IsText(text)
    requires Agree(bs, [kind] + text + CRLF) && |bs| <= |text| + 3
    ensures ClassifyLine(bs) == Expected(bs, [kind] + text + CRLF)
  {
    hide Strstr;
    var m := [kind] + text + CRLF;
    LineCompleteIff(kind, text);
    if |bs| == |m| {
      assert bs == m;
    } else if |bs| >= 3 {
      LineParts(kind, text, |bs| - 2);
      assert bs[|bs| - 2] == m[|bs| - 2] && bs[|bs| - 1] == m[|bs| - 1];
    }
  }

  /** Every reply: a proper prefix is incomplete, the whole reply complete. */
  lemma ReplyExpected(r: Reply, n: nat)
    requires IsReply(r) && 0 < n <= |ReplyBytes(r)|
    ensures ClassifyReply(ReplyBytes(r)[..n]) == if n < |ReplyBytes(r)| then Incomplete else Complete
  {
    hide ClassifyLine, ClassifyBulk, ClassifyMulti, BulkBytes, BulksBytes, Dec;
    var m := ReplyBytes(r);
    var bs := m[..n];
    assert bs[0] == m[0];
    match r
    case Line(kind, text) => LineExpected(kind, text, bs);
    case One(b) => BulkExpected(b, bs);
    case Multi(bulks) => MultiExpected(bulks, bs);
  }
}

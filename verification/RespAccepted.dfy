/** Exactly which bytes the proxy takes for a complete reply (redis-proxy/echo.c).  They
    are more than the encodings of replies: the two bytes behind an inner bulk are
    skipped unseen, a length may be any text that atoi reads, and a length below -2
    leads back into what was already read. */
module RespAccepted {
  import opened Bytes
  import opened Options
  import opened Ascii
  import opened Resp

  /** A text of at most ten bytes that a search for the line end passes over. */
  ghost predicate IsLengthText(num: Octets) {
    |num| <= 10 && IsText(num) && -INT_LIMIT <= Atoi(num) < INT_LIMIT
  }

  /** The text stands at position i, with a line end behind it. */
  ghost predicate LineAt(bs: Octets, i: nat, num: Octets) {
    i + |num| + 2 <= |bs| && bs[i..i + |num|] == num && CrlfAt(bs, i + |num|)
  }

  /** The bytes from the end of a length line to the end of its bulk. */
  function Behind(v: int): int { if v == -1 then 0 else v + 2 }

  /** A length line, and as many bytes behind it as the length and a line end have. */
  ghost predicate IsLooseBulk(piece: Octets, num: Octets) {
    && IsLengthText(num) && 0 <= Behind(Atoi(num)) < INT_LIMIT
    && piece != [] && piece[0] == DOLLAR && LineAt(piece, 1, num)
    && |piece| == 3 + |num| + Behind(Atoi(num))
  }

  ghost predicate IsLoose(piece: Octets) {
    exists num :: IsLooseBulk(piece, num)
  }

  ghost predicate AreLooseBulks(pieces: seq<Octets>) {
    forall i :: 0 <= i < |pieces| ==> IsLoose(pieces[i])
  }

  /** A first line that counts the loose bulks behind it. */
  ghost predicate IsLooseMulti(bs: Octets, num: Octets, pieces: seq<Octets>) {
    && IsLengthText(num) && Atoi(num) == |pieces| <= 1024
    && bs != [] && bs[0] == STAR && LineAt(bs, 1, num)
    && AreLooseBulks(pieces) && bs[3 + |num|..] == Concat(pieces)
  }

  /** From one bulk to the next. */
  predicate Leads(bs: Octets, from: int, to: int) {
    && 0 <= from < |bs| && bs[from] == DOLLAR
    && var n := Number(bs, from + 1);
       n.Some? && Behind(n.value.0) < INT_LIMIT && to == n.value.1 + Behind(n.value.0)
  }

  /** The cursor passes these positions, one bulk after the other. */
  ghost predicate IsWalk(bs: Octets, cs: seq<int>) {
    cs != [] && forall i :: 0 <= i < |cs| - 1 ==> Leads(bs, cs[i], cs[i + 1])
  }

  /** Some length on the way is below -2. */
  predicate TurnsBack(bs: Octets, cursor: int, argc: nat)
    decreases argc
  {
    && argc > 0 && 0 <= cursor < |bs|
    && var n := Number(bs, cursor + 1);
       && n.Some?
       && (Behind(n.value.0) < 0 || TurnsBack(bs, n.value.1 + Behind(n.value.0), argc - 1))
  }

  lemma {:induction false} BulksWalk(bs: Octets, cursor: int, argc: nat) returns (cs: seq<int>)
    requires Bulks(bs, cursor, argc) == Complete
    ensures IsWalk(bs, cs) && |cs| == argc + 1 && cs[0] == cursor && cs[argc] == |bs|
    decreases argc
  {
    hide Number;
    if argc == 0 {
      cs := [cursor];
    } else {
      var n := Number(bs, cursor + 1).value;
      var next := n.1 + Behind(n.0);
      var rest := BulksWalk(bs, next, argc - 1);
      cs := [cursor] + rest;
    }
  }

  lemma {:induction false} WalkIsComplete(bs: Octets, cs: seq<int>)
    requires IsWalk(bs, cs) && cs[|cs| - 1] == |bs|
    ensures Bulks(bs, cs[0], |cs| - 1) == Complete
    decreases |cs|
  {
    hide Number;
    if |cs| == 1 {
    } else {
      assert Leads(bs, cs[0], cs[1]);
      if |cs| > 2 { assert Leads(bs, cs[1], cs[2]); }
      forall i | 0 <= i < |cs[1..]| - 1 ensures Leads(bs, cs[1..][i], cs[1..][i + 1]) {
        assert Leads(bs, cs[i + 1], cs[i + 2]);
      }
      WalkIsComplete(bs, cs[1..]);
    }
  }

  // ---------------------------------------------------------------- length lines

  lemma TextNumber(bs: Octets, i: nat, num: Octets)
    requires IsLengthText(num) && LineAt(bs, i, num)
    ensures Number(bs, i) == Some((Atoi(num), i + |num| + 2))
  {
    hide Strstr, Atoi, IsText;
    TextEnds(bs, i, num);
  }

  lemma TextEnds(bs: Octets, i: nat, num: Octets)
    requires IsText(num) && LineAt(bs, i, num)
    ensures Strstr(bs, i) == Some(i + |num|)
  {
    hide Strstr, CrlfAt;
    var p := i + |num|;
    forall k | i <= k < p ensures bs[k] != 0 && !CrlfAt(bs, k) { TextAt(bs, i, num, k - i); }
  }

  lemma TextAt(bs: Octets, i: nat, num: Octets, k: nat)
    requires LineAt(bs, i, num) && k < |num|
    ensures bs[i + k] == num[k] && (CrlfAt(bs, i + k) <==> CrlfAt(num, k))
  {
    assert bs[i..i + |num|][k] == bs[i + k];
    if k + 1 < |num| { assert bs[i..i + |num|][k + 1] == bs[i + k + 1]; }
  }

  lemma NumberText(bs: Octets, i: nat) returns (num: Octets)
    requires Number(bs, i).Some?
    ensures IsLengthText(num) && LineAt(bs, i, num) && Number(bs, i) == Some((Atoi(num), i + |num| + 2))
  {
    hide Strstr, Atoi;
    var p := Strstr(bs, i).value;
    num := bs[i..p];
    forall k | 0 <= k < |num| ensures num[k] != 0 && !CrlfAt(num, k) {
      assert num[k] == bs[i + k];
      assert !CrlfAt(bs, i + k);
      if k + 1 < |num| { assert num[k + 1] == bs[i + k + 1]; }
    }
  }

  lemma LineCut(bs: Octets, a: nat, b: nat, num: Octets)
    requires LineAt(bs, a + 1, num) && a + |num| + 3 <= b <= |bs|
    ensures LineAt(bs[a..b], 1, num)
  {
    var piece := bs[a..b];
    forall k | 0 <= k < |num| ensures piece[1 + k] == num[k] {
      assert bs[a + 1..a + 1 + |num|][k] == bs[a + (1 + k)];
    }
    assert piece[1..1 + |num|] == num;
  }

  lemma LineInside(pre: Octets, piece: Octets, rest: Octets, num: Octets)
    requires LineAt(piece, 1, num)
    ensures LineAt(pre + piece + rest, |pre| + 1, num) && (pre + piece + rest)[|pre|] == piece[0]
  {
    var bs := pre + piece + rest;
    assert bs[|pre| + 1..|pre| + 1 + |num|] == piece[1..1 + |num|];
  }

  // ---------------------------------------------------------------- loose bulks

  /** The bulks from a cursor on, no length below -2, are loose bulks up to the end. */
  lemma {:induction false} BulksLoose(bs: Octets, cursor: nat, argc: nat) returns (pieces: seq<Octets>)
    requires Bulks(bs, cursor, argc) == Complete && !TurnsBack(bs, cursor, argc)
    ensures |pieces| == argc && AreLooseBulks(pieces) && cursor <= |bs| && bs[cursor..] == Concat(pieces)
    decreases argc
  {
    hide Number, Atoi, IsLengthText, LineAt, IsLoose;
    if argc == 0 {
      pieces := [];
    } else {
      var num := NumberText(bs, cursor + 1);
      var next := cursor + |num| + 3 + Behind(Atoi(num));
      var rest := BulksLoose(bs, next, argc - 1);
      var piece := bs[cursor..next];
      assert IsLoose(piece) by { LooseAt(bs, cursor, next, num); }
      pieces := [piece] + rest;
      assert pieces[1..] == rest && bs[cursor..] == piece + bs[next..];
    }
  }

  lemma LooseAt(bs: Octets, cursor: nat, next: nat, num: Octets)
    requires IsLengthText(num) && 0 <= Behind(Atoi(num)) < INT_LIMIT
    requires next == cursor + |num| + 3 + Behind(Atoi(num)) <= |bs| && bs[cursor] == DOLLAR
    requires LineAt(bs, cursor + 1, num)
    ensures IsLoose(bs[cursor..next])
  {
    hide Atoi, IsLengthText, LineAt;
    LineCut(bs, cursor, next, num);
    assert IsLooseBulk(bs[cursor..next], num);
  }

  lemma LooseNumber(bs: Octets, pre: Octets, piece: Octets, rest: Octets, num: Octets)
    requires bs == pre + piece + rest && IsLooseBulk(piece, num)
    ensures bs[|pre|] == DOLLAR && Number(bs, |pre| + 1) == Some((Atoi(num), |pre| + 3 + |num|))
  {
    hide Number, Atoi, IsLengthText, Behind, LineAt;
    LineInside(pre, piece, rest, num);
    TextNumber(bs, |pre| + 1, num);
  }

  lemma {:induction false} LooseBulks(bs: Octets, pre: Octets, pieces: seq<Octets>)
    requires AreLooseBulks(pieces) && bs == pre + Concat(pieces)
    ensures Bulks(bs, |pre|, |pieces|) == Complete && !TurnsBack(bs, |pre|, |pieces|)
    decreases |pieces|
  {
    hide Number, Atoi, IsLengthText, LineAt;
    if pieces == [] {
    } else {
      var piece, rest := pieces[0], Concat(pieces[1..]);
      assert IsLoose(pieces[0]);
      var num :| IsLooseBulk(piece, num);
      assert bs == pre + piece + rest;
      LooseNumber(bs, pre, piece, rest, num);
      Tail(pieces);
      LooseBulks(bs, pre + piece, pieces[1..]);
      if |pieces| > 1 { NotEmpty(pieces[1..]); }
    }
  }

  lemma Tail(pieces: seq<Octets>)
    requires AreLooseBulks(pieces) && pieces != []
    ensures AreLooseBulks(pieces[1..])
  {
    hide IsLoose;
  }

  lemma NotEmpty(pieces: seq<Octets>)
    requires AreLooseBulks(pieces) && pieces != []
    ensures Concat(pieces) != []
  {
    var num :| IsLooseBulk(pieces[0], num);
  }

  // ---------------------------------------------------------------- what is complete

  ghost predicate IsReplyBytes(bs: Octets) {
    exists r :: IsReply(r) && ReplyBytes(r) == bs
  }

  ghost predicate IsLineReply(bs: Octets, kind: Byte, text: Octets) {
    (kind == PLUS || kind == MINUS || kind == COLON) && IsText(text) && bs == [kind] + text + CRLF
  }

  /** The count of the first line is the number of steps of a walk to the end. */
  ghost predicate IsMultiWalk(bs: Octets, num: Octets, cs: seq<int>) {
    && IsLengthText(num) && Atoi(num) == |cs| - 1 <= 1024
    && bs != [] && bs[0] == STAR && LineAt(bs, 1, num)
    && IsWalk(bs, cs) && cs[0] == 3 + |num| && cs[|cs| - 1] == |bs|
  }

  ghost predicate IsTaken(bs: Octets) {
    && EndsCrlf(bs)
    && (|| (exists kind, text :: IsLineReply(bs, kind, text)) || IsLoose(bs)
        || (exists num, cs :: IsMultiWalk(bs, num, cs)))
  }

  predicate MultiTurnsBack(bs: Octets) {
    && Number(bs, 1).Some? && Number(bs, 1).value.0 >= 0
    && TurnsBack(bs, Number(bs, 1).value.1, Number(bs, 1).value.0)
  }

  lemma LineFirst(bs: Octets)
    requires bs != [] && (bs[0] == PLUS || bs[0] == MINUS || bs[0] == COLON)
    ensures ClassifyLine(bs) == Complete <==> exists kind, text :: IsLineReply(bs, kind, text)
  {
    hide Strstr;
    if EndsCrlf(bs) {
      var text := bs[1..|bs| - 2];
      assert bs == [bs[0]] + text + CRLF;
      LineCompleteIff(bs[0], text);
      assert IsText(text) ==> IsLineReply(bs, bs[0], text);
    }
    if kind, text :| IsLineReply(bs, kind, text) { LineCompleteIff(kind, text); }
  }

  lemma BulkFirst(bs: Octets)
    requires bs != [] && bs[0] == DOLLAR
    ensures ClassifyBulk(bs) == Complete <==> EndsCrlf(bs) && IsLoose(bs)
  {
    hide Number, IsLengthText, Atoi, LineAt;
    if ClassifyBulk(bs) == Complete {
      var num := NumberText(bs, 1);
      assert IsLooseBulk(bs, num);
    }
    if EndsCrlf(bs) && IsLoose(bs) {
      var num :| IsLooseBulk(bs, num);
      TextNumber(bs, 1, num);
    }
  }

  lemma MultiFirst(bs: Octets)
    requires bs != [] && bs[0] == STAR
    ensures ClassifyMulti(bs) == Complete <==> EndsCrlf(bs) && exists num, cs :: IsMultiWalk(bs, num, cs)
  {
    hide Number, IsLengthText, Atoi, Bulks, LineAt;
    if ClassifyMulti(bs) == Complete {
      var num := NumberText(bs, 1);
      EmptyMulti(bs, num);
      var cs := BulksWalk(bs, 3 + |num|, Atoi(num));
      assert IsMultiWalk(bs, num, cs);
    }
    if EndsCrlf(bs) && exists num, cs :: IsMultiWalk(bs, num, cs) {
      var num, cs :| IsMultiWalk(bs, num, cs);
      TextNumber(bs, 1, num);
      WalkIsComplete(bs, cs);
      if |cs| > 1 { assert Leads(bs, cs[0], cs[1]); }
    }
  }

  lemma EmptyMulti(bs: Octets, num: Octets)
    requires Number(bs, 1) == Some((Atoi(num), 3 + |num|)) && ClassifyMulti(bs) == Complete
    ensures EndsCrlf(bs) && 0 <= Atoi(num) <= 1024 && Bulks(bs, 3 + |num|, Atoi(num)) == Complete
  {
    hide Number, Atoi;
  }

  lemma TakenFirst(bs: Octets)
    requires bs != []
    ensures IsLoose(bs) ==> bs[0] == DOLLAR
    ensures (exists num, cs :: IsMultiWalk(bs, num, cs)) ==> bs[0] == STAR
  {
    hide IsLengthText, IsWalk, Atoi, LineAt;
  }

  /** Which bytes are taken for a complete reply: exactly these. */
  lemma CompleteIff(bs: Octets)
    requires bs != []
    ensures ClassifyReply(bs) == Complete <==> IsTaken(bs)
  {
    hide ClassifyLine, ClassifyBulk, ClassifyMulti, IsLoose, IsMultiWalk;
    TakenFirst(bs);
    if bs[0] == DOLLAR { BulkFirst(bs); }
    if bs[0] == STAR { MultiFirst(bs); }
    if bs[0] == PLUS || bs[0] == MINUS || bs[0] == COLON { LineFirst(bs); }
    assert (exists kind, text :: IsLineReply(bs, kind, text)) ==>
        bs[0] == PLUS || bs[0] == MINUS || bs[0] == COLON;
    assert ClassifyLine(bs) == Complete ==> EndsCrlf(bs) by { EndsFirst(bs); }
  }

  lemma EndsFirst(bs: Octets)
    ensures ClassifyLine(bs) == Complete ==> EndsCrlf(bs)
  {}

  /** Without a length below -2, a multi-bulk reply is taken if and only if it is a count
      and that many loose bulks. */
  lemma ForwardIff(bs: Octets)
    requires bs != [] && bs[0] == STAR
    ensures ClassifyReply(bs) == Complete && !MultiTurnsBack(bs) <==>
            EndsCrlf(bs) && exists num, pieces :: IsLooseMulti(bs, num, pieces)
  {
    hide Number, IsLengthText, Atoi, Bulks, TurnsBack, IsLoose, LineAt;
    if ClassifyMulti(bs) == Complete && !MultiTurnsBack(bs) {
      var num := NumberText(bs, 1);
      EmptyMulti(bs, num);
      var pieces := BulksLoose(bs, 3 + |num|, Atoi(num));
      assert IsLooseMulti(bs, num, pieces);
    }
    if EndsCrlf(bs) && exists num, pieces :: IsLooseMulti(bs, num, pieces) {
      var num, pieces :| IsLooseMulti(bs, num, pieces);
      LooseIsComplete(bs, num, pieces);
    }
  }

  lemma LooseIsComplete(bs: Octets, num: Octets, pieces: seq<Octets>)
    requires EndsCrlf(bs) && IsLooseMulti(bs, num, pieces)
    ensures ClassifyMulti(bs) == Complete && !MultiTurnsBack(bs)
  {
    hide Number, IsLengthText, Atoi, Bulks, TurnsBack, IsLoose, CrlfAt;
    TextNumber(bs, 1, num);
    var pre := bs[..3 + |num|];
    assert bs == pre + Concat(pieces);
    LooseBulks(bs, pre, pieces);
    if pieces != [] { NotEmpty(pieces); }
  }

  // ---------------------------------------------------------------- and what is a reply

  ghost predicate IsBulk(piece: Octets) {
    exists b :: piece == BulkBytes(b)
  }

  ghost predicate AreBulks(pieces: seq<Octets>) {
    forall i :: 0 <= i < |pieces| ==> IsBulk(pieces[i])
  }

  lemma {:induction false} SamePieces(bs: Octets, pre: Octets, pieces: seq<Octets>, bulks: seq<Bulk>)
    requires AreLooseBulks(pieces) && |pieces| == |bulks| && EndsCrlf(bs) && |bs| < INT_LIMIT
    requires bs == pre + Concat(pieces) == pre + BulksBytes(bulks)
    ensures AreBulks(pieces)
    decreases |pieces|
  {
    hide Number, IsBulk, BulkBytes, IsLoose;
    if pieces == [] {
    } else {
      var piece, b := pieces[0], BulkBytes(bulks[0]);
      var rest, more := Concat(pieces[1..]), BulksBytes(bulks[1..]);
      assert bs == (pre + piece) + rest by { Regroup(pre, piece, rest); }
      assert bs == (pre + b) + more by { Regroup(pre, b, more); }
      assert bs == pre + (b + more);
      PieceLength(bs, pre, piece, rest, bulks[0], more);
      SameMiddle(pre, piece, rest, b, more);
      assert IsBulk(pieces[0]) by { IsBulkOf(bulks[0]); }
      Tail(pieces);
      SamePieces(bs, pre + piece, pieces[1..], bulks[1..]);
      assert pieces == [pieces[0]] + pieces[1..];
    }
  }

  lemma IsBulkOf(b: Bulk)
    ensures IsBulk(BulkBytes(b))
  {}

  lemma Regroup(a: Octets, b: Octets, c: Octets)
    ensures a + (b + c) == (a + b) + c
  {}

  lemma SameMiddle(pre: Octets, a: Octets, x: Octets, b: Octets, y: Octets)
    requires (pre + a) + x == (pre + b) + y && |a| == |b|
    ensures a == b
  {
    assert ((pre + a) + x)[|pre|..|pre| + |a|] == a;
    assert ((pre + b) + y)[|pre|..|pre| + |b|] == b;
  }

  lemma PieceLength(bs: Octets, pre: Octets, piece: Octets, rest: Octets, b: Bulk, more: Octets)
    requires IsLoose(piece) && EndsCrlf(bs) && |bs| < INT_LIMIT
    requires bs == (pre + piece) + rest == pre + (BulkBytes(b) + more)
    ensures |piece| == |BulkBytes(b)|
  {
    hide Number, Atoi, IsLengthText, BulkBytes, LineAt;
    var num :| IsLooseBulk(piece, num);
    LooseNumber(bs, pre, piece, rest, num);
    BulkSkipped(bs, pre, b, more);
  }

  lemma {:induction false} BulksOf(pieces: seq<Octets>) returns (bulks: seq<Bulk>)
    requires AreBulks(pieces)
    ensures |bulks| == |pieces| && BulksBytes(bulks) == Concat(pieces)
    decreases |pieces|
  {
    hide BulkBytes;
    if pieces == [] {
      bulks := [];
    } else {
      assert IsBulk(pieces[0]);
      var b :| pieces[0] == BulkBytes(b);
      var rest := BulksOf(pieces[1..]);
      bulks := [b] + rest;
    }
  }

  /** Of the counts with loose bulks, the replies are those whose count is written as it
      should be and whose bulks are. */
  lemma LooseIsReplyIff(bs: Octets, num: Octets, pieces: seq<Octets>)
    requires IsLooseMulti(bs, num, pieces) && EndsCrlf(bs) && |bs| < INT_LIMIT
    ensures IsReplyBytes(bs) <==> num == Dec(|pieces|) && AreBulks(pieces)
  {
    hide IsReplyBytes, IsLooseMulti, Dec, AreBulks;
    if num == Dec(|pieces|) && AreBulks(pieces) { WellWrittenIsReply(bs, num, pieces); }
    if IsReplyBytes(bs) { ReplyIsWellWritten(bs, num, pieces); }
  }

  lemma WellWrittenIsReply(bs: Octets, num: Octets, pieces: seq<Octets>)
    requires IsLooseMulti(bs, num, pieces) && |bs| < INT_LIMIT && num == Dec(|pieces|) && AreBulks(pieces)
    ensures IsReplyBytes(bs)
  {
    hide Atoi, IsLengthText, BulkBytes, BulksBytes, AreLooseBulks, AreBulks, Dec, Concat;
    var bulks := BulksOf(pieces);
    LineThen(bs, STAR, num);
    assert ReplyBytes(Multi(bulks)) == bs;
    assert IsReply(Multi(bulks));
  }

  lemma LineThen(bs: Octets, first: Byte, num: Octets)
    requires bs != [] && bs[0] == first && LineAt(bs, 1, num)
    ensures bs == [first] + num + CRLF + bs[3 + |num|..]
  {
    assert bs[1..1 + |num|] == num && bs[1 + |num|..3 + |num|] == CRLF;
    assert bs == [bs[0]] + bs[1..1 + |num|] + bs[1 + |num|..3 + |num|] + bs[3 + |num|..];
  }

  lemma ReplyIsWellWritten(bs: Octets, num: Octets, pieces: seq<Octets>)
    requires IsLooseMulti(bs, num, pieces) && EndsCrlf(bs) && |bs| < INT_LIMIT && IsReplyBytes(bs)
    ensures num == Dec(|pieces|) && AreBulks(pieces)
  {
    hide Atoi, IsLengthText, BulkBytes, BulksBytes, AreLooseBulks, AreBulks, Dec, Concat, IsReply, LineAt;
    var r :| IsReply(r) && ReplyBytes(r) == bs;
    var bulks := IsMulti(r);
    SameCount(bs, num, pieces, bulks);
    SamePieces(bs, bs[..3 + |num|], pieces, bulks);
  }

  lemma IsMulti(r: Reply) returns (bulks: seq<Bulk>)
    requires IsReply(r) && ReplyBytes(r)[0] == STAR
    ensures r == Multi(bulks) && |bulks| <= 1024
  {
    hide BulkBytes, BulksBytes, Dec, IsText;
    bulks := r.bulks;
  }

  lemma SameCount(bs: Octets, num: Octets, pieces: seq<Octets>, bulks: seq<Bulk>)
    requires IsLooseMulti(bs, num, pieces) && EndsCrlf(bs) && |bs| < INT_LIMIT
    requires ArrayBytes(bulks) == bs && |bulks| <= 1024
    ensures num == Dec(|bulks|) && |pieces| == |bulks| && 3 + |num| <= |bs|
    ensures bs == bs[..3 + |num|] + Concat(pieces) == bs[..3 + |num|] + BulksBytes(bulks)
  {
    hide Number, Atoi, IsLengthText, BulksBytes, AreLooseBulks, Dec, Concat, CrlfAt;
    NumeralOf(|bulks|);
    FirstNumber(bs, STAR, Dec(|bulks|), |bulks|, BulksBytes(bulks));
    TextNumber(bs, 1, num);
    NumeralIn(bs, STAR, Dec(|bulks|), BulksBytes(bulks));
  }

  lemma NumeralIn(bs: Octets, first: Byte, a: Octets, x: Octets)
    requires bs == [first] + a + CRLF + x
    ensures bs[1..1 + |a|] == a && bs[3 + |a|..] == x
  {}

  /** A numeral as it should be written: -1 for a nil, or a length in decimal. */
  ghost predicate IsProper(num: Octets) {
    num == [MINUS, DIGIT_0 + 1] || (Atoi(num) >= 0 && num == Dec(Atoi(num)))
  }

  /** Likewise for a bulk reply: its numeral decides. */
  lemma BulkIsReplyIff(bs: Octets, num: Octets)
    requires IsLooseBulk(bs, num) && EndsCrlf(bs) && |bs| < INT_LIMIT
    ensures IsReplyBytes(bs) <==> IsProper(num)
  {
    hide Number, Atoi, IsLengthText, Dec, IsText, CrlfAt;
    MinusOne();
    LineThen(bs, DOLLAR, num);
    if num == [MINUS, DIGIT_0 + 1] {
      assert bs == BulkBytes(Nil) == ReplyBytes(One(Nil));
      assert IsReply(One(Nil));
    } else if Atoi(num) >= 0 && num == Dec(Atoi(num)) {
      var d := bs[3 + |num|..|bs| - 2];
      assert bs[3 + |num|..] == d + CRLF by { assert bs[|bs| - 2..] == CRLF; }
      assert bs == ReplyBytes(One(Data(d)));
      assert IsReply(One(Data(d)));
    }
    if IsReplyBytes(bs) {
      var r :| IsReply(r) && ReplyBytes(r) == bs;
      BulkNumeral(bs, num, r);
    }
  }

  lemma BulkNumeral(bs: Octets, num: Octets, r: Reply)
    requires IsLooseBulk(bs, num) && EndsCrlf(bs) && IsReply(r) && ReplyBytes(r) == bs
    ensures num == [MINUS, DIGIT_0 + 1] || (Atoi(num) >= 0 && num == Dec(Atoi(num)))
  {
    hide Number, Atoi, IsLengthText, Dec, IsText, CrlfAt;
    TextNumber(bs, 1, num);
    MinusOne();
    match r
    case One(Nil) =>
      var one: Octets := [MINUS, DIGIT_0 + 1];
      assert bs == [DOLLAR] + one + CRLF + [];
      FirstNumber(bs, DOLLAR, one, -1, []);
      NumeralIn(bs, DOLLAR, one, []);
    case One(Data(d)) =>
      NumeralOf(|d|);
      FirstNumber(bs, DOLLAR, Dec(|d|), |d|, d + CRLF);
      NumeralIn(bs, DOLLAR, Dec(|d|), d + CRLF);
  }

  // ---------------------------------------------------------------- all bytes

  ghost predicate IsProperMulti(bs: Octets, num: Octets, pieces: seq<Octets>) {
    IsLooseMulti(bs, num, pieces) && num == Dec(|pieces|) && AreBulks(pieces)
  }

  lemma LineHere(bs: Octets, first: Byte, num: Octets, rest: Octets)
    requires bs == [first] + num + CRLF + rest
    ensures bs[0] == first && LineAt(bs, 1, num) && bs[3 + |num|..] == rest
  {
    assert bs[1..1 + |num|] == num;
    assert bs[1 + |num|] == CR && bs[2 + |num|] == LF;
  }

  lemma NumeralIsText(num: Octets)
    requires IsNumeral(num) && -INT_LIMIT <= Atoi(num) < INT_LIMIT
    ensures IsLengthText(num)
  {
    hide Atoi;
  }

  /** The bulks of a reply are loose bulks. */
  lemma BulkIsLoose(b: Bulk)
    requires |BulkBytes(b)| < INT_LIMIT
    ensures IsLoose(BulkBytes(b))
  {
    hide Atoi, Dec, IsNumeral, IsLengthText, LineAt;
    var bs := BulkBytes(b);
    match b
    case Nil =>
      var one: Octets := [MINUS, DIGIT_0 + 1];
      MinusOne();
      assert IsNumeral(one) by { MinusOneIsNumeral(); }
      NumeralIsText(one);
      assert bs == [DOLLAR] + one + CRLF + [];
      LineHere(bs, DOLLAR, one, []);
      assert IsLooseBulk(bs, one);
    case Data(d) =>
      NumeralOf(|d|);
      NumeralIsText(Dec(|d|));
      LineHere(bs, DOLLAR, Dec(|d|), d + CRLF);
      assert IsLooseBulk(bs, Dec(|d|));
  }

  lemma MinusOneIsNumeral()
    ensures IsNumeral([MINUS, DIGIT_0 + 1])
  {}

  lemma {:induction false} BulksAreLoose(bulks: seq<Bulk>) returns (pieces: seq<Octets>)
    requires |BulksBytes(bulks)| < INT_LIMIT
    ensures |pieces| == |bulks| && AreLooseBulks(pieces) && Concat(pieces) == BulksBytes(bulks)
    decreases |bulks|
  {
    hide BulkBytes, IsLoose;
    if bulks == [] {
      pieces := [];
    } else {
      BulkIsLoose(bulks[0]);
      var rest := BulksAreLoose(bulks[1..]);
      pieces := [BulkBytes(bulks[0])] + rest;
      assert pieces[1..] == rest;
    }
  }

  lemma ArrayIsLoose(bulks: seq<Bulk>) returns (pieces: seq<Octets>)
    requires |ArrayBytes(bulks)| < INT_LIMIT && |bulks| <= 1024
    ensures |pieces| == |bulks| && IsLooseMulti(ArrayBytes(bulks), Dec(|bulks|), pieces)
  {
    hide Atoi, Dec, IsNumeral, IsLengthText, LineAt, AreLooseBulks, Concat, BulksBytes;
    pieces := BulksAreLoose(bulks);
    NumeralOf(|bulks|);
    NumeralIsText(Dec(|bulks|));
    LineHere(ArrayBytes(bulks), STAR, Dec(|bulks|), BulksBytes(bulks));
  }

  /** No reply has a length that leads back. */
  lemma TurningBackIsNoReply(bs: Octets)
    requires bs != [] && bs[0] == STAR && MultiTurnsBack(bs)
    ensures !IsReplyBytes(bs)
  {
    hide MultiTurnsBack, IsLooseMulti, IsReply, ReplyBytes, ArrayBytes;
    if r :| IsReply(r) && ReplyBytes(r) == bs {
      var bulks := IsMulti(r);
      WithinLimit(r, bulks);
      var pieces := ArrayIsLoose(bulks);
      LooseIsComplete(bs, Dec(|bulks|), pieces);
    }
  }

  lemma WithinLimit(r: Reply, bulks: seq<Bulk>)
    requires IsReply(r) && r == Multi(bulks)
    ensures ReplyBytes(r) == ArrayBytes(bulks) && |ArrayBytes(bulks)| < INT_LIMIT
  {
    hide ArrayBytes;
  }

  lemma LineIsReply(bs: Octets)
    requires bs != [] && |bs| < INT_LIMIT && (bs[0] == PLUS || bs[0] == MINUS || bs[0] == COLON)
    ensures IsReplyBytes(bs) <==> exists kind, text :: IsLineReply(bs, kind, text)
  {
    hide BulkBytes, BulksBytes, Dec, IsText;
    if kind, text :| IsLineReply(bs, kind, text) {
      assert ReplyBytes(Line(kind, text)) == bs;
      assert IsReply(Line(kind, text));
    }
    if r :| IsReply(r) && ReplyBytes(r) == bs { assert IsLineReply(bs, r.kind, r.text); }
  }

  lemma MultiIsReply(bs: Octets)
    requires bs != [] && bs[0] == STAR && |bs| < INT_LIMIT && ClassifyReply(bs) == Complete
    ensures IsReplyBytes(bs) <==> exists num, pieces :: IsProperMulti(bs, num, pieces)
  {
    hide ClassifyReply, MultiTurnsBack, IsLooseMulti, IsReplyBytes, AreBulks, Dec;
    ForwardIff(bs);
    assert EndsCrlf(bs) by { TakenEnds(bs); }
    if num, pieces :| IsProperMulti(bs, num, pieces) { LooseIsReplyIff(bs, num, pieces); }
    if IsReplyBytes(bs) {
      if MultiTurnsBack(bs) { TurningBackIsNoReply(bs); }
      var num, pieces :| IsLooseMulti(bs, num, pieces);
      LooseIsReplyIff(bs, num, pieces);
      assert IsProperMulti(bs, num, pieces);
    }
  }

  lemma TakenEnds(bs: Octets)
    requires bs != [] && ClassifyReply(bs) == Complete
    ensures EndsCrlf(bs)
  {
    hide IsLoose, IsMultiWalk, ClassifyReply;
    CompleteIff(bs);
  }

  /** Of all the bytes that are taken for a complete reply, the encodings of replies are the
      lines, the loose bulks with a proper numeral, and the counts written properly with
      as many proper bulks behind them: no others. */
  lemma TakenIsReplyIff(bs: Octets)
    requires bs != [] && |bs| < INT_LIMIT && ClassifyReply(bs) == Complete
    ensures IsReplyBytes(bs) <==>
            || (exists kind, text :: IsLineReply(bs, kind, text))
            || (exists num :: IsLooseBulk(bs, num) && IsProper(num))
            || (exists num, pieces :: IsProperMulti(bs, num, pieces))
  {
    hide ClassifyReply, IsReplyBytes, IsText, IsLengthText, LineAt, Behind, Atoi, Dec, AreLooseBulks, AreBulks;
    TakenEnds(bs);
    FirstByteSplits(bs);
    if bs[0] == STAR {
      MultiIsReply(bs);
    } else if bs[0] == DOLLAR {
      TakenBulk(bs);
      var num :| IsLooseBulk(bs, num);
      BulkIsReplyIff(bs, num);
      if n :| IsLooseBulk(bs, n) && IsProper(n) { BulkIsReplyIff(bs, n); }
    } else {
      LineIsReply(bs);
    }
  }

  lemma TakenBulk(bs: Octets)
    requires bs != [] && bs[0] == DOLLAR && ClassifyReply(bs) == Complete
    ensures IsLoose(bs)
  {
    hide IsLoose, ClassifyBulk;
    BulkFirst(bs);
  }

  lemma FirstByteSplits(bs: Octets)
    requires bs != [] && ClassifyReply(bs) == Complete
    ensures bs[0] == STAR || bs[0] == DOLLAR || bs[0] == PLUS || bs[0] == MINUS || bs[0] == COLON
  {
    hide ClassifyLine, ClassifyBulk, ClassifyMulti;
  }

  // ---------------------------------------------------------------- examples

  const A_XX: Octets := [DOLLAR, 49, CR, LF, 97, 88, 88]

  const JUST_B: Octets := [DOLLAR, 49, CR, LF, 98, CR, LF]

  lemma OneByteBulk(piece: Octets)
    requires |piece| == 7 && piece[0] == DOLLAR && piece[1] == 49 && CrlfAt(piece, 2)
    ensures IsLoose(piece)
  {
    var num: Octets := [49];
    assert num[1..] == [] && Digits(num, 0) == 1;
    assert piece[1..2] == num;
    assert IsLooseBulk(piece, num);
  }

  /** Two bulks, "a" and "b", with XX where the line end behind the first should be: taken
      for a complete reply, and no reply. */
  lemma SeparatorUnseen()
    ensures var bs := [STAR, 50, CR, LF] + A_XX + JUST_B;
            ClassifyReply(bs) == Complete && !IsReplyBytes(bs)
  {
    hide ClassifyReply, IsLoose, ReplyBytes, IsReply, BulkBytes;
    var num: Octets, pieces := [50], [A_XX, JUST_B];
    var bs := [STAR, 50, CR, LF] + A_XX + JUST_B;
    assert num[1..] == [] && Digits(num, 0) == 2;
    OneByteBulk(A_XX);
    OneByteBulk(JUST_B);
    assert pieces[1..] == [JUST_B];
    assert Concat([JUST_B]) == JUST_B + Concat([JUST_B][1..]) == JUST_B;
    assert bs[4..] == A_XX + JUST_B == Concat(pieces);
    assert bs[1..2] == num;
    assert IsLooseMulti(bs, num, pieces);
    assert EndsCrlf(bs);
    ForwardIff(bs);
    assert !IsBulk(pieces[0]) by {
      forall b ensures pieces[0] != BulkBytes(b) { assert EndsCrlf(BulkBytes(b)); }
    }
    LooseIsReplyIff(bs, num, pieces);
  }

  const BACKWARD: Octets := [STAR, 51, CR, LF, DOLLAR, 52, CR, LF, DOLLAR, 54, CR, LF, CR, LF,
                             DOLLAR, MINUS, 49, 52, CR, LF]

  lemma DigitLine(i: nat, d: Byte)
    requires i + 3 <= |BACKWARD| && BACKWARD[i] == d && CrlfAt(BACKWARD, i + 1) && IsDigit(d)
    ensures Number(BACKWARD, i) == Some((d - DIGIT_0, i + 3))
  {
    hide Number, Strstr;
    var num: Octets := [d];
    assert num[1..] == [] && Digits(num, 0) == d - DIGIT_0;
    assert BACKWARD[i..i + 1] == num;
    TextNumber(BACKWARD, i, num);
  }

  lemma FourteenBack()
    ensures Number(BACKWARD, 15) == Some((-14, 20))
  {
    hide Number, Strstr;
    var num: Octets := [MINUS, 49, 52];
    assert num[1..] == [49, 52] && num[1..][1..] == [52];
    assert Digits([52], 1) == 14;
    assert BACKWARD[15..18] == num;
    TextNumber(BACKWARD, 15, num);
  }

  /** A length of -14 leads back into the data of the bulk before, where a third bulk is
      found that ends where the text ends. */
  lemma LengthLeadsBack()
    ensures ClassifyReply(BACKWARD) == Complete && MultiTurnsBack(BACKWARD) && !IsReplyBytes(BACKWARD)
  {
    hide Number, IsReplyBytes;
    DigitLine(1, 51);
    DigitLine(5, 52);
    DigitLine(9, 54);
    FourteenBack();
    assert Bulks(BACKWARD, 8, 1) == Bulks(BACKWARD, 20, 0);
    assert Bulks(BACKWARD, 14, 2) == Bulks(BACKWARD, 8, 1);
    assert Bulks(BACKWARD, 4, 3) == Bulks(BACKWARD, 14, 2);
    assert TurnsBack(BACKWARD, 14, 2);
    TurningBackIsNoReply(BACKWARD);
  }
}

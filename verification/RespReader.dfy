/** The framing routines of redis-proxy/echo.c as loops over a cursor, and the exchange
    with the server that calls them. */
module RespReader {
  import opened Bytes
  import opened Options
  import opened Ascii
  import opened Resp
  import opened RespAccepted

  method ProcessRequestBuffer(rbuf: Octets) returns (v: Verdict)
    ensures v == ClassifyRequest(rbuf)
  {
    hide Number, Strstr, Atoi, Skip, InlineIs;
    var rlen := |rbuf|;
    if rlen < 3 || rbuf[rlen - 2] != CR || rbuf[rlen - 1] != LF { return Incomplete; }
    if rbuf[0] != STAR {
      if InlineIs(rbuf, QUIT_LINE) { return Quit; }
      if InlineIs(rbuf, EXIT_LINE) { return Exit; }
      return Complete;
    }
    var n := Number(rbuf, 1);
    if n.None? { return Undefined; }
    var argc, cursor: int := n.value.0, n.value.1;
    if argc <= 0 || argc > 1024 { return Wrong; }
    if cursor >= rlen { return Incomplete; }
    v := SkipBulks(rbuf, cursor, argc);
  }

  /** The loop that requests and multi-bulk replies share, word for word. */
  method SkipBulks(rbuf: Octets, start: int, bulks: nat) returns (v: Verdict)
    ensures v == Bulks(rbuf, start, bulks)
  {
    hide Number, Skip;
    var cursor, argc := start, bulks;
    while argc > 0
      invariant Bulks(rbuf, start, bulks) == Bulks(rbuf, cursor, argc)
    {
      if !(0 <= cursor < |rbuf|) { return Undefined; }
      if rbuf[cursor] != DOLLAR { return Wrong; }
      cursor := cursor + 1;
      var n := Number(rbuf, cursor);
      if n.None? { return Undefined; }
      var c := Skip(n.value.0, n.value.1);
      if c.None? { return Undefined; }
      cursor := c.value;
      if cursor > |rbuf| { return Incomplete; }
      if cursor == |rbuf| && argc != 1 { return Incomplete; }
      argc := argc - 1;
    }
    v := if cursor != |rbuf| then Wrong else Complete;
  }

  method ProcessResponseBuffer(rbuf: Octets) returns (v: Verdict)
    requires rbuf != []
    ensures v == ClassifyReply(rbuf)
  {
    hide Number, Strstr, Skip, Bulks;
    var s, rlen := rbuf[0], |rbuf|;
    if s != PLUS && s != MINUS && s != COLON && s != DOLLAR && s != STAR { return Wrong; }
    if rlen < 3 || rbuf[rlen - 2] != CR || rbuf[rlen - 1] != LF { return Incomplete; }
    if s == PLUS || s == MINUS || s == COLON {
      var p := Strstr(rbuf, 0);
      return if p.None? || p.value + 2 != rlen then Wrong else Complete;
    }
    var n := Number(rbuf, 1);
    if n.None? { return Undefined; }
    if s == DOLLAR {
      var c := Skip(n.value.0, n.value.1);
      return if c.None? then Undefined else if c.value > rlen then Incomplete
             else if c.value == rlen then Complete else Wrong;
    }
    var argc, cursor := n.value.0, n.value.1;
    if argc < 0 || argc > 1024 { return Wrong; }
    if argc == 0 && cursor == rlen { return Complete; }
    if argc != 0 && cursor == rlen { return Incomplete; }
    v := SkipBulks(rbuf, cursor, argc);
  }

  // ---------------------------------------------------------------- arrival in pieces

  datatype Kind = Request | Reply

  function Classify(kind: Kind, bs: Octets): Verdict
    requires bs != []
  {
    if kind == Request then ClassifyRequest(bs) else ClassifyReply(bs)
  }

  /** A receiver that classifies what it has after every piece, and stops at the first
      answer other than "incomplete": that answer and how many pieces it took. */
  function Fires(kind: Kind, buf: Octets, pieces: seq<Octets>): (Verdict, nat)
    requires forall i :: 0 <= i < |pieces| ==> pieces[i] != []
    decreases |pieces|
  {
    if pieces == [] then (Incomplete, 0)
    else
      var v := Classify(kind, buf + pieces[0]);
      if v != Incomplete then (v, 1)
      else
        var later := Fires(kind, buf + pieces[0], pieces[1..]);
        (later.0, later.1 + 1)
  }

  ghost predicate Recognised(kind: Kind, m: Octets) {
    m != [] && forall n :: 0 < n <= |m| ==> Classify(kind, m[..n]) == if n < |m| then Incomplete else Complete
  }

  lemma {:induction false} FiresAtTheEnd(kind: Kind, m: Octets, buf: Octets, pieces: seq<Octets>)
    requires Recognised(kind, m) && buf + Concat(pieces) == m && pieces != []
    requires forall i :: 0 <= i < |pieces| ==> pieces[i] != []
    ensures Fires(kind, buf, pieces) == (Complete, |pieces|)
    decreases |pieces|
  {
    hide Classify;
    var got := buf + pieces[0];
    assert got + Concat(pieces[1..]) == m;
    assert got == m[..|got|];
    if |pieces| > 1 {
      assert pieces[1] != [];
      assert Concat(pieces[1..]) == pieces[1] + Concat(pieces[2..]) by { ConcatTwo(pieces); }
      FiresAtTheEnd(kind, m, got, pieces[1..]);
    } else {
      assert Concat(pieces[1..]) == [];
    }
  }

  lemma ConcatTwo(pieces: seq<Octets>)
    requires |pieces| >= 2
    ensures Concat(pieces[1..]) == pieces[1] + Concat(pieces[2..])
  {
    assert pieces[1..][1..] == pieces[2..];
  }

  lemma RequestRecognised(args: seq<Bulk>)
    requires IsRequest(args)
    ensures Recognised(Request, ArrayBytes(args))
  {
    hide ClassifyRequest, ArrayBytes, IsRequest;
    var m := ArrayBytes(args);
    forall n | 0 < n <= |m| ensures Classify(Request, m[..n]) == if n < |m| then Incomplete else Complete {
      RequestExpected(args, m[..n]);
    }
  }

  /** A command of 1 to 1024 arguments of any bytes, however it is cut into pieces, is
      recognised exactly once: with its last piece. */
  lemma RequestFiresOnce(args: seq<Bulk>, pieces: seq<Octets>)
    requires IsRequest(args) && Concat(pieces) == ArrayBytes(args)
    requires forall i :: 0 <= i < |pieces| ==> pieces[i] != []
    ensures Fires(Request, [], pieces) == (Complete, |pieces|)
  {
    hide ClassifyRequest, ArrayBytes, IsRequest, Recognised, Fires;
    var m := ArrayBytes(args);
    RequestRecognised(args);
    assert [] + m == m;
    FiresAtTheEnd(Request, m, [], pieces);
  }

  lemma ReplyRecognised(r: Reply)
    requires IsReply(r)
    ensures Recognised(Reply, ReplyBytes(r))
  {
    hide ClassifyReply, ReplyBytes, IsReply;
    var m := ReplyBytes(r);
    forall n | 0 < n <= |m| ensures Classify(Reply, m[..n]) == if n < |m| then Incomplete else Complete {
      ReplyExpected(r, n);
    }
  }

  /** Likewise for every reply: status, error, integer, bulk, nil and multi-bulk. */
  lemma ReplyFiresOnce(r: Reply, pieces: seq<Octets>)
    requires IsReply(r) && Concat(pieces) == ReplyBytes(r)
    requires forall i :: 0 <= i < |pieces| ==> pieces[i] != []
    ensures Fires(Reply, [], pieces) == (Complete, |pieces|)
  {
    hide ClassifyReply, ReplyBytes, IsReply, Recognised, Fires;
    var m := ReplyBytes(r);
    ReplyRecognised(r);
    assert [] + m == m;
    FiresAtTheEnd(Reply, m, [], pieces);
  }

  /** Two commands sent back to back are not served: once both are there, they are
      refused. */
  lemma PipeliningIsRefused(args: seq<Bulk>, more: seq<Bulk>)
    requires IsRequest(args)
    ensures ClassifyRequest(ArrayBytes(args) + ArrayBytes(more)) == Wrong
  {
    hide ClassifyRequest, ArrayBytes;
    var bs := ArrayBytes(args) + ArrayBytes(more);
    assert bs[|bs| - 2] == ArrayBytes(more)[|ArrayBytes(more)| - 2];
    assert bs[|bs| - 1] == ArrayBytes(more)[|ArrayBytes(more)| - 1];
    RequestExpected(args, bs);
  }

  /** A multi-bulk reply whose count lies outside 0 to 1024 is refused as soon as its
      first line is there.  The null multi-bulk reply of the protocol is one of them. */
  lemma CountOutOfRange(num: Octets, v: int, rest: Octets)
    requires IsNumeral(num) && Atoi(num) == v && -INT_LIMIT <= v < INT_LIMIT && !(0 <= v <= 1024)
    requires EndsCrlf([STAR] + num + CRLF + rest)
    ensures ClassifyReply([STAR] + num + CRLF + rest) == Wrong
  {
    hide Number, IsNumeral, Atoi, Bulks;
    FirstNumber([STAR] + num + CRLF + rest, STAR, num, v, rest);
  }

  lemma NullMultiIsRefused()
    ensures ClassifyReply([STAR] + [MINUS, DIGIT_0 + 1] + CRLF + []) == Wrong
  {
    hide ClassifyReply;
    MinusOne();
    CountOutOfRange([MINUS, DIGIT_0 + 1], -1, []);
  }

  // ---------------------------------------------------------------- the exchange

  /** What read or write reports in one turn of a loop; a loop whose poll times out sees
      no further report.  `Late` is the check of the total time. */
  datatype Write = Wrote(n: nat) | Refused | WriteLate | WriteBroken

  datatype Read = Got(bytes: Octets) | NothingYet | ReadLate | ReadBroken

  datatype Attempt = Attempt(connected: bool, sends: seq<Write>, receives: seq<Read>)

  datatype Outcome = Done | Failed | Broken | Unknown

  ghost predicate Reads(rs: seq<Read>) {
    forall i :: 0 <= i < |rs| && rs[i].Got? ==> rs[i].bytes != []
  }

  /** -ERR: Connection error */
  const CONN_ERR: Octets :=
    [45, 69, 82, 82, 58, 32, 67, 111, 110, 110, 101, 99, 116, 105, 111, 110, 32, 101, 114, 114, 111, 114] + CRLF

  function WriteLoop(left: nat, ws: seq<Write>): Outcome {
    if ws == [] || ws[0].WriteLate? then Failed
    else if ws[0].WriteBroken? then Broken
    else if ws[0].Wrote? && 0 < ws[0].n then
      if ws[0].n >= left then Done else WriteLoop(left - ws[0].n, ws[1..])
    else WriteLoop(left, ws[1..])
  }

  function ReadLoop(wbuf: Octets, rs: seq<Read>): (Outcome, Octets)
    requires Reads(rs)
    decreases |rs|
  {
    if rs == [] || rs[0].ReadLate? then (Failed, wbuf)
    else if rs[0].ReadBroken? then (Broken, wbuf)
    else if rs[0].NothingYet? then ReadLoop(wbuf, rs[1..])
    else
      var got := wbuf + rs[0].bytes;
      match ClassifyReply(got)
      case Complete => (Done, got)
      case Incomplete => ReadLoop(got, rs[1..])
      case Wrong => (Failed, got)
      case _ => (Unknown, got)
  }

  /** The answer to the client after at most two attempts; none where C leaves the
      classification undefined. */
  function Answer(rlen: nat, tries: seq<Attempt>): Option<Octets>
    requires forall i :: 0 <= i < |tries| ==> Reads(tries[i].receives)
  {
    if tries == [] || !tries[0].connected then Some(CONN_ERR)
    else
      var w := WriteLoop(rlen, tries[0].sends);
      if w == Broken then Answer(rlen, tries[1..])
      else if w != Done then Some(CONN_ERR)
      else
        var r := ReadLoop([], tries[0].receives);
        match r.0
        case Done => Some(r.1)
        case Failed => Some(CONN_ERR)
        case Broken => Answer(rlen, tries[1..])
        case Unknown => None
  }

  /** What the reads deliver before a connection that breaks or the time that runs out. */
  function Heard(rs: seq<Read>): Octets {
    if rs == [] || rs[0].ReadLate? || rs[0].ReadBroken? then []
    else (if rs[0].Got? then rs[0].bytes else []) + Heard(rs[1..])
  }

  /** A reply of which only the beginning is heard never ends the loop well; heard as a
      whole, it does. */
  lemma {:induction false} LoopHears(wbuf: Octets, rs: seq<Read>, m: Octets)
    requires Reads(rs) && Recognised(Reply, m) && |wbuf| < |m| && wbuf + Heard(rs) <= m
    ensures var r := ReadLoop(wbuf, rs);
            && (r.0 == Done || r.0 == Failed || r.0 == Broken)
            && (r.0 == Done <==> wbuf + Heard(rs) == m)
            && (r.0 == Done ==> r.1 == m)
    decreases |rs|
  {
    hide ClassifyReply;
    if rs == [] || rs[0].ReadLate? || rs[0].ReadBroken? {
    } else if rs[0].NothingYet? {
      assert Heard(rs) == Heard(rs[1..]);
      LoopHears(wbuf, rs[1..], m);
    } else {
      var got := wbuf + rs[0].bytes;
      assert wbuf + Heard(rs) == got + Heard(rs[1..]);
      assert got == m[..|got|];
      assert Classify(Reply, got) == ClassifyReply(got);
      if |got| < |m| { LoopHears(got, rs[1..], m); }
    }
  }

  ghost predicate AllRead(tries: seq<Attempt>) {
    forall i :: 0 <= i < |tries| ==> Reads(tries[i].receives)
  }

  /** In each attempt the server sends the beginning, or all, of a reply. */
  ghost predicate HearsReplies(tries: seq<Attempt>, replies: seq<Reply>) {
    && |replies| == |tries|
    && forall i :: 0 <= i < |tries| ==>
         IsReply(replies[i]) && Heard(tries[i].receives) <= ReplyBytes(replies[i])
  }

  /** The connection error, or a reply that was heard as a whole. */
  ghost predicate IsAnswer(bs: Octets, tries: seq<Attempt>, replies: seq<Reply>)
    requires |replies| == |tries|
  {
    || bs == CONN_ERR
    || exists i :: 0 <= i < |tries| && Heard(tries[i].receives) == bs && bs == ReplyBytes(replies[i])
  }

  /** Wherever a server that speaks the protocol is broken off, in both attempts: the
      client gets one of its replies, whole and alone, or the connection error. */
  lemma {:induction false} AnswerIsOneReply(rlen: nat, tries: seq<Attempt>, replies: seq<Reply>)
    requires AllRead(tries) && HearsReplies(tries, replies)
    ensures Answer(rlen, tries).Some? && IsAnswer(Answer(rlen, tries).value, tries, replies)
    decreases |tries|
  {
    hide ReplyBytes, IsReply, ReadLoop, Heard, WriteLoop, Recognised;
    if tries == [] {
    } else {
      ReplyRecognised(replies[0]);
      var heard := Heard(tries[0].receives);
      assert [] + heard == heard;
      assert heard <= ReplyBytes(replies[0]);
      LoopHears([], tries[0].receives, ReplyBytes(replies[0]));
      HearsRest(tries, replies);
      AnswerIsOneReply(rlen, tries[1..], replies[1..]);
      var later := Answer(rlen, tries[1..]).value;
      assert IsAnswer(later, tries, replies) by { LaterAnswer(later, tries, replies); }
    }
  }

  lemma HearsRest(tries: seq<Attempt>, replies: seq<Reply>)
    requires AllRead(tries) && HearsReplies(tries, replies) && tries != []
    ensures AllRead(tries[1..]) && HearsReplies(tries[1..], replies[1..])
  {
    hide IsReply, ReplyBytes, Heard, Reads;
  }

  lemma LaterAnswer(bs: Octets, tries: seq<Attempt>, replies: seq<Reply>)
    requires |replies| == |tries| > 0 && IsAnswer(bs, tries[1..], replies[1..])
    ensures IsAnswer(bs, tries, replies)
  {
    hide ReplyBytes, Heard;
    if bs != CONN_ERR {
      var i :| 0 <= i < |tries[1..]| && Heard(tries[1..][i].receives) == bs && bs == ReplyBytes(replies[1..][i]);
      assert Heard(tries[i + 1].receives) == bs == ReplyBytes(replies[i + 1]);
    }
  }

  lemma {:induction false} ReadLoopIsComplete(wbuf: Octets, rs: seq<Read>)
    requires Reads(rs)
    ensures var r := ReadLoop(wbuf, rs); r.0 == Done ==> r.1 != [] && ClassifyReply(r.1) == Complete
    decreases |rs|
  {
    hide ClassifyReply;
    if rs == [] {
    } else {
      ReadLoopIsComplete(wbuf, rs[1..]);
      if rs[0].Got? { ReadLoopIsComplete(wbuf + rs[0].bytes, rs[1..]); }
    }
  }

  lemma ConnErrIsComplete()
    ensures ClassifyReply(CONN_ERR) == Complete
  {
    var text := CONN_ERR[1..22];
    assert CONN_ERR == [MINUS] + text + CRLF;
    LineCompleteIff(MINUS, text);
  }

  /** Whatever a server sends that does not keep to the protocol, the client is answered
      with bytes that are taken for a reply; RespAccepted.CompleteIff says which these are. */
  lemma {:induction false} AnswerIsTaken(rlen: nat, tries: seq<Attempt>)
    requires AllRead(tries) && Answer(rlen, tries).Some?
    ensures Answer(rlen, tries).value != [] && IsTaken(Answer(rlen, tries).value)
    decreases |tries|
  {
    hide ClassifyReply, ReadLoop, IsTaken;
    ConnErrIsComplete();
    CompleteIff(CONN_ERR);
    if tries == [] {
    } else {
      ReadLoopIsComplete([], tries[0].receives);
      var r := ReadLoop([], tries[0].receives);
      if r.0 == Done { CompleteIff(r.1); }
      if Answer(rlen, tries) == Answer(rlen, tries[1..]) { AnswerIsTaken(rlen, tries[1..]); }
    }
  }

  /** The bytes that the reads deliver. */
  function Delivered(rs: seq<Read>): (pieces: seq<Octets>)
    requires Reads(rs)
    ensures forall i :: 0 <= i < |pieces| ==> pieces[i] != []
  {
    if rs == [] then [] else (if rs[0].Got? then [rs[0].bytes] else []) + Delivered(rs[1..])
  }

  lemma {:induction false} ReadLoopFires(wbuf: Octets, rs: seq<Read>, more: seq<Read>)
    requires Reads(rs) && Reads(more) && forall i :: 0 <= i < |rs| ==> rs[i].Got? || rs[i].NothingYet?
    requires Fires(Reply, wbuf, Delivered(rs)) == (Complete, |Delivered(rs)|) && rs != []
    requires rs[|rs| - 1].Got?
    ensures ReadLoop(wbuf, rs + more) == (Done, wbuf + Concat(Delivered(rs)))
    decreases |rs|
  {
    hide ClassifyReply;
    assert (rs + more)[1..] == rs[1..] + more && (rs + more)[0] == rs[0];
    if rs[0].NothingYet? {
      assert Delivered(rs) == Delivered(rs[1..]);
      ReadLoopFires(wbuf, rs[1..], more);
    } else {
      var got := wbuf + rs[0].bytes;
      assert Delivered(rs)[0] == rs[0].bytes && Delivered(rs)[1..] == Delivered(rs[1..]);
      assert wbuf + Concat(Delivered(rs)) == got + Concat(Delivered(rs[1..]));
      if ClassifyReply(got) == Incomplete {
        ReadLoopFires(got, rs[1..], more);
      } else {
        assert Delivered(rs) == [rs[0].bytes];
        assert Concat(Delivered(rs)[1..]) == [] && got + [] == got;
      }
    }
  }

  // ---------------------------------------------------------------- in terms of the reports

  /** The first n reports neither break the connection nor come too late. */
  predicate GoesOn(ws: seq<Write>, n: nat) {
    n <= |ws| && forall i :: 0 <= i < n ==> ws[i].Wrote? || ws[i].Refused?
  }

  function Written(ws: seq<Write>): nat {
    if ws == [] then 0 else (if ws[0].Wrote? then ws[0].n else 0) + Written(ws[1..])
  }

  /** A report by which so much is written. */
  predicate SentAt(rlen: nat, ws: seq<Write>, i: nat) {
    GoesOn(ws, i + 1) && ws[i].Wrote? && ws[i].n > 0 && Written(ws[..i + 1]) >= rlen
  }

  ghost predicate IsSent(rlen: nat, ws: seq<Write>) {
    exists i: nat :: SentAt(rlen, ws, i)
  }

  ghost predicate SendBreaksAt(rlen: nat, ws: seq<Write>, i: nat) {
    i < |ws| && ws[i].WriteBroken? && GoesOn(ws, i) && forall k: nat :: k < i ==> !SentAt(rlen, ws, k)
  }

  ghost predicate SendBreaks(rlen: nat, ws: seq<Write>) {
    exists i: nat :: SendBreaksAt(rlen, ws, i)
  }

  lemma SentLater(rlen: nat, ws: seq<Write>, i: nat)
    requires ws != [] && (ws[0].Wrote? || ws[0].Refused?)
    ensures var n := if ws[0].Wrote? then ws[0].n else 0;
            n < rlen || n == 0 ==>
              (SentAt(rlen, ws, i) <==> i > 0 && SentAt(if n < rlen then rlen - n else 0, ws[1..], i - 1))
  {
    if i > 0 && i < |ws| {
      assert ws[..i + 1][1..] == ws[1..][..i];
      assert GoesOn(ws, i + 1) <==> GoesOn(ws[1..], i) by {
        assert forall k :: 0 <= k < i ==> ws[1..][k] == ws[k + 1];
        assert forall k :: 0 < k < i + 1 ==> ws[k] == ws[1..][k - 1];
      }
    } else if i == 0 {
      assert ws[..1][1..] == [] && ws[..i + 1] == ws[..1];
      assert Written(ws[..1]) == if ws[0].Wrote? then ws[0].n else 0;
    }
  }

  /** A report that ends nothing: the later ones decide. */
  lemma SentRest(rlen: nat, ws: seq<Write>)
    requires ws != [] && (ws[0].Refused? || (ws[0].Wrote? && (ws[0].n == 0 || ws[0].n < rlen)))
    ensures var left := rlen - if ws[0].Wrote? then ws[0].n else 0;
            && (IsSent(rlen, ws) <==> IsSent(left, ws[1..]))
            && (SendBreaks(rlen, ws) <==> SendBreaks(left, ws[1..]))
  {
    hide SentAt;
    var left: nat := rlen - if ws[0].Wrote? then ws[0].n else 0;
    forall i: nat ensures SentAt(rlen, ws, i) <==> i > 0 && SentAt(left, ws[1..], i - 1) { SentLater(rlen, ws, i); }
    forall i: nat | SentAt(left, ws[1..], i) ensures IsSent(rlen, ws) { assert SentAt(rlen, ws, i + 1); }
    forall i: nat | SendBreaksAt(rlen, ws, i) ensures SendBreaksAt(left, ws[1..], i - 1) {
      forall k: nat | k < i - 1 ensures !SentAt(left, ws[1..], k) { assert !SentAt(rlen, ws, k + 1); }
    }
    forall i: nat | SendBreaksAt(left, ws[1..], i) ensures SendBreaksAt(rlen, ws, i + 1) {
      forall k: nat | k < i + 1 ensures !SentAt(rlen, ws, k) { if k > 0 { assert !SentAt(left, ws[1..], k - 1); } }
      forall k | 0 <= k < i + 1 ensures ws[k].Wrote? || ws[k].Refused? { if k > 0 { assert ws[k] == ws[1..][k - 1]; } }
    }
  }

  /** The write loop ends well exactly when all is written, asks for another attempt exactly
      when the connection breaks before, and fails otherwise. */
  lemma {:induction false} WriteLoopIs(rlen: nat, ws: seq<Write>)
    ensures WriteLoop(rlen, ws) == Done <==> IsSent(rlen, ws)
    ensures WriteLoop(rlen, ws) == Broken <==> SendBreaks(rlen, ws)
    ensures WriteLoop(rlen, ws) != Unknown
    decreases |ws|
  {
    hide IsSent, SendBreaks;
    if ws == [] || ws[0].WriteLate? || ws[0].WriteBroken? || (ws[0].Wrote? && ws[0].n > 0 && ws[0].n >= rlen) {
      WriteEnds(rlen, ws);
    } else {
      SentRest(rlen, ws);
      WriteLoopIs(rlen - if ws[0].Wrote? then ws[0].n else 0, ws[1..]);
    }
  }

  lemma WriteEnds(rlen: nat, ws: seq<Write>)
    requires ws == [] || ws[0].WriteLate? || ws[0].WriteBroken? || (ws[0].Wrote? && ws[0].n > 0 && ws[0].n >= rlen)
    ensures IsSent(rlen, ws) <==> ws != [] && ws[0].Wrote?
    ensures SendBreaks(rlen, ws) <==> ws != [] && ws[0].WriteBroken?
  {
    if ws != [] && ws[0].Wrote? {
      assert Written(ws[..1]) == ws[0].n by { assert ws[..1][1..] == []; }
      assert SentAt(rlen, ws, 0);
    }
    if ws != [] && ws[0].WriteBroken? { assert SendBreaksAt(rlen, ws, 0); }
  }

  /** What the reads deliver, piece by piece, before a connection that breaks or the time
      that runs out; and which of the two it is. */
  function Pieces(rs: seq<Read>): (pieces: seq<Octets>)
    requires Reads(rs)
    ensures forall i :: 0 <= i < |pieces| ==> pieces[i] != []
  {
    if rs == [] || rs[0].ReadLate? || rs[0].ReadBroken? then []
    else (if rs[0].Got? then [rs[0].bytes] else []) + Pieces(rs[1..])
  }

  ghost predicate HearBreaks(rs: seq<Read>) {
    exists i :: 0 <= i < |rs| && rs[i].ReadBroken? && forall j :: 0 <= j < i ==> rs[j].Got? || rs[j].NothingYet?
  }

  lemma HearBreaksFirst(rs: seq<Read>)
    requires rs != []
    ensures HearBreaks(rs) <==> rs[0].ReadBroken? || (!rs[0].ReadLate? && HearBreaks(rs[1..]))
  {
    if !rs[0].ReadBroken? && !rs[0].ReadLate? && HearBreaks(rs[1..]) {
      var i :| 0 <= i < |rs[1..]| && rs[1..][i].ReadBroken?
               && forall j :: 0 <= j < i ==> rs[1..][j].Got? || rs[1..][j].NothingYet?;
      assert rs[i + 1].ReadBroken?;
      forall j | 0 <= j < i + 1 ensures rs[j].Got? || rs[j].NothingYet? { if j > 0 { assert rs[j] == rs[1..][j - 1]; } }
    }
    if !rs[0].ReadBroken? && HearBreaks(rs) {
      var i :| 0 <= i < |rs| && rs[i].ReadBroken? && forall j :: 0 <= j < i ==> rs[j].Got? || rs[j].NothingYet?;
      assert rs[1..][i - 1].ReadBroken?;
    }
  }

  function VerdictOn(bs: Octets): Verdict { if bs == [] then Incomplete else ClassifyReply(bs) }

  /** With the k-th piece, and with no piece before, the verdict is out. */
  ghost predicate DecidedAt(buf: Octets, pieces: seq<Octets>, k: nat, v: Verdict) {
    && 0 < k <= |pieces| && v != Incomplete && VerdictOn(buf + Concat(pieces[..k])) == v
    && forall j :: 0 < j < k ==> VerdictOn(buf + Concat(pieces[..j])) == Incomplete
  }

  ghost predicate Undecided(buf: Octets, pieces: seq<Octets>) {
    forall j :: 0 < j <= |pieces| ==> VerdictOn(buf + Concat(pieces[..j])) == Incomplete
  }

  lemma PiecesJoin(buf: Octets, pieces: seq<Octets>, j: nat)
    requires 0 < j <= |pieces|
    ensures buf + Concat(pieces[..j]) == (buf + pieces[0]) + Concat(pieces[1..][..j - 1])
  {
    assert pieces[..j][1..] == pieces[1..][..j - 1];
  }

  /** A piece that decides nothing joins the buffer. */
  lemma DecidedLater(buf: Octets, pieces: seq<Octets>, k: nat, v: Verdict)
    requires pieces != [] && VerdictOn(buf + pieces[0]) == Incomplete
    ensures DecidedAt(buf, pieces, k, v) <==> k > 1 && DecidedAt(buf + pieces[0], pieces[1..], k - 1, v)
  {
    hide VerdictOn, Concat;
    ConcatOne(pieces);
    if 0 < k <= |pieces| {
      forall j | 0 < j <= k
        ensures buf + Concat(pieces[..j]) == (buf + pieces[0]) + Concat(pieces[1..][..j - 1])
      {
        PiecesJoin(buf, pieces, j);
      }
      if k > 1 && DecidedAt(buf, pieces, k, v) {
        forall j | 0 < j < k - 1 ensures VerdictOn((buf + pieces[0]) + Concat(pieces[1..][..j])) == Incomplete {
          assert VerdictOn(buf + Concat(pieces[..j + 1])) == Incomplete;
        }
      }
    }
  }

  lemma ConcatOne(pieces: seq<Octets>)
    requires pieces != []
    ensures Concat(pieces[..1]) == pieces[0]
  {
    assert pieces[..1][1..] == [] && pieces[0] + [] == pieces[0];
  }

  lemma UndecidedLater(buf: Octets, pieces: seq<Octets>)
    requires pieces != []
    ensures Undecided(buf, pieces)
            <==> VerdictOn(buf + pieces[0]) == Incomplete && Undecided(buf + pieces[0], pieces[1..])
  {
    hide VerdictOn, Concat;
    ConcatOne(pieces);
    forall j | 0 < j <= |pieces|
      ensures buf + Concat(pieces[..j]) == (buf + pieces[0]) + Concat(pieces[1..][..j - 1])
    {
      PiecesJoin(buf, pieces, j);
    }
    if Undecided(buf, pieces) {
      forall j | 0 < j <= |pieces[1..]| ensures VerdictOn((buf + pieces[0]) + Concat(pieces[1..][..j])) == Incomplete {
        assert VerdictOn(buf + Concat(pieces[..j + 1])) == Incomplete;
      }
    }
    if VerdictOn(buf + pieces[0]) == Incomplete && Undecided(buf + pieces[0], pieces[1..]) {
      forall j | 0 < j <= |pieces| ensures VerdictOn(buf + Concat(pieces[..j])) == Incomplete {
        if j > 1 { assert VerdictOn((buf + pieces[0]) + Concat(pieces[1..][..j - 1])) == Incomplete; }
      }
    }
  }

  function OutcomeOf(v: Verdict): Outcome {
    if v == Complete then Done else if v == Wrong then Failed else Unknown
  }

  /** The read loop ends with the first verdict, good or bad; without one it asks for another
      attempt if the connection breaks, and else fails. */
  lemma {:induction false} ReadLoopIs(buf: Octets, rs: seq<Read>)
    requires Reads(rs)
    ensures forall k: nat, v :: DecidedAt(buf, Pieces(rs), k, v) ==>
              ReadLoop(buf, rs) == (OutcomeOf(v), buf + Concat(Pieces(rs)[..k]))
    ensures Undecided(buf, Pieces(rs)) ==> ReadLoop(buf, rs).0 == if HearBreaks(rs) then Broken else Failed
    decreases |rs|
  {
    hide ClassifyReply, DecidedAt, Undecided, HearBreaks, OutcomeOf;
    if rs == [] || rs[0].ReadLate? || rs[0].ReadBroken? {
      NothingHeard(buf, rs);
    } else if rs[0].NothingYet? {
      HearBreaksFirst(rs);
      assert Pieces(rs) == Pieces(rs[1..]);
      ReadLoopIs(buf, rs[1..]);
    } else {
      HearBreaksFirst(rs);
      var got, pieces := buf + rs[0].bytes, Pieces(rs);
      assert pieces[0] == rs[0].bytes && pieces[1..] == Pieces(rs[1..]);
      UndecidedLater(buf, pieces);
      if ClassifyReply(got) == Incomplete {
        ReadLoopIs(got, rs[1..]);
        forall k: nat, v | DecidedAt(buf, pieces, k, v)
          ensures 0 < k <= |pieces| && ReadLoop(buf, rs) == (OutcomeOf(v), buf + Concat(pieces[..k]))
        {
          DecidedBounds(buf, pieces, k, v);
          DecidedLater(buf, pieces, k, v);
          PiecesJoin(buf, pieces, k);
        }
      } else {
        forall k: nat, v | DecidedAt(buf, pieces, k, v) ensures k == 1 && v == ClassifyReply(got) {
          DecidedFirst(buf, pieces, k, v);
        }
        ConcatOne(pieces);
        assert OutcomeOf(ClassifyReply(got)) == ReadLoop(buf, rs).0 by { OutcomeIs(ClassifyReply(got)); }
      }
    }
  }

  lemma OutcomeIs(v: Verdict)
    ensures OutcomeOf(v) == match v case Complete => Done case Wrong => Failed case _ => Unknown
  {}

  lemma DecidedBounds(buf: Octets, pieces: seq<Octets>, k: nat, v: Verdict)
    requires DecidedAt(buf, pieces, k, v)
    ensures 0 < k <= |pieces|
  {}

  lemma DecidedFirst(buf: Octets, pieces: seq<Octets>, k: nat, v: Verdict)
    requires DecidedAt(buf, pieces, k, v) && pieces[0] != [] && ClassifyReply(buf + pieces[0]) != Incomplete
    ensures k == 1 && v == ClassifyReply(buf + pieces[0])
  {
    hide ClassifyReply;
    ConcatOne(pieces);
    assert VerdictOn(buf + Concat(pieces[..1])) != Incomplete;
  }

  lemma NothingHeard(buf: Octets, rs: seq<Read>)
    requires Reads(rs) && (rs == [] || rs[0].ReadLate? || rs[0].ReadBroken?)
    ensures Pieces(rs) == [] && forall k: nat, v :: !DecidedAt(buf, [], k, v)
    ensures HearBreaks(rs) <==> rs != [] && rs[0].ReadBroken?
  {}

  /** An attempt that ends with these bytes: all is sent, and with some piece they are there
      as a complete reply, and with no piece before. */
  ghost predicate Answers(rlen: nat, t: Attempt, bs: Octets)
    requires Reads(t.receives)
  {
    && t.connected && IsSent(rlen, t.sends)
    && exists k: nat :: DecidedAt([], Pieces(t.receives), k, Complete) && bs == Concat(Pieces(t.receives)[..k])
  }

  ghost predicate HasAnswer(rlen: nat, t: Attempt)
    requires Reads(t.receives)
  {
    exists bs :: Answers(rlen, t, bs)
  }

  /** An attempt whose connection breaks, before all is sent or before there is a verdict. */
  ghost predicate Breaks(rlen: nat, t: Attempt)
    requires Reads(t.receives)
  {
    && t.connected
    && (SendBreaks(rlen, t.sends)
        || (IsSent(rlen, t.sends) && Undecided([], Pieces(t.receives)) && HearBreaks(t.receives)))
  }

  /** An attempt that hears bytes for which C leaves the verdict undefined. */
  ghost predicate IsUnclear(rlen: nat, t: Attempt)
    requires Reads(t.receives)
  {
    && t.connected && IsSent(rlen, t.sends)
    && exists k: nat, v :: DecidedAt([], Pieces(t.receives), k, v) && v != Complete && v != Wrong
  }

  lemma NoneOrOne(pieces: seq<Octets>) returns (k: nat, v: Verdict)
    ensures Undecided([], pieces) || DecidedAt([], pieces, k, v)
  {
    hide VerdictOn, Concat;
    k, v := 0, Wrong;
    while k < |pieces|
      invariant k <= |pieces| && forall j :: 0 < j <= k ==> VerdictOn([] + Concat(pieces[..j])) == Incomplete
    {
      k := k + 1;
      v := VerdictOn([] + Concat(pieces[..k]));
      if v != Incomplete { return; }
    }
  }

  /** One attempt, whatever its reports: it ends with an answer, or breaks, or is unclear, or
      fails; and only if it breaks the next one is made. */
  lemma AttemptIs(rlen: nat, tries: seq<Attempt>)
    requires AllRead(tries) && tries != []
    ensures forall bs :: Answers(rlen, tries[0], bs) ==> Answer(rlen, tries) == Some(bs)
    ensures Breaks(rlen, tries[0]) ==> Answer(rlen, tries) == Answer(rlen, tries[1..])
    ensures IsUnclear(rlen, tries[0]) ==> Answer(rlen, tries) == None
    ensures !HasAnswer(rlen, tries[0]) && !Breaks(rlen, tries[0]) && !IsUnclear(rlen, tries[0]) ==>
              Answer(rlen, tries) == Some(CONN_ERR)
  {
    hide WriteLoop, ReadLoop, DecidedAt, Undecided, IsSent, SendBreaks, HearBreaks, Pieces, Concat;
    var t := tries[0];
    WriteLoopIs(rlen, t.sends);
    ReadLoopIs([], t.receives);
    var pieces := Pieces(t.receives);
    var k, v := NoneOrOne(pieces);
    if t.connected && IsSent(rlen, t.sends) && !Undecided([], pieces) {
      DecidedBounds([], pieces, k, v);
      if v == Complete { assert Answers(rlen, t, Concat(pieces[..k])); }
    }
    forall bs: Octets ensures [] + bs == bs {}
  }

  /** The exchange, for any server: the answer is that of the first attempt; or, if that
      breaks, that of the second; or the connection error, if neither has one. */
  lemma ExchangeIff(rlen: nat, a: Attempt, b: Attempt, bs: Octets)
    requires Reads(a.receives) && Reads(b.receives)
    ensures Answer(rlen, [a, b]) == Some(bs) <==>
            || Answers(rlen, a, bs)
            || (Breaks(rlen, a) && Answers(rlen, b, bs))
            || (bs == CONN_ERR && HasNone(rlen, a) && (Breaks(rlen, a) ==> HasNone(rlen, b)))
    ensures Answer(rlen, [a, b]) == None <==> IsUnclear(rlen, a) || (Breaks(rlen, a) && IsUnclear(rlen, b))
  {
    hide Answers, Breaks, IsUnclear, Answer;
    var tries := [a, b];
    AttemptIs(rlen, tries);
    assert tries[1..] == [b] && [b][1..] == [];
    AttemptIs(rlen, [b]);
    NoAttemptLeft(rlen);
  }

  ghost predicate HasNone(rlen: nat, t: Attempt)
    requires Reads(t.receives)
  {
    !HasAnswer(rlen, t) && !IsUnclear(rlen, t)
  }

  lemma NoAttemptLeft(rlen: nat)
    ensures Answer(rlen, []) == Some(CONN_ERR)
  {}

  lemma {:induction false} HeardIsPieces(rs: seq<Read>)
    requires Reads(rs)
    ensures Heard(rs) == Concat(Pieces(rs))
  {
    if rs == [] || rs[0].ReadLate? || rs[0].ReadBroken? {
    } else {
      HeardIsPieces(rs[1..]);
      if rs[0].Got? {
        assert Pieces(rs)[1..] == Pieces(rs[1..]);
      } else {
        assert Pieces(rs) == Pieces(rs[1..]);
      }
    }
  }

  lemma {:induction false} ConcatFront(pieces: seq<Octets>, j: nat)
    requires j <= |pieces| && forall i :: 0 <= i < |pieces| ==> pieces[i] != []
    ensures Concat(pieces[..j]) <= Concat(pieces)
    ensures |Concat(pieces[..j])| == |Concat(pieces)| <==> j == |pieces|
    ensures j > 0 ==> Concat(pieces[..j]) != []
  {
    if j == 0 {
      assert pieces[..0] == [];
      if pieces != [] { assert pieces[0] != []; }
    } else {
      assert pieces[..j][1..] == pieces[1..][..j - 1] && pieces[0] != [];
      ConcatFront(pieces[1..], j - 1);
    }
  }

  /** Of a reply cut in any pieces only the last decides, and of its beginning none. */
  lemma ReplyDecides(r: Reply, rs: seq<Read>)
    requires IsReply(r) && Reads(rs) && Heard(rs) <= ReplyBytes(r)
    ensures Heard(rs) == ReplyBytes(r) ==> DecidedAt([], Pieces(rs), |Pieces(rs)|, Complete)
    ensures Heard(rs) != ReplyBytes(r) ==> Undecided([], Pieces(rs))
  {
    hide ReplyBytes, IsReply, ClassifyReply, Pieces, Heard, Concat;
    var m, pieces := ReplyBytes(r), Pieces(rs);
    ReplyRecognised(r);
    HeardIsPieces(rs);
    forall j | 0 < j <= |pieces|
      ensures VerdictOn([] + Concat(pieces[..j])) == if j == |pieces| && Heard(rs) == m then Complete else Incomplete
    {
      var front := Concat(pieces[..j]);
      ConcatFront(pieces, j);
      assert [] + front == front == m[..|front|];
      assert Classify(Reply, m[..|front|]) == ClassifyReply(front);
      if j == |pieces| { assert pieces[..j] == pieces; }
    }
    if Heard(rs) == m { assert pieces != [] by { NothingConcat(pieces); } }
  }

  lemma NothingConcat(pieces: seq<Octets>)
    ensures pieces == [] ==> Concat(pieces) == []
  {}

  /** The first connection breaks, in a write before all is written, or in a read before the
      reply is whole; the second attempt is sent and hears a whole reply: that is the answer. */
  lemma SecondAttemptAnswers(rlen: nat, a: Attempt, b: Attempt, first: Reply, r: Reply)
    requires Reads(a.receives) && Reads(b.receives) && IsReply(first) && IsReply(r)
    requires a.connected && b.connected
    requires SendBreaks(rlen, a.sends)
             || (IsSent(rlen, a.sends) && Heard(a.receives) < ReplyBytes(first) && HearBreaks(a.receives))
    requires IsSent(rlen, b.sends) && Heard(b.receives) == ReplyBytes(r)
    ensures Answer(rlen, [a, b]) == Some(ReplyBytes(r))
  {
    hide ReplyBytes, IsReply, IsSent, SendBreaks, HearBreaks, DecidedAt, Undecided, Answer, Pieces;
    if !SendBreaks(rlen, a.sends) { ReplyDecides(first, a.receives); }
    WholeAnswers(rlen, b, r);
    ExchangeIff(rlen, a, b, ReplyBytes(r));
  }

  lemma WholeAnswers(rlen: nat, t: Attempt, r: Reply)
    requires Reads(t.receives) && IsReply(r) && t.connected && IsSent(rlen, t.sends)
    requires Heard(t.receives) == ReplyBytes(r)
    ensures Answers(rlen, t, ReplyBytes(r))
  {
    hide ReplyBytes, IsReply, IsSent, DecidedAt, Undecided, Concat;
    ReplyDecides(r, t.receives);
    HeardIsPieces(t.receives);
    var pieces := Pieces(t.receives);
    assert pieces[..|pieces|] == pieces;
  }

  /** The reply of the server, arriving in any pieces with any pauses before its last one,
      is what the client gets; what may follow it is not read. */
  lemma {:induction false} ReplyReachesClient(rlen: nat, ws: seq<Write>, rs: seq<Read>, more: seq<Read>,
                                              later: seq<Attempt>, r: Reply)
    requires IsSent(rlen, ws) && IsReply(r)
    requires Reads(rs) && Reads(more) && forall i :: 0 <= i < |later| ==> Reads(later[i].receives)
    requires forall i :: 0 <= i < |rs| ==> rs[i].Got? || rs[i].NothingYet?
    requires Concat(Delivered(rs)) == ReplyBytes(r) && rs != [] && rs[|rs| - 1].Got?
    ensures Answer(rlen, [Attempt(true, ws, rs + more)] + later) == Some(ReplyBytes(r))
  {
    hide WriteLoop, ReadLoop, Fires, Delivered, ReplyBytes, IsReply, IsSent;
    WriteLoopIs(rlen, ws);
    ReplyFiresOnce(r, Delivered(rs));
    ReadLoopFires([], rs, more);
    assert [] + ReplyBytes(r) == ReplyBytes(r);
  }

  class RedisClient {
    const rlen: nat
    var wbuf: Octets

    constructor (rlen: nat)
      ensures this.rlen == rlen && wbuf == []
    {
      this.rlen, wbuf := rlen, [];
    }

    method SendRequest(ws: seq<Write>) returns (err: Outcome)
      ensures err == WriteLoop(rlen, ws)
      ensures err == Done <==> IsSent(rlen, ws)
      ensures err == Broken <==> SendBreaks(rlen, ws)
    {
      hide IsSent, SendBreaks;
      WriteLoopIs(rlen, ws);
      var nwrite, k := 0, 0;
      err := Failed;
      while k < |ws|
        invariant k <= |ws| && nwrite <= rlen
        invariant WriteLoop(rlen, ws) == WriteLoop(rlen - nwrite, ws[k..])
      {
        var w := ws[k];
        assert ws[k..][1..] == ws[k + 1..];
        if w.WriteLate? { return Failed; }
        if w.WriteBroken? { return Broken; }
        if w.Wrote? && w.n > 0 {
          if nwrite + w.n >= rlen { return Done; }
          nwrite := nwrite + w.n;
        }
        k := k + 1;
      }
    }

    method ReceiveReply(rs: seq<Read>) returns (err: Outcome)
      requires Reads(rs)
      modifies this
      ensures (err, wbuf) == ReadLoop(old(wbuf), rs)
      ensures forall k: nat, v :: DecidedAt(old(wbuf), Pieces(rs), k, v) ==>
                err == OutcomeOf(v) && wbuf == old(wbuf) + Concat(Pieces(rs)[..k])
      ensures Undecided(old(wbuf), Pieces(rs)) ==> err == if HearBreaks(rs) then Broken else Failed
    {
      hide ClassifyReply, DecidedAt, Undecided, HearBreaks, OutcomeOf, Pieces;
      ReadLoopIs(wbuf, rs);
      var k := 0;
      err := Failed;
      while k < |rs|
        invariant k <= |rs|
        invariant ReadLoop(old(wbuf), rs) == ReadLoop(wbuf, rs[k..])
      {
        var r := rs[k];
        assert rs[k..][1..] == rs[k + 1..];
        if r.ReadLate? { return Failed; }
        if r.ReadBroken? { return Broken; }
        if r.Got? {
          wbuf := wbuf + r.bytes;
          var v := ProcessResponseBuffer(wbuf);
          if v == Complete { return Done; }
          if v == Wrong { return Failed; }
          if v != Incomplete { return Unknown; }
        }
        k := k + 1;
      }
    }

    method SetClientError()
      modifies this
      ensures wbuf == CONN_ERR
    {
      wbuf := CONN_ERR;
    }

    /** The exchange with the server: a connection that breaks is tried once more, with
        an empty buffer. */
    method RedisCommandProc(tries: seq<Attempt>)
      requires |tries| == 2 && AllRead(tries)
      requires wbuf == [] && Answer(rlen, tries).Some?
      modifies this
      ensures Some(wbuf) == Answer(rlen, tries)
      ensures forall replies :: HearsReplies(tries, replies) ==> IsAnswer(wbuf, tries, replies)
      ensures wbuf != [] && IsTaken(wbuf)
      ensures || Answers(rlen, tries[0], wbuf)
              || (Breaks(rlen, tries[0]) && Answers(rlen, tries[1], wbuf))
              || (wbuf == CONN_ERR && HasNone(rlen, tries[0]) && (Breaks(rlen, tries[0]) ==> HasNone(rlen, tries[1])))
    {
      hide WriteLoop, ReadLoop, ClassifyReply, IsTaken, IsAnswer, IsReply, ReplyBytes, Heard, Answers, Breaks, HasNone;
      assert tries == [tries[0], tries[1]];
      ExchangeIff(rlen, tries[0], tries[1], Answer(rlen, tries).value);
      AnswerIsTaken(rlen, tries);
      forall replies | HearsReplies(tries, replies) ensures IsAnswer(Answer(rlen, tries).value, tries, replies) {
        AnswerIsOneReply(rlen, tries, replies);
      }
      assert Answer(rlen, []) == Some(CONN_ERR);
      var ntry := 0;
      while true
        invariant ntry <= 1 && wbuf == [] && Answer(rlen, tries) == Answer(rlen, tries[ntry..])
        decreases 2 - ntry
      {
        assert tries[ntry..][1..] == tries[ntry + 1..];
        var attempt := tries[ntry];
        ntry := ntry + 1;
        if !attempt.connected { SetClientError(); return; }
        var err := SendRequest(attempt.sends);
        if err == Done { err := ReceiveReply(attempt.receives); }
        if err == Done { return; }
        if err != Broken || ntry == 2 { SetClientError(); return; }
        wbuf := [];
      }
    }
  }
}

/** Exactly which bytes the proxy takes for a full and valid command (redis-proxy/echo.c),
    and which of them are encodings of commands. */
module RespCommands {
  import opened Bytes
  import opened Options
  import opened Ascii
  import opened Resp
  import opened RespAccepted

  ghost predicate IsCommandBytes(bs: Octets) {
    exists args :: IsRequest(args) && ArrayBytes(args) == bs
  }

  /** A line of the old protocol: any bytes that do not begin like an array, other than
      "quit" and "exit". */
  predicate IsOldLine(bs: Octets) {
    bs != [] && bs[0] != STAR && !InlineIs(bs, QUIT_LINE) && !InlineIs(bs, EXIT_LINE)
  }

  ghost predicate IsRequestWalk(bs: Octets, num: Octets, cs: seq<int>) {
    IsMultiWalk(bs, num, cs) && |cs| > 1
  }

  lemma ArrayFirst(bs: Octets)
    requires bs != [] && bs[0] == STAR
    ensures ClassifyRequest(bs) == Complete <==> EndsCrlf(bs) && exists num, cs :: IsRequestWalk(bs, num, cs)
  {
    hide Number, IsLengthText, Atoi, Bulks, LineAt, ClassifyInline;
    if ClassifyRequest(bs) == Complete {
      var num := NumberText(bs, 1);
      var cs := BulksWalk(bs, 3 + |num|, Atoi(num));
      assert IsRequestWalk(bs, num, cs);
    }
    if EndsCrlf(bs) && exists num, cs :: IsRequestWalk(bs, num, cs) {
      var num, cs :| IsRequestWalk(bs, num, cs);
      TextNumber(bs, 1, num);
      WalkIsComplete(bs, cs);
      assert Leads(bs, cs[0], cs[1]);
    }
  }

  /** Which bytes are taken for a full and valid command: exactly these. */
  lemma RequestCompleteIff(bs: Octets)
    ensures ClassifyRequest(bs) == Complete <==>
            EndsCrlf(bs) && (IsOldLine(bs) || exists num, cs :: IsRequestWalk(bs, num, cs))
  {
    hide Number, Bulks, InlineIs, IsWalk, LineAt, IsLengthText;
    if bs != [] && bs[0] == STAR { ArrayFirst(bs); }
  }

  /** A command that is no old line is taken just when a reply with the same bytes is,
      unless it has no arguments. */
  lemma SameLoop(bs: Octets)
    requires bs != [] && bs[0] == STAR
    ensures ClassifyRequest(bs) == Complete <==>
            ClassifyReply(bs) == Complete && !exists num :: IsLooseMulti(bs, num, [])
  {
    hide ClassifyMulti, ClassifyRequest, IsMultiWalk, IsLooseMulti;
    MultiFirst(bs);
    ArrayFirst(bs);
    if ClassifyRequest(bs) == Complete {
      var num, cs :| IsRequestWalk(bs, num, cs);
      forall n ensures !IsLooseMulti(bs, n, []) { OneNumeral(bs, n, num, cs); }
    } else if ClassifyReply(bs) == Complete {
      var num, cs :| IsMultiWalk(bs, num, cs);
      assert !IsRequestWalk(bs, num, cs);
      WalkOfNone(bs, num, cs);
    }
  }

  lemma WalkOfNone(bs: Octets, num: Octets, cs: seq<int>)
    requires IsMultiWalk(bs, num, cs) && |cs| <= 1
    ensures IsLooseMulti(bs, num, [])
  {
    hide IsLengthText, Atoi;
  }

  /** The first line has one numeral only. */
  lemma OneNumeral(bs: Octets, num: Octets, n: Octets, cs: seq<int>)
    requires IsMultiWalk(bs, n, cs) && |cs| > 1
    ensures !IsLooseMulti(bs, num, [])
  {
    hide Number, Atoi, IsText;
    TextNumber(bs, 1, n);
    if IsLooseMulti(bs, num, []) { TextNumber(bs, 1, num); }
  }

  lemma CommandIsReply(bs: Octets)
    requires bs != [] && bs[0] == STAR
    ensures IsCommandBytes(bs) <==> IsReplyBytes(bs) && bs != ArrayBytes([])
  {
    hide Dec, BulksBytes, BulkBytes, IsText;
    if args :| IsRequest(args) && ArrayBytes(args) == bs {
      assert ReplyBytes(Multi(args)) == bs && IsReply(Multi(args));
      if bs == ArrayBytes([]) { SameArray(args, []); }
    }
    if r :| IsReply(r) && ReplyBytes(r) == bs {
      var bulks := IsMulti(r);
      assert ArrayBytes(bulks) == bs;
      if bulks != [] { assert IsRequest(bulks); }
    }
  }

  lemma SameArray(a: seq<Bulk>, b: seq<Bulk>)
    requires ArrayBytes(a) == ArrayBytes(b) && |ArrayBytes(a)| < INT_LIMIT && |a| <= 1024 && |b| <= 1024
    ensures |a| == |b|
  {
    hide Dec, Atoi, BulksBytes, Number, IsNumeral;
    var bs := ArrayBytes(a);
    NumeralOf(|a|);
    NumeralOf(|b|);
    FirstNumber(bs, STAR, Dec(|a|), |a|, BulksBytes(a));
    FirstNumber(bs, STAR, Dec(|b|), |b|, BulksBytes(b));
  }

  /** Of all the bytes that are taken for a command, the encodings of commands are the counts
      written properly with as many proper bulks behind them, and at least one. */
  lemma TakenIsCommandIff(bs: Octets)
    requires |bs| < INT_LIMIT && ClassifyRequest(bs) == Complete
    ensures IsCommandBytes(bs) <==> exists num, pieces :: IsProperMulti(bs, num, pieces) && pieces != []
  {
    hide ClassifyRequest, ClassifyReply, IsReplyBytes, IsProperMulti, IsLooseMulti, ArrayBytes;
    NotEmptyWhenTaken(bs);
    if bs[0] == STAR {
      SameLoop(bs);
      MultiIsReply(bs);
      CommandIsReply(bs);
      NoArguments(bs);
    } else {
      forall num, pieces ensures !IsProperMulti(bs, num, pieces) { ProperFirst(bs, num, pieces); }
      forall args ensures ArrayBytes(args) != bs { assert ArrayBytes(args)[0] == STAR; }
    }
  }

  lemma NotEmptyWhenTaken(bs: Octets)
    requires ClassifyRequest(bs) == Complete
    ensures bs != []
  {}

  lemma ProperFirst(bs: Octets, num: Octets, pieces: seq<Octets>)
    requires bs != []
    ensures IsProperMulti(bs, num, pieces) ==> bs[0] == STAR && IsLooseMulti(bs, num, pieces)
  {
    hide LineAt, AreLooseBulks, AreBulks, IsLengthText;
  }

  /** Bytes that are taken for a command have an argument. */
  lemma NoArguments(bs: Octets)
    requires bs != [] && bs[0] == STAR && ClassifyRequest(bs) == Complete
    ensures bs != ArrayBytes([])
    ensures forall num, pieces :: IsProperMulti(bs, num, pieces) ==> pieces != []
  {
    hide ClassifyRequest, ClassifyReply, IsLooseMulti, ArrayBytes, Dec;
    SameLoop(bs);
    forall num, pieces | IsProperMulti(bs, num, pieces) ensures pieces != [] { ProperFirst(bs, num, pieces); }
    EmptyIsLoose();
  }

  lemma EmptyIsLoose()
    ensures exists num :: IsLooseMulti(ArrayBytes([]), num, [])
  {
    hide IsLooseMulti, ArrayBytes, Dec;
    assert |ArrayBytes([])| == 4 by { EmptyArray(); }
    var pieces := ArrayIsLoose([]);
    assert pieces == [];
  }

  lemma EmptyArray()
    ensures |ArrayBytes([])| == 4
  {}

  /** What stands between two arguments is not looked at, nor is a length that leads back
      refused: both examples of replies that are none are commands that are none as well. */
  lemma CommandsUnseen()
    ensures var bs := [STAR, 50, CR, LF] + A_XX + JUST_B;
            ClassifyRequest(bs) == Complete && !IsCommandBytes(bs)
    ensures ClassifyRequest(BACKWARD) == Complete && !IsCommandBytes(BACKWARD)
  {
    hide ClassifyRequest, ClassifyReply, IsReplyBytes, IsLooseMulti, IsCommandBytes;
    SeparatorUnseen();
    LengthLeadsBack();
    var bs := [STAR, 50, CR, LF] + A_XX + JUST_B;
    SameLoop(bs);
    SameLoop(BACKWARD);
    CommandIsReply(bs);
    CommandIsReply(BACKWARD);
    forall num ensures !IsLooseMulti(bs, num, []) && !IsLooseMulti(BACKWARD, num, []) {
      TooLongForNone(bs, num);
      TooLongForNone(BACKWARD, num);
    }
  }

  lemma TooLongForNone(bs: Octets, num: Octets)
    requires |bs| > 13
    ensures !IsLooseMulti(bs, num, [])
  {
    hide LineAt, Atoi, IsText;
  }

  // ---------------------------------------------------------------- the old protocol

  /** The word in letters of either case, a line end, and nothing more, as a C string. */
  predicate Spells(bs: Octets, lower: string, upper: string)
    requires |lower| == |upper|
  {
    && |bs| >= |lower| + 2
    && (forall i :: 0 <= i < |lower| ==> bs[i] == lower[i] as int || bs[i] == upper[i] as int)
    && bs[|lower|] == CR && bs[|lower| + 1] == LF
    && (|bs| == |lower| + 2 || bs[|lower| + 2] == 0)
  }

  lemma SpelledFour(bs: Octets, word: Octets, lower: string, upper: string)
    requires |lower| == |upper| == 4 && |word| == 6 && word[4] == CR && word[5] == LF
    requires forall i :: 0 <= i < 4 ==> lower[i] as int == word[i] && upper[i] as int + 32 == word[i]
    requires forall i :: 0 <= i < 4 ==> 97 <= word[i] <= 122
    ensures InlineIs(bs, word) <==> Spells(bs, lower, upper)
  {
    if |bs| >= 6 {
      forall i | 0 <= i < 4
        ensures Lower(bs[i]) == word[i] <==> bs[i] == lower[i] as int || bs[i] == upper[i] as int
      {}
    }
  }

  /** "quit" makes the proxy drop the client and "exit" ends it, in letters of either case,
      and nothing else does. */
  lemma QuitAndExitIff(bs: Octets)
    ensures ClassifyRequest(bs) == Quit <==> EndsCrlf(bs) && Spells(bs, "quit", "QUIT")
    ensures ClassifyRequest(bs) == Exit <==> EndsCrlf(bs) && Spells(bs, "exit", "EXIT")
  {
    hide Number, Bulks, InlineIs;
    SpelledFour(bs, QUIT_LINE, "quit", "QUIT");
    SpelledFour(bs, EXIT_LINE, "exit", "EXIT");
    if bs != [] && bs[0] == STAR { ArraysAreNoWords(bs); }
  }

  lemma ArraysAreNoWords(bs: Octets)
    requires bs != [] && bs[0] == STAR
    ensures ClassifyRequest(bs) != Quit && ClassifyRequest(bs) != Exit
  {
    hide Number;
    if EndsCrlf(bs) && Number(bs, 1).Some? {
      var n := Number(bs, 1).value;
      if 0 < n.0 <= 1024 && n.1 < |bs| { BulksAreNoWords(bs, n.1, n.0); }
    }
  }

  lemma {:induction false} BulksAreNoWords(bs: Octets, cursor: int, argc: nat)
    ensures Bulks(bs, cursor, argc) != Quit && Bulks(bs, cursor, argc) != Exit
    decreases argc
  {
    hide Number, Skip;
    if argc == 0 {
    } else if 0 <= cursor < |bs| && Number(bs, cursor + 1).Some? {
      var n := Number(bs, cursor + 1).value;
      if Skip(n.0, n.1).Some? { BulksAreNoWords(bs, Skip(n.0, n.1).value, argc - 1); }
    }
  }
}

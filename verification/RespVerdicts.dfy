/** Which bytes the proxy waits to be continued and which it refuses (redis-proxy/echo.c), in
    terms of the positions that the cursor passes. */
module RespVerdicts {
  import opened Bytes
  import opened Options
  import opened Ascii
  import opened Resp
  import opened RespAccepted

  /** The cursor passes from bulk to bulk, at most argc of them, and comes out behind the bytes
      received, or at their end with bulks still to come. */
  ghost predicate RunsOut(bs: Octets, cs: seq<int>, start: int, argc: nat) {
    && IsWalk(bs, cs) && cs[0] == start && 1 < |cs| <= argc + 1
    && (cs[|cs| - 1] > |bs| || (cs[|cs| - 1] == |bs| && |cs| <= argc))
  }

  /** It has passed all bulks with bytes left over, or stands where a bulk should begin and
      none does. */
  ghost predicate Derails(bs: Octets, cs: seq<int>, start: int, argc: nat) {
    && IsWalk(bs, cs) && cs[0] == start && 0 < |cs| <= argc + 1
    && var c := cs[|cs| - 1];
       if |cs| == argc + 1 then c < |bs| else 0 <= c < |bs| && bs[c] != DOLLAR
  }

  lemma FirstStep(bs: Octets, cs: seq<int>)
    requires IsWalk(bs, cs) && |cs| > 1
    ensures Leads(bs, cs[0], cs[1]) && IsWalk(bs, cs[1..])
    ensures |cs| > 2 ==> 0 <= cs[1] < |bs|
  {
    hide Number;
    assert Leads(bs, cs[0], cs[1]);
    if |cs| > 2 { assert Leads(bs, cs[1], cs[2]); }
    forall i | 0 <= i < |cs[1..]| - 1 ensures Leads(bs, cs[1..][i], cs[1..][i + 1]) {
      assert Leads(bs, cs[i + 1], cs[i + 2]);
    }
  }

  /** One bulk passed: the verdict is that on the bulks behind it. */
  lemma BulksStep(bs: Octets, from: int, to: int, argc: nat)
    requires Leads(bs, from, to) && argc > 0
    ensures Bulks(bs, from, argc) ==
            if to > |bs| || (to == |bs| && argc != 1) then Incomplete else Bulks(bs, to, argc - 1)
  {
    hide Number;
  }

  lemma {:induction false} RunsOutIsIncomplete(bs: Octets, cs: seq<int>, start: int, argc: nat)
    requires RunsOut(bs, cs, start, argc)
    ensures Bulks(bs, start, argc) == Incomplete
    decreases |cs|
  {
    hide Leads, Bulks, IsWalk;
    FirstStep(bs, cs);
    BulksStep(bs, cs[0], cs[1], argc);
    if |cs| == 2 {
    } else {
      RunsOutIsIncomplete(bs, cs[1..], cs[1], argc - 1);
    }
  }

  lemma NoBulkHere(bs: Octets, c: int, argc: nat)
    ensures argc > 0 && 0 <= c < |bs| && bs[c] != DOLLAR ==> Bulks(bs, c, argc) == Wrong
    ensures argc == 0 && c < |bs| ==> Bulks(bs, c, argc) == Wrong
  {
    hide Number;
  }

  lemma {:induction false} DerailsIsWrong(bs: Octets, cs: seq<int>, start: int, argc: nat)
    requires Derails(bs, cs, start, argc)
    ensures Bulks(bs, start, argc) == Wrong
    decreases |cs|
  {
    hide Leads, Bulks, IsWalk;
    if |cs| == 1 {
      NoBulkHere(bs, start, argc);
    } else {
      FirstStep(bs, cs);
      BulksStep(bs, cs[0], cs[1], argc);
      DerailsIsWrong(bs, cs[1..], cs[1], argc - 1);
    }
  }

  lemma LongerWalk(bs: Octets, from: int, cs: seq<int>)
    requires IsWalk(bs, cs) && Leads(bs, from, cs[0])
    ensures IsWalk(bs, [from] + cs)
  {
    hide Leads;
    var all := [from] + cs;
    forall i | 0 <= i < |all| - 1 ensures Leads(bs, all[i], all[i + 1]) {
      if i > 0 { assert Leads(bs, cs[i - 1], cs[i]); }
    }
  }

  lemma LeadsSomewhere(bs: Octets, from: int, argc: nat) returns (to: int)
    requires argc > 0 && (Bulks(bs, from, argc) == Incomplete || (Bulks(bs, from, argc) == Wrong && bs[from] == DOLLAR))
    requires 0 <= from < |bs|
    ensures Leads(bs, from, to)
  {
    hide Number;
    var n := Number(bs, from + 1).value;
    to := n.1 + Behind(n.0);
  }

  lemma {:induction false} HowIncomplete(bs: Octets, start: int, argc: nat) returns (cs: seq<int>)
    requires Bulks(bs, start, argc) == Incomplete
    ensures RunsOut(bs, cs, start, argc)
    decreases argc
  {
    hide Leads, Bulks, IsWalk;
    BulksInside(bs, start, argc);
    var to := LeadsSomewhere(bs, start, argc);
    BulksStep(bs, start, to, argc);
    OneWalk(bs, to);
    if to > |bs| || (to == |bs| && argc != 1) {
      LongerWalk(bs, start, [to]);
      cs := [start, to];
      assert cs == [start] + [to];
    } else {
      var rest := HowIncomplete(bs, to, argc - 1);
      LongerWalk(bs, start, rest);
      cs := [start] + rest;
    }
  }

  lemma OneWalk(bs: Octets, c: int)
    ensures IsWalk(bs, [c])
  {}

  lemma BulksInside(bs: Octets, c: int, argc: nat)
    ensures Bulks(bs, c, argc) == Incomplete ==> argc > 0 && 0 <= c < |bs| && bs[c] == DOLLAR
    ensures Bulks(bs, c, argc) == Wrong ==> argc == 0 || 0 <= c < |bs|
    ensures argc == 0 && Bulks(bs, c, argc) == Wrong ==> c != |bs|
  {
    hide Number;
  }

  lemma {:induction false} HowWrong(bs: Octets, start: int, argc: nat) returns (cs: seq<int>)
    requires Bulks(bs, start, argc) == Wrong && start <= |bs|
    ensures Derails(bs, cs, start, argc)
    decreases argc
  {
    hide Leads, Bulks, IsWalk;
    OneWalk(bs, start);
    BulksInside(bs, start, argc);
    if argc == 0 || bs[start] != DOLLAR {
      cs := [start];
    } else {
      var to := LeadsSomewhere(bs, start, argc);
      BulksStep(bs, start, to, argc);
      var rest := HowWrong(bs, to, argc - 1);
      LongerWalk(bs, start, rest);
      cs := [start] + rest;
    }
  }

  // ---------------------------------------------------------------- messages

  /** The first line counts the bulks to come. */
  ghost predicate Counts(bs: Octets, num: Octets) {
    bs != [] && IsLengthText(num) && LineAt(bs, 1, num)
  }

  /** Bytes of an array are missing, from this position on. */
  ghost predicate IsShort(bs: Octets, start: nat, argc: nat) {
    start == |bs| || exists cs :: RunsOut(bs, cs, start, argc)
  }

  ghost predicate IsDerailed(bs: Octets, start: nat, argc: nat) {
    start < |bs| && exists cs :: Derails(bs, cs, start, argc)
  }

  lemma CountRead(bs: Octets, num: Octets)
    requires Counts(bs, num)
    ensures Number(bs, 1) == Some((Atoi(num), 3 + |num|)) && 3 + |num| <= |bs|
  {
    hide Number, Atoi, IsLengthText;
    TextNumber(bs, 1, num);
  }

  lemma BulksVerdicts(bs: Octets, start: nat, argc: nat)
    requires start < |bs|
    ensures Bulks(bs, start, argc) == Incomplete <==> IsShort(bs, start, argc)
    ensures Bulks(bs, start, argc) == Wrong <==> IsDerailed(bs, start, argc)
  {
    hide Bulks, RunsOut, Derails;
    if Bulks(bs, start, argc) == Incomplete { var cs := HowIncomplete(bs, start, argc); }
    if Bulks(bs, start, argc) == Wrong { var cs := HowWrong(bs, start, argc); }
    forall cs | RunsOut(bs, cs, start, argc) ensures Bulks(bs, start, argc) == Incomplete {
      RunsOutIsIncomplete(bs, cs, start, argc);
    }
    forall cs | Derails(bs, cs, start, argc) ensures Bulks(bs, start, argc) == Wrong {
      DerailsIsWrong(bs, cs, start, argc);
    }
  }

  /** An array of which the last bytes received are a line end is waited for if and only if its
      count is right and the bulks reach beyond these bytes, and refused if and only if its
      count is wrong, or no bulk begins where one should, or bytes are left over. */
  lemma ArrayVerdicts(bs: Octets, num: Octets)
    requires Counts(bs, num) && bs[0] == STAR && EndsCrlf(bs)
    ensures var v, n, start := ClassifyRequest(bs), Atoi(num), 3 + |num|;
            && (v == Incomplete <==> 0 < n <= 1024 && IsShort(bs, start, n))
            && (v == Wrong <==> n <= 0 || n > 1024 || IsDerailed(bs, start, n))
    ensures var v, n, start := ClassifyReply(bs), Atoi(num), 3 + |num|;
            && (v == Incomplete <==> 0 < n <= 1024 && IsShort(bs, start, n))
            && (v == Wrong <==> n < 0 || n > 1024 || IsDerailed(bs, start, n))
  {
    hide Number, Atoi, IsLengthText, Bulks, IsShort, IsDerailed;
    CountRead(bs, num);
    var start, n := 3 + |num|, Atoi(num);
    if 0 <= n {
      if start < |bs| { BulksVerdicts(bs, start, n); } else { AtTheEnd(bs, n); }
      if n == 0 && start < |bs| { NothingShort(bs, start); }
    }
  }

  lemma AtTheEnd(bs: Octets, argc: nat)
    ensures IsShort(bs, |bs|, argc) && !IsDerailed(bs, |bs|, argc)
  {}

  lemma NothingShort(bs: Octets, start: nat)
    requires start < |bs|
    ensures !IsShort(bs, start, 0)
  {}

  /** Any bytes that end otherwise are waited for, unless no reply begins like them; so is a
      bulk that its length takes beyond the bytes received, and one that it leaves behind is
      refused; a line is never waited for behind its end. */
  lemma OtherVerdicts(bs: Octets)
    requires bs != []
    ensures !EndsCrlf(bs) ==> ClassifyRequest(bs) == Incomplete
    ensures bs[0] !in {PLUS, MINUS, COLON, DOLLAR, STAR} ==> ClassifyReply(bs) == Wrong
    ensures bs[0] in {PLUS, MINUS, COLON, DOLLAR, STAR} && !EndsCrlf(bs) ==> ClassifyReply(bs) == Incomplete
    ensures bs[0] in {PLUS, MINUS, COLON} && EndsCrlf(bs) ==>
              ClassifyReply(bs) == if exists text :: IsLineReply(bs, bs[0], text) then Complete else Wrong
    ensures forall num :: Counts(bs, num) && bs[0] == DOLLAR && EndsCrlf(bs) && Behind(Atoi(num)) < INT_LIMIT ==>
              var end := 3 + |num| + Behind(Atoi(num));
              ClassifyReply(bs) == if end > |bs| then Incomplete else if end == |bs| then Complete else Wrong
  {
    hide Strstr, Number, Bulks, Atoi, IsLengthText, LineAt;
    if bs[0] in {PLUS, MINUS, COLON} {
      LineFirst(bs);
      if kind, text :| IsLineReply(bs, kind, text) { assert kind == bs[0]; }
    }
    forall num | Counts(bs, num) ensures Number(bs, 1) == Some((Atoi(num), 3 + |num|)) { CountRead(bs, num); }
  }
}

/** The text that zrange of vector_udf/vector.c prints, read back. */
module SortedSetRange {
  import opened Bytes
  import opened Options
  import opened Ascii
  import opened SortedSet

  // ---------------------------------------------------------------- a reader of the text

  /** How many digits the text begins with. */
  function DigitRun(t: Octets): (k: nat)
    ensures k <= |t|
  {
    if t == [] || !IsDigit(t[0]) then 0 else 1 + DigitRun(t[1..])
  }

  /** A number in front of a certain byte, and what follows that. */
  function ReadNumber(t: Octets, end: Byte): (r: Option<(int, Octets)>)
    ensures r.Some? ==> |r.value.1| < |t|
  {
    var k := DigitRun(t);
    if 0 < k < |t| && t[k] == end then Some((Atoi(t[..k]), t[k + 1..])) else None
  }

  /** "[member,score]" and what follows it. */
  function ReadEntry(t: Octets): (r: Option<((int, int), Octets)>)
    ensures r.Some? ==> |r.value.1| < |t|
  {
    if t == [] || t[0] != '[' as int then None else
    var member := ReadNumber(t[1..], ',' as int);
    if member.None? then None else
    var score := ReadNumber(member.value.1, ']' as int);
    if score.None? then None else Some(((member.value.0, score.value.0), score.value.1))
  }

  /** Entries with commas between them, then a bracket and no more. */
  function ReadEntries(t: Octets): Option<seq<(int, int)>>
    decreases |t|
  {
    var e := ReadEntry(t);
    if e.None? then None
    else if e.value.1 == [']' as int] then Some([e.value.0])
    else if e.value.1 == [] || e.value.1[0] != ',' as int then None
    else
      var more := ReadEntries(e.value.1[1..]);
      if more.None? then None else Some([e.value.0] + more.value)
  }

  function ReadRange(t: Octets): Option<seq<(int, int)>> {
    if t == ['[' as int, ']' as int] then Some([])
    else if t == [] || t[0] != '[' as int then None
    else ReadEntries(t[1..])
  }

  // ---------------------------------------------------------------- the round trip

  lemma {:induction false} DigitRunOf(num: Octets, rest: Octets)
    requires forall i :: 0 <= i < |num| ==> IsDigit(num[i])
    requires rest != [] && !IsDigit(rest[0])
    ensures DigitRun(num + rest) == |num|
    decreases |num|
  {
    if num == [] {
      assert num + rest == rest;
    } else {
      DigitRunOf(num[1..], rest);
      assert (num + rest)[1..] == num[1..] + rest;
    }
  }

  lemma NumberRead(n: nat, end: Byte, rest: Octets)
    requires n < 0x1_0000_0000 && !IsDigit(end)
    ensures ReadNumber(Dec(n) + [end] + rest, end) == Some((n as int, rest))
  {
    hide Dec, Atoi, DigitRun;
    AtoiOfDec(n);
    var t := Dec(n) + [end] + rest;
    assert t == Dec(n) + ([end] + rest);
    DigitRunOf(Dec(n), [end] + rest);
    assert t[..|Dec(n)|] == Dec(n) && t[|Dec(n)| + 1..] == rest;
  }

  lemma EntryRead(o: Object, rest: Octets)
    ensures ReadEntry(Entry(o) + rest) == Some(((o.member as int, o.score as int), rest))
  {
    hide Dec, ReadNumber;
    var t := Entry(o) + rest;
    var tail := Dec(o.score) + [CLOSE] + rest;
    assert t[1..] == Dec(o.member) + [COMMA] + tail;
    NumberRead(o.member, COMMA, tail);
    NumberRead(o.score, CLOSE, rest);
  }

  /** Member and score of the entries at the places from start up to stop, if there are so many. */
  function Pairs(os: seq<Object>, start: nat, stop: nat): (ps: seq<(int, int)>)
    requires start <= stop <= |os|
    ensures |ps| == stop - start
    ensures forall i :: 0 <= i < |ps| ==> ps[i] == (os[start + i].member as int, os[start + i].score as int)
  {
    seq(stop - start, i requires 0 <= i < stop - start => (os[start + i].member as int, os[start + i].score as int))
  }

  lemma {:induction false} EntriesRead(os: seq<Object>, i: nat, stop: nat)
    requires i < stop <= |os|
    ensures ReadEntries(Entries(os, i, stop) + [CLOSE]) == Some(Pairs(os, i, stop))
    decreases stop - i
  {
    hide Entry, ReadEntry;
    if i + 1 == stop {
      assert Entries(os, i, stop) + [CLOSE] == Entry(os[i]) + [CLOSE] by { assert Entries(os, stop, stop) == []; }
      EntryRead(os[i], [CLOSE]);
      assert Pairs(os, i, stop) == [(os[i].member as int, os[i].score as int)];
    } else {
      var rest := Entries(os, i + 1, stop) + [CLOSE];
      assert Entries(os, i, stop) + [CLOSE] == Entry(os[i]) + ([COMMA] + rest);
      EntryRead(os[i], [COMMA] + rest);
      EntriesRead(os, i + 1, stop);
      assert ([COMMA] + rest)[1..] == rest && |rest| > 0;
      assert Pairs(os, i, stop) == [(os[i].member as int, os[i].score as int)] + Pairs(os, i + 1, stop);
    }
  }

  /** The text of a range reads as the entries at these places, in order: none, if it begins at
      or behind its end or the last entry. */
  lemma RangeRoundTrip(os: seq<Object>, start: nat, stop: nat)
    ensures var last := if stop > |os| then |os| else stop;
            ReadRange(RangeText(os, start, stop)) == Some(if start < last then Pairs(os, start, last) else [])
  {
    hide Entries, ReadEntries;
    var last := if stop > |os| then |os| else stop;
    EntriesLength(os, start, last);
    var t := RangeText(os, start, stop);
    if start < last {
      EntriesRead(os, start, last);
      assert t[1..] == Entries(os, start, last) + [CLOSE];
      EntriesNotEmpty(os, start, last);
    } else {
      assert t == [OPEN, CLOSE];
    }
  }

  lemma EntriesNotEmpty(os: seq<Object>, i: nat, stop: nat)
    requires i < stop <= |os|
    ensures Entries(os, i, stop) != []
  {}
}

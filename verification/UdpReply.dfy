/** Replies over UDP: the builder and the fragmenter of uRedis/udp.c, the reassembly and
    the decoder of uRedis/uRedis.php. */
module UdpReply {
  import opened Bytes
  import opened Options
  import opened Ascii
  import opened Resp
  import DecimalFormat

  const WBUF_LEN: nat := 65536
  const PAYLOAD: nat := 1016
  const VAL_LEN: nat := 16384

  // ---------------------------------------------------------------- the header

  predicate IsWord(n: int) { 0 <= n <= 65535 }

  /** headerEncode: request id, sequence number and number of datagrams. */
  function HeaderEncode(req: int, sequence: int, ngram: int): Option<Octets> {
    if !IsWord(req) || !IsWord(sequence) || !IsWord(ngram) then None
    else Some([req / 256, req % 256, sequence / 256, sequence % 256, ngram / 256, ngram % 256, 0, 0])
  }

  function HeaderDecode(h: Octets): (int, int, int)
    requires |h| >= 8
  {
    (h[0] as int * 256 + h[1] as int, h[2] as int * 256 + h[3] as int, h[4] as int * 256 + h[5] as int)
  }

  /** The three fields in network byte order, and two bytes that are zero. */
  lemma HeaderInNetworkOrder(req: int, sequence: int, ngram: int)
    requires IsWord(req) && IsWord(sequence) && IsWord(ngram)
    ensures var h := HeaderEncode(req, sequence, ngram).value;
            && |h| == 8 && DecimalFormat.BigEndian(h[0..2]) == req && DecimalFormat.BigEndian(h[2..4]) == sequence
            && DecimalFormat.BigEndian(h[4..6]) == ngram && h[6..8] == [0, 0]
  {
    hide DecimalFormat.BigEndian;
    var h := HeaderEncode(req, sequence, ngram).value;
    assert h[0..2] == [h[0], h[1]] && h[2..4] == [h[2], h[3]] && h[4..6] == [h[4], h[5]];
    TwoByteValue(h[0], h[1]);
    TwoByteValue(h[2], h[3]);
    TwoByteValue(h[4], h[5]);
  }

  lemma TwoByteValue(a: Byte, b: Byte)
    ensures DecimalFormat.BigEndian([a, b]) == 256 * a as int + b as int
  {
    assert [a, b][1..] == [b] && [b][1..] == [] && Pow256(1) == 256;
    assert DecimalFormat.BigEndian([b]) == b;
  }

  lemma HeaderRoundTrip(req: int, sequence: int, ngram: int, rest: Octets)
    ensures var h := HeaderEncode(req, sequence, ngram);
            if IsWord(req) && IsWord(sequence) && IsWord(ngram)
            then h.Some? && |h.value| == 8 && HeaderDecode(h.value + rest) == (req, sequence, ngram)
            else h.None?
  {}

  /** And no two headers of eight bytes with a zero tail mean the same. */
  lemma HeaderUnique(h: Octets)
    requires |h| == 8 && h[6] == h[7] == 0
    ensures var d := HeaderDecode(h); HeaderEncode(d.0, d.1, d.2) == Some(h)
  {
    var d := HeaderDecode(h);
    assert d.0 / 256 == h[0] && d.1 / 256 == h[2] && d.2 / 256 == h[4];
    assert d.0 % 256 == h[1] && d.1 % 256 == h[3] && d.2 % 256 == h[5];
    assert HeaderEncode(d.0, d.1, d.2).value == h;
  }

  // ---------------------------------------------------------------- the builder

  const NIL_BULK: Octets := [DOLLAR, MINUS, DIGIT_0 + 1, CR, LF]

  /** -Err: response is too big. */
  const TOO_BIG: Octets :=
    [45, 69, 114, 114, 58, 32,
     114, 101, 115, 112, 111, 110, 115, 101, 32, 105, 115, 32, 116, 111, 111, 32, 98, 105, 103, 46]

  /** What snprintf leaves of a text in the room it is given, terminator included, when
      the caller advances by the length of the text. */
  function Printed(text: Octets, room: nat): (r: Octets)
    requires 0 < |text| <= room
    ensures |r| == |text|
  {
    if |text| < room then text else text[..|text| - 1] + [0]
  }

  function ValueBytes(v: Octets): Octets {
    [DOLLAR] + Dec(|v|) + CRLF + (v + CRLF)
  }

  /** The loop over the values looked up, after what is in the buffer already. */
  function BuildFrom(acc: Octets, vals: seq<Bulk>): Octets
    requires |acc| <= WBUF_LEN
    decreases |vals|
  {
    if vals == [] then acc
    else
      match vals[0]
      case Nil =>
        if |acc| + 5 > WBUF_LEN then TOO_BIG
        else BuildFrom(acc + Printed(NIL_BULK, WBUF_LEN - |acc|), vals[1..])
      case Data(v) =>
        if |acc| + |v| + 10 > WBUF_LEN then TOO_BIG
        else
          FiveDigits(|v|);
          BuildFrom(acc + ValueBytes(v), vals[1..])
  }

  lemma FiveDigits(n: nat)
    requires n < 65536
    ensures |Dec(n)| <= 5
  {
    hide Dec;
    assert Pow10(3) == 1000;
    assert Pow10(5) == 100_000;
    DecLength(n, 5);
  }

  function CountLine(n: nat): (bs: Octets)
    ensures |bs| >= 3
  {
    [STAR] + Dec(n) + CRLF
  }

  /** The reply to a request for these values: at most 100 of them. */
  function Build(vals: seq<Bulk>): (w: Octets)
    requires |vals| <= 100
    ensures |w| <= WBUF_LEN
  {
    FiveDigits(|vals|);
    BuildFromLength(CountLine(|vals|), vals);
    BuildFrom(CountLine(|vals|), vals)
  }

  ghost predicate AreValues(vals: seq<Bulk>) {
    1 <= |vals| <= 100 && forall i :: 0 <= i < |vals| && vals[i].Data? ==> |vals[i].bytes| <= VAL_LEN
  }

  /** The guards, as they are met on the way, given the length so far. */
  predicate Fits(len: nat, vals: seq<Bulk>)
    decreases |vals|
  {
    vals == []
    || (match vals[0]
        case Nil => len + 5 <= WBUF_LEN && Fits(len + 5, vals[1..])
        case Data(v) => len + |v| + 10 <= WBUF_LEN && Fits(len + |ValueBytes(v)|, vals[1..]))
  }

  lemma BulkIs(b: Bulk)
    ensures b.Data? ==> BulkBytes(b) == ValueBytes(b.bytes) && |ValueBytes(b.bytes)| == |b.bytes| + 5 + |Dec(|b.bytes|)|
    ensures b.Nil? ==> BulkBytes(b) == NIL_BULK
  {}

  /** The buffer is never overrun. */
  lemma {:induction false} BuildFromLength(acc: Octets, vals: seq<Bulk>)
    requires |acc| <= WBUF_LEN
    ensures |BuildFrom(acc, vals)| <= WBUF_LEN
    decreases |vals|
  {
    hide Printed, ValueBytes;
    if vals == [] {
    } else {
      match vals[0] {
        case Nil =>
          if |acc| + 5 <= WBUF_LEN { BuildFromLength(acc + Printed(NIL_BULK, WBUF_LEN - |acc|), vals[1..]); }
        case Data(v) =>
          if |acc| + |v| + 10 <= WBUF_LEN {
            FiveDigits(|v|);
            BulkIs(vals[0]);
            BuildFromLength(acc + ValueBytes(v), vals[1..]);
          }
      }
    }
  }

  /** A nil that fills the buffer to the last byte: its line feed is lost. */
  predicate EndsInNil(len: nat, vals: seq<Bulk>) {
    vals != [] && vals[|vals| - 1] == Nil && len + |BulksBytes(vals)| == WBUF_LEN
  }

  /** What the builder leaves, for all values. */
  function Left(acc: Octets, vals: seq<Bulk>): Octets {
    var whole := acc + BulksBytes(vals);
    if !Fits(|acc|, vals) then TOO_BIG
    else if EndsInNil(|acc|, vals) then whole[..|whole| - 1] + [0]
    else whole
  }

  lemma WholeStep(acc: Octets, vals: seq<Bulk>)
    requires vals != []
    ensures acc + BulksBytes(vals) == acc + BulkBytes(vals[0]) + BulksBytes(vals[1..])
    ensures |BulksBytes(vals)| == |BulkBytes(vals[0])| + |BulksBytes(vals[1..])|
  {
    hide BulkBytes;
  }

  lemma LeftStep(acc: Octets, vals: seq<Bulk>)
    requires vals != [] && |acc| + |BulkBytes(vals[0])| <= WBUF_LEN
    requires vals[0].Data? ==> |acc| + |vals[0].bytes| + 10 <= WBUF_LEN
    requires vals[0].Nil? ==> |acc| + 5 < WBUF_LEN
    ensures Left(acc, vals) == Left(acc + BulkBytes(vals[0]), vals[1..])
  {
    hide BulkBytes, BulksBytes, ValueBytes, Fits, EndsInNil;
    WholeStep(acc, vals);
    EndsInNilStep(acc, vals);
    assert Fits(|acc|, vals) == Fits(|acc + BulkBytes(vals[0])|, vals[1..]) by { FitsStep(acc, vals); }
  }

  lemma FitsStep(acc: Octets, vals: seq<Bulk>)
    requires vals != [] && |acc| + |BulkBytes(vals[0])| <= WBUF_LEN
    requires vals[0].Data? ==> |acc| + |vals[0].bytes| + 10 <= WBUF_LEN
    ensures Fits(|acc|, vals) == Fits(|acc + BulkBytes(vals[0])|, vals[1..])
  {
    hide BulkBytes, BulksBytes, ValueBytes;
    BulkIs(vals[0]);
  }

  lemma EndsInNilStep(acc: Octets, vals: seq<Bulk>)
    requires vals != [] && (vals[0].Nil? ==> |acc| + 5 < WBUF_LEN)
    ensures EndsInNil(|acc|, vals) == EndsInNil(|acc + BulkBytes(vals[0])|, vals[1..])
  {
    hide BulkBytes, BulksBytes, ValueBytes;
    WholeStep(acc, vals);
    BulkIs(vals[0]);
    var rest := vals[1..];
    if rest == [] { NoBulks(rest); } else { assert rest[|rest| - 1] == vals[|vals| - 1]; }
  }

  lemma NoBulks(vals: seq<Bulk>)
    requires vals == []
    ensures BulksBytes(vals) == []
  {}

  lemma {:induction false} BuildFromIs(acc: Octets, vals: seq<Bulk>)
    requires |acc| <= WBUF_LEN
    ensures BuildFrom(acc, vals) == Left(acc, vals)
    decreases |vals|
  {
    hide ValueBytes, BulkBytes, Left, BulksBytes;
    if vals == [] {
      LeftNothing(acc, vals);
    } else {
      BulkIs(vals[0]);
      match vals[0] {
        case Nil =>
          if |acc| + 5 < WBUF_LEN {
            LeftStep(acc, vals);
            BuildFromIs(acc + NIL_BULK, vals[1..]);
          } else if |acc| + 5 == WBUF_LEN {
            LastNil(acc, vals);
          } else {
            LeftTooBig(acc, vals);
          }
        case Data(v) =>
          if |acc| + |v| + 10 <= WBUF_LEN {
            FiveDigits(|v|);
            LeftStep(acc, vals);
            BuildFromIs(acc + ValueBytes(v), vals[1..]);
          } else {
            LeftTooBig(acc, vals);
          }
      }
    }
  }

  lemma LeftNothing(acc: Octets, vals: seq<Bulk>)
    requires vals == []
    ensures Left(acc, vals) == acc
  {
    assert acc + [] == acc;
  }

  lemma LeftTooBig(acc: Octets, vals: seq<Bulk>)
    requires !Fits(|acc|, vals)
    ensures Left(acc, vals) == TOO_BIG
  {}

  lemma LastNil(acc: Octets, vals: seq<Bulk>)
    requires vals != [] && vals[0] == Nil && |acc| + 5 == WBUF_LEN
    ensures BuildFrom(acc, vals) == Left(acc, vals)
  {
    hide ValueBytes, BulkBytes;
    BulkIs(Nil);
    WholeStep(acc, vals);
    var rest := vals[1..];
    if rest == [] {
      assert acc + BulksBytes(vals) == acc + NIL_BULK;
      assert (acc + NIL_BULK)[..WBUF_LEN - 1] == acc + NIL_BULK[..4];
      assert acc + Printed(NIL_BULK, 5) == (acc + NIL_BULK[..4]) + [0];
      assert vals[|vals| - 1] == Nil;
      assert Fits(|acc|, vals);
      assert |BulksBytes(vals)| == 5;
      assert EndsInNil(|acc|, vals);
      assert BuildFrom(acc + Printed(NIL_BULK, 5), rest) == acc + Printed(NIL_BULK, 5);
      assert BuildFrom(acc, vals) == BuildFrom(acc + Printed(NIL_BULK, 5), rest);
    } else {
      assert !Fits(WBUF_LEN, rest);
    }
  }

  /** The builder's answer is the multi-bulk reply of the values if and only if every
      guard lets its value pass and no nil ends exactly at the end of the buffer. */
  lemma BuildIsReplyIff(vals: seq<Bulk>)
    requires |vals| <= 100
    ensures Build(vals) == ArrayBytes(vals) <==> BuildsReply(vals)
  {
    hide BulksBytes, Fits;
    FiveDigits(|vals|);
    var acc := CountLine(|vals|);
    BuildFromLength(acc, vals);
    BuildFromIs(acc, vals);
    assert ArrayBytes(vals) == acc + BulksBytes(vals);
    assert ArrayBytes(vals)[0] == STAR && TOO_BIG[0] == MINUS;
    if Fits(|acc|, vals) && EndsInNil(|acc|, vals) {
      assert Build(vals)[WBUF_LEN - 1] == 0 && ArrayBytes(vals)[WBUF_LEN - 1] == LF;
    }
  }

  predicate BuildsReply(vals: seq<Bulk>) {
    Fits(|CountLine(|vals|)|, vals) && !EndsInNil(|CountLine(|vals|)|, vals)
  }

  /** A reply of at most 65532 bytes is always built. */
  lemma ShortReplyIsBuilt(vals: seq<Bulk>)
    requires |vals| <= 100 && |ArrayBytes(vals)| <= WBUF_LEN - 4
    ensures BuildsReply(vals)
  {
    ShortFits(|CountLine(|vals|)|, vals);
  }

  lemma {:induction false} ShortFits(len: nat, vals: seq<Bulk>)
    requires len + |BulksBytes(vals)| <= WBUF_LEN - 4
    ensures Fits(len, vals)
    decreases |vals|
  {
    hide BulkBytes, ValueBytes;
    if vals == [] {
    } else {
      BulkIs(vals[0]);
      ShortFits(len + |BulkBytes(vals[0])|, vals[1..]);
    }
  }

  /** Between that and the size of the buffer the guard is stricter than it need be: a
      reply that ends in a value of fewer than ten bytes is refused although it fits. */
  lemma RefusedAlthoughItFits(front: seq<Bulk>, v: Octets)
    requires |front| < 100 && |v| < 10
    requires WBUF_LEN - 4 < |ArrayBytes(front + [Data(v)])| < WBUF_LEN
    ensures Build(front + [Data(v)]) == TOO_BIG
  {
    hide BulkBytes, BulksBytes, Fits;
    var vals := front + [Data(v)];
    FiveDigits(|vals|);
    var acc := CountLine(|vals|);
    BuildFromIs(acc, vals);
    LastGuard(|acc|, front, v);
  }

  lemma {:induction false} LastGuard(len: nat, front: seq<Bulk>, v: Octets)
    requires |v| < 10 && len + |BulksBytes(front + [Data(v)])| > WBUF_LEN - 4
    ensures !Fits(len, front + [Data(v)])
    decreases |front|
  {
    hide BulkBytes;
    var vals := front + [Data(v)];
    BulkIs(vals[0]);
    if front == [] {
      assert BulksBytes(vals[1..]) == [];
      assert |Dec(|v|)| == 1;
    } else {
      assert vals[1..] == front[1..] + [Data(v)];
      LastGuard(len + |BulkBytes(vals[0])|, front[1..], v);
    }
  }

  // ---------------------------------------------------------------- the fragmenter

  function Count(w: Octets): nat { |w| / PAYLOAD + 1 }

  function Payload(w: Octets, k: nat): (p: Octets)
    requires k < Count(w)
    ensures |p| <= PAYLOAD
  {
    var start := k * PAYLOAD;
    w[start..start + if |w| - start > PAYLOAD then PAYLOAD else |w| - start]
  }

  function Payloads(w: Octets, n: nat): (ps: seq<Octets>)
    requires n <= Count(w)
    ensures |ps| == n
  {
    seq(n, k requires 0 <= k < n => Payload(w, k))
  }

  function Header(req: nat, w: Octets, k: nat): (h: Octets)
    requires IsWord(req) && |w| <= WBUF_LEN && k < Count(w)
    ensures |h| == 8
  {
    HeaderEncode(req, k, Count(w)).value
  }

  /** The k-th datagram. */
  function Fragment(req: nat, w: Octets, k: nat): (d: Octets)
    requires IsWord(req) && |w| <= WBUF_LEN && k < Count(w)
    ensures 8 <= |d| <= 1024
  {
    Header(req, w, k) + Payload(w, k)
  }

  lemma {:induction false} JoinPayloads(w: Octets, n: nat)
    requires n <= Count(w)
    ensures Concat(Payloads(w, n)) == w[..if n * PAYLOAD < |w| then n * PAYLOAD else |w|]
    decreases n
  {
    hide Payload;
    if n == 0 {
    } else {
      JoinPayloads(w, n - 1);
      ConcatLast(Payloads(w, n - 1), Payload(w, n - 1));
      assert Payloads(w, n) == Payloads(w, n - 1) + [Payload(w, n - 1)];
      PayloadEnds(w, n - 1);
    }
  }

  lemma PayloadEnds(w: Octets, k: nat)
    requires k < Count(w)
    ensures w[..k * PAYLOAD] + Payload(w, k) == w[..if (k + 1) * PAYLOAD < |w| then (k + 1) * PAYLOAD else |w|]
  {}

  /** The payloads of all datagrams, joined in order of their sequence numbers, are the
      reply. */
  lemma FragmentsJoin(w: Octets)
    ensures Concat(Payloads(w, Count(w))) == w
  {
    JoinPayloads(w, Count(w));
    assert w[..|w|] == w;
  }

  lemma FragmentParts(req: nat, w: Octets, k: nat)
    requires IsWord(req) && |w| <= WBUF_LEN && k < Count(w)
    ensures HeaderDecode(Fragment(req, w, k)) == (req, k, Count(w) as int)
    ensures Fragment(req, w, k)[8..] == Payload(w, k)
  {
    hide Payload;
    HeaderRoundTrip(req, k, Count(w), Payload(w, k));
  }

  // ---------------------------------------------------------------- reassembly

  /** A PHP array: keys in the order of their first assignment. */
  type Parts = seq<(int, Octets)>

  function Assign(rs: Parts, key: int, v: Octets): Parts {
    if rs == [] then [(key, v)]
    else if rs[0].0 == key then [(key, v)] + rs[1..]
    else [rs[0]] + Assign(rs[1..], key, v)
  }

  function Texts(rs: Parts): (ts: seq<Octets>)
    ensures |ts| == |rs|
  {
    seq(|rs|, i requires 0 <= i < |rs| => rs[i].1)
  }

  /** The receive loop: datagrams of other requests are skipped, one repeated overwrites
      its part, and the loop ends when as many parts are there as the last datagram says.
      None if the socket times out or a header is too short. */
  function Collect(req: int, rs: Parts, grams: seq<Octets>): Option<Octets>
    decreases |grams|
  {
    if grams == [] || |grams[0]| < 8 then None
    else
      var h := HeaderDecode(grams[0]);
      if h.0 != req then Collect(req, rs, grams[1..])
      else
        var parts := Assign(rs, h.1, grams[0][8..]);
        if |parts| == h.2 then Some(Concat(Texts(parts))) else Collect(req, parts, grams[1..])
  }

  /** From the k-th on the datagrams of the reply arrive in order of their first arrivals,
      with repetitions and datagrams of other requests in between. */
  predicate Arrives(req: nat, w: Octets, k: nat, grams: seq<Octets>)
    requires IsWord(req) && |w| <= WBUF_LEN && k <= Count(w)
    decreases |grams|
  {
    k == Count(w)
    || (grams != []
        && ((|grams[0]| >= 8 && HeaderDecode(grams[0]).0 != req && Arrives(req, w, k, grams[1..]))
            || ((exists j :: 0 <= j < k && grams[0] == Fragment(req, w, j)) && Arrives(req, w, k, grams[1..]))
            || (grams[0] == Fragment(req, w, k) && Arrives(req, w, k + 1, grams[1..]))))
  }

  /** The first n parts, in order. */
  function PartsOf(w: Octets, n: nat): (rs: Parts)
    requires n <= Count(w)
    ensures |rs| == n
  {
    seq(n, k requires 0 <= k < n => (k as int, Payload(w, k)))
  }

  lemma {:induction false} AssignAgain(rs: Parts, j: nat)
    requires j < |rs| && forall i :: 0 <= i < |rs| ==> rs[i].0 == rs[0].0 + i
    ensures Assign(rs, rs[j].0, rs[j].1) == rs
    decreases |rs|
  {
    if j == 0 {
    } else {
      assert forall i :: 0 <= i < |rs| - 1 ==> rs[1..][i].0 == rs[1..][0].0 + i;
      AssignAgain(rs[1..], j - 1);
      assert rs[j].0 != rs[0].0;
    }
  }

  lemma {:induction false} AssignNew(rs: Parts, key: int, v: Octets)
    requires forall i :: 0 <= i < |rs| ==> rs[i].0 != key
    ensures Assign(rs, key, v) == rs + [(key, v)]
    decreases |rs|
  {
    if rs == [] {
    } else {
      AssignNew(rs[1..], key, v);
    }
  }

  lemma {:induction false} ArrivedInOrder(req: nat, w: Octets, k: nat, grams: seq<Octets>)
    requires IsWord(req) && |w| <= WBUF_LEN && k < Count(w) && Arrives(req, w, k, grams)
    ensures Collect(req, PartsOf(w, k), grams) == Some(w)
    decreases |grams|
  {
    hide Payload, Fragment, Assign, HeaderDecode;
    var d, rs := grams[0], PartsOf(w, k);
    if |d| >= 8 && HeaderDecode(d).0 != req && Arrives(req, w, k, grams[1..]) {
      ArrivedInOrder(req, w, k, grams[1..]);
    } else if (exists j :: 0 <= j < k && d == Fragment(req, w, j)) && Arrives(req, w, k, grams[1..]) {
      var j :| 0 <= j < k && d == Fragment(req, w, j);
      FragmentParts(req, w, j);
      AssignAgain(rs, j);
      ArrivedInOrder(req, w, k, grams[1..]);
    } else {
      FragmentParts(req, w, k);
      AssignNew(rs, k, Payload(w, k));
      assert rs + [(k as int, Payload(w, k))] == PartsOf(w, k + 1);
      if k + 1 < Count(w) {
        ArrivedInOrder(req, w, k + 1, grams[1..]);
      } else {
        assert Texts(PartsOf(w, k + 1)) == Payloads(w, Count(w));
        FragmentsJoin(w);
      }
    }
  }

  // ---------------------------------------------------------------- decoding

  /** strpos(s, "\r\n", i): unlike strstr it does not stop at a NUL. */
  function Strpos(s: Octets, i: nat): (r: Option<nat>)
    ensures r.Some? ==> i <= r.value && CrlfAt(s, r.value)
    decreases |s| - i
  {
    if i + 1 >= |s| then None else if CrlfAt(s, i) then Some(i) else Strpos(s, i + 1)
  }

  /** substr(s, start, len) for a length that is not negative. */
  function Substr(s: Octets, start: nat, len: nat): Octets {
    if start >= |s| then [] else s[start..if start + len < |s| then start + len else |s|]
  }

  /** The values; an error message and false; or a negative length other than -1, whose
      meaning to substr is not modelled. */
  datatype Decoded = Values(vals: seq<Bulk>) | Error | Negative

  function DecodeVals(reps: Octets, start: nat, n: nat): Decoded
    decreases n
  {
    if n == 0 then Values([])
    else
      var end := Strpos(reps, start);
      if end.None? then Error
      else
        var vlen := Atoi(Substr(reps, start + 1, end.value - start));
        if vlen == -1 then Prepend(Nil, DecodeVals(reps, end.value + 2, n - 1))
        else if vlen < 0 then Negative
        else
          Prepend(Data(Substr(reps, end.value + 2, vlen)), DecodeVals(reps, end.value + 2 + vlen + 2, n - 1))
  }

  function Prepend(b: Bulk, d: Decoded): Decoded {
    if d.Values? then Values([b] + d.vals) else d
  }

  function ResponseDecode(reps: Octets): Decoded
    requires reps != []
  {
    if reps[0] != STAR || |reps| < 2 || !CrlfAt(reps, |reps| - 2) then Error
    else
      var end := Strpos(reps, 1);
      if end.None? then Error
      else
        var nval := Atoi(reps[1..end.value]);
        if nval < 1 || end.value + 2 >= |reps| then Error
        else DecodeVals(reps, end.value + 2, nval)
  }

  lemma {:induction false} StrposFinds(s: Octets, i: nat, p: nat)
    requires i <= p && CrlfAt(s, p) && forall k :: i <= k < p ==> s[k] != CR
    ensures Strpos(s, i) == Some(p)
    decreases p - i
  {
    if i == p {
    } else {
      StrposFinds(s, i + 1, p);
    }
  }

  lemma LineLies(s: Octets, q: nat, first: Byte, num: Octets, rest: Octets)
    requires q <= |s| && s[q..] == [first] + num + CRLF + rest
    ensures var p := q + 1 + |num|;
            && p + 2 <= |s| && CrlfAt(s, p) && s[q] == first && s[p + 2..] == rest
            && forall k :: q < k < p ==> s[k] == num[k - q - 1]
  {
    var p := q + 1 + |num|;
    var line := [first] + num + CRLF + rest;
    assert forall k :: 0 <= k < |line| ==> s[q + k] == line[k];
    forall k | q < k < p ensures s[k] == num[k - q - 1] {
      assert line[k - q] == num[k - q - 1];
    }
    assert s[p] == line[p - q] && s[p + 1] == line[p + 1 - q];
    assert s[p + 2..] == s[q..][p + 2 - q..];
  }

  /** A length line: its number, read with the carriage return behind it. */
  lemma LineDecoded(s: Octets, q: nat, first: Byte, num: Octets, rest: Octets)
    requires q <= |s| && s[q..] == [first] + num + CRLF + rest && IsNumeral(num) && first != CR
    ensures var p := q + 1 + |num|;
            && p + 2 <= |s| && s[p + 2..] == rest
            && Strpos(s, q) == Some(p) && Strpos(s, q + 1) == Some(p)
            && Substr(s, q + 1, p - q) == num + [CR] && s[q + 1..p] == num
  {
    var p := q + 1 + |num|;
    LineLies(s, q, first, num, rest);
    StrposFinds(s, q, p);
    StrposFinds(s, q + 1, p);
    assert s[q + 1..p] == num;
    assert s[q + 1..p + 1] == s[q + 1..p] + [s[p]];
  }

  lemma AtoiWithCr(n: nat)
    ensures Atoi(Dec(n) + [CR]) == n && Atoi([MINUS, DIGIT_0 + 1] + [CR]) == -1
  {
    DigitsOfDec(n, [CR]);
    var one: Octets := [DIGIT_0 + 1, CR];
    assert ([MINUS, DIGIT_0 + 1] + [CR])[1..] == one;
    assert Digits(one, 0) == Digits(one[1..], 1) == 1;
  }

  lemma DataParts(d: Octets, rest: Octets)
    ensures BulkBytes(Data(d)) + rest == [DOLLAR] + Dec(|d|) + CRLF + (d + (CRLF + rest))
    ensures |BulkBytes(Data(d))| == 3 + |Dec(|d|)| + |d| + 2
  {
    hide Dec;
    assert d + CRLF + rest == d + (CRLF + rest);
  }

  lemma NilDecoded(s: Octets, q: nat, rest: Octets, n: nat)
    requires n > 0 && q <= |s| && s[q..] == BulkBytes(Nil) + rest
    ensures DecodeVals(s, q, n) == Prepend(Nil, DecodeVals(s, q + 5, n - 1))
  {
    hide Strpos, Substr, Atoi, Prepend;
    AtoiWithCr(0);
    LineDecoded(s, q, DOLLAR, [MINUS, DIGIT_0 + 1], rest);
  }

  lemma DataDecoded(s: Octets, q: nat, d: Octets, rest: Octets, n: nat)
    requires n > 0 && |d| < INT_LIMIT && q <= |s| && s[q..] == BulkBytes(Data(d)) + rest
    ensures DecodeVals(s, q, n) == Prepend(Data(d), DecodeVals(s, q + |BulkBytes(Data(d))|, n - 1))
  {
    hide Strpos, Substr, Atoi, Dec, Prepend, BulkBytes;
    NumeralOf(|d|);
    AtoiWithCr(|d|);
    DataParts(d, rest);
    var tail := d + (CRLF + rest);
    LineDecoded(s, q, DOLLAR, Dec(|d|), tail);
    SubstrOf(s, q + 3 + |Dec(|d|)|, d, CRLF + rest);
  }

  lemma BulkDecoded(s: Octets, q: nat, b: Bulk, rest: Octets, n: nat)
    requires n > 0 && |BulkBytes(b)| < INT_LIMIT && q <= |s| && s[q..] == BulkBytes(b) + rest
    ensures DecodeVals(s, q, n) == Prepend(b, DecodeVals(s, q + |BulkBytes(b)|, n - 1))
  {
    hide DecodeVals;
    match b {
      case Nil => NilDecoded(s, q, rest, n);
      case Data(d) => DataDecoded(s, q, d, rest, n);
    }
  }

  lemma SubstrOf(s: Octets, p: nat, d: Octets, rest: Octets)
    requires p < |s| && s[p..] == d + rest
    ensures Substr(s, p, |d|) == d
  {
    assert s[p..p + |d|] == s[p..][..|d|];
  }

  lemma {:induction false} BulksDecoded(s: Octets, q: nat, vals: seq<Bulk>, n: nat)
    requires q <= |s| && s[q..] == BulksBytes(vals) && |s| < INT_LIMIT
    ensures DecodeVals(s, q, n) == if n <= |vals| then Values(vals[..n]) else Error
    decreases |vals|
  {
    hide BulkBytes, DecodeVals;
    if vals == [] || n == 0 {
      NothingDecoded(s, q, n);
    } else {
      BulkDecoded(s, q, vals[0], BulksBytes(vals[1..]), n);
      DropMore(s, q, BulkBytes(vals[0]), BulksBytes(vals[1..]));
      BulksDecoded(s, q + |BulkBytes(vals[0])|, vals[1..], n - 1);
      if n <= |vals| { assert [vals[0]] + vals[1..][..n - 1] == vals[..n]; }
    }
  }

  lemma NothingDecoded(s: Octets, q: nat, n: nat)
    ensures n == 0 ==> DecodeVals(s, q, n) == Values([])
    ensures n > 0 && q >= |s| ==> DecodeVals(s, q, n) == Error
  {}

  lemma DropMore(s: Octets, q: nat, a: Octets, rest: Octets)
    requires q <= |s| && s[q..] == a + rest
    ensures q + |a| <= |s| && s[q + |a|..] == rest
  {
    assert s[q + |a|..] == s[q..][|a|..];
  }

  /** A count and bulks behind it: an error if the count is 0 or there are fewer bulks, and
      else as many values as it says. */
  lemma CountDecides(n: nat, vals: seq<Bulk>)
    requires n < INT_LIMIT && |CountLine(n) + BulksBytes(vals)| < INT_LIMIT
    ensures ResponseDecode(CountLine(n) + BulksBytes(vals))
            == if n == 0 || n > |vals| then Error else Values(vals[..n])
  {
    hide Dec, BulksBytes, DecodeVals, Strpos, Atoi;
    var s := CountLine(n) + BulksBytes(vals);
    NumeralOf(n);
    assert s[0..] == s;
    LineDecoded(s, 0, STAR, Dec(n), BulksBytes(vals));
    BulksDecoded(s, |CountLine(n)|, vals, n);
    CountEnds(n, vals);
  }

  lemma CountEnds(n: nat, vals: seq<Bulk>)
    ensures var s := CountLine(n) + BulksBytes(vals); s[0] == STAR && CrlfAt(s, |s| - 2)
    ensures vals != [] ==> BulksBytes(vals) != []
  {
    hide Dec, BulksBytes;
    if vals == [] {
      assert CountLine(n) + [] == CountLine(n) && BulksBytes([]) == [] by { NoBulks([]); }
    } else {
      EndsBehind(CountLine(n), BulksBytes(vals));
    }
  }

  lemma EndsBehind(a: Octets, b: Octets)
    requires EndsCrlf(b)
    ensures CrlfAt(a + b, |a + b| - 2)
  {
    assert (a + b)[|a + b| - 2] == b[|b| - 2] && (a + b)[|a + b| - 1] == b[|b| - 1];
  }

  /** Decoding a multi-bulk reply gives its values back, whatever their bytes. */
  lemma DecodeInvertsReply(vals: seq<Bulk>)
    requires vals != [] && |ArrayBytes(vals)| < INT_LIMIT
    ensures ResponseDecode(ArrayBytes(vals)) == Values(vals)
  {
    hide Dec, BulksBytes, ResponseDecode;
    CountDecides(|vals|, vals);
    assert ArrayBytes(vals) == CountLine(|vals|) + BulksBytes(vals);
    assert vals[..|vals|] == vals;
  }

  // ---------------------------------------------------------------- the whole way

  /** What the client makes of the datagrams it receives: the decoded values, or an error. */
  function Received(req: int, grams: seq<Octets>): Decoded {
    var r := Collect(req, [], grams);
    if r.None? || r.value == [] || r.value[0] != STAR then Error else ResponseDecode(r.value)
  }

  /** Values looked up for a request come back from the client: built, cut into datagrams,
      delivered in order of first arrival with repetitions and datagrams of other requests
      in between, joined and decoded. */
  lemma ReplyRoundTrip(req: nat, vals: seq<Bulk>, grams: seq<Octets>)
    requires IsWord(req) && AreValues(vals) && BuildsReply(vals)
    requires Arrives(req, Build(vals), 0, grams)
    ensures Received(req, grams) == Values(vals)
  {
    hide Build, BuildsReply, Arrives, ArrayBytes, ResponseDecode, Collect;
    BuildIsReplyIff(vals);
    var w := Build(vals);
    assert w == ArrayBytes(vals);
    ArrivedInOrder(req, w, 0, grams);
    assert PartsOf(w, 0) == [];
    DecodeInvertsReply(vals);
  }

  /** When a guard stops the builder, the client reports an error. */
  lemma RefusedReply(req: nat, vals: seq<Bulk>, grams: seq<Octets>)
    requires IsWord(req) && AreValues(vals) && !Fits(|CountLine(|vals|)|, vals)
    requires Arrives(req, Build(vals), 0, grams)
    ensures Received(req, grams) == Error
  {
    hide Fits, Arrives, Collect, BuildFrom;
    FiveDigits(|vals|);
    BuildFromIs(CountLine(|vals|), vals);
    var w := Build(vals);
    ArrivedInOrder(req, w, 0, grams);
    assert PartsOf(w, 0) == [];
  }

  /** When a nil ends at the end of the buffer, the client takes the reply for one that
      is cut off. */
  lemma LostLineFeed(req: nat, vals: seq<Bulk>, grams: seq<Octets>)
    requires IsWord(req) && AreValues(vals)
    requires Fits(|CountLine(|vals|)|, vals) && EndsInNil(|CountLine(|vals|)|, vals)
    requires Arrives(req, Build(vals), 0, grams)
    ensures Received(req, grams) == Error
  {
    hide Fits, Arrives, Collect, BuildFrom, BulksBytes, DecodeVals;
    FiveDigits(|vals|);
    BuildFromIs(CountLine(|vals|), vals);
    var w := Build(vals);
    ArrivedInOrder(req, w, 0, grams);
    assert PartsOf(w, 0) == [];
    assert w[|w| - 1] == 0;
  }

  /** With datagrams in order of first arrival, the client gets the values looked up if
      and only if the guards let all of them pass and no nil ends at the end of the
      buffer. */
  lemma RoundTripIff(req: nat, vals: seq<Bulk>, grams: seq<Octets>)
    requires IsWord(req) && AreValues(vals) && Arrives(req, Build(vals), 0, grams)
    ensures Received(req, grams) == Values(vals) <==> BuildsReply(vals)
  {
    hide Fits, EndsInNil, Build, Arrives, Received, AreValues;
    if BuildsReply(vals) {
      ReplyRoundTrip(req, vals, grams);
    } else if !Fits(|CountLine(|vals|)|, vals) {
      RefusedReply(req, vals, grams);
    } else {
      LostLineFeed(req, vals, grams);
    }
  }
}

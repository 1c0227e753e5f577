/** The loops of uRedis/udp.c and uRedis/uRedis.php, proved against module UdpReply. */
module UdpExchange {
  import opened Bytes
  import opened Options
  import opened Ascii
  import opened Resp
  import opened UdpReply

  /** memcpy into a buffer. */
  method Put(buf: array<Byte>, at: nat, text: Octets)
    requires at + |text| <= buf.Length
    modifies buf
    ensures buf[..at] == old(buf[..at]) && buf[at..at + |text|] == text
    ensures buf[..at + |text|] == old(buf[..at]) + text
  {
    forall i | 0 <= i < |text| { buf[at + i] := text[i]; }
    assert buf[at..at + |text|] == text;
  }

  /** snprintf with the rest of the buffer as its room. */
  method Print(buf: array<Byte>, at: nat, text: Octets) returns (n: nat)
    requires at + |text| <= buf.Length && text != []
    modifies buf
    ensures n == |text| && buf[..at + n] == old(buf[..at]) + Printed(text, buf.Length - at)
  {
    Put(buf, at, Printed(text, buf.Length - at));
    n := |text|;
  }

  method BuildReply(wbuf: array<Byte>, vals: seq<Bulk>) returns (wlen: nat)
    requires wbuf.Length == WBUF_LEN && |vals| <= 100
    modifies wbuf
    ensures wlen <= WBUF_LEN && wbuf[..wlen] == Build(vals)
  {
    hide Dec, ValueBytes, Printed;
    FiveDigits(|vals|);
    var line := CountLine(|vals|);
    assert Printed(line, WBUF_LEN) == line && wbuf[..0] + line == line by { Untruncated(line, WBUF_LEN); }
    wlen := Print(wbuf, 0, line);
    var i := 0;
    assert vals[0..] == vals;
    while i < |vals|
      invariant i <= |vals| && wlen <= WBUF_LEN
      invariant BuildFrom(wbuf[..wlen], vals[i..]) == Build(vals)
    {
      assert vals[i..][1..] == vals[i + 1..];
      match vals[i] {
        case Nil =>
          if wlen + 5 > WBUF_LEN {
            wlen := Refuse(wbuf);
            return;
          }
          var n := Print(wbuf, wlen, NIL_BULK);
          wlen := wlen + n;
        case Data(v) =>
          if wlen + |v| + 10 > WBUF_LEN {
            wlen := Refuse(wbuf);
            return;
          }
          wlen := PutValue(wbuf, wlen, v);
      }
      i := i + 1;
    }
  }

  method Refuse(wbuf: array<Byte>) returns (wlen: nat)
    requires wbuf.Length == WBUF_LEN
    modifies wbuf
    ensures wlen == |TOO_BIG| && wbuf[..wlen] == TOO_BIG
  {
    Put(wbuf, 0, TOO_BIG);
    wlen := |TOO_BIG|;
    assert wbuf[..0] + TOO_BIG == TOO_BIG;
  }

  lemma Untruncated(text: Octets, room: nat)
    requires 0 < |text| < room
    ensures Printed(text, room) == text && [] + text == text
  {}

  method PutValue(wbuf: array<Byte>, at: nat, v: Octets) returns (wlen: nat)
    requires wbuf.Length == WBUF_LEN && at + |v| + 10 <= WBUF_LEN
    modifies wbuf
    ensures wlen == at + |ValueBytes(v)| <= WBUF_LEN && wbuf[..wlen] == old(wbuf[..at]) + ValueBytes(v)
  {
    hide Dec;
    FiveDigits(|v|);
    var line := [DOLLAR] + Dec(|v|) + CRLF;
    Untruncated(line, WBUF_LEN - at);
    var n := Print(wbuf, at, line);
    wlen := at + n;
    Put(wbuf, wlen, v);
    wlen := wlen + |v|;
    Put(wbuf, wlen, CRLF);
    wlen := wlen + 2;
    Joined(old(wbuf[..at]), line, v);
  }

  lemma Joined(a: Octets, line: Octets, v: Octets)
    ensures a + line + v + CRLF == a + (line + (v + CRLF))
  {}

  /** One datagram, assembled in pbuf. */
  method Datagram(pbuf: array<Byte>, header: Octets, payload: Octets) returns (d: Octets)
    requires pbuf.Length == 1024 && |header| == 8 && |payload| <= PAYLOAD
    modifies pbuf
    ensures d == header + payload
  {
    Put(pbuf, 0, header);
    assert pbuf[..8] == header;
    Put(pbuf, 8, payload);
    d := pbuf[..8 + |payload|];
  }

  /** Sends the reply in datagrams of at most 1024 bytes. */
  method SendReply(req: nat, wbuf: array<Byte>, wlen: nat) returns (grams: seq<Octets>)
    requires IsWord(req) && wlen <= wbuf.Length && wlen <= WBUF_LEN
    ensures |grams| == Count(wbuf[..wlen])
    ensures forall k :: 0 <= k < |grams| ==> grams[k] == Fragment(req, wbuf[..wlen], k)
  {
    hide HeaderEncode;
    var ngram := wlen / PAYLOAD + 1;
    var pbuf := new Byte[1024];
    ghost var w := wbuf[..wlen];
    grams := [];
    for sequence := 0 to ngram
      invariant |grams| == sequence && wbuf[..wlen] == w
      invariant forall k :: 0 <= k < |grams| ==> grams[k] == Fragment(req, w, k)
    {
      var wpos := sequence * PAYLOAD;
      var wsize := if wlen - wpos > PAYLOAD then PAYLOAD else wlen - wpos;
      assert wbuf[wpos..wpos + wsize] == Payload(w, sequence);
      HeaderRoundTrip(req, sequence, ngram, []);
      var d := Datagram(pbuf, HeaderEncode(req, sequence, ngram).value, wbuf[wpos..wpos + wsize]);
      grams := grams + [d];
    }
  }

  method DecodeResponse(reps: Octets) returns (r: Decoded)
    requires reps != []
    ensures r == ResponseDecode(reps)
  {
    hide Strpos, Substr, Atoi, DecodeVals, Behind;
    if reps[0] != STAR { return Error; }
    if |reps| < 2 || !CrlfAt(reps, |reps| - 2) { return Error; }
    var start: nat := 1;
    var end := Strpos(reps, start);
    if end.None? { return Error; }
    var nval := Atoi(reps[start..end.value]);
    if nval < 1 { return Error; }
    start := end.value + 2;
    if start >= |reps| { return Error; }
    var ret, i := [], 0;
    ghost var first := start;
    BehindNothing(DecodeVals(reps, first, nval));
    while i < nval
      invariant i <= nval && DecodeVals(reps, first, nval) == Behind(ret, DecodeVals(reps, start, nval - i))
    {
      BehindOne(ret, reps, start, nval - i);
      BehindFailure(ret);
      end := Strpos(reps, start);
      if end.None? { return Error; }
      var vlen := Atoi(Substr(reps, start + 1, end.value - start));
      if vlen == -1 {
        ret := ret + [Nil];
        start := end.value + 2;
      } else {
        if vlen < 0 { return Negative; }
        start := end.value + 2;
        ret := ret + [Data(Substr(reps, start, vlen))];
        start := start + vlen + 2;
      }
      i := i + 1;
    }
    BehindNoMore(ret, reps, start);
    r := Values(ret);
  }

  function Behind(ret: seq<Bulk>, d: Decoded): Decoded {
    if d.Values? then Values(ret + d.vals) else d
  }

  lemma BehindNothing(d: Decoded)
    ensures Behind([], d) == d
  {
    if d.Values? { assert [] + d.vals == d.vals; }
  }

  lemma BehindNoMore(ret: seq<Bulk>, reps: Octets, start: nat)
    ensures Behind(ret, DecodeVals(reps, start, 0)) == Values(ret)
  {
    assert ret + [] == ret;
  }

  lemma BehindFailure(ret: seq<Bulk>)
    ensures Behind(ret, Error) == Error && Behind(ret, Negative) == Negative
  {}

  lemma BehindOne(ret: seq<Bulk>, reps: Octets, start: nat, n: nat)
    requires n > 0
    ensures var end := Strpos(reps, start);
            Behind(ret, DecodeVals(reps, start, n))
            == if end.None? then Error
               else
                 var vlen := Atoi(Substr(reps, start + 1, end.value - start));
                 if vlen == -1 then Behind(ret + [Nil], DecodeVals(reps, end.value + 2, n - 1))
                 else if vlen < 0 then Negative
                 else Behind(ret + [Data(Substr(reps, end.value + 2, vlen))],
                             DecodeVals(reps, end.value + 2 + vlen + 2, n - 1))
  {
    hide Strpos, Substr, Atoi, DecodeVals;
    var end := Strpos(reps, start);
    if end.Some? {
      var vlen := Atoi(Substr(reps, start + 1, end.value - start));
      DecodeOne(reps, start, n);
      if vlen == -1 {
        BehindPrepend(ret, Nil, DecodeVals(reps, end.value + 2, n - 1));
      } else if vlen >= 0 {
        BehindPrepend(ret, Data(Substr(reps, end.value + 2, vlen)), DecodeVals(reps, end.value + 2 + vlen + 2, n - 1));
      }
    } else {
      DecodeOne(reps, start, n);
    }
  }

  lemma DecodeOne(reps: Octets, start: nat, n: nat)
    requires n > 0
    ensures var end := Strpos(reps, start);
            DecodeVals(reps, start, n)
            == if end.None? then Error
               else
                 var vlen := Atoi(Substr(reps, start + 1, end.value - start));
                 if vlen == -1 then Prepend(Nil, DecodeVals(reps, end.value + 2, n - 1))
                 else if vlen < 0 then Negative
                 else
                   var rest := DecodeVals(reps, end.value + 2 + vlen + 2, n - 1);
                   Prepend(Data(Substr(reps, end.value + 2, vlen)), rest)
  {
    hide Strpos, Substr, Atoi;
  }

  lemma BehindPrepend(ret: seq<Bulk>, b: Bulk, d: Decoded)
    ensures Behind(ret, Prepend(b, d)) == Behind(ret + [b], d)
  {
    if d.Values? { assert ret + ([b] + d.vals) == ret + [b] + d.vals; }
  }

  /** The receive loop of the client and what follows it. */
  method Mget(req: nat, grams: seq<Octets>) returns (r: Decoded)
    ensures r == Received(req, grams)
  {
    hide Assign, HeaderDecode, ResponseDecode, Concat;
    var rs: Parts, k := [], 0;
    assert grams[0..] == grams;
    while true
      invariant k <= |grams| && Collect(req, [], grams) == Collect(req, rs, grams[k..])
      decreases |grams| - k
    {
      if k == |grams| { return Error; }
      var d := grams[k];
      assert grams[k..][1..] == grams[k + 1..];
      k := k + 1;
      if |d| < 8 { return Error; }
      var h := HeaderDecode(d);
      if h.0 != req { continue; }
      rs := Assign(rs, h.1, d[8..]);
      if |rs| == h.2 { break; }
    }
    var joined := Concat(Texts(rs));
    assert Collect(req, [], grams) == Some(joined);
    if joined == [] || joined[0] != STAR { return Error; }
    r := DecodeResponse(joined);
  }
}

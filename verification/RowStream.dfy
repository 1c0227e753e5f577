/** The stream of binary log events as the server sends it, and what the parser of
    ebinlog/BinlogRow.h makes of these bytes. */
module RowStream {
  import opened Bytes
  import opened LittleEndian
  import opened Options
  import opened TableMap
  import opened RowImage
  import opened RowParser

  // ---------------------------------------------------------------- the format

  /** An event of the binary log, version 4. */
  datatype LogEvent = LogEvent(time: nat, ty: Byte, serverId: nat, nextPos: nat, flags: nat, body: Octets)

  predicate IsLogEvent(e: LogEvent) {
    && e.time < Pow256(4) && e.serverId < Pow256(4) && e.nextPos < Pow256(4) && e.flags < Pow256(2)
    && 19 + |e.body| < Pow256(4)
  }

  /** The header of 19 bytes: when, what, from whom, how long, where the next event begins,
      and flags. */
  function HeaderBytes(e: LogEvent): (bs: Octets)
    ensures |bs| == 19
  {
    ToLe(e.time, 4) + [e.ty] + ToLe(e.serverId, 4) + ToLe(19 + |e.body|, 4) + ToLe(e.nextPos, 4) + ToLe(e.flags, 2)
  }

  function EventBytes(e: LogEvent): (bs: Octets)
    ensures |bs| == 19 + |e.body|
  {
    HeaderBytes(e) + e.body
  }

  function StreamBytes(es: seq<LogEvent>): Octets {
    if es == [] then [] else EventBytes(es[0]) + StreamBytes(es[1..])
  }

  /** Its type, length and body. */
  function EventOf(e: LogEvent): Event { Event(e.ty, 19 + |e.body|, e.body) }

  function EventsOf(es: seq<LogEvent>): (r: seq<Event>)
    ensures |r| == |es|
  {
    seq(|es|, i requires 0 <= i < |es| => EventOf(es[i]))
  }

  ghost predicate AreLogEvents(es: seq<LogEvent>) {
    forall i :: 0 <= i < |es| ==> IsLogEvent(es[i])
  }

  // ---------------------------------------------------------------- framing

  lemma HeaderFields(e: LogEvent, bs: Octets)
    requires HeaderBytes(e) <= bs && IsLogEvent(e)
    ensures bs[4] == e.ty && bs[9..13] == ToLe(19 + |e.body|, 4) && EventLength(bs) == 19 + |e.body|
  {
    hide ToLe, Le, Pow256;
    assert bs[9..13] == HeaderBytes(e)[9..13] == ToLe(19 + |e.body|, 4);
    LeRoundTrip(19 + |e.body|, 4);
  }

  /** An event that is there as a whole is the first event, and its bytes are taken. */
  lemma WholeEvent(e: LogEvent, rest: Octets)
    requires IsLogEvent(e)
    ensures var bs := EventBytes(e) + rest;
            && Complete(bs) && EventLength(bs) == 19 + |e.body| && FirstEvent(bs) == EventOf(e)
            && bs[EventLength(bs)..] == rest
  {
    hide EventLength, HeaderBytes;
    var bs := EventBytes(e) + rest;
    assert bs == HeaderBytes(e) + (e.body + rest);
    HeaderFields(e, bs);
    assert bs[19..19 + |e.body|] == e.body;
  }

  /** An event of which only a part is there is not taken. */
  lemma PartOfEvent(e: LogEvent, n: nat)
    requires IsLogEvent(e) && n < |EventBytes(e)|
    ensures !Complete(EventBytes(e)[..n])
  {
    hide EventLength, HeaderBytes;
    if n >= 19 {
      assert EventBytes(e)[..n][..19] == HeaderBytes(e);
      HeaderFields(e, EventBytes(e)[..n]);
    }
  }

  lemma FramesOfPart(part: Octets)
    requires !Complete(part)
    ensures Frames(part) == Framed([], part)
  {}

  lemma StreamParts(es: seq<LogEvent>, more: Octets)
    ensures StreamBytes(es) + more
            == if es == [] then more else EventBytes(es[0]) + (StreamBytes(es[1..]) + more)
  {
    hide EventBytes;
    if es == [] { assert [] + more == more; }
  }

  /** Any events, and the beginning of one more: exactly these events are framed, and that
      beginning is left. */
  lemma {:induction false} StreamFrames(es: seq<LogEvent>, e: LogEvent, n: nat)
    requires AreLogEvents(es) && IsLogEvent(e) && n < |EventBytes(e)|
    ensures Frames(StreamBytes(es) + EventBytes(e)[..n]) == Framed(EventsOf(es), EventBytes(e)[..n])
    decreases |es|
  {
    hide EventBytes, StreamBytes, EventLength, FirstEvent, Frames, IsLogEvent, EventOf, Complete;
    var part := EventBytes(e)[..n];
    StreamParts(es, part);
    if es == [] {
      PartOfEvent(e, n);
      FramesOfPart(part);
    } else {
      WholeEvent(es[0], StreamBytes(es[1..]) + part);
      StreamFrames(es[1..], e, n);
      FramesOfFirst(StreamBytes(es) + part);
      assert EventsOf(es) == [EventOf(es[0])] + EventsOf(es[1..]);
    }
  }
}

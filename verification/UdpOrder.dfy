/** The order in which the client of the UDP cache joins the fragments
    (uRedis/uRedis.php): that of their first arrivals, whatever their numbers. */
module UdpOrder {
  import opened Bytes
  import opened Options
  import opened UdpReply

  /** The datagrams of this request are fragments of the reply. */
  predicate AreFragments(req: nat, w: Octets, grams: seq<Octets>)
    requires IsWord(req) && |w| <= WBUF_LEN
  {
    forall i :: 0 <= i < |grams| && |grams[i]| >= 8 && HeaderDecode(grams[i]).0 == req ==>
      exists j :: 0 <= j < Count(w) && grams[i] == Fragment(req, w, j)
  }

  /** The numbers of the fragments in order of their first arrivals, after those seen. */
  function Order(req: int, seen: seq<int>, grams: seq<Octets>): seq<int>
    decreases |grams|
  {
    if grams == [] || |grams[0]| < 8 then seen
    else
      var h := HeaderDecode(grams[0]);
      var now := if h.0 != req || h.1 in seen then seen else seen + [h.1];
      if h.0 == req && |now| == h.2 then now else Order(req, now, grams[1..])
  }

  /** Numbers of fragments, none twice. */
  ghost predicate IsOrder(w: Octets, o: seq<int>) {
    && (forall k :: 0 <= k < |o| ==> 0 <= o[k] < Count(w))
    && (forall i, k :: 0 <= i < k < |o| ==> o[i] != o[k])
  }

  ghost function Dealt(w: Octets, o: seq<int>): (rs: Parts)
    requires IsOrder(w, o)
    ensures |rs| == |o|
  {
    seq(|o|, k requires 0 <= k < |o| => (o[k], Payload(w, o[k])))
  }

  ghost function Joined(w: Octets, o: seq<int>): Octets
    requires IsOrder(w, o)
  {
    Concat(Texts(Dealt(w, o)))
  }

  // ---------------------------------------------------------------- the order decides

  lemma {:induction false} AssignSame(rs: Parts, i: nat)
    requires i < |rs| && forall k, l :: 0 <= k < l < |rs| ==> rs[k].0 != rs[l].0
    ensures Assign(rs, rs[i].0, rs[i].1) == rs
    decreases |rs|
  {
    if i == 0 {
    } else {
      AssignSame(rs[1..], i - 1);
      assert rs[1..][i - 1] == rs[i] && rs == [rs[0]] + rs[1..];
    }
  }

  /** A fragment assigned again changes nothing, a new one comes last. */
  lemma AssignDealt(w: Octets, o: seq<int>, j: nat)
    requires IsOrder(w, o) && j < Count(w)
    ensures var now := if j in o then o else o + [j];
            IsOrder(w, now) && Assign(Dealt(w, o), j, Payload(w, j)) == Dealt(w, now)
  {
    hide Payload;
    if j in o {
      var i :| 0 <= i < |o| && o[i] == j;
      assert Dealt(w, o)[i] == (j as int, Payload(w, j));
      AssignSame(Dealt(w, o), i);
    } else {
      AssignNew(Dealt(w, o), j, Payload(w, j));
      assert Dealt(w, o + [j]) == Dealt(w, o) + [(j as int, Payload(w, j))];
    }
  }

  lemma {:induction false} CollectOrder(req: nat, w: Octets, seen: seq<int>, grams: seq<Octets>)
    requires IsWord(req) && |w| <= WBUF_LEN && AreFragments(req, w, grams) && IsOrder(w, seen)
    ensures var o := Order(req, seen, grams);
            && IsOrder(w, o)
            && (Collect(req, Dealt(w, seen), grams).Some? ==>
                |o| == Count(w) && Collect(req, Dealt(w, seen), grams) == Some(Joined(w, o)))
    decreases |grams|
  {
    hide Payload, Fragment, HeaderDecode, Dealt, Count, Assign, IsOrder;
    if grams == [] || |grams[0]| < 8 {
    } else if HeaderDecode(grams[0]).0 != req {
      CollectOrder(req, w, seen, grams[1..]);
    } else {
      var j :| 0 <= j < Count(w) && grams[0] == Fragment(req, w, j);
      FragmentParts(req, w, j);
      AssignDealt(w, seen, j);
      CollectOrder(req, w, if j in seen then seen else seen + [j], grams[1..]);
    }
  }

  // ---------------------------------------------------------------- when it is the reply

  /** The bytes of the last fragment. */
  function Short(w: Octets): nat { |w| % PAYLOAD }

  /** Where the payload that arrives k-th is put. */
  ghost function Place(w: Octets, o: seq<int>, k: nat): int
    requires k <= |o|
  {
    if Count(w) - 1 in o[..k] then (k - 1) * PAYLOAD + Short(w) else k * PAYLOAD
  }

  /** The reply has at the place of the k-th arrival the bytes that arrive. */
  ghost predicate Matches(w: Octets, o: seq<int>, k: nat)
    requires IsOrder(w, o) && k < |o|
  {
    var at := Place(w, o, k);
    0 <= at && at + |Payload(w, o[k])| <= |w| && w[at..at + |Payload(w, o[k])|] == Payload(w, o[k])
  }

  lemma PayloadLength(w: Octets, k: nat)
    requires k < Count(w)
    ensures |Payload(w, k)| == if k == Count(w) - 1 then Short(w) else PAYLOAD
    ensures |w| == (Count(w) - 1) * PAYLOAD + Short(w)
  {}

  ghost function Front(w: Octets, o: seq<int>, k: nat): Octets
    requires IsOrder(w, o) && k <= |o|
  {
    Joined(w, o[..k])
  }

  lemma FrontNext(w: Octets, o: seq<int>, k: nat)
    requires IsOrder(w, o) && k < |o|
    ensures Front(w, o, k + 1) == Front(w, o, k) + Payload(w, o[k])
  {
    hide Payload;
    var a, b := Texts(Dealt(w, o[..k])), Texts(Dealt(w, o[..k + 1]));
    assert b == a + [Payload(w, o[k])];
    ConcatLast(a, Payload(w, o[k]));
  }

  lemma {:induction false} FrontLength(w: Octets, o: seq<int>, k: nat)
    requires IsOrder(w, o) && k <= |o|
    ensures |Front(w, o, k)| == Place(w, o, k)
    decreases k
  {
    hide Payload, Front, Joined, Count;
    if k == 0 {
      assert Front(w, o, 0) == [] by { FrontEmpty(w, o); }
    } else {
      FrontLength(w, o, k - 1);
      FrontNext(w, o, k - 1);
      PayloadLength(w, o[k - 1]);
      assert o[..k] == o[..k - 1] + [o[k - 1]];
      if Count(w) - 1 in o[..k - 1] {
        var i :| 0 <= i < k - 1 && o[i] == Count(w) - 1;
        assert o[k - 1] != o[i];
      }
    }
  }

  lemma FrontEmpty(w: Octets, o: seq<int>)
    requires IsOrder(w, o)
    ensures Front(w, o, 0) == []
  {
    assert Texts(Dealt(w, o[..0])) == [];
  }

  lemma {:induction false} FrontIsPrefix(w: Octets, o: seq<int>, k: nat)
    requires IsOrder(w, o) && k <= |o|
    ensures Front(w, o, k) <= w <==> forall i :: 0 <= i < k ==> Matches(w, o, i)
    decreases k
  {
    hide Payload, Front, Place, Count;
    if k == 0 {
      FrontEmpty(w, o);
    } else {
      FrontIsPrefix(w, o, k - 1);
      FrontNext(w, o, k - 1);
      FrontLength(w, o, k - 1);
      var a, b := Front(w, o, k - 1), Payload(w, o[k - 1]);
      PrefixThen(a, b, w);
      assert Matches(w, o, k - 1) <==> |a| + |b| <= |w| && w[|a|..|a| + |b|] == b;
      assert (forall i :: 0 <= i < k ==> Matches(w, o, i)) <==>
          (forall i :: 0 <= i < k - 1 ==> Matches(w, o, i)) && Matches(w, o, k - 1);
    }
  }

  lemma PrefixThen(a: Octets, b: Octets, w: Octets)
    ensures a + b <= w <==> a <= w && |a| + |b| <= |w| && w[|a|..|a| + |b|] == b
  {
    if a <= w && |a| + |b| <= |w| && w[|a|..|a| + |b|] == b {
      assert w == a + b + w[|a| + |b|..];
    }
    if a + b <= w { assert w[..|a| + |b|] == a + b; }
  }

  lemma {:induction false} AtMost(o: seq<int>, s: set<int>)
    requires forall k :: 0 <= k < |o| ==> o[k] in s
    requires forall i, k :: 0 <= i < k < |o| ==> o[i] != o[k]
    ensures |o| <= |s|
    decreases |o|
  {
    if o == [] {
    } else {
      AtMost(o[1..], s - {o[0]});
    }
  }

  function Below(n: nat): (s: set<int>)
    ensures |s| == n && forall i :: i in s <==> 0 <= i < n
  {
    if n == 0 then {} else Below(n - 1) + {n - 1}
  }

  /** As many arrivals as there are fragments: every fragment. */
  lemma AllArrived(w: Octets, o: seq<int>, j: nat)
    requires IsOrder(w, o) && |o| == Count(w) && j < Count(w)
    ensures j in o
  {
    hide Count;
    if j !in o {
      AtMost(o, Below(Count(w)) - {j as int});
    }
  }

  /** The joined payloads are the reply if and only if each lies where the reply has it. */
  lemma JoinedIsReplyIff(w: Octets, o: seq<int>)
    requires IsOrder(w, o) && |o| == Count(w)
    ensures Joined(w, o) == w <==> forall k :: 0 <= k < |o| ==> Matches(w, o, k)
  {
    hide Payload, IsOrder, Joined, Matches, Place;
    assert o[..|o|] == o;
    FrontIsPrefix(w, o, |o|);
    FrontLength(w, o, |o|);
    assert Place(w, o, |o|) == |w| by { WholePlace(w, o); }
    assert Joined(w, o) <= w ==> Joined(w, o) == w;
  }

  lemma WholePlace(w: Octets, o: seq<int>)
    requires IsOrder(w, o) && |o| == Count(w)
    ensures Place(w, o, |o|) == |w|
  {
    hide IsOrder;
    assert o[..|o|] == o;
    AllArrived(w, o, Count(w) - 1);
  }

  /** What the client gets, for any arrival: the payloads in order of the first arrivals,
      which is the reply if and only if each of them lies where the reply has it. */
  lemma CollectIsReplyIff(req: nat, w: Octets, grams: seq<Octets>)
    requires IsWord(req) && |w| <= WBUF_LEN && AreFragments(req, w, grams)
    requires Collect(req, [], grams).Some?
    ensures var o := Order(req, [], grams);
            && IsOrder(w, o) && |o| == Count(w)
            && Collect(req, [], grams) == Some(Joined(w, o))
            && (Collect(req, [], grams) == Some(w) <==> forall k :: 0 <= k < |o| ==> Matches(w, o, k))
  {
    hide Payload, Joined, Matches, AreFragments;
    assert Dealt(w, []) == [];
    CollectOrder(req, w, [], grams);
    JoinedIsReplyIff(w, Order(req, [], grams));
  }

  /** If the last fragment arrives last, that is: if and only if the k-th arrival carries
      the k-th payload. */
  lemma LastComesLastIff(w: Octets, o: seq<int>)
    requires IsOrder(w, o) && |o| == Count(w) && o[|o| - 1] == Count(w) - 1
    ensures Joined(w, o) == w <==> forall k :: 0 <= k < |o| ==> Payload(w, o[k]) == Payload(w, k)
  {
    hide Joined, Payload;
    JoinedIsReplyIff(w, o);
    forall k | 0 <= k < |o| ensures Matches(w, o, k) <==> Payload(w, o[k]) == Payload(w, k) {
      assert Place(w, o, k) == k * PAYLOAD by { EarlyPlace(w, o, k); }
      PayloadAt(w, k);
      PayloadLength(w, k);
      PayloadLength(w, o[k]);
      assert o[k] == Count(w) - 1 <==> k == Count(w) - 1;
    }
  }

  lemma EarlyPlace(w: Octets, o: seq<int>, k: nat)
    requires IsOrder(w, o) && |o| == Count(w) && o[|o| - 1] == Count(w) - 1 && k < |o|
    ensures Place(w, o, k) == k * PAYLOAD
  {
    hide Count;
  }

  lemma PayloadAt(w: Octets, k: nat)
    requires k < Count(w)
    ensures k * PAYLOAD + |Payload(w, k)| <= |w|
    ensures Payload(w, k) == w[k * PAYLOAD..k * PAYLOAD + |Payload(w, k)|]
  {}

  /** If moreover no payload comes twice: if and only if the first arrivals are in order of
      the numbers. */
  lemma InOrderIff(w: Octets, o: seq<int>)
    requires IsOrder(w, o) && |o| == Count(w) && o[|o| - 1] == Count(w) - 1
    requires forall i, k :: 0 <= i < k < Count(w) ==> Payload(w, i) != Payload(w, k)
    ensures Joined(w, o) == w <==> forall k :: 0 <= k < |o| ==> o[k] == k
  {
    hide Joined, Payload;
    LastComesLastIff(w, o);
  }

  /** With the last fragment early no such condition decides: two fragments of 1017 equal
      bytes, swapped, are joined to the reply, although neither carries the payload of the
      place where it arrives. */
  lemma SwappedAndWhole(w: Octets)
    requires |w| == 1017 && forall i :: 0 <= i < |w| ==> w[i] == w[0]
    ensures var grams := [Fragment(0, w, 1), Fragment(0, w, 0)];
            && Order(0, [], grams) == [1, 0]
            && Collect(0, [], grams) == Some(w)
            && Payload(w, 1) != Payload(w, 0)
  {
    hide HeaderDecode, Fragment;
    FragmentParts(0, w, 0);
    FragmentParts(0, w, 1);
    var one, zero := Payload(w, 1), Payload(w, 0);
    assert zero == w[..1016] && one == w[1016..];
    assert Texts([(1, one), (0, zero)]) == [one, zero];
    assert Concat([zero]) == zero + Concat([zero][1..]) == zero;
    assert [one, zero][1..] == [zero];
    assert one + zero == w;
    var grams := [Fragment(0, w, 1), Fragment(0, w, 0)];
    assert grams[1..] == [Fragment(0, w, 0)];
    assert Assign([], 1, one) == [(1, one)];
    assert [(1, one)][1..] == Assign([], 1, one)[1..] == [];
    assert Assign([(1, one)], 0, zero) == [(1, one), (0, zero)];
    assert Collect(0, [], grams) == Collect(0, [(1, one)], grams[1..]);
  }

  // ---------------------------------------------------------------- when it ends

  lemma {:induction false} OrderHas(req: nat, w: Octets, seen: seq<int>, grams: seq<Octets>)
    requires IsWord(req) && |w| <= WBUF_LEN && AreFragments(req, w, grams) && IsOrder(w, seen)
    requires forall i :: 0 <= i < |grams| ==> |grams[i]| >= 8
    requires |seen| < Count(w)
    ensures var c := Collect(req, Dealt(w, seen), grams);
            && (c.Some? ==> forall j :: 0 <= j < Count(w) ==> j in seen || Fragment(req, w, j) in grams)
            && (c.None? ==> exists j :: 0 <= j < Count(w) && j !in seen && Fragment(req, w, j) !in grams)
    decreases |grams|
  {
    hide Payload, Fragment, HeaderDecode, Dealt, Count, Assign, IsOrder;
    if grams == [] {
      SomeMissing(w, seen);
    } else if HeaderDecode(grams[0]).0 != req {
      OrderHas(req, w, seen, grams[1..]);
      forall j | 0 <= j < Count(w) ensures grams[0] != Fragment(req, w, j) { FragmentParts(req, w, j); }
    } else {
      var i :| 0 <= i < Count(w) && grams[0] == Fragment(req, w, i);
      FragmentParts(req, w, i);
      AssignDealt(w, seen, i);
      var now := if i in seen then seen else seen + [i];
      forall j | 0 <= j < Count(w) && j != i ensures grams[0] != Fragment(req, w, j) { FragmentParts(req, w, j); }
      assert Fragment(req, w, i) in grams;
      if |now| == Count(w) {
        forall j | 0 <= j < Count(w) ensures j in seen || j == i { AllArrived(w, now, j); }
      } else {
        NotMore(w, now);
        OrderHas(req, w, now, grams[1..]);
      }
    }
  }

  lemma NotMore(w: Octets, o: seq<int>)
    requires IsOrder(w, o)
    ensures |o| <= Count(w)
  {
    hide Count;
    AtMost(o, Below(Count(w)));
  }

  function Elements(o: seq<int>): (s: set<int>)
    ensures |s| <= |o| && forall x :: x in s <==> x in o
  {
    if o == [] then {} else {o[0]} + Elements(o[1..])
  }

  lemma SomeMissing(w: Octets, o: seq<int>)
    requires IsOrder(w, o) && |o| < Count(w)
    ensures exists j :: 0 <= j < Count(w) && j !in o
  {
    hide Count;
    var all := seq(Count(w), i => i);
    if forall j :: 0 <= j < Count(w) ==> j in o { AtMost(all, Elements(o)); }
  }

  /** The client gets an answer if and only if every fragment arrives. */
  lemma CollectEndsIff(req: nat, w: Octets, grams: seq<Octets>)
    requires IsWord(req) && |w| <= WBUF_LEN && AreFragments(req, w, grams)
    requires forall i :: 0 <= i < |grams| ==> |grams[i]| >= 8
    ensures Collect(req, [], grams).Some? <==> forall j :: 0 <= j < Count(w) ==> Fragment(req, w, j) in grams
  {
    hide Payload, Fragment, AreFragments;
    assert Dealt(w, []) == [];
    OrderHas(req, w, [], grams);
  }
}

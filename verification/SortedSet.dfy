/** The byte-packed sorted set of vector_udf/vector.c. */
module SortedSet {
  import opened Bytes
  import opened LittleEndian
  import opened Options
  import opened Ascii

  type Word = w: int | 0 <= w < 0x1_0000_0000

  const HALF: int := 0x8000_0000
  const MAX_VECTOR_LEN: nat := 16384
  const MAX_OBJECTS: nat := 2048

  datatype Object = Object(member: Word, score: Word)

  // ---------------------------------------------------------------- bytes

  function ObjectBytes(o: Object): (bs: Octets)
    ensures |bs| == 8
  {
    ToLe(o.member, 4) + ToLe(o.score, 4)
  }

  function Blob(os: seq<Object>): (bs: Octets)
    ensures |bs| == 8 * |os|
  {
    if os == [] then [] else ObjectBytes(os[0]) + Blob(os[1..])
  }

  function WordOf(bs: Octets): Word
    requires |bs| == 4
  {
    LeBound(bs);
    PowersOf256();
    Le(bs)
  }

  function Objects(bs: Octets): (os: seq<Object>)
    requires |bs| % 8 == 0
    ensures |os| == |bs| / 8
  {
    if bs == [] then [] else [Object(WordOf(bs[..4]), WordOf(bs[4..8]))] + Objects(bs[8..])
  }

  lemma {:induction false} BlobRoundTrip(os: seq<Object>)
    ensures Objects(Blob(os)) == os
  {
    hide WordOf, ToLe, Le;
    if os == [] {
    } else {
      WordRoundTrip(os[0].member);
      WordRoundTrip(os[0].score);
      BlobRoundTrip(os[1..]);
      var bs := Blob(os);
      assert bs[..4] == ToLe(os[0].member, 4) && bs[4..8] == ToLe(os[0].score, 4) && bs[8..] == Blob(os[1..]);
    }
  }

  lemma WordRoundTrip(w: Word)
    ensures WordOf(ToLe(w, 4)) == w
  {
    hide ToLe, Le;
    PowersOf256();
    LeRoundTrip(w, 4);
  }

  // ---------------------------------------------------------------- the comparison

  /** The difference of two unsigned scores, returned as an int. */
  function ObjectCmp(a: Object, b: Object): int {
    var d := (a.score - b.score) % 0x1_0000_0000;
    if d >= HALF then d - 0x1_0000_0000 else d
  }

  /** The comparison tells the order of two scores, both ways round, if and only if they
      differ by less than 2^31. */
  lemma CmpIsOrderIff(a: Object, b: Object)
    ensures (&& (ObjectCmp(a, b) < 0 <==> a.score < b.score) && (ObjectCmp(a, b) > 0 <==> a.score > b.score)
             && (ObjectCmp(b, a) < 0 <==> b.score < a.score) && (ObjectCmp(b, a) > 0 <==> b.score > a.score))
            <==> -HALF < a.score - b.score < HALF
  {
    var d: int := a.score - b.score;
    assert d % 0x1_0000_0000 == if d >= 0 then d else d + 0x1_0000_0000;
    assert (-d) % 0x1_0000_0000 == if d <= 0 then -d else 0x1_0000_0000 - d;
  }

  /** What qsort asks of a comparison. */
  ghost predicate Consistent(os: seq<Object>) {
    && (forall x, y :: x in os && y in os ==> (ObjectCmp(x, y) > 0 <==> ObjectCmp(y, x) < 0))
    && (forall x, y, z :: x in os && y in os && z in os ==>
          (ObjectCmp(x, y) <= 0 && ObjectCmp(y, z) <= 0 ==> ObjectCmp(x, z) <= 0))
  }

  ghost predicate CmpSorted(os: seq<Object>) {
    forall i, j :: 0 <= i < j < |os| ==> ObjectCmp(os[i], os[j]) <= 0
  }

  ghost predicate Ascending(os: seq<Object>) {
    forall i, j :: 0 <= i < j < |os| ==> os[i].score <= os[j].score
  }

  /** All scores lie within a range of 2^31. */
  ghost predicate Near(os: seq<Object>) {
    forall x, y :: x in os && y in os ==> x.score - y.score < HALF
  }

  lemma NearIsConsistent(os: seq<Object>)
    requires Near(os)
    ensures Consistent(os) && (CmpSorted(os) ==> Ascending(os))
  {
    hide ObjectCmp;
    forall x, y | x in os && y in os
      ensures (ObjectCmp(x, y) > 0 <==> x.score > y.score) && (ObjectCmp(x, y) < 0 <==> x.score < y.score)
    {
      CmpIsOrderIff(x, y);
    }
  }

  /** What is sorted by a consistent comparison ascends if and only if the scores lie within
      a range of 2^31; two scores exactly 2^31 apart make the comparison inconsistent. */
  lemma AscendingIffNear(os: seq<Object>)
    requires Consistent(os) && CmpSorted(os)
    ensures Ascending(os) <==> Near(os)
  {
    hide ObjectCmp;
    if Near(os) { NearIsConsistent(os); }
    if Ascending(os) {
      forall x, y | x in os && y in os ensures x.score - y.score < HALF {
        if x.score - y.score >= HALF {
          var i :| 0 <= i < |os| && os[i] == y;
          var j :| 0 <= j < |os| && os[j] == x;
          assert os[i].score < os[j].score;
          FarIsReversed(x, y);
        }
      }
    }
  }

  /** From 2^31 on the comparison does not put the larger score behind the smaller one. */
  lemma FarIsReversed(x: Object, y: Object)
    requires x.score - y.score >= HALF
    ensures ObjectCmp(y, x) > 0 || (ObjectCmp(y, x) < 0 && ObjectCmp(x, y) < 0)
  {
    var d: int := y.score - x.score;
    assert d % 0x1_0000_0000 == d + 0x1_0000_0000;
    assert (-d) % 0x1_0000_0000 == -d;
  }

  // ---------------------------------------------------------------- sorting

  ghost predicate IsPerm(p: seq<nat>, n: nat) {
    && |p| == n
    && (forall i :: 0 <= i < n ==> p[i] < n)
    && (forall i, j :: 0 <= i < j < n ==> p[i] != p[j])
    && (forall k :: 0 <= k < n ==> k in p)
  }

  ghost predicate Permuted(a: seq<Object>, b: seq<Object>, p: seq<nat>) {
    |a| == |b| && IsPerm(p, |a|) && forall i :: 0 <= i < |b| ==> b[i] == a[p[i]]
  }

  ghost predicate Sorts(a: seq<Object>, b: seq<Object>) {
    (exists p :: Permuted(a, b, p)) && (Consistent(a) ==> CmpSorted(b))
  }

  function Swapped<T>(s: seq<T>, j: nat): seq<T>
    requires 0 < j < |s|
  {
    s[j := s[j - 1]][j - 1 := s[j]]
  }

  lemma SwapPerm(a: seq<Object>, b: seq<Object>, p: seq<nat>, j: nat)
    requires Permuted(a, b, p) && 0 < j < |b|
    ensures Permuted(a, Swapped(b, j), Swapped(p, j))
  {
    var q := Swapped(p, j);
    forall k | 0 <= k < |a| ensures k in q {
      assert k in p;
      var i :| 0 <= i < |p| && p[i] == k;
      assert q[if i == j then j - 1 else if i == j - 1 then j else i] == k;
    }
  }

  /** The part up to i is sorted but for the element at j. */
  ghost predicate SortedBut(b: seq<Object>, i: nat, j: nat) {
    forall x, y :: 0 <= x < y <= i < |b| && y != j ==> ObjectCmp(b[x], b[y]) <= 0
  }

  lemma SwapSorted(a: seq<Object>, b: seq<Object>, p: seq<nat>, i: nat, j: nat)
    requires Permuted(a, b, p) && Consistent(a) && 0 < j <= i < |b| && SortedBut(b, i, j)
    requires ObjectCmp(b[j - 1], b[j]) > 0
    ensures SortedBut(Swapped(b, j), i, j - 1)
  {
    hide ObjectCmp;
    assert b[j] == a[p[j]] && b[j - 1] == a[p[j - 1]];
  }

  lemma RestSorted(a: seq<Object>, b: seq<Object>, p: seq<nat>, i: nat, j: nat)
    requires Permuted(a, b, p) && Consistent(a) && j <= i < |b| && SortedBut(b, i, j)
    requires j == 0 || ObjectCmp(b[j - 1], b[j]) <= 0
    ensures CmpSorted(b[..i + 1])
  {
    hide ObjectCmp;
    forall x, y | 0 <= x < y <= i ensures ObjectCmp(b[x], b[y]) <= 0 {
      if y == j && x < j - 1 {
        assert b[x] == a[p[x]] && b[j] == a[p[j]] && b[j - 1] == a[p[j - 1]];
      }
    }
  }

  lemma NothingPermuted(a: seq<Object>, p: seq<nat>)
    requires |p| == |a| && forall k :: 0 <= k < |a| ==> p[k] == k
    ensures Permuted(a, a, p)
  {
    forall k | 0 <= k < |a| ensures k in p {
      assert p[k] == k;
    }
  }

  /** Moves the element at i down to its place. */
  method Insert(ptr: array<Object>, n: nat, i: nat, ghost a: seq<Object>, ghost p: seq<nat>) returns (ghost q: seq<nat>)
    requires i < n <= ptr.Length && Permuted(a, ptr[..n], p) && (Consistent(a) ==> CmpSorted(ptr[..i]))
    modifies ptr
    ensures Permuted(a, ptr[..n], q) && (Consistent(a) ==> CmpSorted(ptr[..i + 1]))
  {
    hide ObjectCmp, Consistent, Permuted, SortedBut, CmpSorted;
    q := p;
    var j := i;
    assert ptr[..n][..i] == ptr[..i];
    if Consistent(a) { Unfolded(ptr[..n], i); }
    while j > 0 && ObjectCmp(ptr[j - 1], ptr[j]) > 0
      invariant 0 <= j <= i && Permuted(a, ptr[..n], q)
      invariant Consistent(a) ==> SortedBut(ptr[..n], i, j)
    {
      ghost var was := ptr[..n];
      SwapPerm(a, was, q, j);
      if Consistent(a) { SwapSorted(a, was, q, i, j); }
      ptr[j - 1], ptr[j] := ptr[j], ptr[j - 1];
      assert ptr[..n] == Swapped(was, j);
      PermutedLengths(a, was, q);
      q := Swapped(q, j);
      j := j - 1;
    }
    if Consistent(a) { RestSorted(a, ptr[..n], q, i, j); }
    assert ptr[..n][..i + 1] == ptr[..i + 1];
  }

  lemma PermutedLengths(a: seq<Object>, b: seq<Object>, p: seq<nat>)
    requires Permuted(a, b, p)
    ensures |a| == |b| == |p|
  {}

  /** Stands for the library's qsort: some permutation, sorted if the comparison is
      consistent. */
  method Qsort(ptr: array<Object>, n: nat)
    requires n <= ptr.Length
    modifies ptr
    ensures Sorts(old(ptr[..n]), ptr[..n])
  {
    hide ObjectCmp, Consistent, Permuted;
    ghost var a := ptr[..n];
    ghost var p: seq<nat> := seq(n, i requires 0 <= i < n => i);
    NothingPermuted(a, p);
    for i := 0 to n
      invariant Permuted(a, ptr[..n], p) && (Consistent(a) ==> CmpSorted(ptr[..i]))
    {
      p := Insert(ptr, n, i, a, p);
    }
  }

  lemma Unfolded(b: seq<Object>, i: nat)
    requires i < |b| && CmpSorted(b[..i])
    ensures SortedBut(b, i, i)
  {
    hide ObjectCmp;
    forall x, y | 0 <= x < y < i ensures ObjectCmp(b[x], b[y]) <= 0 {
      assert b[..i][x] == b[x] && b[..i][y] == b[y];
    }
  }

  // ---------------------------------------------------------------- operations

  predicate Has(os: seq<Object>, member: Word) {
    exists i :: 0 <= i < |os| && os[i].member == member
  }

  function Rescored(os: seq<Object>, member: Word, score: Word): (r: seq<Object>)
    ensures |r| == |os|
  {
    seq(|os|, i requires 0 <= i < |os| => if os[i].member == member then Object(member, score) else os[i])
  }

  /** What zadd sorts: the member's score replaced, or the member appended if there is
      room for it. */
  function Added(os: seq<Object>, member: Word, score: Word): seq<Object> {
    if Has(os, member) then Rescored(os, member, score)
    else if |os| < MAX_OBJECTS then os + [Object(member, score)]
    else os
  }

  function Removed(os: seq<Object>, member: Word): seq<Object> {
    if os == [] then []
    else Removed(os[..|os| - 1], member) + if os[|os| - 1].member != member then [os[|os| - 1]] else []
  }

  predicate IsPacked(bs: Octets) { |bs| % 8 == 0 && |bs| <= MAX_VECTOR_LEN }

  /** Data too long is cut off, data that is not a whole number of objects copied. */
  function Refused(bs: Octets): Octets {
    if |bs| > MAX_VECTOR_LEN then bs[..MAX_VECTOR_LEN] else bs
  }

  /** What zadd may return; qsort leaves the order of equal scores open. */
  ghost predicate ZaddGives(data: Octets, member: Word, score: Word, out: Octets) {
    if !IsPacked(data) then out == Refused(data)
    else |out| % 8 == 0 && Sorts(Added(Objects(data), member, score), Objects(out))
  }

  /** What zrem returns. */
  function ZremGives(data: Octets, member: Word): Octets {
    if |data| + 8 > MAX_VECTOR_LEN || |data| % 8 != 0 then Refused(data) else Blob(Removed(Objects(data), member))
  }

  function Zcard(data: Octets): int {
    if |data| > MAX_VECTOR_LEN || |data| % 8 != 0 then -1 else |data| / 8
  }

  /** Data that is no set comes back as it is, up to its first 16384 bytes, from zadd and zrem,
      and has no card. */
  lemma MalformedIsKept(data: Octets, member: Word, score: Word, out: Octets)
    requires |data| > 16384 || |data| % 8 != 0
    ensures var kept := if |data| > 16384 then data[..16384] else data;
            (ZaddGives(data, member, score, out) <==> out == kept) && ZremGives(data, member) == kept
    ensures Zcard(data) == -1
  {}

  // ---------------------------------------------------------------- runs

  datatype Op = Add(member: Word, score: Word) | Rem(member: Word)

  ghost predicate StepGives(data: Octets, op: Op, out: Octets) {
    match op
    case Add(m, s) => ZaddGives(data, m, s, out)
    case Rem(m) => out == ZremGives(data, m)
  }

  /** The same operation on a map.  Both a new member and a removal are refused at 2048
      entries. */
  function OnMap(m: map<Word, Word>, op: Op): map<Word, Word> {
    match op
    case Add(k, s) => if k in m || |m| < MAX_OBJECTS then m[k := s] else m
    case Rem(k) => if |m| < MAX_OBJECTS then m - {k} else m
  }

  ghost predicate DistinctMembers(os: seq<Object>) {
    forall i, j :: 0 <= i < j < |os| ==> os[i].member != os[j].member
  }

  /** The objects are the entries of the map, each once. */
  ghost predicate Agrees(os: seq<Object>, m: map<Word, Word>) {
    && DistinctMembers(os)
    && (forall i :: 0 <= i < |os| ==> os[i].member in m && m[os[i].member] == os[i].score)
    && (forall k :: k in m ==> Has(os, k))
  }

  lemma {:induction false} AgreeingSize(os: seq<Object>, m: map<Word, Word>)
    requires Agrees(os, m)
    ensures |os| == |m|
    decreases |os|
  {
    if os == [] {
      assert m == map[];
    } else {
      var n := |os| - 1;
      var k := os[n].member;
      var rest := m - {k};
      forall x | x in rest ensures Has(os[..n], x) {
        var i :| 0 <= i < |os| && os[i].member == x;
        assert os[..n][i].member == x;
      }
      AgreeingSize(os[..n], rest);
      assert m.Keys == rest.Keys + {k};
      assert |m| == |m.Keys| && |rest| == |rest.Keys|;
    }
  }

  lemma PermutedAgrees(a: seq<Object>, b: seq<Object>, m: map<Word, Word>)
    requires Agrees(a, m) && exists p :: Permuted(a, b, p)
    ensures Agrees(b, m)
  {
    var p :| Permuted(a, b, p);
    forall k | k in m ensures Has(b, k) {
      var i :| 0 <= i < |a| && a[i].member == k;
      assert i in p;
      var j :| 0 <= j < |p| && p[j] == i;
      assert b[j].member == k;
    }
  }

  lemma AddedAgrees(os: seq<Object>, m: map<Word, Word>, k: Word, s: Word)
    requires Agrees(os, m)
    ensures Agrees(Added(os, k, s), OnMap(m, Add(k, s)))
  {
    AgreeingSize(os, m);
    var r, n := Added(os, k, s), OnMap(m, Add(k, s));
    forall x | x in n ensures Has(r, x) {
      if x in m {
        var i :| 0 <= i < |os| && os[i].member == x;
        assert r[i].member == x;
      } else {
        assert r[|os|].member == x;
      }
    }
  }

  lemma {:induction false} RemovedMembers(os: seq<Object>, k: Word)
    ensures |Removed(os, k)| <= |os|
    ensures forall o :: o in Removed(os, k) <==> o in os && o.member != k
    decreases |os|
  {
    if os == [] {
    } else {
      var n := |os| - 1;
      RemovedMembers(os[..n], k);
      assert forall o :: o in os <==> o in os[..n] || o == os[n];
    }
  }

  /** Where the objects that are left came from. */
  lemma {:induction false} RemovedFrom(os: seq<Object>, n: nat, k: Word) returns (at: seq<nat>)
    requires n <= |os|
    ensures |at| == |Removed(os[..n], k)|
    ensures forall i :: 0 <= i < |at| ==> at[i] < n && Removed(os[..n], k)[i] == os[at[i]]
    ensures forall i, j :: 0 <= i < j < |at| ==> at[i] < at[j]
    decreases n
  {
    hide Removed;
    if n == 0 {
      at := [];
      RemovedNothing(k);
    } else {
      at := RemovedFrom(os, n - 1, k);
      RemovedStep(os, n - 1, k);
      var before, after := Removed(os[..n - 1], k), Removed(os[..n], k);
      if os[n - 1].member == k {
        assert after == before;
      } else {
        assert after == before + [os[n - 1]];
        at := at + [n - 1];
      }
    }
  }

  lemma RemovedNothing(k: Word)
    ensures Removed([], k) == []
  {}

  lemma RemovedStep(os: seq<Object>, i: nat, k: Word)
    requires i < |os|
    ensures Removed(os[..i + 1], k) == Removed(os[..i], k) + if os[i].member != k then [os[i]] else []
  {
    assert os[..i + 1][..i] == os[..i];
  }

  lemma RemovedKeepsOrder(os: seq<Object>, k: Word)
    ensures DistinctMembers(os) ==> DistinctMembers(Removed(os, k))
    ensures Ascending(os) ==> Ascending(Removed(os, k))
  {
    hide Removed;
    var at := RemovedFrom(os, |os|, k);
    assert os[..|os|] == os;
    var r := Removed(os, k);
    forall i, j | 0 <= i < j < |r|
      ensures (DistinctMembers(os) ==> r[i].member != r[j].member) && (Ascending(os) ==> r[i].score <= r[j].score)
    {
      assert at[i] < at[j] && r[i] == os[at[i]] && r[j] == os[at[j]];
    }
  }

  lemma RemovedIs(os: seq<Object>, k: Word)
    ensures |Removed(os, k)| <= |os| && !Has(Removed(os, k), k)
    ensures forall o :: o in Removed(os, k) <==> o in os && o.member != k
    ensures DistinctMembers(os) ==> DistinctMembers(Removed(os, k))
    ensures Ascending(os) ==> Ascending(Removed(os, k))
  {
    hide Removed, DistinctMembers, Ascending;
    RemovedMembers(os, k);
    RemovedKeepsOrder(os, k);
    forall i | 0 <= i < |Removed(os, k)| ensures Removed(os, k)[i].member != k {
      assert Removed(os, k)[i] in Removed(os, k);
    }
  }

  lemma RemovedAgrees(os: seq<Object>, m: map<Word, Word>, k: Word)
    requires Agrees(os, m)
    ensures Agrees(Removed(os, k), m - {k})
  {
    RemovedIs(os, k);
    var r := Removed(os, k);
    forall i | 0 <= i < |r| ensures r[i].member in m - {k} && (m - {k})[r[i].member] == r[i].score {
      assert r[i] in os;
    }
    forall x | x in m - {k} ensures Has(r, x) {
      var i :| 0 <= i < |os| && os[i].member == x;
      assert os[i] in r;
    }
  }

  /** One operation does to the packed set what it does to the map. */
  lemma StepAgrees(data: Octets, m: map<Word, Word>, op: Op, out: Octets)
    requires IsPacked(data) && Agrees(Objects(data), m) && StepGives(data, op, out)
    ensures IsPacked(out) && Agrees(Objects(out), OnMap(m, op))
  {
    hide Objects, Blob, Agrees, Removed, Consistent, CmpSorted, Permuted;
    var os := Objects(data);
    AgreeingSize(os, m);
    match op
    case Add(k, s) =>
      AddedAgrees(os, m, k, s);
      PermutedAgrees(Added(os, k, s), Objects(out), OnMap(m, op));
      AddedSize(os, k, s, Objects(out));
    case Rem(k) =>
      if |os| < MAX_OBJECTS {
        RemovedAgrees(os, m, k);
        RemovedIs(os, k);
        BlobRoundTrip(Removed(os, k));
      }
  }

  lemma AddedSize(os: seq<Object>, k: Word, s: Word, out: seq<Object>)
    requires Sorts(Added(os, k, s), out) && |os| <= MAX_OBJECTS
    ensures |out| == |Added(os, k, s)| <= MAX_OBJECTS
  {}

  function RunOnMap(m: map<Word, Word>, ops: seq<Op>): map<Word, Word> {
    if ops == [] then m else OnMap(RunOnMap(m, ops[..|ops| - 1]), ops[|ops| - 1])
  }

  /** The values of a run: each from the one before by the next operation. */
  ghost predicate IsRun(blobs: seq<Octets>, ops: seq<Op>) {
    && |blobs| == |ops| + 1 && blobs[0] == []
    && forall i :: 0 <= i < |ops| ==> StepGives(blobs[i], ops[i], blobs[i + 1])
  }

  /** Any run of additions and removals from the empty value keeps whole objects, at most
      2048 of them, with distinct members, and agrees with the same run on a map. */
  lemma {:induction false} RunAgrees(blobs: seq<Octets>, ops: seq<Op>)
    requires IsRun(blobs, ops)
    ensures IsPacked(blobs[|ops|]) && Agrees(Objects(blobs[|ops|]), RunOnMap(map[], ops))
    ensures Zcard(blobs[|ops|]) == |RunOnMap(map[], ops)| <= MAX_OBJECTS
    decreases |ops|
  {
    hide Agrees, StepGives, OnMap, Objects;
    if ops == [] {
      NothingAgrees();
    } else {
      var n := |ops| - 1;
      RunAgrees(blobs[..n + 1], ops[..n]);
      StepAgrees(blobs[n], RunOnMap(map[], ops[..n]), ops[n], blobs[n + 1]);
    }
    AgreeingSize(Objects(blobs[|ops|]), RunOnMap(map[], ops));
  }

  lemma NothingAgrees()
    ensures Agrees(Objects([]), map[])
  {}

  lemma HasInMap(os: seq<Object>, m: map<Word, Word>, k: Word)
    requires Agrees(os, m)
    ensures Has(os, k) <==> k in m
  {}

  /** A member that a run has stored is gone after zrem if and only if fewer than 2048
      entries are stored. */
  lemma ZremRemovesIff(blobs: seq<Octets>, ops: seq<Op>, k: Word)
    requires IsRun(blobs, ops) && |blobs[|ops|]| % 8 == 0 && Has(Objects(blobs[|ops|]), k)
    ensures |ZremGives(blobs[|ops|], k)| % 8 == 0
    ensures !Has(Objects(ZremGives(blobs[|ops|], k)), k) <==> |Objects(blobs[|ops|])| < MAX_OBJECTS
  {
    hide Objects, Blob, Removed, RunOnMap, Has, StepGives;
    RunAgrees(blobs, ops);
    var data := blobs[|ops|];
    RemovedIs(Objects(data), k);
    BlobRoundTrip(Removed(Objects(data), k));
  }

  /** A new member is stored by zadd if and only if fewer than 2048 entries are. */
  lemma ZaddStoresIff(blobs: seq<Octets>, ops: seq<Op>, k: Word, score: Word, out: Octets)
    requires IsRun(blobs, ops) && |blobs[|ops|]| % 8 == 0 && !Has(Objects(blobs[|ops|]), k)
    requires ZaddGives(blobs[|ops|], k, score, out)
    ensures |out| % 8 == 0
    ensures Has(Objects(out), k) <==> |Objects(blobs[|ops|])| < MAX_OBJECTS
  {
    hide Objects, RunOnMap, Has, ZaddGives, Agrees;
    RunAgrees(blobs, ops);
    var data, m := blobs[|ops|], RunOnMap(map[], ops);
    StepAgrees(data, m, Add(k, score), out);
    AgreeingSize(Objects(data), m);
    HasInMap(Objects(data), m, k);
    HasInMap(Objects(out), OnMap(m, Add(k, score)), k);
  }

  /** Once a run has filled the set, no operation changes its members. */
  lemma FullStaysFull(blobs: seq<Octets>, ops: seq<Op>, op: Op, out: Octets, k: Word)
    requires IsRun(blobs, ops) && |blobs[|ops|]| % 8 == 0 && |Objects(blobs[|ops|])| == MAX_OBJECTS
    requires StepGives(blobs[|ops|], op, out)
    ensures |out| % 8 == 0 && (Has(Objects(out), k) <==> Has(Objects(blobs[|ops|]), k))
  {
    hide Objects, RunOnMap, Has, StepGives, Agrees;
    RunAgrees(blobs, ops);
    var data, m := blobs[|ops|], RunOnMap(map[], ops);
    StepAgrees(data, m, op, out);
    AgreeingSize(Objects(data), m);
    HasInMap(Objects(data), m, k);
    HasInMap(Objects(out), OnMap(m, op), k);
  }

  /** The members 0 to n - 1, all with score 0. */
  function Zeros(n: nat): (os: seq<Object>)
    requires n <= MAX_OBJECTS
    ensures |os| == n
  {
    seq(n, i requires 0 <= i < n => Object(i, 0))
  }

  lemma ZerosStep(n: nat)
    requires n < MAX_OBJECTS
    ensures ZaddGives(Blob(Zeros(n)), n, 0, Blob(Zeros(n + 1)))
  {
    hide Objects, Blob, Permuted;
    BlobRoundTrip(Zeros(n));
    BlobRoundTrip(Zeros(n + 1));
    var a := Zeros(n + 1);
    assert Added(Zeros(n), n, 0) == a;
    var p: seq<nat> := seq(n + 1, i requires 0 <= i < n + 1 => i);
    NothingPermuted(a, p);
  }

  /** Sets fill up: 2048 additions lead to a set from which nothing can be removed. */
  lemma SetsFillUp() returns (blobs: seq<Octets>, ops: seq<Op>)
    ensures IsRun(blobs, ops) && |blobs[|ops|]| % 8 == 0 && |Objects(blobs[|ops|])| == MAX_OBJECTS
    ensures forall k: Word :: k < MAX_OBJECTS ==> Has(Objects(blobs[|ops|]), k)
    ensures forall k: Word :: ZremGives(blobs[|ops|], k) == blobs[|ops|]
  {
    hide Objects, Blob, ZaddGives;
    blobs := seq(MAX_OBJECTS + 1, i requires 0 <= i < MAX_OBJECTS + 1 => Blob(Zeros(i)));
    ops := seq(MAX_OBJECTS, i requires 0 <= i < MAX_OBJECTS => Add(i, 0));
    NoBytes();
    forall i | 0 <= i < |ops| ensures StepGives(blobs[i], ops[i], blobs[i + 1]) {
      ZerosStep(i);
    }
    BlobRoundTrip(Zeros(MAX_OBJECTS));
    forall k: Word | k < MAX_OBJECTS ensures Has(Objects(blobs[|ops|]), k) {
      assert Zeros(MAX_OBJECTS)[k].member == k;
    }
  }

  lemma NoBytes()
    ensures Blob(Zeros(0)) == []
  {}

  // ---------------------------------------------------------------- the order

  /** Whole objects in order of their scores. */
  ghost predicate InOrder(data: Octets) {
    |data| % 8 == 0 && Ascending(Objects(data))
  }

  lemma SameNear(a: seq<Object>, b: seq<Object>)
    requires exists p :: Permuted(a, b, p)
    ensures Near(a) <==> Near(b)
    ensures Consistent(a) ==> Consistent(b)
  {
    hide ObjectCmp;
    var p :| Permuted(a, b, p);
    forall x ensures x in a <==> x in b {
      if x in a {
        var i :| 0 <= i < |a| && a[i] == x;
        assert i in p;
        var j :| 0 <= j < |p| && p[j] == i;
        assert b[j] == x;
      }
    }
  }

  /** Whatever order the data was in: where the comparison is consistent on what zadd sorts,
      the result ascends if and only if those scores lie within a range of 2^31. */
  lemma ZaddAscendsIff(data: Octets, k: Word, s: Word, out: Octets)
    requires IsPacked(data) && ZaddGives(data, k, s, out) && Consistent(Added(Objects(data), k, s))
    ensures InOrder(out) <==> Near(Added(Objects(data), k, s))
  {
    hide Objects, Added, Permuted, Consistent, Near, Ascending, CmpSorted;
    SameNear(Added(Objects(data), k, s), Objects(out));
    AscendingIffNear(Objects(out));
  }

  lemma {:induction false} Sink(a: seq<Object>, b: seq<Object>, p: seq<nat>, i: nat, j: nat)
    returns (c: seq<Object>, q: seq<nat>)
    requires Permuted(a, b, p) && Consistent(a) && j <= i < |b| && SortedBut(b, i, j)
    ensures Permuted(a, c, q) && i < |c| && CmpSorted(c[..i + 1])
    decreases j
  {
    hide ObjectCmp, Consistent, Permuted, SortedBut, CmpSorted;
    PermutedLengths(a, b, p);
    if j == 0 || ObjectCmp(b[j - 1], b[j]) <= 0 {
      c, q := b, p;
      RestSorted(a, b, p, i, j);
    } else {
      SwapPerm(a, b, p, j);
      SwapSorted(a, b, p, i, j);
      c, q := Sink(a, Swapped(b, j), Swapped(p, j), i, j - 1);
    }
  }

  /** A consistent comparison can be sorted by. */
  lemma {:induction false} SortExists(a: seq<Object>, n: nat) returns (b: seq<Object>, p: seq<nat>)
    requires Consistent(a) && n <= |a|
    ensures Permuted(a, b, p) && |b| == |a| && CmpSorted(b[..n])
    decreases n
  {
    hide ObjectCmp, Consistent, Permuted, SortedBut;
    if n == 0 {
      b, p := a, seq(|a|, i requires 0 <= i < |a| => i);
      NothingPermuted(a, p);
    } else {
      b, p := SortExists(a, n - 1);
      Unfolded(b, n - 1);
      b, p := Sink(a, b, p, n - 1, n - 1);
      PermutedLengths(a, b, p);
    }
  }

  /** Exchanging two objects is a permutation. */
  lemma ExchangePermutes(a: seq<Object>, i: nat, j: nat) returns (p: seq<nat>)
    requires i < j < |a|
    ensures Permuted(a, a[i := a[j]][j := a[i]], p)
  {
    var id: seq<nat> := seq(|a|, k requires 0 <= k < |a| => k);
    p := id[i := j][j := i];
    forall k | 0 <= k < |a| ensures k in p {
      assert p[if k == i then j else if k == j then i else k] == k;
    }
  }

  /** Scores that are not near can be left out of order. */
  lemma SomeSortFails(a: seq<Object>) returns (b: seq<Object>)
    requires !Near(a)
    ensures Sorts(a, b) && !Ascending(b)
  {
    hide ObjectCmp, Permuted, Consistent;
    if Consistent(a) {
      var p;
      b, p := SortExists(a, |a|);
      assert b[..|a|] == b;
      SameNear(a, b);
      AscendingIffNear(b);
    } else if !Ascending(a) {
      b := a;
      var p: seq<nat> := seq(|a|, i requires 0 <= i < |a| => i);
      NothingPermuted(a, p);
    } else {
      var x, y :| x in a && y in a && x.score - y.score >= HALF;
      var i :| 0 <= i < |a| && a[i] == y;
      var j :| 0 <= j < |a| && a[j] == x;
      assert i < j;
      b := a[i := a[j]][j := a[i]];
      var p := ExchangePermutes(a, i, j);
      assert b[i].score > b[j].score;
    }
  }

  /** Every result that zadd may give ascends, if and only if what it sorts lies within a
      range of 2^31. */
  lemma AllAscendIff(data: Octets, k: Word, s: Word)
    requires IsPacked(data)
    ensures (forall out :: ZaddGives(data, k, s, out) ==> InOrder(out))
            <==> Near(Added(Objects(data), k, s))
  {
    hide Objects, Blob, Added, Consistent, Near, Ascending, CmpSorted, Permuted;
    var a := Added(Objects(data), k, s);
    if Near(a) {
      NearIsConsistent(a);
      forall out | ZaddGives(data, k, s, out) ensures InOrder(out) { ZaddAscendsIff(data, k, s, out); }
    } else {
      var b := SomeSortFails(a);
      BlobRoundTrip(b);
      assert ZaddGives(data, k, s, Blob(b));
    }
  }

  /** zrem keeps the order of what it leaves, whatever it was. */
  lemma ZremKeepsOrder(data: Octets, k: Word) returns (at: seq<nat>)
    requires IsPacked(data)
    ensures var os, left := Objects(data), Objects(ZremGives(data, k));
            && |at| == |left|
            && (forall i :: 0 <= i < |at| ==> at[i] < |os| && left[i] == os[at[i]])
            && (forall i, j :: 0 <= i < j < |at| ==> at[i] < at[j])
    ensures InOrder(data) ==> InOrder(ZremGives(data, k))
  {
    hide Objects, Blob, Removed;
    var os := Objects(data);
    if |data| + 8 > MAX_VECTOR_LEN {
      at := seq(|os|, i requires 0 <= i < |os| => i);
    } else {
      BlobRoundTrip(Removed(os, k));
      at := RemovedFrom(os, |os|, k);
      assert os[..|os|] == os;
      RemovedKeepsOrder(os, k);
    }
  }

  // ---------------------------------------------------------------- the order over runs

  ghost predicate MapNear(m: map<Word, Word>) {
    forall x, y :: x in m && y in m ==> m[x] - m[y] < HALF
  }

  lemma NearInMap(os: seq<Object>, m: map<Word, Word>)
    requires Agrees(os, m)
    ensures Near(os) <==> MapNear(m)
  {
    if MapNear(m) {
      forall x, y | x in os && y in os ensures x.score - y.score < HALF {
        assert m[x.member] == x.score && m[y.member] == y.score;
      }
    }
    if Near(os) {
      forall x, y | x in m && y in m ensures m[x] - m[y] < HALF {
        var i :| 0 <= i < |os| && os[i].member == x;
        var j :| 0 <= j < |os| && os[j].member == y;
        assert os[i] in os && os[j] in os;
      }
    }
  }

  /** After any run, whatever was added, overwritten or removed in it: every result of one
      more addition ascends, if and only if the scores now stored are near. */
  lemma NextAddAscendsIff(blobs: seq<Octets>, ops: seq<Op>, k: Word, s: Word)
    requires IsRun(blobs, ops)
    ensures (forall out :: StepGives(blobs[|ops|], Add(k, s), out) ==> InOrder(out))
            <==> MapNear(OnMap(RunOnMap(map[], ops), Add(k, s)))
  {
    hide Objects, Added, OnMap, Near, MapNear, InOrder, Agrees, ZaddGives;
    RunAgrees(blobs, ops);
    var data, m := blobs[|ops|], RunOnMap(map[], ops);
    AllAscendIff(data, k, s);
    AddedAgrees(Objects(data), m, k, s);
    NearInMap(Added(Objects(data), k, s), OnMap(m, Add(k, s)));
  }

  /** The scores stored right after the last addition are near. */
  ghost predicate LastAddNear(ops: seq<Op>) {
    ops == [] || if ops[|ops| - 1].Add? then MapNear(RunOnMap(map[], ops)) else LastAddNear(ops[..|ops| - 1])
  }

  /** If so, the members are in order of their scores, whatever went before. */
  lemma {:induction false} RunAscends(blobs: seq<Octets>, ops: seq<Op>)
    requires IsRun(blobs, ops) && LastAddNear(ops)
    ensures InOrder(blobs[|ops|])
    decreases |ops|
  {
    hide StepGives, Objects, Agrees, InOrder, MapNear, OnMap;
    RunAgrees(blobs, ops);
    if ops == [] {
      NothingAscends();
    } else {
      var n := |ops| - 1;
      assert IsRun(blobs[..n + 1], ops[..n]);
      RunAgrees(blobs[..n + 1], ops[..n]);
      match ops[n]
      case Add(k, s) =>
        NextAddAscendsIff(blobs[..n + 1], ops[..n], k, s);
      case Rem(k) =>
        RunAscends(blobs[..n + 1], ops[..n]);
        RemStep(blobs[n], k, blobs[n + 1]);
        var at := ZremKeepsOrder(blobs[n], k);
    }
  }

  /** It is so if all scores ever added lie within one range of 2^31. */
  lemma {:induction false} OneRangeSuffices(ops: seq<Op>, low: int)
    requires forall i :: 0 <= i < |ops| && ops[i].Add? ==> low <= ops[i].score < low + HALF
    ensures LastAddNear(ops)
    ensures forall k :: k in RunOnMap(map[], ops) ==> low <= RunOnMap(map[], ops)[k] < low + HALF
    decreases |ops|
  {
    if ops == [] {
    } else {
      OneRangeSuffices(ops[..|ops| - 1], low);
    }
  }

  lemma NothingAscends()
    ensures InOrder([])
  {
    assert |Objects([])| == 0;
  }

  lemma RemStep(data: Octets, k: Word, out: Octets)
    ensures StepGives(data, Rem(k), out) <==> out == ZremGives(data, k)
  {
    hide ZremGives;
  }

  /** Two additions with scores a little more than 2^31 apart: the result is always out of
      order. */
  lemma AlwaysReversed(out: Octets)
    requires StepGives(Blob([Object(1, 0)]), Add(2, HALF + 1), out)
    ensures IsRun([[], Blob([Object(1, 0)]), out], [Add(1, 0), Add(2, HALF + 1)])
    ensures !InOrder(out)
  {
    hide Objects, Blob, Sorts, InOrder;
    var one, two := Object(1, 0), Object(2, HALF + 1);
    FirstAddition(one);
    BlobRoundTrip([one]);
    var a := [one, two];
    assert Added([one], 2, HALF + 1) == a;
    assert ObjectCmp(one, two) > 0 && ObjectCmp(two, one) < 0;
    assert !Near(a) by { assert two in a && one in a; }
    ZaddAscendsIff(Blob([one]), 2, HALF + 1, out);
  }

  /** Exactly 2^31 apart: either order may come out. */
  lemma EitherOrder()
    ensures var one, two := Object(1, 0), Object(2, HALF);
            && IsRun([[], Blob([one]), Blob([one, two])], [Add(1, 0), Add(2, HALF)])
            && IsRun([[], Blob([one]), Blob([two, one])], [Add(1, 0), Add(2, HALF)])
            && InOrder(Blob([one, two])) && !InOrder(Blob([two, one]))
  {
    hide Objects, Blob, Permuted, ObjectCmp;
    var one, two := Object(1, 0), Object(2, HALF);
    FirstAddition(one);
    BlobRoundTrip([one]);
    BlobRoundTrip([one, two]);
    BlobRoundTrip([two, one]);
    assert [two, one][0].score > [two, one][1].score;
    FarIsReversed(two, one);
    BothNegative(one, two);
    var a := [one, two];
    assert Added([one], 2, HALF) == a;
    assert !Consistent(a) by { assert one in a && two in a; }
    NothingPermuted(a, [0, 1]);
    var p := ExchangePermutes(a, 0, 1);
    assert a[0 := a[1]][1 := a[0]] == [two, one];
  }

  lemma BothNegative(x: Object, y: Object)
    requires y.score - x.score == HALF
    ensures ObjectCmp(x, y) < 0 && ObjectCmp(y, x) < 0
  {
    assert (x.score - y.score) % 0x1_0000_0000 == HALF;
  }

  lemma FirstAddition(o: Object)
    ensures StepGives([], Add(o.member, o.score), Blob([o]))
  {
    hide Blob, Permuted;
    BlobRoundTrip([o]);
    assert Added([], o.member, o.score) == [o];
    NothingPermuted([o], [0]);
  }

  // ---------------------------------------------------------------- the functions

  method LoadObjects(ptr: array<Object>, data: Octets)
    requires IsPacked(data) && ptr.Length == MAX_OBJECTS
    modifies ptr
    ensures ptr[..|data| / 8] == Objects(data)
  {
    hide WordOf;
    var n := |data| / 8;
    for i := 0 to n
      invariant ptr[..i] + Objects(data[8 * i..]) == Objects(data)
    {
      var rest := data[8 * i..];
      assert rest[8..] == data[8 * (i + 1)..];
      ptr[i] := Object(WordOf(rest[..4]), WordOf(rest[4..8]));
    }
    assert data[8 * n..] == [];
  }

  method StoreObjects(ptr: array<Object>, n: nat) returns (out: Octets)
    requires n <= ptr.Length
    ensures out == Blob(ptr[..n])
  {
    hide ObjectBytes;
    out := [];
    var i: nat := n;
    assert ptr[n..n] == [];
    while i > 0
      invariant i <= n && out == Blob(ptr[i..n])
    {
      i := i - 1;
      out := ObjectBytes(ptr[i]) + out;
      assert ptr[i..n][1..] == ptr[i + 1..n];
    }
  }

  method Zadd(data: Octets, member: Word, score: Word) returns (out: Octets)
    ensures ZaddGives(data, member, score, out)
  {
    hide Objects, Blob, Sorts;
    if |data| > MAX_VECTOR_LEN { return data[..MAX_VECTOR_LEN]; }
    if |data| % 8 != 0 { return data; }
    var ptr := new Object[MAX_OBJECTS](i => Object(0, 0));
    LoadObjects(ptr, data);
    ghost var os := Objects(data);
    var n, found := |data| / 8, false;
    for i := 0 to n
      invariant found <==> exists j :: 0 <= j < i && os[j].member == member
      invariant forall j :: 0 <= j < i ==> ptr[j] == Rescored(os, member, score)[j]
      invariant forall j :: i <= j < n ==> ptr[j] == os[j]
    {
      if ptr[i].member == member {
        ptr[i] := Object(member, score);
        found := true;
      }
    }
    assert ptr[..n] == Rescored(os, member, score);
    if !found {
      assert forall j :: 0 <= j < n ==> os[j].member != member;
      assert ptr[..n] == os;
      if n < MAX_OBJECTS {
        ptr[n] := Object(member, score);
        n := n + 1;
      }
    }
    assert ptr[..n] == Added(os, member, score);
    Qsort(ptr, n);
    out := StoreObjects(ptr, n);
    BlobRoundTrip(ptr[..n]);
  }

  method Zrem(data: Octets, member: Word) returns (out: Octets)
    ensures out == ZremGives(data, member)
  {
    hide Objects, Blob, Removed;
    if |data| + 8 > MAX_VECTOR_LEN || |data| % 8 != 0 {
      return if |data| > MAX_VECTOR_LEN then data[..MAX_VECTOR_LEN] else data;
    }
    var old_data := new Object[MAX_OBJECTS](i => Object(0, 0));
    LoadObjects(old_data, data);
    var ptr := new Object[MAX_OBJECTS](i => Object(0, 0));
    ghost var os := Objects(data);
    var k, n := 0, |data| / 8;
    RemovedNothing(member);
    for i := 0 to n
      invariant k <= i && old_data[..n] == os && ptr[..k] == Removed(os[..i], member)
    {
      RemovedStep(os, i, member);
      assert old_data[i] == os[i];
      if old_data[i].member != member {
        ptr[k] := old_data[i];
        k := k + 1;
      }
    }
    assert os[..n] == os;
    out := StoreObjects(ptr, k);
  }

  // ---------------------------------------------------------------- zrange

  const OPEN: Byte := 91
  const CLOSE: Byte := 93
  const COMMA: Byte := 44
  const RANGE_LIMIT: nat := 2000
  const RANGE_BUFFER: nat := 3 * MAX_VECTOR_LEN

  function Entry(o: Object): Octets {
    [OPEN] + Dec(o.member) + [COMMA] + Dec(o.score) + [CLOSE]
  }

  /** The entries from i up to stop, a comma behind each but the last. */
  function Entries(os: seq<Object>, i: nat, stop: nat): Octets
    requires stop <= |os|
    decreases stop - i
  {
    if i >= stop then []
    else Entry(os[i]) + (if stop - i != 1 then [COMMA] else []) + Entries(os, i + 1, stop)
  }

  function RangeText(os: seq<Object>, start: nat, stop: nat): Octets {
    [OPEN] + Entries(os, start, if stop > |os| then |os| else stop) + [CLOSE]
  }

  lemma EntryLength(o: Object)
    ensures |Entry(o)| <= 23
  {
    hide Dec;
    TenDigits(o.member);
    TenDigits(o.score);
  }

  lemma {:induction false} EntriesLength(os: seq<Object>, i: nat, stop: nat)
    requires stop <= |os|
    ensures i < stop ==> |Entries(os, i, stop)| <= 24 * (stop - i) - 1
    ensures i >= stop ==> Entries(os, i, stop) == []
    decreases stop - i
  {
    hide Entry;
    if i >= stop {
    } else {
      EntryLength(os[i]);
      EntriesLength(os, i + 1, stop);
    }
  }

  /** The limits that zrange sets on its arguments keep the text within its buffer. */
  lemma RangeFits(os: seq<Object>, start: nat, stop: nat)
    requires start <= RANGE_LIMIT && stop <= RANGE_LIMIT
    ensures |RangeText(os, start, stop)| <= 48_001 < RANGE_BUFFER
  {
    EntriesLength(os, start, if stop > |os| then |os| else stop);
  }

  /** Null for data that is not a packed set. */
  method Zrange(data: Octets, start: nat, stop: nat) returns (text: Option<Octets>)
    requires start <= RANGE_LIMIT && stop <= RANGE_LIMIT
    ensures text == if IsPacked(data) then Some(RangeText(Objects(data), start, stop)) else None
  {
    hide Objects, Entry;
    if |data| > MAX_VECTOR_LEN { return None; }
    if |data| % 8 != 0 { return None; }
    var objs := new Object[MAX_OBJECTS](i => Object(0, 0));
    LoadObjects(objs, data);
    ghost var os := Objects(data);
    var nobj := |data| / 8;
    var last := if stop > nobj then nobj else stop;
    var pos, i := [OPEN], start;
    while i < last
      invariant start <= i && objs[..nobj] == os
      invariant pos + Entries(os, i, last) == [OPEN] + Entries(os, start, last)
    {
      pos := pos + Entry(objs[i]);
      if last - i != 1 { pos := pos + [COMMA]; }
      i := i + 1;
    }
    assert Entries(os, i, last) == [];
    assert pos == [OPEN] + Entries(os, start, last);
    text := Some(pos + [CLOSE]);
  }
}

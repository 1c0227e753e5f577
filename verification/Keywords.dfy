/** The keyword trie of redis-ckw/ckwlib.c. */
module Keywords {
  import opened Bytes

  const MAX_NODE: nat := 2 * 1024 * 1024

  datatype Cell = Cell(point: nat, end: bool)

  const EMPTY := Cell(0, false)

  /** A C string: no byte of it is NUL. */
  ghost predicate IsCString(s: Octets) {
    forall i :: 0 <= i < |s| ==> s[i] != 0
  }

  /** A keyword lies in the text at position a. */
  ghost predicate OccursAt(keywords: set<Octets>, s: Octets, a: nat) {
    exists w :: w in keywords && IsAt(w, s, a)
  }

  predicate IsAt(w: Octets, s: Octets, a: nat) {
    a + |w| <= |s| && s[a..a + |w|] == w
  }

  // ---------------------------------------------------------------- the tree

  /** The node array, flattened as it lies in memory, with the bytes that lead to each of
      the nodes 0 to used, and the node and byte each hangs from. */
  datatype Tree = Tree(cells: seq<Cell>, used: nat, paths: seq<Octets>, parents: seq<(nat, Byte)>)

  predicate Sizes(t: Tree) {
    && |t.cells| == 256 * (MAX_NODE + 1) && t.used <= MAX_NODE
    && |t.paths| == |t.parents| == t.used + 1 && t.paths[0] == []
  }

  /** nodes[p].cell[c] */
  function At(t: Tree, p: nat, c: Byte): Cell
    requires Sizes(t) && p <= MAX_NODE
  {
    t.cells[256 * p + c]
  }

  ghost predicate PointsWell(t: Tree, p: nat, c: Byte)
    requires Sizes(t) && p <= t.used
  {
    At(t, p, c).point <= t.used && (At(t, p, c).point != 0 ==> t.paths[At(t, p, c).point] == t.paths[p] + [c])
  }

  ghost predicate HangsFrom(t: Tree, q: nat, p: nat, c: Byte)
    requires Sizes(t) && q <= t.used
  {
    p <= t.used && t.paths[q] == t.paths[p] + [c] && At(t, p, c).point == q
  }

  ghost predicate Linked(t: Tree)
    requires Sizes(t)
  {
    forall p: nat, c: Byte :: p <= t.used ==> PointsWell(t, p, c)
  }

  ghost predicate Hangs(t: Tree)
    requires Sizes(t)
  {
    forall q :: 0 < q <= t.used ==> HangsFrom(t, q, t.parents[q].0, t.parents[q].1)
  }

  ghost predicate Distinct(t: Tree)
    requires Sizes(t)
  {
    forall p, q :: 0 <= p < q <= t.used ==> t.paths[p] != t.paths[q]
  }

  ghost predicate Blank(t: Tree)
    requires Sizes(t)
  {
    forall p: nat, c: Byte :: t.used < p <= MAX_NODE ==> At(t, p, c) == EMPTY
  }

  /** The nodes taken form a tree, each reached by its own path, and the rest is blank. */
  ghost predicate IsTree(t: Tree) {
    Sizes(t) && Linked(t) && Hangs(t) && Distinct(t) && Blank(t)
  }

  function Grown(t: Tree, p: nat, c: Byte): Tree
    requires Sizes(t) && p <= t.used < MAX_NODE
  {
    Tree(t.cells[256 * p + c := At(t, p, c).(point := t.used + 1)], t.used + 1,
         t.paths + [t.paths[p] + [c]], t.parents + [(p, c)])
  }

  lemma GrownAt(t: Tree, p: nat, c: Byte, q: nat, d: Byte)
    requires Sizes(t) && p <= t.used < MAX_NODE && q <= MAX_NODE
    ensures Sizes(Grown(t, p, c))
    ensures At(Grown(t, p, c), q, d) == if q == p && d == c then At(t, p, c).(point := t.used + 1) else At(t, q, d)
  {}

  /** A path is reached in one way only. */
  lemma OnlyWay(t: Tree, q: nat, p: nat, c: Byte)
    requires IsTree(t) && p <= t.used && q <= t.used
    ensures t.paths[q] == t.paths[p] + [c] ==> At(t, p, c).point == q && q > 0
  {
    var (r, d) := t.parents[q];
    if q > 0 && t.paths[q] == t.paths[p] + [c] {
      assert HangsFrom(t, q, r, d);
      assert t.paths[q][..|t.paths[q]| - 1] == t.paths[p];
      assert t.paths[q][..|t.paths[q]| - 1] == t.paths[r];
    }
  }

  lemma GrowNew(t: Tree, p: nat, c: Byte)
    requires IsTree(t) && p <= t.used < MAX_NODE && At(t, p, c).point == 0
    ensures forall q :: 0 <= q <= t.used ==> t.paths[q] != t.paths[p] + [c]
  {
    forall q | 0 <= q <= t.used ensures t.paths[q] != t.paths[p] + [c] {
      OnlyWay(t, q, p, c);
    }
  }

  /** Hanging a new node below p keeps the tree. */
  lemma GrowKeeps(t: Tree, p: nat, c: Byte)
    requires IsTree(t) && p <= t.used < MAX_NODE && At(t, p, c).point == 0
    ensures IsTree(Grown(t, p, c))
  {
    hide At, Grown;
    GrowKeepsLinks(t, p, c);
    GrowKeepsHangs(t, p, c);
    GrowKeepsRest(t, p, c);
  }

  lemma GrowKeepsLinks(t: Tree, p: nat, c: Byte)
    requires IsTree(t) && p <= t.used < MAX_NODE && At(t, p, c).point == 0
    ensures Sizes(Grown(t, p, c)) && Linked(Grown(t, p, c))
  {
    hide At;
    var g := Grown(t, p, c);
    GrownAt(t, p, c, p, c);
    forall q: nat, d: Byte | q <= g.used ensures PointsWell(g, q, d) {
      GrownAt(t, p, c, q, d);
      if q <= t.used { assert PointsWell(t, q, d); }
    }
  }

  lemma GrowKeepsHangs(t: Tree, p: nat, c: Byte)
    requires IsTree(t) && p <= t.used < MAX_NODE && At(t, p, c).point == 0
    ensures Sizes(Grown(t, p, c)) && Hangs(Grown(t, p, c))
  {
    hide At;
    var g := Grown(t, p, c);
    GrownAt(t, p, c, p, c);
    forall q | 0 < q <= g.used ensures HangsFrom(g, q, g.parents[q].0, g.parents[q].1) {
      if q <= t.used {
        assert HangsFrom(t, q, t.parents[q].0, t.parents[q].1);
        GrownAt(t, p, c, t.parents[q].0, t.parents[q].1);
      }
    }
  }

  lemma GrowKeepsRest(t: Tree, p: nat, c: Byte)
    requires IsTree(t) && p <= t.used < MAX_NODE && At(t, p, c).point == 0
    ensures Sizes(Grown(t, p, c)) && Distinct(Grown(t, p, c)) && Blank(Grown(t, p, c))
  {
    hide At, Linked, Hangs;
    var g := Grown(t, p, c);
    GrownAt(t, p, c, p, c);
    GrowNew(t, p, c);
    forall q: nat, d: Byte | g.used < q <= MAX_NODE ensures At(g, q, d) == EMPTY {
      GrownAt(t, p, c, q, d);
    }
  }

  // ---------------------------------------------------------------- keywords

  /** The end marks are the keywords. */
  ghost predicate Marked(t: Tree, keywords: set<Octets>)
    requires Sizes(t)
  {
    forall p: nat, c: Byte :: p <= t.used ==> (At(t, p, c).end <==> t.paths[p] + [c] in keywords)
  }

  /** The nodes of the proper prefixes of w shorter than n lead on to the next byte. */
  ghost predicate Leads(t: Tree, w: Octets, n: nat)
    requires Sizes(t)
  {
    forall p: nat, k: nat :: p <= t.used && k < n && k < |w| - 1 && t.paths[p] == w[..k] ==> At(t, p, w[k]).point != 0
  }

  ghost predicate Represents(t: Tree, keywords: set<Octets>) {
    && IsTree(t) && Marked(t, keywords)
    && (forall w :: w in keywords ==> w != [] && IsCString(w) && Leads(t, w, |w|))
    && forall p :: 0 <= p <= t.used ==> IsCString(t.paths[p])
  }

  /** Mark the byte c of node p as the end of a keyword. */
  function MarkedAt(t: Tree, p: nat, c: Byte): Tree
    requires Sizes(t) && p <= t.used
  {
    t.(cells := t.cells[256 * p + c := At(t, p, c).(end := true)])
  }

  lemma MarkedAtAt(t: Tree, p: nat, c: Byte, q: nat, d: Byte)
    requires Sizes(t) && p <= t.used && q <= MAX_NODE
    ensures Sizes(MarkedAt(t, p, c))
    ensures At(MarkedAt(t, p, c), q, d) == if q == p && d == c then At(t, p, c).(end := true) else At(t, q, d)
  {}

  /** No keyword reaches past a byte that does not lead on. */
  lemma NoKeywordBeyond(t: Tree, keywords: set<Octets>, p: nat, c: Byte, w: Octets)
    requires Represents(t, keywords) && p <= t.used && At(t, p, c).point == 0 && w in keywords
    ensures !(t.paths[p] + [c] < w)
  {
    hide At;
    var k := |t.paths[p]|;
    if k < |w| - 1 && t.paths[p] == w[..k] { assert At(t, p, w[k]).point != 0; }
  }

  lemma GrowMarked(t: Tree, keywords: set<Octets>, p: nat, c: Byte)
    requires Represents(t, keywords) && p <= t.used < MAX_NODE && At(t, p, c).point == 0
    ensures Sizes(Grown(t, p, c)) && Marked(Grown(t, p, c), keywords)
  {
    hide At, Linked, Hangs, Distinct, Blank, Leads;
    var g := Grown(t, p, c);
    GrownAt(t, p, c, p, c);
    forall q: nat, d: Byte | q <= g.used ensures At(g, q, d).end <==> g.paths[q] + [d] in keywords {
      GrownAt(t, p, c, q, d);
      if q == g.used {
        BlankAt(t, q, d);
        if g.paths[q] + [d] in keywords { NoKeywordBeyond(t, keywords, p, c, g.paths[q] + [d]); }
      } else {
        assert g.paths[q] == t.paths[q];
      }
    }
  }

  lemma BlankAt(t: Tree, q: nat, d: Byte)
    requires IsTree(t) && t.used < q <= MAX_NODE
    ensures At(t, q, d) == EMPTY
  {}

  /** A new node leads on along w, unless it stands for a proper prefix of w itself. */
  lemma GrowLeads(t: Tree, p: nat, c: Byte, w: Octets, n: nat)
    requires IsTree(t) && p <= t.used < MAX_NODE && At(t, p, c).point == 0 && Leads(t, w, n)
    requires !(t.paths[p] + [c] <= w && |t.paths[p]| + 1 < n && |t.paths[p]| + 1 < |w| - 1)
    ensures Sizes(Grown(t, p, c)) && Leads(Grown(t, p, c), w, n)
  {
    hide At, Linked, Hangs, Distinct, Blank;
    var g := Grown(t, p, c);
    GrownAt(t, p, c, p, c);
    forall q: nat, k: nat | q <= g.used && k < n && k < |w| - 1 && g.paths[q] == w[..k]
      ensures At(g, q, w[k]).point != 0
    {
      GrownAt(t, p, c, q, w[k]);
      if q <= t.used { assert g.paths[q] == t.paths[q]; }
    }
  }

  /** A new node hides no keyword and adds none. */
  lemma GrowRepresents(t: Tree, keywords: set<Octets>, p: nat, c: Byte)
    requires Represents(t, keywords) && p <= t.used < MAX_NODE && At(t, p, c).point == 0 && c != 0
    ensures Represents(Grown(t, p, c), keywords)
  {
    hide At, Linked, Hangs, Distinct, Blank, Leads, Marked;
    GrowKeeps(t, p, c);
    GrowMarked(t, keywords, p, c);
    forall w | w in keywords ensures Leads(Grown(t, p, c), w, |w|) {
      NoKeywordBeyond(t, keywords, p, c, w);
      GrowLeads(t, p, c, w, |w|);
    }
  }

  /** Marking the last byte of w below its longest proper prefix adds w. */
  lemma MarkRepresents(t: Tree, keywords: set<Octets>, p: nat, w: Octets)
    requires Represents(t, keywords) && p <= t.used && w != [] && IsCString(w)
    requires t.paths[p] == w[..|w| - 1] && Leads(t, w, |w|)
    ensures Represents(MarkedAt(t, p, w[|w| - 1]), keywords + {w})
  {
    hide At, Linked, Hangs, Distinct, Blank, Leads, Marked;
    MarkKeepsTree(t, p, w[|w| - 1]);
    MarkMarked(t, keywords, p, w);
    forall v | v in keywords + {w} ensures Leads(MarkedAt(t, p, w[|w| - 1]), v, |v|) {
      MarkLeads(t, p, w[|w| - 1], v, |v|);
    }
  }

  lemma MarkKeepsTree(t: Tree, p: nat, c: Byte)
    requires IsTree(t) && p <= t.used
    ensures IsTree(MarkedAt(t, p, c))
  {
    hide At;
    var m := MarkedAt(t, p, c);
    MarkedAtAt(t, p, c, p, c);
    forall q: nat, d: Byte | q <= t.used ensures PointsWell(m, q, d) {
      MarkedAtAt(t, p, c, q, d);
      assert PointsWell(t, q, d);
    }
    forall q | 0 < q <= t.used ensures HangsFrom(m, q, t.parents[q].0, t.parents[q].1) {
      assert HangsFrom(t, q, t.parents[q].0, t.parents[q].1);
      MarkedAtAt(t, p, c, t.parents[q].0, t.parents[q].1);
    }
    forall q: nat, d: Byte | t.used < q <= MAX_NODE ensures At(m, q, d) == EMPTY {
      MarkedAtAt(t, p, c, q, d);
    }
  }

  lemma MarkMarked(t: Tree, keywords: set<Octets>, p: nat, w: Octets)
    requires IsTree(t) && Marked(t, keywords) && p <= t.used && w != [] && t.paths[p] == w[..|w| - 1]
    ensures Sizes(MarkedAt(t, p, w[|w| - 1])) && Marked(MarkedAt(t, p, w[|w| - 1]), keywords + {w})
  {
    hide At, Linked, Hangs, Blank;
    var c := w[|w| - 1];
    var m := MarkedAt(t, p, c);
    assert w == t.paths[p] + [c];
    MarkedAtAt(t, p, c, p, c);
    forall q: nat, d: Byte | q <= t.used ensures At(m, q, d).end <==> t.paths[q] + [d] in keywords + {w} {
      MarkedAtAt(t, p, c, q, d);
      if t.paths[q] + [d] == w {
        assert (t.paths[q] + [d])[..|w| - 1] == t.paths[q];
        assert q == p && d == c;
      }
    }
  }

  lemma MarkLeads(t: Tree, p: nat, c: Byte, w: Octets, n: nat)
    requires Sizes(t) && p <= t.used && Leads(t, w, n)
    ensures Sizes(MarkedAt(t, p, c)) && Leads(MarkedAt(t, p, c), w, n)
  {
    hide At;
    var m := MarkedAt(t, p, c);
    MarkedAtAt(t, p, c, p, c);
    forall q: nat, k: nat | q <= t.used && k < n && k < |w| - 1 && t.paths[q] == w[..k]
      ensures At(m, q, w[k]).point != 0
    {
      MarkedAtAt(t, p, c, q, w[k]);
    }
  }

  lemma LeadsMore(t: Tree, p: nat, w: Octets, i: nat)
    requires IsTree(t) && p <= t.used && i < |w| && t.paths[p] == w[..i] && Leads(t, w, i)
    requires i < |w| - 1 ==> At(t, p, w[i]).point != 0
    ensures Leads(t, w, i + 1)
  {
    hide At, Linked, Hangs, Blank;
    forall q: nat, k: nat | q <= t.used && k < i + 1 && k < |w| - 1 && t.paths[q] == w[..k]
      ensures At(t, q, w[k]).point != 0
    {
      if k == i { assert q == p; }
    }
  }

  // ---------------------------------------------------------------- the search

  /** The scan of the text from position i on, at node p: a byte that leads nowhere takes
      it back to the root, behind that byte. */
  ghost predicate Hit(t: Tree, p: nat, s: Octets, i: nat)
    requires Sizes(t) && Linked(t) && p <= t.used && i <= |s|
    decreases |s| - i
  {
    i < |s| && (At(t, p, s[i]).end || (PointsWell(t, p, s[i]) && Hit(t, At(t, p, s[i]).point, s, i + 1)))
  }

  /** The text before position i ends with the path. */
  predicate EndsWith(s: Octets, i: nat, path: Octets) {
    |path| <= i <= |s| && s[i - |path|..i] == path
  }

  /** A scan hits only if the text holds a keyword. */
  lemma {:induction false} HitIsSound(t: Tree, keywords: set<Octets>, p: nat, s: Octets, i: nat) returns (a: nat)
    requires Represents(t, keywords) && p <= t.used && i <= |s| && EndsWith(s, i, t.paths[p]) && Hit(t, p, s, i)
    ensures OccursAt(keywords, s, a) && i - |t.paths[p]| <= a
    decreases |s| - i
  {
    hide At, Hangs, Distinct, Blank;
    var c := s[i];
    assert PointsWell(t, p, c);
    a := i - |t.paths[p]|;
    assert s[a..i + 1] == t.paths[p] + [c];
    if At(t, p, c).end {
      assert IsAt(t.paths[p] + [c], s, a);
    } else {
      var q := At(t, p, c).point;
      a := HitIsSound(t, keywords, q, s, i + 1);
    }
  }

  /** A scan that has followed k bytes of a keyword lying at position a hits. */
  lemma {:induction false} HitIsComplete(t: Tree, keywords: set<Octets>, p: nat, s: Octets, a: nat, w: Octets, k: nat)
    requires Represents(t, keywords) && p <= t.used && w in keywords && IsAt(w, s, a)
    requires k < |w| && t.paths[p] == w[..k]
    ensures Hit(t, p, s, a + k)
    decreases |w| - k
  {
    hide At, Hangs, Distinct, Blank;
    assert s[a + k] == w[k];
    assert PointsWell(t, p, w[k]);
    if k == |w| - 1 {
      assert w == t.paths[p] + [w[k]];
    } else {
      assert t.paths[p] + [w[k]] == w[..k + 1];
      HitIsComplete(t, keywords, At(t, p, w[k]).point, s, a, w, k + 1);
    }
  }

  /** The scan hits without ever falling back to the root. */
  ghost predicate Straight(t: Tree, p: nat, s: Octets, i: nat)
    requires Sizes(t) && Linked(t) && p <= t.used && i <= |s|
    decreases |s| - i
  {
    && i < |s|
    && (At(t, p, s[i]).end
        || (PointsWell(t, p, s[i]) && At(t, p, s[i]).point != 0 && Straight(t, At(t, p, s[i]).point, s, i + 1)))
  }

  lemma {:induction false} StraightIsSound(t: Tree, keywords: set<Octets>, p: nat, s: Octets, a: nat, k: nat)
    requires Represents(t, keywords) && p <= t.used && a + k <= |s| && t.paths[p] == s[a..a + k]
    requires Straight(t, p, s, a + k)
    ensures OccursAt(keywords, s, a)
    decreases |s| - k
  {
    hide At, Hangs, Distinct, Blank;
    var c := s[a + k];
    assert PointsWell(t, p, c);
    assert s[a..a + k + 1] == t.paths[p] + [c];
    if At(t, p, c).end {
      assert IsAt(t.paths[p] + [c], s, a);
    } else {
      StraightIsSound(t, keywords, At(t, p, c).point, s, a, k + 1);
    }
  }

  lemma {:induction false} StraightIsComplete(t: Tree, keywords: set<Octets>, p: nat, s: Octets, a: nat,
                                              w: Octets, k: nat)
    requires Represents(t, keywords) && p <= t.used && w in keywords && IsAt(w, s, a)
    requires k < |w| && t.paths[p] == w[..k]
    ensures Straight(t, p, s, a + k)
    decreases |w| - k
  {
    hide At, Hangs, Distinct, Blank;
    assert s[a + k] == w[k];
    assert PointsWell(t, p, w[k]);
    if k == |w| - 1 {
      assert w == t.paths[p] + [w[k]];
    } else {
      assert t.paths[p] + [w[k]] == w[..k + 1];
      StraightIsComplete(t, keywords, At(t, p, w[k]).point, s, a, w, k + 1);
    }
  }

  /** A keyword lies at the position if and only if the scan from there hits without
      falling back to the root. */
  lemma StraightIff(t: Tree, keywords: set<Octets>, s: Octets, a: nat)
    requires Represents(t, keywords) && a <= |s|
    ensures Straight(t, 0, s, a) <==> OccursAt(keywords, s, a)
  {
    hide At, Linked, Hangs, Distinct, Blank, Marked, Leads, Straight;
    assert t.paths[0] == s[a..a + 0];
    if Straight(t, 0, s, a) { StraightIsSound(t, keywords, 0, s, a, 0); }
    if OccursAt(keywords, s, a) {
      var w :| w in keywords && IsAt(w, s, a);
      StraightIsComplete(t, keywords, 0, s, a, w, 0);
    }
  }

  /** Why the offset can come too early: a first byte that leads nowhere does not stop the
      scan from the first position, which then finds what lies behind it. */
  lemma OffsetTooEarly(t: Tree, keywords: set<Octets>, s: Octets)
    requires Represents(t, keywords) && s != [] && At(t, 0, s[0]) == EMPTY && OccursAt(keywords, s, 1)
    ensures Hit(t, 0, s, 0) && !OccursAt(keywords, s, 0)
  {
    hide At, Hangs, Distinct, Blank;
    assert PointsWell(t, 0, s[0]);
    var w :| w in keywords && IsAt(w, s, 1);
    HitIsComplete(t, keywords, 0, s, 1, w, 0);
    forall v | v in keywords ensures !IsAt(v, s, 0) {
      FirstByteLeads(t, keywords, v);
      FirstByteLies(v, s, 0);
    }
  }

  lemma FirstByteLies(v: Octets, s: Octets, a: nat)
    requires v != []
    ensures IsAt(v, s, a) ==> a < |s| && s[a] == v[0]
  {}

  /** The first byte of a keyword leads somewhere. */
  lemma FirstByteLeads(t: Tree, keywords: set<Octets>, v: Octets)
    requires Represents(t, keywords) && v in keywords
    ensures v != [] && At(t, 0, v[0]) != EMPTY
  {
    hide At, Linked, Hangs, Distinct, Blank;
    if |v| == 1 { assert v == t.paths[0] + [v[0]]; } else { assert t.paths[0] == v[..0]; }
  }

  class Trie {
    /** Node 0 is the root, nodes 1 to used are taken. */
    const nodes: array<Cell>
    var used: nat
    ghost var paths: seq<Octets>
    ghost var parents: seq<(nat, Byte)>
    ghost var keywords: set<Octets>

    constructor ()
      ensures Valid() && keywords == {} && used == 0 && fresh(nodes)
    {
      nodes := new Cell[256 * (MAX_NODE + 1)](i => EMPTY);
      used, paths, parents, keywords := 0, [[]], [(0, 0)], {};
    }

    ghost function View(): Tree
      reads this, nodes
    {
      Tree(nodes[..], used, paths, parents)
    }

    ghost predicate Valid()
      reads this, nodes
    {
      Represents(View(), keywords)
    }

    /** Inserts a keyword; false if there is no node left, and then the keywords are those
        of before. */
    method SetNodes(s: Octets) returns (ok: bool)
      requires Valid() && s != [] && IsCString(s)
      modifies this, nodes
      ensures Valid() && keywords == old(keywords) + if ok then {s} else {}
      ensures !ok ==> used == MAX_NODE
    {
      hide Represents, Leads, Linked, Hangs, Distinct, Blank, Marked;
      var p: nat, rp: nat, i := 0, 0, 0;
      Begins(View(), keywords, s);
      while i < |s|
        invariant i <= |s| && Valid() && IsTree(View()) && keywords == old(keywords) && rp <= used && p <= used
        invariant i > 0 ==> paths[rp] == s[..i - 1]
        invariant i < |s| ==> paths[p] == s[..i]
        invariant Leads(View(), s, i)
      {
        ghost var t := View();
        rp := p;
        var point := nodes[256 * p + s[i] as int].point;
        Followed(t, keywords, p, s, i);
        if point == 0 && i + 1 < |s| {
          if used + 1 > MAX_NODE { return false; }
          Extended(t, keywords, p, s, i);
          used := used + 1;
          nodes[256 * p + s[i] as int] := nodes[256 * p + s[i] as int].(point := used);
          paths, parents := paths + [paths[p] + [s[i]]], parents + [(p, s[i])];
          assert View() == Grown(t, p, s[i]);
          p := used;
        } else {
          p := point;
        }
        i := i + 1;
      }
      var last := s[|s| - 1];
      ghost var t := View();
      MarkRepresents(t, keywords, rp, s);
      nodes[256 * rp + last as int] := nodes[256 * rp + last as int].(end := true);
      assert View() == MarkedAt(t, rp, last);
      keywords := keywords + {s};
      ok := true;
    }

    method GetNodes(s: Octets, start: nat) returns (found: bool)
      requires Valid() && start <= |s|
      ensures found == Hit(View(), 0, s, start)
    {
      hide Hangs, Distinct, Blank, Marked, Leads;
      var p: nat, i := 0, start;
      while i < |s|
        invariant start <= i <= |s| && p <= used
        invariant Hit(View(), 0, s, start) == Hit(View(), p, s, i)
      {
        assert PointsWell(View(), p, s[i]);
        var cell := nodes[256 * p + s[i] as int];
        assert cell == At(View(), p, s[i]);
        if cell.end { return true; }
        p := cell.point;
        i := i + 1;
      }
      found := false;
    }

    /** Detection is exact, although the scan falls back to the root on a mismatch: -1 if
        and only if no keyword lies anywhere in the text.  Otherwise the offset is that of
        the first position whose scan hits: no later than any occurrence, and that of a
        keyword if and only if that scan has not fallen back to the root. */
    method CheckKeywords(s: Octets) returns (r: int)
      requires Valid() && IsCString(s)
      ensures -1 <= r && (r >= 0 ==> r < |s|)
      ensures r == -1 <==> forall a: nat :: !OccursAt(keywords, s, a)
      ensures r >= 0 ==> forall a: nat :: OccursAt(keywords, s, a) ==> r <= a
      ensures r >= 0 ==> (OccursAt(keywords, s, r) <==> Straight(View(), 0, s, r))
      ensures r >= 0 ==> Hit(View(), 0, s, r) && forall b: nat :: b < r ==> !Hit(View(), 0, s, b)
    {
      hide Hangs, Distinct, Blank, Marked, Leads, Hit, Straight, OccursAt;
      var i := 0;
      while i < |s|
        invariant i <= |s| && forall b: nat :: b < i ==> !Hit(View(), 0, s, b)
      {
        var cr := GetNodes(s, i);
        if cr {
          EarliestAfter(View(), keywords, s, i);
          StraightIff(View(), keywords, s, i);
          assert EndsWith(s, i, View().paths[0]);
          ghost var a := HitIsSound(View(), keywords, 0, s, i);
          return i;
        }
        i := i + 1;
      }
      EarliestAfter(View(), keywords, s, |s|);
      r := -1;
    }
  }

  /** A keyword lies nowhere before the first scan that hits. */
  lemma EarliestAfter(t: Tree, keywords: set<Octets>, s: Octets, i: nat)
    requires Represents(t, keywords) && i <= |s| && forall b: nat :: b < i ==> !Hit(t, 0, s, b)
    ensures forall a: nat :: OccursAt(keywords, s, a) ==> i <= a < |s|
  {
    hide Linked, Hangs, Distinct, Blank, Marked, Leads, Hit;
    forall a: nat | OccursAt(keywords, s, a) ensures i <= a < |s| {
      var w :| w in keywords && IsAt(w, s, a);
      HitIsComplete(t, keywords, 0, s, a, w, 0);
    }
  }

  lemma Begins(t: Tree, keywords: set<Octets>, s: Octets)
    requires Represents(t, keywords)
    ensures IsTree(t) && Leads(t, s, 0) && t.paths[0] == s[..0]
  {}

  /** One step along a byte that leads on. */
  lemma Followed(t: Tree, keywords: set<Octets>, p: nat, s: Octets, i: nat)
    requires Represents(t, keywords) && p <= t.used && i < |s| && t.paths[p] == s[..i] && Leads(t, s, i)
    ensures At(t, p, s[i]).point <= t.used
    ensures At(t, p, s[i]).point != 0 || i + 1 == |s| ==> Leads(t, s, i + 1)
    ensures At(t, p, s[i]).point != 0 ==> t.paths[At(t, p, s[i]).point] == s[..i + 1]
  {
    hide At, Leads;
    assert PointsWell(t, p, s[i]);
    if At(t, p, s[i]).point != 0 || i + 1 == |s| { LeadsMore(t, p, s, i); }
  }

  /** One step along a new node. */
  lemma Extended(t: Tree, keywords: set<Octets>, p: nat, s: Octets, i: nat)
    requires Represents(t, keywords) && p <= t.used < MAX_NODE && i + 1 < |s| && t.paths[p] == s[..i] && Leads(t, s, i)
    requires At(t, p, s[i]).point == 0 && IsCString(s)
    ensures Represents(Grown(t, p, s[i]), keywords) && IsTree(Grown(t, p, s[i])) && Leads(Grown(t, p, s[i]), s, i + 1)
    ensures Grown(t, p, s[i]).paths[t.used + 1] == s[..i + 1]
  {
    hide At, Leads;
    GrowRepresents(t, keywords, p, s[i]);
    GrowLeads(t, p, s[i], s, i);
    GrownAt(t, p, s[i], p, s[i]);
    LeadsMore(Grown(t, p, s[i]), p, s, i);
  }
}

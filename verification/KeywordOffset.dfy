/** When the offset that check_keywords reports is that of a keyword. */
module KeywordOffset {
  import opened Bytes
  import opened Keywords

  /** The offset reported: the first position whose scan hits. */
  ghost predicate Reported(t: Tree, s: Octets, r: nat)
    requires Sizes(t) && Linked(t)
  {
    r <= |s| && Hit(t, 0, s, r) && forall b: nat :: b < r ==> !Hit(t, 0, s, b)
  }

  /** Whatever the text, the offset reported is that of a keyword. */
  ghost predicate ExactOnAllTexts(t: Tree, keywords: set<Octets>)
    requires Sizes(t) && Linked(t)
  {
    forall s: Octets, r: nat :: IsCString(s) && Reported(t, s, r) ==> OccursAt(keywords, s, r)
  }

  /** No keyword ends on the way to a node with this path. */
  ghost predicate Open(keywords: set<Octets>, path: Octets) {
    forall k :: 0 < k <= |path| ==> path[..k] !in keywords
  }

  /** Every byte other than NUL leads on or ends a keyword, at every node reached without
      passing an end mark. */
  ghost predicate Covered(t: Tree, keywords: set<Octets>)
    requires Sizes(t)
  {
    forall p: nat, c: Byte :: p <= t.used && c != 0 && Open(keywords, t.paths[p]) ==> At(t, p, c) != EMPTY
  }

  lemma {:induction false} CoveredIsStraight(t: Tree, keywords: set<Octets>, p: nat, s: Octets, i: nat)
    requires Represents(t, keywords) && Covered(t, keywords) && IsCString(s)
    requires p <= t.used && i <= |s| && Open(keywords, t.paths[p]) && Hit(t, p, s, i)
    ensures Straight(t, p, s, i)
    decreases |s| - i
  {
    hide At, Hangs, Distinct, Blank, Leads;
    var c := s[i];
    assert PointsWell(t, p, c);
    if At(t, p, c).end {
    } else {
      var q := At(t, p, c).point;
      assert q != 0;
      StillOpen(keywords, t.paths[p], c);
      CoveredIsStraight(t, keywords, q, s, i + 1);
    }
  }

  lemma StillOpen(keywords: set<Octets>, path: Octets, c: Byte)
    requires Open(keywords, path) && path + [c] !in keywords
    ensures Open(keywords, path + [c])
  {
    forall k | 0 < k <= |path| + 1 ensures (path + [c])[..k] !in keywords {
      if k <= |path| { assert (path + [c])[..k] == path[..k]; } else { assert (path + [c])[..k] == path + [c]; }
    }
  }

  lemma OpenBefore(keywords: set<Octets>, path: Octets, c: Byte)
    requires Open(keywords, path + [c])
    ensures Open(keywords, path) && path + [c] !in keywords
  {
    assert (path + [c])[..|path| + 1] == path + [c];
    forall k | 0 < k <= |path| ensures path[..k] !in keywords {
      assert (path + [c])[..k] == path[..k];
    }
  }

  /** The scan of a text that begins with an open path is led to its node. */
  lemma {:induction false} LedToNode(t: Tree, keywords: set<Octets>, p: nat, s: Octets)
    requires Represents(t, keywords) && p <= t.used && t.paths[p] <= s && Open(keywords, t.paths[p])
    ensures Hit(t, 0, s, 0) == Hit(t, p, s, |t.paths[p]|)
    decreases |t.paths[p]|
  {
    hide At, Distinct, Blank, Leads;
    if p > 0 {
      var (q, d) := t.parents[p];
      assert HangsFrom(t, p, q, d);
      OpenBefore(keywords, t.paths[q], d);
      LedToNode(t, keywords, q, s);
      assert s[|t.paths[q]|] == d;
      assert PointsWell(t, q, d);
    } else {
      assert t.paths[0] == [];
    }
  }

  /** An open node, a byte that leads nowhere there, and any keyword give a text whose
      offset is wrong: the path, the byte, the keyword. */
  lemma GapMisleads(t: Tree, keywords: set<Octets>, p: nat, c: Byte, w: Octets)
    requires Represents(t, keywords) && p <= t.used && c != 0 && Open(keywords, t.paths[p])
    requires At(t, p, c) == EMPTY && w in keywords
    ensures var s := t.paths[p] + [c] + w;
            IsCString(s) && Reported(t, s, 0) && !OccursAt(keywords, s, 0)
  {
    hide At, Hangs, Distinct, Blank, Leads;
    var path := t.paths[p];
    var s := path + [c] + w;
    LedToNode(t, keywords, p, s);
    assert s[|path|] == c && PointsWell(t, p, c);
    assert IsAt(w, s, |path| + 1);
    HitIsComplete(t, keywords, 0, s, |path| + 1, w, 0);
    forall v | v in keywords ensures !IsAt(v, s, 0) {
      NoKeywordAtGap(t, keywords, p, c, w, v);
    }
  }

  lemma NoKeywordAtGap(t: Tree, keywords: set<Octets>, p: nat, c: Byte, w: Octets, v: Octets)
    requires Represents(t, keywords) && p <= t.used && Open(keywords, t.paths[p])
    requires At(t, p, c) == EMPTY && v in keywords
    ensures !IsAt(v, t.paths[p] + [c] + w, 0)
  {
    hide At, Linked, Hangs, Distinct, Blank, Leads;
    var path := t.paths[p];
    NoKeywordBeyond(t, keywords, p, c, v);
    PrefixOfGap(path, c, w, v);
  }

  lemma PrefixOfGap(path: Octets, c: Byte, w: Octets, v: Octets)
    ensures IsAt(v, path + [c] + w, 0) && v != [] ==>
              (0 < |v| <= |path| && path[..|v|] == v) || v == path + [c] || path + [c] < v
  {
    var s := path + [c] + w;
    if IsAt(v, s, 0) {
      assert v == s[..|v|];
      if |v| <= |path| { assert s[..|v|] == path[..|v|]; } else { assert s[..|path| + 1] == path + [c]; }
    }
  }

  /** check_keywords reports the offset of a keyword for every text it finds one in, if and
      only if there is no keyword, or every byte other than NUL leads on or ends a keyword
      at every node reached without passing an end mark. */
  lemma ExactOnAllTextsIff(t: Tree, keywords: set<Octets>)
    requires Represents(t, keywords)
    ensures ExactOnAllTexts(t, keywords) <==> keywords == {} || Covered(t, keywords)
  {
    hide At, Linked, Hangs, Distinct, Blank, Marked, Leads, Hit, Straight, OccursAt, Open;
    if keywords == {} || Covered(t, keywords) {
      forall s: Octets, r: nat | IsCString(s) && Reported(t, s, r) ensures OccursAt(keywords, s, r) {
        ReportedIsRight(t, keywords, s, r);
      }
    } else {
      var p: nat, c: Byte :| p <= t.used && c != 0 && Open(keywords, t.paths[p]) && At(t, p, c) == EMPTY;
      var w :| w in keywords;
      GapMisleads(t, keywords, p, c, w);
    }
  }

  lemma ReportedIsRight(t: Tree, keywords: set<Octets>, s: Octets, r: nat)
    requires Represents(t, keywords) && (keywords == {} || Covered(t, keywords)) && IsCString(s) && Reported(t, s, r)
    ensures OccursAt(keywords, s, r)
  {
    hide At, Hangs, Distinct, Blank, Marked, Leads, Hit, Straight, Covered;
    if keywords == {} {
      assert EndsWith(s, r, t.paths[0]);
      var a := HitIsSound(t, keywords, 0, s, r);
      assert false;
    } else {
      CoveredIsStraight(t, keywords, 0, s, r);
      StraightIff(t, keywords, s, r);
    }
  }

  // ---------------------------------------------------------------- an example

  function Bare(): Tree {
    Tree(seq(256 * (MAX_NODE + 1), _ => EMPTY), 0, [[]], [(0, 0)])
  }

  lemma BareRepresentsNothing()
    ensures Represents(Bare(), {})
  {}

  /** With the keyword "b", the text "ab" is reported to hold one at 0; it lies at 1. */
  lemma OneByteKeyword()
    ensures var t := MarkedAt(Bare(), 0, 98);
            && Represents(t, {[98]}) && Reported(t, [97, 98], 0)
            && OccursAt({[98]}, [97, 98], 1) && !OccursAt({[98]}, [97, 98], 0)
  {
    hide Represents, Hit, OccursAt;
    BareRepresentsNothing();
    var t := MarkedAt(Bare(), 0, 98);
    assert Represents(t, {} + {[98]}) by { MarkB(); }
    assert {} + {[98]} == {[98]};
    BAt1();
    assert At(t, 0, 97) == EMPTY by { AAt0(); }
    OffsetTooEarly(t, {[98]}, [97, 98]);
  }

  lemma AAt0()
    ensures Sizes(MarkedAt(Bare(), 0, 98)) && At(MarkedAt(Bare(), 0, 98), 0, 97) == EMPTY
  {}

  lemma BAt1()
    ensures OccursAt({[98]}, [97, 98], 1)
  {
    assert IsAt([98], [97, 98], 1);
  }

  lemma MarkB()
    ensures Represents(MarkedAt(Bare(), 0, 98), {} + {[98]})
  {
    var b: Octets := [98];
    BareRepresentsNothing();
    MarkRepresents(Bare(), {}, 0, b);
  }
}

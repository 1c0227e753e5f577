/** The doubly linked list of redis-proxy/adlist.c and its iterator. */
module AdList {
  import opened Options

  class Node<T> {
    var prev: Node?<T>
    var next: Node?<T>
    var value: T

    constructor (value: T)
      ensures this.value == value && prev == null && next == null
    {
      this.value, prev, next := value, null, null;
    }
  }

  /** The i-th of the nodes, null beyond either end. */
  function At<T>(nodes: seq<Node<T>>, i: int): Node?<T> {
    if 0 <= i < |nodes| then nodes[i] else null
  }

  ghost predicate Distinct<T>(nodes: seq<Node<T>>) {
    forall i, j :: 0 <= i < j < |nodes| ==> nodes[i] != nodes[j]
  }

  /** None of the nodes is freed. */
  ghost predicate Alive<T>(nodes: seq<Node<T>>, freed: set<Node<T>>) {
    forall i :: 0 <= i < |nodes| ==> nodes[i] !in freed
  }

  lemma AliveWith<T>(nodes: seq<Node<T>>, freed: set<Node<T>>, node: Node<T>)
    requires Alive(nodes, freed) && node !in freed
    ensures Alive([node] + nodes, freed) && Alive(nodes + [node], freed)
  {}

  lemma AliveWithout<T>(nodes: seq<Node<T>>, freed: set<Node<T>>, k: nat)
    requires Alive(nodes, freed) && k < |nodes| && Distinct(nodes)
    ensures Alive(Remove(nodes, k), freed) && Alive(Remove(nodes, k), freed + {nodes[k]})
  {}

  /** Every node points to its neighbours. */
  ghost predicate Linked<T>(nodes: seq<Node<T>>)
    reads nodes
  {
    && (forall i {:trigger nodes[i].next} :: 0 <= i < |nodes| ==> nodes[i].next == At(nodes, i + 1))
    && (forall i {:trigger nodes[i].prev} :: 0 <= i < |nodes| ==> nodes[i].prev == At(nodes, i - 1))
  }

  function Remove<T>(s: seq<T>, k: nat): (r: seq<T>)
    requires k < |s|
    ensures |r| == |s| - 1
  {
    s[..k] + s[k + 1..]
  }

  ghost function ValuesOf<T>(nodes: seq<Node<T>>): (r: seq<T>)
    reads nodes
    ensures |r| == |nodes|
  {
    seq(|nodes|, i requires 0 <= i < |nodes| reads nodes => nodes[i].value)
  }

  class List<T(==)> {
    var head: Node?<T>
    var tail: Node?<T>
    var len: nat
    var dup: Option<T -> Option<T>>
    var match_: Option<(T, T) -> bool>

    /** Whether a free hook is set. */
    var frees: bool

    /** The nodes from head to tail. */
    ghost var nodes: seq<Node<T>>

    /** History: the nodes given back to the allocator, and the values given to the free
        hook. */
    ghost var freed: set<Node<T>>
    ghost var released: seq<T>

    constructor ()
      ensures Valid() && nodes == [] && dup == None && match_ == None && !frees && freed == {} && released == []
    {
      head, tail, len, dup, match_, frees, nodes := null, null, 0, None, None, false, [];
      freed, released := {}, [];
    }

    /** Whatever can be reached from the list is not freed. */
    ghost predicate Valid()
      reads `head, `tail, `len, `nodes, `freed, nodes
    {
      && len == |nodes| && Distinct(nodes)
      && Alive(nodes, freed)
      && head == At(nodes, 0) && tail == At(nodes, |nodes| - 1)
      && Linked(nodes)
    }

    ghost function Values(): seq<T>
      reads `nodes, nodes
    {
      ValuesOf(nodes)
    }

    method AddNodeHead(value: T)
      requires Valid()
      modifies this`head, this`tail, this`len, this`nodes, nodes`prev
      ensures Valid() && |nodes| == |old(nodes)| + 1 && fresh(nodes[0]) && nodes[1..] == old(nodes)
      ensures Values() == [value] + old(Values())
    {
      hide Alive;
      var node := new Node(value);
      AliveWith(nodes, freed, node);
      if len == 0 {
        head, tail := node, node;
      } else {
        node.next := head;
        head.prev := node;
        head := node;
      }
      len := len + 1;
      nodes := [node] + nodes;
    }

    method AddNodeTail(value: T)
      requires Valid()
      modifies this`head, this`tail, this`len, this`nodes, nodes`next
      ensures Valid() && |nodes| == |old(nodes)| + 1 && fresh(nodes[|nodes| - 1]) && nodes[..|nodes| - 1] == old(nodes)
      ensures Values() == old(Values()) + [value]
    {
      hide Alive;
      var node := new Node(value);
      AliveWith(nodes, freed, node);
      if len == 0 {
        head, tail := node, node;
      } else {
        node.prev := tail;
        tail.next := node;
        tail := node;
      }
      len := len + 1;
      LinkedAppend(nodes, node);
      nodes := nodes + [node];
    }

    method Take(node: Node<T>, ghost k: nat)
      requires Valid() && k < |nodes| && nodes[k] == node
      modifies this`head, this`tail, this`len, this`nodes, nodes`next, nodes`prev
      ensures Valid() && nodes == Remove(old(nodes), k)
    {
      hide Alive;
      AliveWithout(nodes, freed, k);
      Unlink(node, k);
      len := len - 1;
      nodes := Remove(nodes, k);
      StillLinked(nodes, old(nodes), k);
      DistinctWithout(old(nodes), k);
    }

    method DelNode(node: Node<T>, ghost k: nat)
      requires Valid() && k < |nodes| && nodes[k] == node
      modifies this`head, this`tail, this`len, this`nodes, this`freed, this`released, nodes`next, nodes`prev
      ensures Valid() && nodes == Remove(old(nodes), k)
      ensures Values() == Remove(old(Values()), k)
      ensures freed == old(freed) + {node} && released == old(released) + if frees then [node.value] else []
    {
      hide Linked, Distinct;
      AliveWithout(nodes, freed, k);
      Take(node, k);
      released := released + if frees then [node.value] else [];
      freed := freed + {node};
    }

    /** Frees every node once, from head to tail, and hands every value to the free hook. */
    method Release()
      requires Valid()
      modifies this`len, this`freed, this`released
      ensures freed == old(freed) + (set n | n in nodes)
      ensures released == old(released) + if frees then Values() else []
    {
      var current := head;
      ghost var k := 0;
      assert old(released) + [] == old(released);
      while len > 0
        invariant k <= |nodes| && len == |nodes| - k && current == At(nodes, k)
        invariant freed == old(freed) + (set n | n in nodes[..k])
        invariant released == old(released) + if frees then Values()[..k] else []
      {
        var next := current.next;
        assert nodes[..k + 1] == nodes[..k] + [current] && Values()[..k + 1] == Values()[..k] + [current.value];
        released := released + if frees then [current.value] else [];
        freed := freed + {current};
        current, len, k := next, len - 1, k + 1;
      }
      assert nodes[..k] == nodes && Values()[..k] == Values();
    }

    method Unlink(node: Node<T>, ghost k: nat)
      requires Valid() && k < |nodes| && nodes[k] == node
      modifies this`head, this`tail, nodes`next, nodes`prev
      ensures Bridged(nodes, k)
      ensures head == At(Remove(nodes, k), 0) && tail == At(Remove(nodes, k), |nodes| - 2)
    {
      if node.prev != null {
        node.prev.next := node.next;
      } else {
        head := node.next;
      }
      if node.next != null {
        node.next.prev := node.prev;
      } else {
        tail := node.prev;
      }
    }
  }

  lemma LinkedAppend<T>(nodes: seq<Node<T>>, node: Node<T>)
    requires node !in nodes && node.next == null && node.prev == At(nodes, |nodes| - 1)
    requires forall i {:trigger nodes[i].next} :: 0 <= i < |nodes| ==>
               nodes[i].next == if i == |nodes| - 1 then node else nodes[i + 1]
    requires forall i {:trigger nodes[i].prev} :: 0 <= i < |nodes| ==> nodes[i].prev == At(nodes, i - 1)
    ensures Linked(nodes + [node])
  {
    var all := nodes + [node];
    forall i | 0 <= i < |all| ensures all[i].next == At(all, i + 1) && all[i].prev == At(all, i - 1) {
      if i < |nodes| { assert all[i] == nodes[i]; }
    }
  }

  /** The neighbours of node k point past it. */
  ghost predicate Bridged<T>(nodes: seq<Node<T>>, k: nat)
    reads nodes
  {
    && (forall i {:trigger nodes[i].next} :: 0 <= i < |nodes| && i != k ==>
          nodes[i].next == At(nodes, if i == k - 1 then k + 1 else i + 1))
    && (forall i {:trigger nodes[i].prev} :: 0 <= i < |nodes| && i != k ==>
          nodes[i].prev == At(nodes, if i == k + 1 then k - 1 else i - 1))
  }

  lemma StillLinked<T>(rest: seq<Node<T>>, was: seq<Node<T>>, k: nat)
    requires k < |was| && Bridged(was, k) && rest == Remove(was, k)
    ensures Linked(rest)
  {
    forall i | 0 <= i < |rest| ensures rest[i].next == At(rest, i + 1) && rest[i].prev == At(rest, i - 1) {
      if i < k { assert rest[i] == was[i]; } else { assert rest[i] == was[i + 1]; }
    }
  }

  lemma DistinctWithout<T>(nodes: seq<Node<T>>, k: nat)
    requires k < |nodes| && Distinct(nodes)
    ensures Distinct(Remove(nodes, k)) && nodes[k] !in Remove(nodes, k)
  {}

  // ---------------------------------------------------------------- the iterator

  function Reverse<T>(s: seq<T>): (r: seq<T>)
    ensures |r| == |s|
  {
    seq(|s|, i requires 0 <= i < |s| => s[|s| - 1 - i])
  }

  /** The nodes in the order in which an iterator meets them. */
  function View<T>(forward: bool, nodes: seq<T>): (v: seq<T>)
    ensures |v| == |nodes|
  {
    if forward then nodes else Reverse(nodes)
  }

  /** The view from its first occurrence of x on. */
  function From<T(==)>(view: seq<T>, x: T): (r: seq<T>)
    ensures x in view ==> r != [] && r[0] == x
    ensures forall y :: y in r ==> y in view
  {
    if view == [] then [] else if view[0] == x then view else From(view[1..], x)
  }

  /** What an iterator whose next field is given has still to visit. */
  function Ahead<T>(view: seq<Node<T>>, next: Node?<T>): seq<Node<T>> {
    if next == null then [] else
      var n: Node<T> := next;
      From(view, n)
  }

  lemma AheadNothing<T>(view: seq<Node<T>>)
    ensures Ahead(view, null) == []
  {}

  lemma {:induction false} FromAt<T>(view: seq<Node<T>>, k: nat)
    requires Distinct(view) && k < |view|
    ensures From(view, view[k]) == view[k..]
    decreases k
  {
    if k == 0 {
    } else {
      FromAt(view[1..], k - 1);
    }
  }

  lemma AheadAt<T>(view: seq<Node<T>>, k: nat)
    requires Distinct(view) && k <= |view|
    ensures Ahead(view, At(view, k)) == view[k..]
  {
    if k < |view| { FromAt(view, k); }
  }

  lemma DistinctView<T>(forward: bool, nodes: seq<Node<T>>)
    requires Distinct(nodes)
    ensures Distinct(View(forward, nodes))
    ensures forall n :: n in View(forward, nodes) <==> n in nodes
  {
    forall n | n in nodes ensures n in View(forward, nodes) {
      var k :| 0 <= k < |nodes| && nodes[k] == n;
      assert Reverse(nodes)[|nodes| - 1 - k] == n;
    }
  }

  lemma RemoveFromView<T>(forward: bool, nodes: seq<T>, k: nat)
    requires k < |nodes|
    ensures var j := if forward then k else |nodes| - 1 - k;
            View(forward, Remove(nodes, k)) == Remove(View(forward, nodes), j)
  {
    if !forward { ReverseRemove(nodes, k); }
  }

  lemma ReverseRemove<T>(nodes: seq<T>, k: nat)
    requires k < |nodes|
    ensures Reverse(Remove(nodes, k)) == Remove(Reverse(nodes), |nodes| - 1 - k)
  {
    var a, b, n := Reverse(Remove(nodes, k)), Remove(Reverse(nodes), |nodes| - 1 - k), |nodes| - 1;
    forall i | 0 <= i < n ensures a[i] == b[i] {
      assert a[i] == Remove(nodes, k)[n - 1 - i];
      assert b[i] == Reverse(nodes)[if i < n - k then i else i + 1];
    }
  }

  /** Removing the node just returned, or any other node the iterator has passed, leaves
      what it has still to visit; removing one ahead of it takes just that one away,
      unless it is the very next. */
  lemma RemovalAndIterator<T>(view: seq<Node<T>>, k: nat, j: nat)
    requires Distinct(view) && k < |view| && j <= |view| && j != k
    ensures Ahead(Remove(view, k), At(view, j)) == if k < j then view[j..] else Remove(view[j..], k - j)
  {
    var rest := Remove(view, k);
    DistinctWithout(view, k);
    if j < |view| {
      var i := if k < j then j - 1 else j;
      assert rest[i] == view[j];
      AheadAt(rest, i);
    }
  }

  /** An iterator stays within the list exactly when the removed node is not the one it
      would return next. */
  lemma IteratorSurvivesIff<T>(nodes: seq<Node<T>>, k: nat, next: Node?<T>)
    requires Distinct(nodes) && k < |nodes| && (next == null || next in nodes)
    ensures next == null || next in Remove(nodes, k) <==> next != nodes[k]
  {
    DistinctWithout(nodes, k);
    if next != null && next != nodes[k] {
      var i :| 0 <= i < |nodes| && nodes[i] == next;
      assert Remove(nodes, k)[if i < k then i else i - 1] == next;
    }
  }

  class ListIter<T(==)> {
    var next: Node?<T>
    var forward: bool

    constructor (list: List<T>, forward: bool)
      requires list.Valid()
      ensures this.forward == forward && Over(list) && Remaining(list) == View(forward, list.nodes)
    {
      this.next := if forward then list.head else list.tail;
      this.forward := forward;
      new;
      DistinctView(forward, list.nodes);
      AheadAt(View(forward, list.nodes), 0);
    }

    ghost predicate Over(list: List<T>)
      reads this, list`nodes
    {
      next == null || next in list.nodes
    }

    ghost function Remaining(list: List<T>): seq<Node<T>>
      reads this, list`nodes
    {
      Ahead(View(forward, list.nodes), next)
    }

    /** The next call returns the k-th node of the view. */
    ghost predicate AtIndex(list: List<T>, k: nat)
      reads this, list`nodes
    {
      Over(list) && k <= |list.nodes| && Remaining(list) == View(forward, list.nodes)[k..]
    }

    lemma StartsAtZero(list: List<T>)
      requires Over(list) && Remaining(list) == View(forward, list.nodes)
      ensures AtIndex(list, 0)
    {}

    method NextAt(ghost list: List<T>, ghost k: nat) returns (current: Node?<T>)
      requires list.Valid() && AtIndex(list, k)
      modifies this`next
      ensures current == At(View(forward, list.nodes), k)
      ensures current != null ==> AtIndex(list, k + 1)
    {
      hide View, List.Valid, Ahead;
      current := Next(list);
      Advance(View(forward, list.nodes), k, current, Remaining(list));
    }

    method Next(ghost list: List<T>) returns (current: Node?<T>)
      requires list.Valid() && Over(list)
      modifies this`next
      ensures Over(list)
      ensures current == null ==> old(Remaining(list)) == Remaining(list) == []
      ensures current != null ==> old(Remaining(list)) == [current] + Remaining(list)
    {
      hide List.Valid, View, Ahead;
      current := next;
      if current == null {
        AheadNothing(View(forward, list.nodes));
      } else {
        ghost var k := Step(list, current, forward);
        if forward {
          next := current.next;
        } else {
          next := current.prev;
        }
      }
    }
  }

  /** Deleting any node while an iterator is under way: its next call uses a freed node if
      and only if the deleted node is the one it would return next. */
  method DelNodeUnder<T(==)>(list: List<T>, iter: ListIter<T>, node: Node<T>, ghost k: nat)
    requires list.Valid() && iter.Over(list) && k < |list.nodes| && list.nodes[k] == node
    modifies list`head, list`tail, list`len, list`nodes, list`freed, list`released, list.nodes`next, list.nodes`prev
    ensures list.Valid() && list.nodes == Remove(old(list.nodes), k)
    ensures iter.Over(list) <==> iter.next != node
    ensures iter.next != null && iter.next in list.freed <==> iter.next == node
  {
    hide ValuesOf;
    assert iter.next != null ==> iter.next !in list.freed by {
      if iter.next != null {
        var i :| 0 <= i < |list.nodes| && list.nodes[i] == iter.next;
        assert list.nodes[i] !in list.freed;
      }
    }
    IteratorSurvivesIff(list.nodes, k, iter.next);
    list.DelNode(node, k);
  }

  lemma Found<T>(nodes: seq<Node<T>>, current: Node<T>, forward: bool) returns (i: nat, k: nat)
    requires current in nodes
    ensures i < |nodes| && nodes[i] == current
    ensures k == (if forward then i else |nodes| - 1 - i) && View(forward, nodes)[k] == current
    ensures At(View(forward, nodes), k + 1) == At(nodes, if forward then i + 1 else i as int - 1)
  {
    i :| 0 <= i < |nodes| && nodes[i] == current;
    k := if forward then i else |nodes| - 1 - i;
  }

  /** The neighbour in the iterator's direction is the next node of its view. */
  lemma Step<T>(list: List<T>, current: Node<T>, forward: bool) returns (k: nat)
    requires list.Valid() && current in list.nodes
    ensures var view := View(forward, list.nodes);
            && k < |view| && view[k] == current
            && Ahead(view, current) == [current] + view[k + 1..]
            && Ahead(view, if forward then current.next else current.prev) == view[k + 1..]
    ensures var n := if forward then current.next else current.prev; n == null || n in list.nodes
  {
    hide View;
    var view := View(forward, list.nodes);
    DistinctView(forward, list.nodes);
    var i;
    i, k := Found(list.nodes, current, forward);
    assert list.nodes[i].next == At(list.nodes, i + 1) && list.nodes[i].prev == At(list.nodes, i as int - 1);
    AheadAt(view, k);
    AheadAt(view, k + 1);
    assert view[k..] == [view[k]] + view[k + 1..];
  }

  // ---------------------------------------------------------------- whole-list operations

  predicate Matches<T(==)>(match_: Option<(T, T) -> bool>, value: T, key: T) {
    if match_.None? then key == value else match_.value(value, key)
  }

  /** The copies of the values, none if one of them cannot be copied. */
  function DupValues<T>(dup: Option<T -> Option<T>>, values: seq<T>): (r: Option<seq<T>>)
    ensures r.Some? ==> |r.value| == |values|
    ensures dup.None? ==> r == Some(values)
  {
    if dup.None? then Some(values)
    else if values == [] then Some([])
    else
      var v := dup.value(values[0]);
      if v.None? then None else
      var rest := DupValues(dup, values[1..]);
      if rest.None? then None else Some([v.value] + rest.value)
  }

  lemma DupFirst<T>(dup: Option<T -> Option<T>>, values: seq<T>)
    requires values != []
    ensures var v, rest := Copied(dup, values[0]), DupValues(dup, values[1..]);
            DupValues(dup, values) == if v.None? || rest.None? then None else Some([v.value] + rest.value)
  {
    assert values == [values[0]] + values[1..];
  }

  /** What is copied already, before what is still to copy. */
  function Before<T>(done: seq<T>, rest: Option<seq<T>>): Option<seq<T>> {
    if rest.None? then None else Some(done + rest.value)
  }

  lemma BeforeNothing<T>(done: seq<T>, rest: Option<seq<T>>)
    ensures Before([], rest) == rest && Before(done, Some([])) == Some(done)
  {
    if rest.Some? { assert [] + rest.value == rest.value; }
    assert done + [] == done;
  }

  lemma Advance<T>(view: seq<Node<T>>, i: nat, current: Node?<T>, rest: seq<Node<T>>)
    requires i <= |view|
    requires if current == null then view[i..] == [] else view[i..] == [current] + rest
    ensures current == At(view, i) && (current != null ==> i < |view| && rest == view[i + 1..])
  {
    if current != null { assert view[i..][0] == view[i] && view[i..][1..] == view[i + 1..]; }
  }

  /** The value of the copied node. */
  function Copied<T>(dup: Option<T -> Option<T>>, value: T): Option<T> {
    if dup.None? then Some(value) else dup.value(value)
  }

  method AddCopy<T(==)>(copy: List<T>, value: T) returns (ok: bool)
    requires copy.Valid()
    modifies copy`head, copy`tail, copy`len, copy`nodes, copy.nodes`next, copy.nodes`prev
    ensures copy.Valid() && ok == Copied(copy.dup, value).Some?
    ensures old(copy.nodes) <= copy.nodes
    ensures forall k :: |old(copy.nodes)| <= k < |copy.nodes| ==> fresh(copy.nodes[k])
    ensures ok ==> copy.Values() == old(copy.Values()) + [Copied(copy.dup, value).value]
  {
    hide List.Valid, ValuesOf;
    var v := Copied(copy.dup, value);
    if v.None? { return false; }
    copy.AddNodeTail(v.value);
    ok := true;
  }

  method CopyAll<T(==)>(orig: List<T>, copy: List<T>) returns (ok: bool)
    requires orig.Valid() && copy.Valid() && copy != orig && copy.nodes == [] && copy.dup == orig.dup
    modifies copy`head, copy`tail, copy`len, copy`nodes
    ensures ok == DupValues(orig.dup, orig.Values()).Some?
    ensures copy.Valid() && (ok ==> Some(copy.Values()) == DupValues(orig.dup, orig.Values()))
    ensures forall k :: 0 <= k < |copy.nodes| ==> fresh(copy.nodes[k])
  {
    hide List.Valid, DupValues, ListIter.AtIndex, Before, ValuesOf, Copied;
    var iter := new ListIter(orig, true);
    ghost var i, vals := 0, orig.Values();
    iter.StartsAtZero(orig);
    var node := iter.NextAt(orig, 0);
    assert vals[0..] == vals;
    BeforeNothing(copy.Values(), DupValues(orig.dup, vals));
    assert copy.Values() == [];
    while node != null
      invariant i <= |vals| == |orig.nodes| && node == At(orig.nodes, i)
      invariant iter.forward && (node != null ==> iter.AtIndex(orig, i + 1))
      invariant copy.Valid() && forall k :: 0 <= k < |copy.nodes| ==> fresh(copy.nodes[k])
      invariant DupValues(orig.dup, vals) == Before(copy.Values(), DupValues(orig.dup, vals[i..]))
      decreases |vals| - i
    {
      DupRest(orig, i, copy.Values());
      ok := AddCopy(copy, node.value);
      if !ok { return; }
      i := i + 1;
      node := iter.NextAt(orig, i);
    }
    DupNothing(orig.dup, vals[i..]);
    BeforeNothing(copy.Values(), None);
    ok := true;
  }

  /** The copy, or null if the dup hook fails on a value.  The original is not modified. */
  method Dup<T(==)>(orig: List<T>) returns (copy: List?<T>)
    requires orig.Valid()
    ensures copy == null <==> DupValues(orig.dup, orig.Values()).None?
    ensures copy != null ==>
              && fresh(copy) && (forall k :: 0 <= k < |copy.nodes| ==> fresh(copy.nodes[k])) && copy.Valid()
              && copy.dup == orig.dup && copy.match_ == orig.match_ && copy.frees == orig.frees
              && Some(copy.Values()) == DupValues(orig.dup, orig.Values())
  {
    hide List.Valid, DupValues;
    var result := new List<T>();
    result.dup, result.match_, result.frees := orig.dup, orig.match_, orig.frees;
    var ok := CopyAll(orig, result);
    if !ok {
      result.Release();
      return null;
    }
    copy := result;
  }

  lemma DupRest<T>(orig: List<T>, i: nat, done: seq<T>)
    requires i < |orig.nodes|
    ensures var v, vals := Copied(orig.dup, orig.nodes[i].value), orig.Values();
            Before(done, DupValues(orig.dup, vals[i..]))
            == if v.None? then None else Before(done + [v.value], DupValues(orig.dup, vals[i + 1..]))
  {
    hide DupValues, Before, Copied;
    var v, vals := Copied(orig.dup, orig.nodes[i].value), orig.Values();
    DupFirst(orig.dup, vals[i..]);
    assert vals[i..][1..] == vals[i + 1..];
    DupStep(done, v, DupValues(orig.dup, vals[i + 1..]));
  }

  lemma DupStep<T>(done: seq<T>, v: Option<T>, rest: Option<seq<T>>)
    ensures Before(done, if v.None? || rest.None? then None else Some([v.value] + rest.value))
            == if v.None? then None else Before(done + [v.value], rest)
  {
    if v.Some? && rest.Some? { assert done + [v.value] + rest.value == done + ([v.value] + rest.value); }
  }

  lemma DupNothing<T>(dup: Option<T -> Option<T>>, values: seq<T>)
    requires values == []
    ensures DupValues(dup, values) == Some([])
  {}

  /** The first matching value's index, or the length if there is none. */
  function FirstMatch<T(==)>(match_: Option<(T, T) -> bool>, values: seq<T>, key: T): (k: nat)
    ensures k <= |values|
    ensures forall j :: 0 <= j < k ==> !Matches(match_, values[j], key)
    ensures k < |values| ==> Matches(match_, values[k], key)
  {
    if values == [] || Matches(match_, values[0], key) then 0 else 1 + FirstMatch(match_, values[1..], key)
  }

  lemma {:induction false} FirstMatchIs<T>(match_: Option<(T, T) -> bool>, values: seq<T>, key: T, k: nat)
    requires k <= |values| && forall j :: 0 <= j < k ==> !Matches(match_, values[j], key)
    requires k < |values| ==> Matches(match_, values[k], key)
    ensures FirstMatch(match_, values, key) == k
  {
    hide Matches;
  }

  /** Without a hook a value matches if it is the key, and with one if the hook says so. */
  lemma MatchIsThere<T>(match_: Option<(T, T) -> bool>, values: seq<T>, key: T)
    ensures var k := FirstMatch(match_, values, key);
            && (match_.None? ==> if key in values then k < |values| && values[k] == key else k == |values|)
            && (match_.Some? ==>
                  if exists v :: v in values && match_.value(v, key)
                  then k < |values| && match_.value(values[k], key) else k == |values|)
  {
    hide FirstMatch;
  }

  /** The first node whose value matches, or null. */
  method SearchKey<T(==)>(list: List<T>, key: T) returns (node: Node?<T>)
    requires list.Valid()
    ensures node == At(list.nodes, FirstMatch(list.match_, list.Values(), key))
    ensures list.match_.None? ==> if key in list.Values() then node != null && node.value == key else node == null
    ensures list.match_.Some? ==>
              if exists v :: v in list.Values() && list.match_.value(v, key)
              then node != null && list.match_.value(node.value, key) else node == null
  {
    hide List.Valid, ListIter.AtIndex, Matches, FirstMatch;
    MatchIsThere(list.match_, list.Values(), key);
    var iter := new ListIter(list, true);
    ghost var k := 0;
    iter.StartsAtZero(list);
    node := iter.NextAt(list, 0);
    while node != null
      invariant k <= |list.nodes| && node == At(list.nodes, k)
      invariant iter.forward && (node != null ==> iter.AtIndex(list, k + 1))
      invariant forall j :: 0 <= j < k ==> !Matches(list.match_, list.Values()[j], key)
      decreases |list.nodes| - k
    {
      if Matches(list.match_, node.value, key) {
        FirstMatchIs(list.match_, list.Values(), key, k);
        return;
      }
      k := k + 1;
      node := iter.NextAt(list, k);
    }
    FirstMatchIs(list.match_, list.Values(), key, k);
  }

  /** Negative indices count from the tail. */
  method Index<T(==)>(list: List<T>, index: int) returns (n: Node?<T>)
    requires list.Valid()
    ensures n == At(list.nodes, if index < 0 then |list.nodes| + index else index)
  {
    hide Distinct;
    var left := if index < 0 then -index - 1 else index;
    if index < 0 {
      n := list.tail;
      while left != 0 && n != null
        invariant 0 <= left <= -index - 1
        invariant n == At(list.nodes, |list.nodes| + index + left)
      {
        n := n.prev;
        left := left - 1;
      }
    } else {
      n := list.head;
      while left != 0 && n != null
        invariant 0 <= left <= index && n == At(list.nodes, index - left)
      {
        n := n.next;
        left := left - 1;
      }
    }
  }

  // ---------------------------------------------------------------- mixes of operations

  datatype Op<T> = PushHead(value: T) | PushTail(value: T) | DeleteAt(index: int)

  function Place(n: nat, index: int): int { if index < 0 then n + index else index }

  /** What an operation does to a sequence of values. */
  function Interp<T>(s: seq<T>, op: Op<T>): seq<T> {
    match op
    case PushHead(v) => [v] + s
    case PushTail(v) => s + [v]
    case DeleteAt(i) => if 0 <= Place(|s|, i) < |s| then Remove(s, Place(|s|, i)) else s
  }

  function InterpAll<T>(s: seq<T>, ops: seq<Op<T>>): seq<T>
    decreases |ops|
  {
    if ops == [] then s else InterpAll(Interp(s, ops[0]), ops[1..])
  }

  method Execute<T(==)>(list: List<T>, op: Op<T>)
    requires list.Valid()
    modifies list`head, list`tail, list`len, list`nodes, list`freed, list`released, list.nodes`next, list.nodes`prev
    ensures list.Valid() && list.Values() == Interp(old(list.Values()), op)
    ensures forall k :: 0 <= k < |list.nodes| ==> list.nodes[k] in old(list.nodes) || fresh(list.nodes[k])
  {
    hide List.Valid, ValuesOf, Remove;
    match op
    case PushHead(v) =>
      list.AddNodeHead(v);
      assert forall k :: 1 <= k < |list.nodes| ==> list.nodes[k] == list.nodes[1..][k - 1];
    case PushTail(v) =>
      list.AddNodeTail(v);
      assert forall k :: 0 <= k < |list.nodes| - 1 ==> list.nodes[k] == list.nodes[..|list.nodes| - 1][k];
    case DeleteAt(i) =>
      var node := Index(list, i);
      if node != null {
        ghost var k := Place(|list.nodes|, i);
        RemoveIsWithin(list.nodes, k);
        list.DelNode(node, k);
      }
  }

  lemma RemoveIsWithin<T>(s: seq<T>, k: nat)
    requires k < |s|
    ensures forall x :: x in Remove(s, k) ==> x in s
  {}

  /** The heap list refines a sequence under any mix of head insertions, tail insertions
      and deletions. */
  method ExecuteAll<T(==)>(list: List<T>, ops: seq<Op<T>>)
    requires list.Valid()
    modifies list`head, list`tail, list`len, list`nodes, list`freed, list`released, list.nodes`next, list.nodes`prev
    ensures list.Valid() && list.Values() == InterpAll(old(list.Values()), ops)
  {
    hide List.Valid, ValuesOf, Interp;
    var k := 0;
    assert ops[0..] == ops;
    while k < |ops|
      invariant k <= |ops| && list.Valid()
      invariant forall k :: 0 <= k < |list.nodes| ==> list.nodes[k] in old(list.nodes) || fresh(list.nodes[k])
      invariant InterpAll(old(list.Values()), ops) == InterpAll(list.Values(), ops[k..])
    {
      assert ops[k..][1..] == ops[k + 1..];
      Execute(list, ops[k]);
      k := k + 1;
    }
  }

  // ---------------------------------------------------------------- traversal with removal

  function Filter<T>(keep: T -> bool, s: seq<T>): seq<T> {
    if s == [] then [] else Filter(keep, s[..|s| - 1]) + if keep(s[|s| - 1]) then [s[|s| - 1]] else []
  }

  /** Deletes the node the iterator has just returned. */
  method DelCurrent<T(==)>(list: List<T>, iter: ListIter<T>, node: Node<T>, ghost j: nat)
    requires list.Valid() && iter.AtIndex(list, j + 1) && node == View(iter.forward, list.nodes)[j]
    modifies list`head, list`tail, list`len, list`nodes, list`freed, list`released, list.nodes`next, list.nodes`prev
    ensures list.Valid() && iter.AtIndex(list, j)
    ensures forall k :: 0 <= k < |list.nodes| ==> list.nodes[k] in old(list.nodes)
    ensures View(iter.forward, list.Values()) == Remove(View(iter.forward, old(list.Values())), j)
  {
    hide List.Valid, ValuesOf, View, Remove, Ahead;
    ghost var f, was, vals := iter.forward, list.nodes, list.Values();
    ghost var k := if f then j else |was| - 1 - j;
    ViewAt(f, was, j);
    IterAfter(list, iter, j);
    RemoveFromView(f, was, k);
    RemoveFromView(f, vals, k);
    RemoveIsWithin(was, k);
    list.DelNode(node, k);
    ghost var view := View(f, list.nodes);
    IsDistinct(list);
    DistinctView(f, list.nodes);
  }

  lemma IsDistinct<T>(list: List<T>)
    requires list.Valid()
    ensures Distinct(list.nodes)
  {}

  lemma ViewAt<T>(forward: bool, nodes: seq<T>, j: nat)
    requires j < |nodes|
    ensures View(forward, nodes)[j] == nodes[if forward then j else |nodes| - 1 - j]
  {}

  lemma IterAfter<T>(list: List<T>, iter: ListIter<T>, j: nat)
    requires list.Valid() && iter.AtIndex(list, j + 1)
    ensures var view := View(iter.forward, list.nodes);
            && iter.next == At(view, j + 1)
            && Ahead(Remove(view, j), iter.next) == Remove(view, j)[j..]
            && (iter.next == null || iter.next in Remove(view, j))
  {
    hide View, Ahead;
    var view := View(iter.forward, list.nodes);
    DistinctView(iter.forward, list.nodes);
    NextIsFirst(view, iter.next);
    RemovalAndIterator(view, j, j + 1);
    if iter.next != null { assert Remove(view, j)[j] == view[j + 1]; }
  }

  /** An iterator's next field is the first node it has still to visit. */
  lemma NextIsFirst<T>(view: seq<Node<T>>, next: Node?<T>)
    requires next == null || next in view
    ensures next == At(Ahead(view, next), 0)
  {}

  /** Keeps or deletes the node just returned. */
  method VisitOne<T(==)>(list: List<T>, iter: ListIter<T>, node: Node<T>, keep: T -> bool, ghost j: nat)
    returns (ghost j': nat)
    requires list.Valid() && iter.AtIndex(list, j + 1) && node == View(iter.forward, list.nodes)[j]
    modifies list`head, list`tail, list`len, list`nodes, list`freed, list`released, list.nodes`next, list.nodes`prev
    ensures list.Valid() && iter.AtIndex(list, j')
    ensures forall k :: 0 <= k < |list.nodes| ==> list.nodes[k] in old(list.nodes)
    ensures var vals := View(iter.forward, old(list.Values()));
            && vals[j] == node.value && j' == (if keep(node.value) then j + 1 else j)
            && View(iter.forward, list.Values()) == if keep(node.value) then vals else Remove(vals, j)
  {
    hide List.Valid, View, Ahead, Remove;
    ViewAt(iter.forward, list.nodes, j);
    ViewAt(iter.forward, list.Values(), j);
    j' := j + 1;
    if !keep(node.value) {
      DelCurrent(list, iter, node, j);
      j' := j;
    }
  }

  lemma SweepStep<T>(keep: T -> bool, vals: seq<T>, i: nat, now: seq<T>)
    requires i < |vals| && now == Filter(keep, vals[..i]) + vals[i..]
    ensures var j := |Filter(keep, vals[..i])|;
            && now[j] == vals[i] && vals[..i + 1] == vals[..i] + [vals[i]]
            && |Filter(keep, vals[..i + 1])| == (if keep(vals[i]) then j + 1 else j)
            && (if keep(vals[i]) then now else Remove(now, j)) == Filter(keep, vals[..i + 1]) + vals[i + 1..]
  {
    assert vals[..i + 1][..i] == vals[..i];
  }

  /** The documented use of the iterator: visit every node, and remove the one just
      returned wherever the caller wants to.  Each value is visited once, in order, and
      those to be kept remain. */
  method Sweep<T(==)>(list: List<T>, forward: bool, keep: T -> bool) returns (visited: seq<T>)
    requires list.Valid()
    modifies list`head, list`tail, list`len, list`nodes, list`freed, list`released, list.nodes`next, list.nodes`prev
    ensures list.Valid() && visited == View(forward, old(list.Values()))
    ensures View(forward, list.Values()) == Filter(keep, View(forward, old(list.Values())))
  {
    hide List.Valid, ValuesOf, View, ListIter.AtIndex, Filter, Remove;
    var iter := new ListIter(list, forward);
    ghost var vals, i, j := View(forward, list.Values()), 0, 0;
    iter.StartsAtZero(list);
    visited := [];
    var node := iter.NextAt(list, 0);
    FilterNothing(keep, vals);
    while node != null
      invariant i <= |vals| && j <= |list.nodes| && iter.forward == forward && list.Valid()
      invariant node == At(View(forward, list.nodes), j) && (node != null ==> iter.AtIndex(list, j + 1))
      invariant forall k :: 0 <= k < |list.nodes| ==> list.nodes[k] in old(list.nodes)
      invariant visited == vals[..i] && j == |Filter(keep, vals[..i])|
      invariant View(forward, list.Values()) == Filter(keep, vals[..i]) + vals[i..]
      decreases |vals| - i
    {
      SweepStep(keep, vals, i, View(forward, list.Values()));
      visited := visited + [node.value];
      j := VisitOne(list, iter, node, keep, j);
      i := i + 1;
      node := iter.NextAt(list, j);
    }
    assert vals[..i] == vals && vals[i..] == [];
  }

  lemma FilterNothing<T>(keep: T -> bool, vals: seq<T>)
    ensures Filter(keep, vals[..0]) == [] && vals[..0] == []
    ensures [] + vals[0..] == vals
  {}
}

/**
 * The node chain behind the linked list: an arena of nodes addressed by
 * handles. `links` gives each node its element and its two circular
 * neighbours; `index` gives each node its own ordinal (the `index()` the list
 * reads to compute its length).
 *
 * The node type's own code is not part of this model; its three structural
 * operations, as the list uses them, are written here as methods that take the
 * arena and give back the updated arena:
 *   - SpliceAfter:  `after->after(node)`, splice `node` right after `after`;
 *   - SpliceBefore: `before->before(node)` on the head, splice `node` in front;
 *   - Unlink:       `delete node`, take the node out of the chain and free it.
 * Each renumbers the ordinals of the nodes that move, by walking the chain
 * forward until it comes back to the head.
 */
module Chain {
  import Sequences

  type Handle = nat

  datatype Link<T> = Link(element: T, next: Handle, prev: Handle)

  /** Ordinal after `i` on a circle of `n` positions. */
  function Succ(i: nat, n: nat): nat
    requires i < n
  {
    if i + 1 == n then 0 else i + 1
  }

  /** Ordinal before `i` on a circle of `n` positions. */
  function Pred(i: nat, n: nat): nat
    requires i < n
  {
    if i == 0 then n - 1 else i - 1
  }

  /** Node `hs[i]` holds `vs[i]` and sits between `hs[i - 1]` and `hs[i + 1]`, circularly. */
  ghost predicate LinkedAt<T>(links: map<Handle, Link<T>>, hs: seq<Handle>, vs: seq<T>, i: int)
  {
    && 0 <= i < |hs| == |vs|
    && hs[i] in links
    && links[hs[i]] == Link(vs[i], hs[Succ(i, |hs|)], hs[Pred(i, |hs|)])
  }

  /** The nodes `hs` are linked into one circle in this order and carry the values `vs`. */
  ghost predicate Ring<T>(links: map<Handle, Link<T>>, hs: seq<Handle>, vs: seq<T>)
  {
    |hs| == |vs| && forall i :: 0 <= i < |hs| ==> LinkedAt(links, hs, vs, i)
  }

  /** Node `hs[i]` records the ordinal `i + d`. */
  ghost predicate OrdinalAt(index: map<Handle, int>, hs: seq<Handle>, i: int, d: int)
  {
    0 <= i < |hs| && hs[i] in index && index[hs[i]] == i + d
  }

  /** Every node knows its ordinal, counted from the head `hs[0]`. */
  ghost predicate Numbered(index: map<Handle, int>, hs: seq<Handle>)
  {
    forall i :: 0 <= i < |hs| ==> OrdinalAt(index, hs, i, 0)
  }

  /** The arena holds exactly the nodes of the chain: none leaked, none missing. */
  ghost predicate Owns<T>(links: map<Handle, Link<T>>, index: map<Handle, int>, hs: seq<Handle>)
  {
    forall h {:trigger h in links} {:trigger h in index} :: (h in links <==> h in hs) && (h in index <==> h in hs)
  }

  /** The arena is one well-formed circular chain `hs` holding `vs`, head first. */
  ghost predicate Chained<T>(links: map<Handle, Link<T>>, index: map<Handle, int>, hs: seq<Handle>, vs: seq<T>)
  {
    Ring(links, hs, vs) && Numbered(index, hs) && Owns(links, index, hs)
  }

  ghost predicate Distinct(hs: seq<Handle>)
  {
    forall i, j :: 0 <= i < j < |hs| ==> hs[i] != hs[j]
  }

  /** Since each node knows its ordinal, no node occurs twice in the chain. */
  lemma NumberedDistinct(index: map<Handle, int>, hs: seq<Handle>)
    requires Numbered(index, hs)
    ensures Distinct(hs)
  {
    forall i, j | 0 <= i < j < |hs| ensures hs[i] != hs[j] {
      assert OrdinalAt(index, hs, i, 0) && OrdinalAt(index, hs, j, 0);
    }
  }

  /** Inserting a node not yet in the chain keeps the chain free of repetitions. */
  lemma InsertedDistinct(hs: seq<Handle>, i: nat, h: Handle)
    requires i <= |hs| && Distinct(hs) && h !in hs
    ensures Distinct(Sequences.Inserted(hs, i, h))
  {
    var hs' := Sequences.Inserted(hs, i, h);
    forall a, b | 0 <= a < b < |hs'| ensures hs'[a] != hs'[b] {
      if a < i && b < i {
      } else if a < i && b == i {
        assert hs[a] in hs;
      } else if a < i {
        assert hs'[b] == hs[b - 1];
      } else if a == i {
        assert hs'[b] == hs[b - 1] && hs[b - 1] in hs;
      } else {
        assert hs'[a] == hs[a - 1] && hs'[b] == hs[b - 1];
      }
    }
  }

  /** Setting the ordinal of node `x == hs[j]` leaves every other node's recorded ordinal as it was. */
  lemma Renumber(index: map<Handle, int>, hs: seq<Handle>, j: nat, x: Handle, v: int, d: int)
    requires j < |hs| && x == hs[j] && Distinct(hs) && v == j + d
    ensures forall k, d' :: 0 <= k < |hs| && k != j ==>
      (OrdinalAt(index[x := v], hs, k, d') <==> OrdinalAt(index, hs, k, d'))
    ensures OrdinalAt(index[x := v], hs, j, d)
  {
  }

  /** A node's ordinal is its position in the chain. */
  lemma PositionOf<T>(links: map<Handle, Link<T>>, index: map<Handle, int>, hs: seq<Handle>, vs: seq<T>, h: Handle)
    requires Chained(links, index, hs, vs) && h in links
    ensures h in index && 0 <= index[h] < |hs| && hs[index[h]] == h
  {
    var i :| 0 <= i < |hs| && hs[i] == h;
    assert OrdinalAt(index, hs, i, 0);
  }

  /** The node reached from `h` after `k` steps along `next`. */
  ghost function Walk<T>(links: map<Handle, Link<T>>, h: Handle, k: nat): Handle
    decreases k
  {
    if k == 0 || h !in links then h else Walk(links, links[h].next, k - 1)
  }

  /** Walking `k + 1` steps is walking `k` steps and then one more. */
  lemma {:induction false} WalkShift<T>(links: map<Handle, Link<T>>, h: Handle, k: nat)
    requires Walk(links, h, k) in links
    ensures Walk(links, h, k + 1) == links[Walk(links, h, k)].next
    decreases k
  {
    if k > 0 && h in links {
      WalkShift(links, links[h].next, k - 1);
    }
  }

  /** Walking `k` steps forward from the head reaches ordinal `k`, and `|hs|` steps reach the head again. */
  lemma {:induction false} WalkFromHead<T>(links: map<Handle, Link<T>>, hs: seq<Handle>, vs: seq<T>, k: nat)
    requires Ring(links, hs, vs) && k <= |hs|
    ensures |hs| > 0 ==> Walk(links, hs[0], k) == hs[if k == |hs| then 0 else k]
  {
    if k > 0 {
      WalkFromHead(links, hs, vs, k - 1);
      assert LinkedAt(links, hs, vs, k - 1);
      WalkShift(links, hs[0], k - 1);
    }
  }

  /** Circular closure: walking as many steps as there are nodes comes back to the head. */
  lemma Closure<T>(links: map<Handle, Link<T>>, hs: seq<Handle>, vs: seq<T>)
    requires Ring(links, hs, vs) && |hs| > 0
    ensures Walk(links, hs[0], |hs|) == hs[0]
  {
    WalkFromHead(links, hs, vs, |hs|);
  }

  /**
   * The renumbering walk: starting at `start`, the node at ordinal `j0`, add
   * `delta` to each node's recorded ordinal, moving forward along `next` until
   * the walk reaches the node that records ordinal 0 (the head).
   */
  method Shift<T>(links: map<Handle, Link<T>>, index: map<Handle, int>, ghost hs: seq<Handle>, ghost vs: seq<T>,
                  ghost j0: nat, ghost d: int, start: Handle, delta: int, ghost d': int)
    returns (index': map<Handle, int>)
    requires Ring(links, hs, vs) && Distinct(hs) && 1 <= j0 <= |hs| && 1 <= j0 + d && d' == d + delta
    requires forall x :: x in index <==> x in hs
    requires start == hs[if j0 == |hs| then 0 else j0]
    requires forall k :: 0 <= k < j0 ==> OrdinalAt(index, hs, k, 0)
    requires forall k :: j0 <= k < |hs| ==> OrdinalAt(index, hs, k, d)
    ensures forall x :: x in index' <==> x in hs
    ensures forall k :: 0 <= k < j0 ==> OrdinalAt(index', hs, k, 0)
    ensures forall k :: j0 <= k < |hs| ==> OrdinalAt(index', hs, k, d')
  {
    ghost var n := |hs|;
    index' := index;
    var cur := start;
    ghost var j := j0;
    if j < n { assert OrdinalAt(index', hs, j, d); }
    while index'[cur] != 0
      invariant j0 <= j <= n
      invariant cur == hs[if j == n then 0 else j]
      invariant j < n ==> cur in index' && index'[cur] == j + d
      invariant forall x :: x in index' <==> x in hs
      invariant forall k :: 0 <= k < j0 ==> OrdinalAt(index', hs, k, 0)
      invariant forall k :: j0 <= k < j ==> OrdinalAt(index', hs, k, d')
      invariant forall k :: j <= k < n ==> OrdinalAt(index', hs, k, d)
      decreases n - j
    {
      assert j < n by { assert OrdinalAt(index', hs, 0, 0); }
      var v := index'[cur] + delta;
      Renumber(index', hs, j, cur, v, d');
      ghost var pre := index';
      index' := index'[cur := v];
      forall k | 0 <= k < j0 ensures OrdinalAt(index', hs, k, 0) {
        assert OrdinalAt(pre, hs, k, 0);
      }
      forall k | j0 <= k < j ensures OrdinalAt(index', hs, k, d') {
        assert OrdinalAt(pre, hs, k, d');
      }
      forall k | j < k < n ensures OrdinalAt(index', hs, k, d) {
        assert OrdinalAt(pre, hs, k, d);
      }
      assert LinkedAt(links, hs, vs, j);
      if j + 1 < n { assert OrdinalAt(index', hs, j + 1, d); }
      cur := links[cur].next;
      j := j + 1;
    }
  }

  /**
   * Splice a new node `h` holding `e` right after node `after`, then add one to
   * the ordinal of every node behind it, walking forward up to the head.
   */
  method SpliceAfter<T>(links: map<Handle, Link<T>>, index: map<Handle, int>, ghost hs: seq<Handle>, ghost vs: seq<T>,
                        after: Handle, h: Handle, e: T)
    returns (links': map<Handle, Link<T>>, index': map<Handle, int>)
    requires Chained(links, index, hs, vs) && after in links && h !in links
    ensures after in index && 0 <= index[after] < |hs| && hs[index[after]] == after
    ensures Chained(links', index', Sequences.Inserted(hs, index[after] + 1, h),
                                    Sequences.Inserted(vs, index[after] + 1, e))
  {
    PositionOf(links, index, hs, vs, after);
    var p := index[after];
    assert LinkedAt(links, hs, vs, p);
    ghost var hs' := Sequences.Inserted(hs, p + 1, h);
    ghost var vs' := Sequences.Inserted(vs, p + 1, e);
    ghost var m := |hs| + 1;

    var succ := links[after].next;
    links' := links[h := Link(e, succ, after)];
    links' := links'[after := links'[after].(next := h)];
    links' := links'[succ := links'[succ].(prev := h)];
    index' := index[h := p + 1];
    SplicedAfter(links, index, hs, vs, p, h, e, links', index');

    index' := Shift(links', index', hs', vs', p + 2, -1, succ, 1, 0);
  }

  /** The links and ordinals written by SpliceAfter, before the renumbering walk. */
  lemma SplicedAfter<T>(links: map<Handle, Link<T>>, index: map<Handle, int>, hs: seq<Handle>, vs: seq<T>,
                        p: nat, h: Handle, e: T, links': map<Handle, Link<T>>, index': map<Handle, int>)
    requires Chained(links, index, hs, vs) && p < |hs| && h !in links
    requires var after, succ := hs[p], hs[Succ(p, |hs|)];
      var l1 := links[h := Link(e, succ, after)];
      var l2 := l1[after := l1[after].(next := h)];
      links' == l2[succ := l2[succ].(prev := h)] && index' == index[h := p + 1]
    ensures var hs' := Sequences.Inserted(hs, p + 1, h);
      && Ring(links', hs', Sequences.Inserted(vs, p + 1, e))
      && Owns(links', index', hs') && Distinct(hs')
      && (forall k :: 0 <= k < p + 2 ==> OrdinalAt(index', hs', k, 0))
      && (forall k :: p + 2 <= k < |hs'| ==> OrdinalAt(index', hs', k, -1))
  {
    var n := |hs|;
    var hs' := Sequences.Inserted(hs, p + 1, h);
    var vs' := Sequences.Inserted(vs, p + 1, e);
    Sequences.InsertedMembers(hs, p + 1, h);
    NumberedDistinct(index, hs);
    forall k | 0 <= k < n + 1
      ensures LinkedAt(links', hs', vs', k)
      ensures k < p + 2 ==> OrdinalAt(index', hs', k, 0)
      ensures k >= p + 2 ==> OrdinalAt(index', hs', k, -1)
    {
      if k <= p {
        SplicedAfterBelow(links, index, hs, vs, p, h, e, links', index', k);
      } else if k == p + 1 {
        SplicedAfterNew(links, index, hs, vs, p, h, e, links', index');
      } else {
        SplicedAfterAbove(links, index, hs, vs, p, h, e, links', index', k);
      }
    }
    InsertedDistinct(hs, p + 1, h);
  }

  /** SplicedAfter at a position `k` up to and including `after`. */
  lemma SplicedAfterBelow<T>(links: map<Handle, Link<T>>, index: map<Handle, int>, hs: seq<Handle>, vs: seq<T>,
                          p: nat, h: Handle, e: T, links': map<Handle, Link<T>>, index': map<Handle, int>, k: nat)
    requires Chained(links, index, hs, vs) && h !in links && k <= p < |hs|
    requires var after, succ := hs[p], hs[Succ(p, |hs|)];
      var l1 := links[h := Link(e, succ, after)];
      var l2 := l1[after := l1[after].(next := h)];
      links' == l2[succ := l2[succ].(prev := h)] && index' == index[h := p + 1]
    ensures var hs', vs' := Sequences.Inserted(hs, p + 1, h), Sequences.Inserted(vs, p + 1, e);
      LinkedAt(links', hs', vs', k) && OrdinalAt(index', hs', k, 0)
  {
    var hs' := Sequences.Inserted(hs, p + 1, h);
    NumberedDistinct(index, hs);
    assert LinkedAt(links, hs, vs, p);
    assert hs'[k] == hs[k];
    assert LinkedAt(links, hs, vs, k) && OrdinalAt(index, hs, k, 0);
    if k < p { assert hs'[k + 1] == hs[k + 1]; }
  }

  /** SplicedAfter at the new node's position `p + 1`. */
  lemma SplicedAfterNew<T>(links: map<Handle, Link<T>>, index: map<Handle, int>, hs: seq<Handle>, vs: seq<T>,
                           p: nat, h: Handle, e: T, links': map<Handle, Link<T>>, index': map<Handle, int>)
    requires Chained(links, index, hs, vs) && h !in links && p < |hs|
    requires var after, succ := hs[p], hs[Succ(p, |hs|)];
      var l1 := links[h := Link(e, succ, after)];
      var l2 := l1[after := l1[after].(next := h)];
      links' == l2[succ := l2[succ].(prev := h)] && index' == index[h := p + 1]
    ensures var hs', vs' := Sequences.Inserted(hs, p + 1, h), Sequences.Inserted(vs, p + 1, e);
      LinkedAt(links', hs', vs', p + 1) && OrdinalAt(index', hs', p + 1, 0)
  {
    NumberedDistinct(index, hs);
    assert LinkedAt(links, hs, vs, p);
  }

  /** SplicedAfter at a position `k` behind the new node. */
  lemma SplicedAfterAbove<T>(links: map<Handle, Link<T>>, index: map<Handle, int>, hs: seq<Handle>, vs: seq<T>,
                          p: nat, h: Handle, e: T, links': map<Handle, Link<T>>, index': map<Handle, int>, k: nat)
    requires Chained(links, index, hs, vs) && h !in links && p + 1 < k <= |hs|
    requires var after, succ := hs[p], hs[Succ(p, |hs|)];
      var l1 := links[h := Link(e, succ, after)];
      var l2 := l1[after := l1[after].(next := h)];
      links' == l2[succ := l2[succ].(prev := h)] && index' == index[h := p + 1]
    ensures var hs', vs' := Sequences.Inserted(hs, p + 1, h), Sequences.Inserted(vs, p + 1, e);
      LinkedAt(links', hs', vs', k) && OrdinalAt(index', hs', k, -1)
  {
    var hs' := Sequences.Inserted(hs, p + 1, h);
    NumberedDistinct(index, hs);
    assert LinkedAt(links, hs, vs, p);
    assert hs'[k] == hs[k - 1];
    assert LinkedAt(links, hs, vs, k - 1) && OrdinalAt(index, hs, k - 1, 0);
  }

  /**
   * Splice a new node `h` holding `e` in front of the head `before`; the new
   * node becomes the head. Every old node's ordinal goes up by one, walking
   * forward from the old head until the walk comes round to the new node.
   */
  method SpliceBefore<T>(links: map<Handle, Link<T>>, index: map<Handle, int>, ghost hs: seq<Handle>, ghost vs: seq<T>,
                         before: Handle, h: Handle, e: T)
    returns (links': map<Handle, Link<T>>, index': map<Handle, int>)
    requires Chained(links, index, hs, vs) && |hs| > 0 && before == hs[0] && h !in links
    ensures Chained(links', index', Sequences.Inserted(hs, 0, h), Sequences.Inserted(vs, 0, e))
  {
    ghost var hs' := Sequences.Inserted(hs, 0, h);
    ghost var vs' := Sequences.Inserted(vs, 0, e);
    ghost var m := |hs| + 1;

    assert LinkedAt(links, hs, vs, 0);
    var pred := links[before].prev;
    links' := links[h := Link(e, before, pred)];
    links' := links'[pred := links'[pred].(next := h)];
    links' := links'[before := links'[before].(prev := h)];
    index' := index[h := 0];
    SplicedBefore(links, index, hs, vs, h, e, links', index');

    Renumber(index', hs', 1, before, 1, 0);
    ghost var pre := index';
    index' := index'[before := 1];
    forall k | 1 < k < m ensures OrdinalAt(index', hs', k, -1) {
      assert OrdinalAt(pre, hs', k, -1);
    }
    assert OrdinalAt(index', hs', 0, 0) by { assert OrdinalAt(pre, hs', 0, 0); }
    assert LinkedAt(links', hs', vs', 1);
    index' := Shift(links', index', hs', vs', 2, -1, links'[before].next, 1, 0);
  }

  /** The links and ordinals written by SpliceBefore, before the renumbering walk. */
  lemma SplicedBefore<T>(links: map<Handle, Link<T>>, index: map<Handle, int>, hs: seq<Handle>, vs: seq<T>,
                         h: Handle, e: T, links': map<Handle, Link<T>>, index': map<Handle, int>)
    requires Chained(links, index, hs, vs) && |hs| > 0 && h !in links
    requires var before, pred := hs[0], hs[|hs| - 1];
      var l1 := links[h := Link(e, before, pred)];
      var l2 := l1[pred := l1[pred].(next := h)];
      links' == l2[before := l2[before].(prev := h)] && index' == index[h := 0]
    ensures var hs' := Sequences.Inserted(hs, 0, h);
      && Ring(links', hs', Sequences.Inserted(vs, 0, e))
      && Owns(links', index', hs') && Distinct(hs')
      && OrdinalAt(index', hs', 0, 0)
      && (forall k :: 1 <= k < |hs'| ==> OrdinalAt(index', hs', k, -1))
      && (forall k :: 1 <= k < |hs'| ==> hs'[k] != h)
  {
    var n := |hs|;
    var hs' := Sequences.Inserted(hs, 0, h);
    var vs' := Sequences.Inserted(vs, 0, e);
    Sequences.InsertedMembers(hs, 0, h);
    NumberedDistinct(index, hs);
    forall k | 0 <= k < n + 1
      ensures LinkedAt(links', hs', vs', k)
      ensures k == 0 ==> OrdinalAt(index', hs', k, 0)
      ensures k > 0 ==> OrdinalAt(index', hs', k, -1)
    {
      if k == 0 {
        SplicedBeforeNew(links, index, hs, vs, h, e, links', index');
      } else {
        SplicedBeforeOld(links, index, hs, vs, h, e, links', index', k);
      }
    }
    InsertedDistinct(hs, 0, h);
  }

  /** SplicedBefore at the new head. */
  lemma SplicedBeforeNew<T>(links: map<Handle, Link<T>>, index: map<Handle, int>, hs: seq<Handle>, vs: seq<T>,
                            h: Handle, e: T, links': map<Handle, Link<T>>, index': map<Handle, int>)
    requires Chained(links, index, hs, vs) && |hs| > 0 && h !in links
    requires var before, pred := hs[0], hs[|hs| - 1];
      var l1 := links[h := Link(e, before, pred)];
      var l2 := l1[pred := l1[pred].(next := h)];
      links' == l2[before := l2[before].(prev := h)] && index' == index[h := 0]
    ensures var hs', vs' := Sequences.Inserted(hs, 0, h), Sequences.Inserted(vs, 0, e);
      LinkedAt(links', hs', vs', 0) && OrdinalAt(index', hs', 0, 0)
  {
    assert LinkedAt(links, hs, vs, 0) && LinkedAt(links, hs, vs, |hs| - 1);
  }

  /** SplicedBefore at a position `k` behind the new head. */
  lemma SplicedBeforeOld<T>(links: map<Handle, Link<T>>, index: map<Handle, int>, hs: seq<Handle>, vs: seq<T>,
                            h: Handle, e: T, links': map<Handle, Link<T>>, index': map<Handle, int>, k: nat)
    requires Chained(links, index, hs, vs) && 0 < k <= |hs| && h !in links
    requires var before, pred := hs[0], hs[|hs| - 1];
      var l1 := links[h := Link(e, before, pred)];
      var l2 := l1[pred := l1[pred].(next := h)];
      links' == l2[before := l2[before].(prev := h)] && index' == index[h := 0]
    ensures var hs', vs' := Sequences.Inserted(hs, 0, h), Sequences.Inserted(vs, 0, e);
      LinkedAt(links', hs', vs', k) && OrdinalAt(index', hs', k, -1)
  {
    var n := |hs|;
    var hs' := Sequences.Inserted(hs, 0, h);
    NumberedDistinct(index, hs);
    assert LinkedAt(links, hs, vs, 0) && LinkedAt(links, hs, vs, n - 1);
    assert hs'[k] == hs[k - 1];
    assert LinkedAt(links, hs, vs, k - 1) && OrdinalAt(index, hs, k - 1, 0);
    if k < n { assert hs'[k + 1] == hs[k]; }
  }

  /**
   * Free node `h`: take one off the ordinal of every node behind it, walking
   * forward up to the head, then join its two neighbours and drop it from the arena.
   */
  method Unlink<T>(links: map<Handle, Link<T>>, index: map<Handle, int>, ghost hs: seq<Handle>, ghost vs: seq<T>, h: Handle)
    returns (links': map<Handle, Link<T>>, index': map<Handle, int>)
    requires Chained(links, index, hs, vs) && h in links
    ensures h in index && 0 <= index[h] < |hs| && hs[index[h]] == h
    ensures Chained(links', index', Sequences.Removed(hs, index[h]), Sequences.Removed(vs, index[h]))
  {
    PositionOf(links, index, hs, vs, h);
    NumberedDistinct(index, hs);
    var p := index[h];
    ghost var n := |hs|;
    assert LinkedAt(links, hs, vs, p);
    var pred := links[h].prev;
    var succ := links[h].next;

    index' := Shift(links, index, hs, vs, p + 1, 0, succ, -1, -1);

    links' := links[pred := links[pred].(next := succ)];
    links' := links'[succ := links'[succ].(prev := pred)];
    links' := links' - {h};
    ghost var renumbered := index';
    index' := index' - {h};
    Unlinked(links, renumbered, hs, vs, p, links', index');
  }

  /** The links and ordinals left by Unlink form the shorter circle. */
  lemma Unlinked<T>(links: map<Handle, Link<T>>, index: map<Handle, int>, hs: seq<Handle>, vs: seq<T>, p: nat,
                    links': map<Handle, Link<T>>, index': map<Handle, int>)
    requires Ring(links, hs, vs) && p < |hs|
    requires forall x :: (x in links <==> x in hs) && (x in index <==> x in hs)
    requires Distinct(hs)
    requires forall k :: 0 <= k <= p ==> OrdinalAt(index, hs, k, 0)
    requires forall k :: p < k < |hs| ==> OrdinalAt(index, hs, k, -1)
    requires var n := |hs|;
      var h, pred, succ := hs[p], hs[Pred(p, n)], hs[Succ(p, n)];
      var l1 := links[pred := links[pred].(next := succ)];
      links' == l1[succ := l1[succ].(prev := pred)] - {h} && index' == index - {h}
    ensures Chained(links', index', Sequences.Removed(hs, p), Sequences.Removed(vs, p))
  {
    var n := |hs|;
    var hs' := Sequences.Removed(hs, p);
    var vs' := Sequences.Removed(vs, p);
    Sequences.RemovedMembers(hs, p);
    forall k | 0 <= k < n - 1
      ensures LinkedAt(links', hs', vs', k)
      ensures OrdinalAt(index', hs', k, 0)
    {
      if k < p {
        UnlinkedBelow(links, index, hs, vs, p, links', index', k);
      } else {
        UnlinkedAbove(links, index, hs, vs, p, links', index', k);
      }
    }
  }

  /** Unlinked at one position `k` of the shorter chain, in front of the removed node. */
  lemma UnlinkedBelow<T>(links: map<Handle, Link<T>>, index: map<Handle, int>, hs: seq<Handle>, vs: seq<T>, p: nat,
                         links': map<Handle, Link<T>>, index': map<Handle, int>, k: nat)
    requires Ring(links, hs, vs) && k < p < |hs|
    requires forall x :: x in links <==> x in hs
    requires Distinct(hs)
    requires OrdinalAt(index, hs, k, 0)
    requires var n := |hs|;
      var h, pred, succ := hs[p], hs[Pred(p, n)], hs[Succ(p, n)];
      var l1 := links[pred := links[pred].(next := succ)];
      links' == l1[succ := l1[succ].(prev := pred)] - {h} && index' == index - {h}
    ensures var hs', vs' := Sequences.Removed(hs, p), Sequences.Removed(vs, p);
      LinkedAt(links', hs', vs', k) && OrdinalAt(index', hs', k, 0)
  {
    var n := |hs|;
    var hs' := Sequences.Removed(hs, p);
    var vs' := Sequences.Removed(vs, p);
    assert LinkedAt(links, hs, vs, p);
    assert hs'[k] == hs[k];
    assert LinkedAt(links, hs, vs, k);
    if k + 1 < p { assert hs'[k + 1] == hs[k + 1]; }
  }

  /** Unlinked at one position `k` of the shorter chain, at or behind the removed node. */
  lemma UnlinkedAbove<T>(links: map<Handle, Link<T>>, index: map<Handle, int>, hs: seq<Handle>, vs: seq<T>, p: nat,
                         links': map<Handle, Link<T>>, index': map<Handle, int>, k: nat)
    requires Ring(links, hs, vs) && p <= k < |hs| - 1
    requires forall x :: x in links <==> x in hs
    requires Distinct(hs)
    requires OrdinalAt(index, hs, k + 1, -1)
    requires var n := |hs|;
      var h, pred, succ := hs[p], hs[Pred(p, n)], hs[Succ(p, n)];
      var l1 := links[pred := links[pred].(next := succ)];
      links' == l1[succ := l1[succ].(prev := pred)] - {h} && index' == index - {h}
    ensures var hs', vs' := Sequences.Removed(hs, p), Sequences.Removed(vs, p);
      LinkedAt(links', hs', vs', k) && OrdinalAt(index', hs', k, 0)
  {
    var n := |hs|;
    var hs' := Sequences.Removed(hs, p);
    var vs' := Sequences.Removed(vs, p);
    assert LinkedAt(links, hs, vs, p);
    assert hs'[k] == hs[k + 1];
    assert LinkedAt(links, hs, vs, k + 1);
    if k + 2 < n { assert hs'[k + 1] == hs[k + 2]; }
  }
}

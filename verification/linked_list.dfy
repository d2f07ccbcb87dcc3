/**
 * The circular doubly-linked list container `util::AbstractLinkedList`.
 *
 * The list anchors on its tail `last`; the head is the tail's `next`. Nodes
 * live in the arena of module Chain: `links` holds each node's element and
 * neighbours, `index` the ordinal each node records. The ghost fields `Nodes`
 * and `Contents` are the chain and its elements in head-to-tail order; every
 * operation is specified against them.
 *
 * `constructed` stands for the base object's `isConstructed()` flag, which the
 * list only reads. Allocation of a node or of a result buffer is an input
 * `allocOk`: false models the allocator returning a failed object.
 */
module LinkedList {
  import opened Options
  import Sequences
  import Chain

  /**
   * The arena `links`/`index` is one circular chain `hs` holding `vs`, every
   * handle in it is below `bound`, and `last` is its tail.
   */
  ghost predicate Tracked<T>(links: map<Chain.Handle, Chain.Link<T>>, index: map<Chain.Handle, int>,
                             hs: seq<Chain.Handle>, vs: seq<T>, last: Option<Chain.Handle>, bound: Chain.Handle)
  {
    && Chain.Chained(links, index, hs, vs)
    && (forall k :: 0 <= k < |hs| ==> hs[k] < bound)
    && last == (if |hs| == 0 then None else Some(hs[|hs| - 1]))
  }

  /** In a tracked chain the node at ordinal `p` records `p`, and the fresh handle is not in use. */
  lemma Positioned<T>(links: map<Chain.Handle, Chain.Link<T>>, index: map<Chain.Handle, int>,
                      hs: seq<Chain.Handle>, vs: seq<T>, last: Option<Chain.Handle>, bound: Chain.Handle, p: nat)
    requires Tracked(links, index, hs, vs, last, bound) && p < |hs|
    ensures hs[p] in links && hs[p] in index && index[hs[p]] == p
    ensures bound !in links && bound !in hs
    ensures (Some(hs[p]) == last) == (p + 1 == |hs|)
  {
    assert Chain.OrdinalAt(index, hs, p, 0);
    assert Chain.OrdinalAt(index, hs, |hs| - 1, 0);
  }

  /** Splicing the fresh node after ordinal `p` keeps the chain tracked; the node becomes the tail when `p` was the tail. */
  lemma TrackedAfter<T>(links: map<Chain.Handle, Chain.Link<T>>, index: map<Chain.Handle, int>,
                        hs: seq<Chain.Handle>, vs: seq<T>, last: Option<Chain.Handle>, bound: Chain.Handle, p: nat,
                        e: T, links': map<Chain.Handle, Chain.Link<T>>, index': map<Chain.Handle, int>)
    requires Tracked(links, index, hs, vs, last, bound) && p < |hs|
    requires Chain.Chained(links', index', Sequences.Inserted(hs, p + 1, bound), Sequences.Inserted(vs, p + 1, e))
    ensures Tracked(links', index', Sequences.Inserted(hs, p + 1, bound), Sequences.Inserted(vs, p + 1, e),
                    if p + 1 == |hs| then Some(bound) else last, bound + 1)
  {
    var n := |hs|;
    var hs' := Sequences.Inserted(hs, p + 1, bound);
    if p + 1 < n { assert hs'[n] == hs[n - 1]; }
    assert forall k :: 0 <= k < |hs'| ==> hs'[k] < bound + 1;
  }

  /** Splicing the fresh node before the head keeps the chain tracked with the same tail. */
  lemma TrackedBefore<T>(links: map<Chain.Handle, Chain.Link<T>>, index: map<Chain.Handle, int>,
                         hs: seq<Chain.Handle>, vs: seq<T>, last: Option<Chain.Handle>, bound: Chain.Handle,
                         e: T, links': map<Chain.Handle, Chain.Link<T>>, index': map<Chain.Handle, int>)
    requires Tracked(links, index, hs, vs, last, bound) && |hs| > 0
    requires Chain.Chained(links', index', Sequences.Inserted(hs, 0, bound), Sequences.Inserted(vs, 0, e))
    ensures Tracked(links', index', Sequences.Inserted(hs, 0, bound), Sequences.Inserted(vs, 0, e), last, bound + 1)
  {
    var hs' := Sequences.Inserted(hs, 0, bound);
    Sequences.InsertedAtFrontKeepsLast(hs, bound);
    assert forall k :: 0 <= k < |hs'| ==> hs'[k] < bound + 1;
  }

  class AbstractLinkedList<T(==)> {
    const constructed: bool
    var illegal: T
    var last: Option<Chain.Handle>
    var count: int
    var links: map<Chain.Handle, Chain.Link<T>>
    var index: map<Chain.Handle, int>
    var nextHandle: Chain.Handle

    ghost var Nodes: seq<Chain.Handle>
    ghost var Contents: seq<T>

    /**
     * The arena is exactly one circular chain `Nodes`, every handle in use is
     * below the next fresh one, and `last` is the chain's tail.
     */
    ghost predicate Linked()
      reads this
    {
      Tracked(links, index, Nodes, Contents, last, nextHandle)
    }

    /**
     * The list invariant. `count` only ever grows (it is bumped by insertions
     * and by removals alike), so it never falls below the length.
     */
    ghost predicate Valid()
      reads this
    {
      Linked() && |Contents| <= count
    }

    /** The list with the given illegal element; the base object's construction outcome is `constructed`. */
    constructor (illegal: T, constructed: bool)
      ensures Valid() && Contents == [] && last == None && count == 0
      ensures this.illegal == illegal && this.constructed == constructed
    {
      this.constructed := constructed;
      this.illegal := illegal;
      last := None;
      count := 0;
      links := map[];
      index := map[];
      nextHandle := 0;
      Nodes := [];
      Contents := [];
    }

    /** Number of elements, read off the tail's ordinal. */
    function Length(): (r: int)
      reads this
      requires Valid()
      ensures r == |Contents|
    {
      if last.None? then 0
      else
        assert Chain.OrdinalAt(index, Nodes, |Nodes| - 1, 0);
        index[last.value] + 1
    }

    /** Whether `i` addresses an element. */
    function IsIndex(i: int): (r: bool)
      reads this
      requires Valid()
      ensures r <==> 0 <= i < |Contents|
    {
      0 <= i && i < Length()
    }

    /** Whether `i` is outside the insertion positions 0 .. length. */
    function IsIndexOutOfBounds(i: int): (r: bool)
      reads this
      requires Valid()
      ensures r <==> !(0 <= i <= |Contents|)
    {
      i < 0 || i > Length()
    }

    /** The node at ordinal `i`, or None for an index that addresses no element. */
    method GetNodeByIndex(i: int) returns (node: Option<Chain.Handle>)
      requires Valid()
      ensures node == if 0 <= i < |Contents| then Some(Nodes[i]) else None
    {
      if !IsIndex(i) {
        return None;
      }
      if i == Length() - 1 {
        return last;
      }
      var n := |Nodes|;
      assert Chain.LinkedAt(links, Nodes, Contents, n - 1);
      var cur := links[last.value].next;
      for k := 0 to i
        invariant cur == Nodes[k]
      {
        assert Chain.LinkedAt(links, Nodes, Contents, k);
        cur := links[cur].next;
      }
      return Some(cur);
    }

    /**
     * The first node from the head holding `e`, or None. The walk starts at
     * the tail's successor unconditionally, so the list must not be empty.
     */
    method GetNodeByElement(e: T) returns (node: Option<Chain.Handle>)
      requires Valid() && |Contents| > 0
      ensures node == if e in Contents then Some(Nodes[Sequences.IndexOf(Contents, e)]) else None
    {
      var n := |Nodes|;
      assert Chain.LinkedAt(links, Nodes, Contents, n - 1);
      var cur := links[last.value].next;
      var len := Length();
      var k := 0;
      while k < len
        invariant 0 <= k <= len
        invariant k < len ==> cur == Nodes[k]
        invariant forall j :: 0 <= j < k ==> Contents[j] != e
      {
        assert Chain.LinkedAt(links, Nodes, Contents, k);
        if e == links[cur].element {
          ghost var r := Sequences.IndexOf(Contents, e);
          assert r == k;
          return Some(cur);
        }
        cur := links[cur].next;
        k := k + 1;
      }
      return None;
    }

    /**
     * Unlink and free `node`. When it is the tail, the tail first moves to its
     * predecessor, or to None when it was the only node. `count` goes up by
     * one here as well.
     */
    method RemoveNode(node: Option<Chain.Handle>) returns (ok: bool)
      requires Valid() && (node.Some? ==> node.value in links)
      modifies this
      ensures Valid()
      ensures ok == node.Some?
      ensures ok ==> node.value in old(index)
      ensures ok ==>
                var p := old(index)[node.value];
                && 0 <= p < old(|Contents|) && old(Nodes)[p] == node.value
                && Nodes == Sequences.Removed(old(Nodes), p)
                && Contents == Sequences.Removed(old(Contents), p)
                && count == old(count) + 1
      ensures ok && old(last) == node ==>
        last == if old(|Nodes|) == 1 then None else Some(old(Nodes)[old(|Nodes|) - 2])
      ensures ok && old(last) != node ==> last == old(last)
      ensures !ok ==> unchanged(this)
      ensures illegal == old(illegal) && nextHandle == old(nextHandle)
    {
      if node.None? {
        return false;
      }
      var h := node.value;
      Chain.PositionOf(links, index, Nodes, Contents, h);
      ghost var p := index[h];
      ghost var n := |Nodes|;
      ghost var rest := Sequences.Removed(Nodes, p);
      var tail := last;
      if node == last {
        if Length() == 1 {
          tail := None;
        } else {
          assert Chain.LinkedAt(links, Nodes, Contents, n - 1);
          tail := Some(links[last.value].prev);
        }
      }
      assert tail == if n == 1 then None else Some(rest[n - 2]);
      links, index := Chain.Unlink(links, index, Nodes, Contents, h);
      last, count := tail, count + 1;
      Nodes, Contents := rest, Sequences.Removed(Contents, p);
      return true;
    }

    /**
     * Insert `e` so that it sits at ordinal `i`. Fails without any change when
     * `i` is outside 0 .. length or the node cannot be allocated. Into an empty
     * list the node becomes the only one; at ordinal 0 it is spliced in front
     * of the head; elsewhere after the node at `i - 1`, becoming the tail when
     * that node was the tail.
     */
    method AddNode(i: int, e: T, allocOk: bool) returns (ok: bool)
      requires Valid()
      modifies this
      ensures Valid()
      ensures ok <==> 0 <= i <= old(|Contents|) && allocOk
      ensures ok ==> Contents == Sequences.Inserted(old(Contents), i, e) && count == old(count) + 1
      ensures ok ==> Nodes == Sequences.Inserted(old(Nodes), i, old(nextHandle)) && old(nextHandle) !in old(links)
      ensures ok && i == 0 && old(|Contents|) > 0 ==> last == old(last)
      ensures ok && i == old(|Contents|) ==> last == Some(old(nextHandle))
      ensures !ok ==> unchanged(this)
      ensures illegal == old(illegal)
    {
      if IsIndexOutOfBounds(i) {
        return false;
      }
      if !allocOk {
        return false;
      }
      var h := nextHandle;
      if last.None? {
        links, index := map[h := Chain.Link(e, h, h)], map[h := 0];
        last, count, nextHandle := Some(h), count + 1, h + 1;
        Nodes, Contents := [h], [e];
        assert Chain.LinkedAt(links, Nodes, Contents, 0);
        assert Chain.OrdinalAt(index, Nodes, 0, 0);
        return true;
      }
      if i > 0 {
        var after := GetNodeByIndex(i - 1);
        if after.None? {
          assert false;
          return false;
        }
        LinkAfter(i - 1, after.value, e);
      } else {
        var before := GetNodeByIndex(0);
        if before.None? {
          assert false;
          return false;
        }
        LinkBefore(before.value, e);
      }
      count := count + 1;
      return true;
    }

    /**
     * `after->after(node)` for a fresh node holding `e`, followed by the tail
     * update: the new node becomes the tail when `after` was the tail.
     */
    method LinkAfter(ghost p: nat, after: Chain.Handle, e: T)
      requires Linked() && p < |Nodes| && after == Nodes[p]
      modifies this
      ensures Linked()
      ensures Nodes == Sequences.Inserted(old(Nodes), p + 1, old(nextHandle)) && old(nextHandle) !in old(links)
      ensures Contents == Sequences.Inserted(old(Contents), p + 1, e)
      ensures last == if p + 1 == old(|Nodes|) then Some(old(nextHandle)) else old(last)
      ensures count == old(count) && illegal == old(illegal)
    {
      var h := nextHandle;
      Positioned(links, index, Nodes, Contents, last, h, p);
      var links', index' := Chain.SpliceAfter(links, index, Nodes, Contents, after, h, e);
      TrackedAfter(links, index, Nodes, Contents, last, h, p, e, links', index');
      var tail := if Some(after) == last then Some(h) else last;
      links, index, last, nextHandle := links', index', tail, h + 1;
      Nodes, Contents := Sequences.Inserted(Nodes, p + 1, h), Sequences.Inserted(Contents, p + 1, e);
    }

    /** `before->before(node)` on the head, for a fresh node holding `e`; the tail stays. */
    method LinkBefore(before: Chain.Handle, e: T)
      requires Linked() && |Nodes| > 0 && before == Nodes[0]
      modifies this
      ensures Linked()
      ensures Nodes == Sequences.Inserted(old(Nodes), 0, old(nextHandle)) && old(nextHandle) !in old(links)
      ensures Contents == Sequences.Inserted(old(Contents), 0, e)
      ensures last == old(last)
      ensures count == old(count) && illegal == old(illegal)
    {
      var h := nextHandle;
      Positioned(links, index, Nodes, Contents, last, h, 0);
      var links', index' := Chain.SpliceBefore(links, index, Nodes, Contents, before, h, e);
      TrackedBefore(links, index, Nodes, Contents, last, h, e, links', index');
      links, index, nextHandle := links', index', h + 1;
      Nodes, Contents := Sequences.Inserted(Nodes, 0, h), Sequences.Inserted(Contents, 0, e);
    }

    /** Append `e` at the tail; fails when the list is not constructed. */
    method Add(e: T, allocOk: bool) returns (ok: bool)
      requires Valid()
      modifies this
      ensures Valid()
      ensures ok <==> constructed && allocOk
      ensures ok ==> Contents == old(Contents) + [e] && last == Some(old(nextHandle))
      ensures ok ==> count == old(count) + 1
      ensures !ok ==> unchanged(this)
      ensures illegal == old(illegal)
    {
      if !constructed {
        return false;
      }
      ok := AddNode(Length(), e, allocOk);
      Sequences.InsertedAtEnd(old(Contents), e);
    }

    /** Insert `e` at ordinal `i`; fails when the list is not constructed. */
    method AddAt(i: int, e: T, allocOk: bool) returns (ok: bool)
      requires Valid()
      modifies this
      ensures Valid()
      ensures ok <==> constructed && 0 <= i <= old(|Contents|) && allocOk
      ensures ok ==> Contents == Sequences.Inserted(old(Contents), i, e) && count == old(count) + 1
      ensures !ok ==> unchanged(this)
      ensures illegal == old(illegal)
    {
      if !constructed {
        return false;
      }
      ok := AddNode(i, e, allocOk);
    }

    /** Remove every element, tail first. */
    method Clear()
      requires Valid()
      modifies this
      ensures Valid()
      ensures constructed ==> Contents == [] && last == None && count == old(count) + old(|Contents|)
      ensures !constructed ==> unchanged(this)
      ensures illegal == old(illegal)
    {
      if !constructed {
        return;
      }
      var b := Length() - 1;
      var i := b;
      while i >= 0
        invariant -1 <= i <= b
        invariant Valid()
        invariant Contents == old(Contents)[..i + 1]
        invariant count == old(count) + (b - i)
        invariant illegal == old(illegal)
      {
        var node := GetNodeByIndex(i);
        assert Chain.OrdinalAt(index, Nodes, i, 0);
        var removed := RemoveNode(node);
        Sequences.RemovedLast(old(Contents)[..i + 1]);
        assert old(Contents)[..i + 1][..i] == old(Contents)[..i];
        i := i - 1;
      }
    }

    /** Remove the element at ordinal `i`; an index addressing no element fails without change. */
    method RemoveAt(i: int) returns (ok: bool)
      requires Valid()
      modifies this
      ensures Valid()
      ensures ok <==> constructed && 0 <= i < old(|Contents|)
      ensures ok ==> Contents == Sequences.Removed(old(Contents), i) && count == old(count) + 1
      ensures !ok ==> unchanged(this)
      ensures illegal == old(illegal)
    {
      if !constructed {
        return false;
      }
      var node := GetNodeByIndex(i);
      if node.Some? {
        assert Chain.OrdinalAt(index, Nodes, i, 0);
      }
      ok := RemoveNode(node);
    }

    /** Remove the head (the queue's `remove()`). */
    method Remove() returns (ok: bool)
      requires Valid()
      modifies this
      ensures Valid()
      ensures ok <==> constructed && old(|Contents|) > 0
      ensures ok ==> Contents == old(Contents)[1..] && count == old(count) + 1
      ensures !ok ==> unchanged(this)
      ensures illegal == old(illegal)
    {
      ok := RemoveAt(0);
    }

    /** Remove the head. */
    method RemoveFirst() returns (ok: bool)
      requires Valid()
      modifies this
      ensures Valid()
      ensures ok <==> constructed && old(|Contents|) > 0
      ensures ok ==> Contents == old(Contents)[1..] && count == old(count) + 1
      ensures !ok ==> unchanged(this)
      ensures illegal == old(illegal)
    {
      ok := RemoveAt(0);
    }

    /** Remove the tail; on an empty list the index is -1 and nothing happens. */
    method RemoveLast() returns (ok: bool)
      requires Valid()
      modifies this
      ensures Valid()
      ensures ok <==> constructed && old(|Contents|) > 0
      ensures ok ==> Contents == old(Contents)[..old(|Contents|) - 1] && count == old(count) + 1
      ensures !ok ==> unchanged(this)
      ensures illegal == old(illegal)
    {
      ok := RemoveAt(Length() - 1);
    }

    /**
     * Remove the first occurrence of `e`. The search walks from the head
     * unconditionally, so a constructed list must not be empty.
     */
    method RemoveElement(e: T) returns (ok: bool)
      requires Valid() && (constructed ==> |Contents| > 0)
      modifies this
      ensures Valid()
      ensures ok <==> constructed && e in old(Contents)
      ensures ok ==> Contents == Sequences.Removed(old(Contents), Sequences.IndexOf(old(Contents), e))
      ensures ok ==> count == old(count) + 1
      ensures !ok ==> unchanged(this)
      ensures illegal == old(illegal)
    {
      if !constructed {
        return false;
      }
      var node := GetNodeByElement(e);
      if node.Some? {
        assert Chain.OrdinalAt(index, Nodes, Sequences.IndexOf(Contents, e), 0);
      }
      ok := RemoveNode(node);
    }

    /** The element at ordinal `i`, or the illegal element when there is none or the list is not constructed. */
    method Get(i: int) returns (r: T)
      requires Valid()
      ensures r == if constructed && 0 <= i < |Contents| then Contents[i] else illegal
    {
      if !constructed {
        return illegal;
      }
      var node := GetNodeByIndex(i);
      if node.Some? {
        assert Chain.LinkedAt(links, Nodes, Contents, i);
        return links[node.value].element;
      }
      return illegal;
    }

    /** The head element (the queue's `element()`). */
    method Element() returns (r: T)
      requires Valid()
      ensures r == if constructed && |Contents| > 0 then Contents[0] else illegal
    {
      r := Get(0);
    }

    /** The head element. */
    method GetFirst() returns (r: T)
      requires Valid()
      ensures r == if constructed && |Contents| > 0 then Contents[0] else illegal
    {
      r := Get(0);
    }

    /** The tail element. */
    method GetLast() returns (r: T)
      requires Valid()
      ensures r == if constructed && |Contents| > 0 then Contents[|Contents| - 1] else illegal
    {
      r := Get(Length() - 1);
    }

    /** The element returned to signal an error. */
    function Illegal(): (r: T)
      reads this
      ensures IsIllegal(r) <==> constructed
    {
      illegal
    }

    /** Replace the illegal element; a list that is not constructed keeps its old one. */
    method SetIllegal(value: T)
      requires Valid()
      modifies this
      ensures Valid() && Contents == old(Contents) && Nodes == old(Nodes)
      ensures illegal == if constructed then value else old(illegal)
      ensures IsIllegal(value) == constructed
      ensures last == old(last) && count == old(count) && links == old(links) && index == old(index)
      ensures nextHandle == old(nextHandle)
    {
      if constructed {
        illegal := value;
      }
    }

    /** Whether `value` is the illegal element; always false when the list is not constructed. */
    function IsIllegal(value: T): (r: bool)
      reads this
      ensures r <==> constructed && value == illegal
    {
      if !constructed then false else illegal == value
    }

    /** The ordinal of the first occurrence of `e`, or -1. The list must not be empty (see GetNodeByElement). */
    method IndexOf(e: T) returns (r: int)
      requires Valid() && |Contents| > 0
      ensures -1 <= r < |Contents|
      ensures r == -1 <==> e !in Contents
      ensures r >= 0 ==> Contents[r] == e && forall k :: 0 <= k < r ==> Contents[k] != e
    {
      var node := GetNodeByElement(e);
      if node.Some? {
        assert Chain.OrdinalAt(index, Nodes, Sequences.IndexOf(Contents, e), 0);
        return index[node.value];
      }
      return -1;
    }

    /**
     * A fresh buffer holding the elements head to tail, or null when the list
     * is not constructed, is empty, or the buffer cannot be allocated.
     */
    method ToArray(allocOk: bool) returns (buf: array?<T>)
      requires Valid()
      ensures buf == null <==> !constructed || |Contents| == 0 || !allocOk
      ensures buf != null ==> fresh(buf) && buf[..] == Contents
    {
      if !constructed {
        return null;
      }
      var len := Length();
      if len == 0 {
        return null;
      }
      if !allocOk {
        return null;
      }
      var fill := illegal;
      buf := new T[len](_ => fill);
      assert Chain.LinkedAt(links, Nodes, Contents, len - 1);
      var cur := links[last.value].next;
      for k := 0 to len
        invariant k < len ==> cur == Nodes[k]
        invariant buf[..k] == Contents[..k]
      {
        assert Chain.LinkedAt(links, Nodes, Contents, k);
        buf[k] := links[cur].element;
        cur := links[cur].next;
      }
      assert buf[..] == buf[..len];
    }
  }
}

/**
 * An intrusive, circular singly-linked list that keeps one pointer, to its
 * last element. Elements carry their own `next` link; the list never
 * allocates. A `next` of null means "not in any list", and the last element's
 * `next` is the front, so front and back are both one step away.
 *
 * The ghost sequence `elems` is the list's contents from front to back, and
 * `Valid()` ties it to the real pointers. A position is held as the element
 * BEFORE the one it denotes; `Index` maps a position to the index it denotes.
 */
module IntrusiveSList {

  /** An element: the only thing the list touches is its `next` link. */
  class Node {
    var next: Node?

    /** A fresh element is unlinked. */
    constructor ()
      ensures next == null
    {
      next := null;
    }
  }

  ghost predicate Distinct(s: seq<Node>)
  {
    forall i, j :: 0 <= i < j < |s| ==> s[i] != s[j]
  }

  /** The index of `x` in `s`. */
  ghost function IndexOf(s: seq<Node>, x: Node): (k: nat)
    requires x in s
    ensures k < |s| && s[k] == x
  {
    if s[0] == x then 0 else 1 + IndexOf(s[1..], x)
  }

  /** In a sequence without repetitions every element has one index. */
  lemma IndexOfUnique(s: seq<Node>, j: nat)
    requires Distinct(s) && j < |s|
    ensures IndexOf(s, s[j]) == j
  {
  }

  /** `s` with `x` placed at index `i`, the later elements shifted up by one. */
  ghost function InsertAt(s: seq<Node>, i: nat, x: Node): (r: seq<Node>)
    requires i <= |s|
    ensures |r| == |s| + 1 && r[i] == x
    ensures forall j :: 0 <= j < i ==> r[j] == s[j]
    ensures forall j :: i <= j < |s| ==> r[j + 1] == s[j]
  {
    s[..i] + [x] + s[i..]
  }

  /** `s` without its element at index `i`, the later elements shifted down by one. */
  ghost function RemoveAt(s: seq<Node>, i: nat): (r: seq<Node>)
    requires i < |s|
    ensures |r| == |s| - 1
    ensures forall j :: 0 <= j < i ==> r[j] == s[j]
    ensures forall j :: i <= j < |r| ==> r[j] == s[j + 1]
  {
    s[..i] + s[i + 1..]
  }

  /** Removing what was just inserted gives back the original sequence. */
  lemma RemoveInsert(s: seq<Node>, i: nat, x: Node)
    requires i <= |s|
    ensures RemoveAt(InsertAt(s, i, x), i) == s
  {
  }

  /**
   * A position in a list: the list it belongs to and the element before the
   * one it denotes, or null for the end position. The C++ `iterator` and
   * `const_iterator` differ only in the constness of what they hand out, so
   * both are this one type.
   */
  datatype Position = Position(container: SList, previous: Node?)

  /** Two positions are equal when both their list and their predecessor are. */
  function Equal(a: Position, b: Position): (r: bool)
    ensures r <==> a == b
  {
    a.container == b.container && a.previous == b.previous
  }

  class SList {
    /** The last element, or null when the list is empty. */
    var last: Node?

    /** The elements, from front to back. */
    ghost var elems: seq<Node>

    /**
     * The circular invariant: the elements are distinct, `last` is null
     * exactly when the list is empty and is the back otherwise, every element
     * links to its successor and the back links to the front.
     */
    ghost predicate Valid()
      reads this, elems
    {
      Distinct(elems) &&
      (last == null <==> elems == []) &&
      (elems != [] ==>
        last == elems[|elems| - 1] &&
        last.next == elems[0] &&
        forall i :: 0 <= i < |elems| - 1 ==> elems[i].next == elems[i + 1])
    }

    /** A new list is empty. */
    constructor ()
      ensures Valid() && elems == []
    {
      last := null;
      elems := [];
    }

    /** Every linked element has a successor, so an unlinked one is not in the list. */
    lemma NotLinked(x: Node)
      requires Valid()
      requires x.next == null
      ensures x !in elems
    {
      forall k | 0 <= k < |elems|
        ensures elems[k].next != null
      {
        if k < |elems| - 1 {
          assert elems[k].next == elems[k + 1];
        }
      }
    }

    /** Each element links to its successor, the back to the front. */
    lemma Successor(k: nat)
      requires Valid() && k < |elems|
      ensures elems[k].next == elems[if k == |elems| - 1 then 0 else k + 1]
    {
    }

    /** An element links to itself exactly when it is the sole element. */
    lemma SelfLoopIffSingleton(x: Node)
      requires Valid()
      requires x in elems
      ensures x.next == x <==> |elems| == 1
    {
      var n := |elems|;
      var k := IndexOf(elems, x);
      if k < n - 1 {
        assert x.next == elems[k + 1];
        assert elems[k] != elems[k + 1];
      } else if n > 1 {
        assert x.next == elems[0];
        assert elems[0] != elems[n - 1];
      }
    }

    /** True exactly when the list has no elements. */
    function Empty(): (r: bool)
      reads this, elems
      requires Valid()
      ensures r <==> elems == []
    {
      last == null
    }

    /** The first element; `front()` asserts `last` (slist.h:22). */
    function Front(): (r: Node)
      reads this, elems
      requires Valid()
      requires !Empty()
      ensures r == elems[0]
    {
      last.next
    }

    /** The last element; `back()` asserts `last` (slist.h:37). */
    function Back(): (r: Node)
      reads this, elems
      requires Valid()
      requires !Empty()
      ensures r == elems[|elems| - 1]
    {
      last
    }

    /** Links `item` in as the new front. */
    method PushFront(item: Node)
      requires Valid()
      requires item.next == null
      modifies this, item, elems
      ensures Valid()
      ensures elems == [item] + old(elems)
      ensures old(elems) == [] ==> last == item && item.next == item
      ensures old(elems) != [] ==> last == old(last)
    {
      NotLinked(item);
      if last != null {
        item.next := last.next;
        last.next := item;
      } else {
        item.next := item;
        last := item;
      }
      elems := [item] + elems;
    }

    /**
     * Unlinks and returns the front, with its `next` reset to null; on an
     * empty list returns null and changes nothing.
     */
    method PopFront() returns (r: Node?)
      requires Valid()
      modifies this, elems
      ensures Valid()
      ensures old(elems) == [] ==> r == null && unchanged(this)
      ensures old(elems) != [] ==>
        r == old(elems[0]) && r.next == null && elems == old(elems[1..])
      ensures old(|elems|) == 1 ==> last == null
    {
      if last == null {
        return null;
      }
      var first := last.next;
      if first == last {
        SelfLoopIffSingleton(first);
        last := null;
      } else {
        SelfLoopIffSingleton(last);
        last.next := first.next;
      }
      first.next := null;
      elems := elems[1..];
      return first;
    }

    /** Links `item` in as the new back: a push to the front, then a move of `last`. */
    method PushBack(item: Node)
      requires Valid()
      requires item.next == null
      modifies this, item, elems
      ensures Valid()
      ensures elems == old(elems) + [item]
      ensures last == item
      ensures old(elems) != [] ==> elems[0] == old(elems[0])
    {
      NotLinked(item);
      ghost var e := elems;
      PushFront(item);
      ghost var f := elems;
      assert f == [item] + e;
      last := item;
      elems := e + [item];
      forall i | 0 <= i < |e|
        ensures elems[i].next == elems[i + 1]
      {
        if i < |e| - 1 {
          assert f[i + 1].next == f[i + 2];
        } else {
          assert f[|f| - 1].next == f[0];
        }
      }
      if e != [] {
        assert f[0].next == f[1] && f[1] == e[0];
      }
    }

    /** The position of the front: the predecessor of the front is `last`. */
    function Begin(): (r: Position)
      reads this, elems
      requires Valid()
      ensures ValidPos(r) && Index(r) == 0
      ensures Equal(r, End()) <==> elems == []
    {
      Position(this, last)
    }

    /** The end position, one past the back. */
    function End(): (r: Position)
      reads this, elems
      requires Valid()
      ensures ValidPos(r) && Index(r) == |elems|
    {
      Position(this, null)
    }

    /** Unlinks every element, leaving each with `next` reset to null. */
    method Clear()
      requires Valid()
      modifies this, elems
      ensures Valid() && elems == []
      ensures forall x :: x in old(elems) ==> x.next == null
    {
      ghost var k := 0;
      while !Empty()
        invariant Valid()
        invariant 0 <= k <= |old(elems)|
        invariant elems == old(elems)[k..]
        invariant forall i :: 0 <= i < k ==> old(elems)[i].next == null
        decreases |elems|
      {
        var _ := PopFront();
        k := k + 1;
      }
    }

    /** `p` is a position of this list. */
    ghost predicate ValidPos(p: Position)
      reads this
    {
      p.container == this && (p.previous == null || p.previous in elems)
    }

    /**
     * The index `p` denotes: the end position denotes |elems|, and a
     * predecessor at index k denotes the element after it, wrapping from the
     * back to the front.
     */
    ghost function Index(p: Position): nat
      reads this
      requires ValidPos(p)
    {
      if p.previous == null then |elems|
      else
        var k := IndexOf(elems, p.previous);
        if k == |elems| - 1 then 0 else k + 1
    }

    /** Positions of this list denote indices in 0..|elems|. */
    lemma IndexBounds(p: Position)
      requires Valid() && ValidPos(p)
      ensures Index(p) <= |elems|
      ensures Index(p) == |elems| <==> p.previous == null
    {
    }

    /** Dereferencing: the element after the predecessor. */
    function Deref(p: Position): (r: Node)
      reads this, elems
      requires Valid() && ValidPos(p)
      requires p.previous != null
      ensures r == elems[Index(p)]
    {
      var k := IndexOf(elems, p.previous);
      assert k < |elems| - 1 ==> elems[k].next == elems[k + 1];
      p.previous.next
    }

    /**
     * Advancing: the predecessor moves one link forward, and reaching the
     * back turns the position into the end; the end stays the end.
     */
    function Increment(p: Position): (r: Position)
      reads this, elems
      requires Valid() && ValidPos(p)
      ensures ValidPos(r)
      ensures Index(r) == if Index(p) == |elems| then |elems| else Index(p) + 1
    {
      if p.previous == null then p
      else
        var k := IndexOf(elems, p.previous);
        assert k < |elems| - 1 ==> elems[k].next == elems[k + 1];
        var previous := p.previous.next;
        if previous == p.container.last then Position(p.container, null)
        else
          IndexOfUnique(elems, if k == |elems| - 1 then 0 else k + 1);
          Position(p.container, previous)
    }

    /** Positions of this list are equal exactly when they denote the same index. */
    lemma EqualIffSameIndex(a: Position, b: Position)
      requires Valid() && ValidPos(a) && ValidPos(b)
      ensures Equal(a, b) <==> Index(a) == Index(b)
    {
    }

    /**
     * Links `item` in just before the element `pos` denotes, or at the back
     * when `pos` is the end, and returns a position denoting `item`.
     */
    method Insert(pos: Position, item: Node) returns (r: Position)
      requires Valid() && ValidPos(pos)
      requires item.next == null
      modifies this, item, elems
      ensures Valid() && ValidPos(r)
      ensures elems == InsertAt(old(elems), old(Index(pos)), item)
      ensures Index(r) == old(Index(pos)) && Deref(r) == item
      ensures old(Index(pos)) == 0 ==> Equal(r, Begin())
    {
      NotLinked(item);
      ghost var i := Index(pos);
      ghost var e := elems;
      if pos.previous != null {
        ghost var k := IndexOf(elems, pos.previous);
        item.next := pos.previous.next;
        pos.previous.next := item;
        elems := e[..i] + [item] + e[i..];
        r := Position(this, pos.previous);
        InsertedValid(e, k, item);
        IndexOfUnique(elems, if k == |e| - 1 then |e| else k);
        assert elems[i] == item;
      } else if last != null {
        var previous := last;
        PushBack(item);
        r := Position(this, previous);
        IndexOfUnique(elems, |e| - 1);
        assert e[..i] == e && e[i..] == [];
        assert elems[i] == item;
      } else {
        PushBack(item);
        r := Position(this, item);
        assert elems == [item];
      }
    }

    /** The splice of `Insert` after `elems[k]` re-establishes the invariant. */
    lemma InsertedValid(e: seq<Node>, k: nat, item: Node)
      requires Distinct(e) && item !in e && k < |e|
      requires last == e[|e| - 1]
      requires elems == (if k == |e| - 1 then [item] + e else e[..k + 1] + [item] + e[k + 1..])
      requires e[k].next == item
      requires item.next == (if k == |e| - 1 then e[0] else e[k + 1])
      requires |e| - 1 != k ==> last.next == e[0]
      requires forall i :: 0 <= i < |e| - 1 && i != k ==> e[i].next == e[i + 1]
      ensures Valid()
    {
    }

    /**
     * Unlinks the element `pos` denotes, resets its `next` to null and
     * returns the position of the element that followed it (the end when it
     * was the back); on the end position does nothing and returns the end.
     */
    method Erase(pos: Position) returns (r: Position)
      requires Valid() && ValidPos(pos)
      modifies this, elems
      ensures Valid() && ValidPos(r)
      ensures old(Index(pos)) == old(|elems|) ==> elems == old(elems) && unchanged(this, old(elems))
      ensures old(Index(pos)) < old(|elems|) ==>
        elems == RemoveAt(old(elems), old(Index(pos))) &&
        old(elems[Index(pos)]).next == null
      ensures Index(r) == old(Index(pos))
      ensures Equal(r, End()) <==> old(Index(pos)) + 1 >= old(|elems|)
      ensures old(Index(pos)) + 1 == old(|elems|) > 1 ==> last == old(elems[|elems| - 2])
    {
      if pos.previous != null {
        var prev := pos.previous;
        ghost var i := Index(pos);
        ghost var e := elems;
        ghost var k := IndexOf(e, prev);
        assert k < |e| - 1 ==> e[k].next == e[k + 1];
        var item := prev.next;
        assert item == e[i];
        var next := item.next;
        if next == item {
          SelfLoopIffSingleton(item);
          var _ := PopFront();
          return End();
        } else {
          SelfLoopIffSingleton(item);
          prev.next := next;
          item.next := null;
          elems := e[..i] + e[i + 1..];
          if last == item {
            last := prev;
            ErasedValid(e, i, k);
            return End();
          } else {
            ErasedValid(e, i, k);
            r := Position(this, prev);
            IndexOfUnique(elems, if i == 0 then |elems| - 1 else i - 1);
            return r;
          }
        }
      }
      return End();
    }

    /** Unlinking `e[i]` in `Erase` re-establishes the invariant. */
    lemma ErasedValid(e: seq<Node>, i: nat, k: nat)
      requires Distinct(e) && 2 <= |e| && i < |e| && k < |e|
      requires i == (if k == |e| - 1 then 0 else k + 1)
      requires elems == e[..i] + e[i + 1..]
      requires last == (if i == |e| - 1 then e[k] else e[|e| - 1])
      requires e[k].next == (if i == |e| - 1 then e[0] else e[i + 1])
      requires i != |e| - 1 && k != |e| - 1 ==> e[|e| - 1].next == e[0]
      requires forall j :: 0 <= j < |e| - 1 && j != k && j != i ==> e[j].next == e[j + 1]
      ensures Valid()
    {
    }

    /** Following `next` links `steps` times from `x`. */
    ghost function Walk(x: Node, steps: nat): (y: Node)
      reads this, elems
      requires Valid() && x in elems
      ensures y in elems
      decreases steps
    {
      if steps == 0 then x
      else
        var k := IndexOf(elems, x);
        assert k < |elems| - 1 ==> elems[k].next == elems[k + 1];
        Walk(x.next, steps - 1)
    }

    /** Walking forward from the element at index m visits its successors in order. */
    lemma {:induction false} WalkAlong(m: nat, j: nat)
      requires Valid() && m + j < |elems|
      ensures Walk(elems[m], j) == elems[m + j]
      decreases j
    {
      if j > 0 {
        assert elems[m].next == elems[m + 1];
        WalkAlong(m + 1, j - 1);
      }
    }

    /**
     * Circularity: walking from `last` returns to `last` after exactly
     * |elems| steps and not before.
     */
    lemma Circularity()
      requires Valid() && elems != []
      ensures Walk(last, |elems|) == last
      ensures forall j :: 0 < j < |elems| ==> Walk(last, j) != last
    {
      var n := |elems|;
      forall j | 0 < j <= n
        ensures Walk(last, j) == elems[j - 1]
      {
        WalkAlong(0, j - 1);
      }
      forall j | 0 < j < n
        ensures Walk(last, j) != last
      {
        assert Walk(last, j) == elems[j - 1];
        assert elems[j - 1] != elems[n - 1];
      }
    }

    /** `steps` increments from `p`. */
    ghost function Advance(p: Position, steps: nat): (r: Position)
      reads this, elems
      requires Valid() && ValidPos(p)
      ensures ValidPos(r)
      decreases steps
    {
      if steps == 0 then p else Advance(Increment(p), steps - 1)
    }

    /** Each increment moves one index forward, stopping at the end. */
    lemma {:induction false} AdvanceIndex(p: Position, steps: nat)
      requires Valid() && ValidPos(p)
      ensures Index(Advance(p, steps)) ==
        if Index(p) + steps <= |elems| then Index(p) + steps else |elems|
      decreases steps
    {
      IndexBounds(p);
      if steps > 0 {
        AdvanceIndex(Increment(p), steps - 1);
      }
    }

    /**
     * A traversal from `Begin()` yields the elements front to back and
     * reaches `End()` after exactly |elems| increments.
     */
    lemma Traversal(k: nat)
      requires Valid()
      ensures k < |elems| ==>
        Advance(Begin(), k).previous != null && Deref(Advance(Begin(), k)) == elems[k]
      ensures Equal(Advance(Begin(), k), End()) <==> k >= |elems|
    {
      AdvanceIndex(Begin(), k);
      IndexBounds(Advance(Begin(), k));
      EqualIffSameIndex(Advance(Begin(), k), End());
    }
  }

  /** `insert` followed by `erase` of the returned position restores the list. */
  method InsertThenErase(l: SList, pos: Position, item: Node) returns (r: Position)
    requires l.Valid() && l.ValidPos(pos)
    requires item.next == null
    modifies l, item, l.elems
    ensures l.Valid() && l.ValidPos(r)
    ensures l.elems == old(l.elems) && item.next == null
    ensures l.Index(r) == old(l.Index(pos))
  {
    ghost var e := l.elems;
    ghost var i := l.Index(pos);
    var p := l.Insert(pos, item);
    r := l.Erase(p);
    RemoveInsert(e, i, item);
  }
}

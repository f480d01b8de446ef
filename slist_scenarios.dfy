/**
 * The scenarios of the list's unit tests, as client code that is verified
 * against the contracts of IntrusiveSList alone. Where the tests compare an
 * element's payload, these compare the element itself. Each test is cut into
 * stages that hand the list on through their contracts.
 */
module SListScenarios {
  import opened IntrusiveSList

  /** Basic, first steps: push at the back of an empty list, then at the front. */
  method BasicPushTwo() returns (l: SList, item1: Node, item2: Node)
    ensures l.Valid() && l.elems == [item1, item2]
    ensures fresh(l) && fresh(item1) && fresh(item2)
  {
    l := new SList();
    assert l.Empty();
    item1 := new Node();
    item2 := new Node();

    l.PushBack(item2);
    assert l.elems == [item2];
    l.Successor(0);
    assert !l.Empty() && l.Front() == item2 && l.Back() == item2;
    assert item2.next == item2;

    l.PushFront(item1);
    assert l.elems == [item1, item2];
    l.Successor(0);
    l.Successor(1);
    assert l.Front() == item1 && l.Back() == item2;
    assert item1.next == item2 && item2.next == item1;
  }

  /** Basic, third step: push at the back of a list of two. */
  method BasicPushThird(l: SList, item1: Node, item2: Node) returns (item3: Node)
    requires l.Valid() && l.elems == [item1, item2]
    modifies l, l.elems
    ensures l.Valid() && l.elems == [item1, item2, item3] && fresh(item3)
  {
    item3 := new Node();
    l.PushBack(item3);
    assert l.elems == [item1, item2, item3];
    l.Successor(0);
    l.Successor(1);
    l.Successor(2);
    assert l.Front() == item1 && l.Back() == item3;
    assert item1.next == item2 && item2.next == item3 && item3.next == item1;
  }

  /** Basic, second half: pop until empty, then once more. */
  method BasicPops(l: SList, item1: Node, item2: Node, item3: Node)
    requires l.Valid() && l.elems == [item1, item2, item3]
    modifies l, l.elems
  {
    var r := l.PopFront();
    assert r == item1 && item1.next == null;
    assert l.elems == [item2, item3];
    l.Successor(0);
    l.Successor(1);
    assert l.Front() == item2 && l.Back() == item3;
    assert item2.next == item3 && item3.next == item2;

    r := l.PopFront();
    assert r == item2 && item1.next == null && item2.next == null;
    assert l.elems == [item3];
    l.Successor(0);
    assert l.Front() == item3 && item3.next == item3;

    r := l.PopFront();
    assert r == item3 && l.Empty();
    assert item1.next == null && item2.next == null && item3.next == null;

    r := l.PopFront();
    assert r == null && l.Empty();
  }

  method Basic()
  {
    var l, item1, item2 := BasicPushTwo();
    var item3 := BasicPushThird(l, item1, item2);
    BasicPops(l, item1, item2, item3);
  }

  /** On an empty list the front position is the end. */
  method TraverseEmpty()
  {
    var l := new SList();
    assert Equal(l.Begin(), l.End());
  }

  /** One element: one increment from the front reaches the end. */
  method TraverseOne()
  {
    var l := new SList();
    var item1 := new Node();
    l.PushBack(item1);
    var i := l.Begin();
    assert l.Deref(i) == item1;
    l.EqualIffSameIndex(i, l.End());
    assert !Equal(i, l.End());
    i := l.Increment(i);
    l.EqualIffSameIndex(i, l.End());
    assert Equal(i, l.End());
  }

  /** Two elements: prefix and postfix increments visit both, then the end. */
  method TraverseTwo()
  {
    var l := new SList();
    var item1 := new Node();
    var item2 := new Node();
    l.PushBack(item1);
    l.PushBack(item2);
    assert l.elems == [item1, item2];
    var i := l.Begin();
    assert l.Deref(i) == item1;
    i := l.Increment(i);
    assert l.Deref(i) == item2;
    i := l.Increment(i);
    l.EqualIffSameIndex(i, l.End());
    assert Equal(i, l.End());
  }

  /** Three elements: the increments visit them in order, then the end. */
  method TraverseThree()
  {
    var l := new SList();
    var item1 := new Node();
    var item2 := new Node();
    var item3 := new Node();
    l.PushBack(item1);
    l.PushBack(item2);
    l.PushBack(item3);
    assert l.elems == [item1, item2, item3];
    var i := l.Begin();
    assert l.Deref(i) == item1;
    i := l.Increment(i);
    assert l.Deref(i) == item2;
    i := l.Increment(i);
    assert l.Deref(i) == item3;
    i := l.Increment(i);
    l.EqualIffSameIndex(i, l.End());
    assert Equal(i, l.End());
  }

  /** Insert, first half: at the front of an empty list, at the end, at the front. */
  method InsertFrontAndEnd() returns (l: SList, item1: Node, item3: Node, item4: Node)
    ensures l.Valid() && l.elems == [item1, item3, item4]
    ensures fresh(l) && fresh(item1) && fresh(item3) && fresh(item4)
  {
    l := new SList();
    item1 := new Node();
    item3 := new Node();
    item4 := new Node();

    var i := l.Insert(l.Begin(), item3);
    assert Equal(i, l.Begin()) && l.Deref(i) == item3;

    i := l.Insert(l.End(), item4);
    assert l.elems == [item3, item4];
    l.EqualIffSameIndex(i, l.Begin());
    l.EqualIffSameIndex(i, l.End());
    assert !Equal(i, l.Begin()) && !Equal(i, l.End()) && l.Deref(i) == item4;

    i := l.Insert(l.Begin(), item1);
    assert l.elems == [item1, item3, item4];
    assert Equal(i, l.Begin()) && l.Deref(i) == item1;
  }

  /** Insert, second half: in the middle, before the second element. */
  method InsertMiddle(l: SList, item1: Node, item3: Node, item4: Node)
    requires l.Valid() && l.elems == [item1, item3, item4]
    modifies l, l.elems
  {
    var item2 := new Node();
    var i := l.Increment(l.Begin());
    assert l.Deref(i) == item3;
    i := l.Insert(i, item2);
    assert l.elems == [item1, item2, item3, item4];
    l.Successor(0);
    l.Successor(1);
    l.Successor(2);
    l.Successor(3);
    assert l.Front() == item1 && l.Back() == item4;
    assert item1.next == item2 && item2.next == item3;
    assert item3.next == item4 && item4.next == item1;
  }

  method InsertEverywhere()
  {
    var l, item1, item3, item4 := InsertFrontAndEnd();
    InsertMiddle(l, item1, item3, item4);
  }

  /** Erasing at the front or the end of an empty list changes nothing. */
  method EraseOnEmpty()
  {
    var l := new SList();
    var i := l.Erase(l.Begin());
    assert Equal(i, l.End()) && l.Empty();
    i := l.Erase(l.End());
    assert Equal(i, l.End()) && l.Empty();
  }

  /** Four elements pushed at the back. */
  method FourElements() returns (l: SList, item1: Node, item2: Node, item3: Node, item4: Node)
    ensures l.Valid() && l.elems == [item1, item2, item3, item4]
    ensures fresh(l) && fresh(item1) && fresh(item2) && fresh(item3) && fresh(item4)
  {
    l := new SList();
    item1 := new Node();
    item2 := new Node();
    item3 := new Node();
    item4 := new Node();
    l.PushBack(item1);
    l.PushBack(item2);
    l.PushBack(item3);
    l.PushBack(item4);
  }

  /** Erasing the back moves `last` to its predecessor. */
  method EraseBack(l: SList, item1: Node, item2: Node, item3: Node, item4: Node)
    requires l.Valid() && l.elems == [item1, item2, item3, item4]
    modifies l, l.elems
    ensures l.Valid() && l.elems == [item1, item2, item3]
  {
    var i := l.Begin();
    i := l.Increment(i);
    i := l.Increment(i);
    i := l.Increment(i);
    assert l.Deref(i) == item4;
    i := l.Erase(i);
    assert Equal(i, l.End()) && item4.next == null;
    assert l.elems == [item1, item2, item3];
    l.Successor(0);
    l.Successor(1);
    l.Successor(2);
    assert !l.Empty() && l.Front() == item1 && l.Back() == item3;
    assert item1.next == item2 && item2.next == item3 && item3.next == item1;
  }

  /** Erasing in the middle, then the front, then the sole element. */
  method EraseMiddleFrontSole(l: SList, item1: Node, item2: Node, item3: Node)
    requires l.Valid() && l.elems == [item1, item2, item3]
    modifies l, l.elems
  {
    var i := l.Erase(l.Increment(l.Begin()));
    assert l.elems == [item1, item3];
    assert l.Deref(i) == item3 && item2.next == null;

    i := l.Erase(l.Begin());
    assert l.elems == [item3];
    assert l.Deref(i) == item3 && item1.next == null;

    i := l.Erase(i);
    assert Equal(i, l.End()) && item3.next == null && l.Empty();
  }

  method EraseEverywhere()
  {
    EraseOnEmpty();
    var l, item1, item2, item3, item4 := FourElements();
    EraseBack(l, item1, item2, item3, item4);
    EraseMiddleFrontSole(l, item1, item2, item3);
  }

  /**
   * Pushing at the back and popping returns the elements in push order;
   * pushing at the front returns them reversed.
   */
  method PushPopOrder()
  {
    var l := new SList();
    var a := new Node();
    var b := new Node();
    l.PushBack(a);
    l.PushBack(b);
    var r1 := l.PopFront();
    var r2 := l.PopFront();
    assert r1 == a && r2 == b && l.Empty();

    l.PushFront(a);
    l.PushFront(b);
    r1 := l.PopFront();
    r2 := l.PopFront();
    assert r1 == b && r2 == a && l.Empty();
    assert a.next == null && b.next == null;
  }

  /** push_back(A), push_back(B), push_front(C) gives C, A, B. */
  method MixedPushes() returns (l: SList, a: Node, b: Node, c: Node)
    ensures l.Valid() && l.elems == [c, a, b]
    ensures fresh(l) && fresh(a) && fresh(b) && fresh(c)
  {
    l := new SList();
    a := new Node();
    b := new Node();
    c := new Node();
    l.PushBack(a);
    l.PushBack(b);
    l.PushFront(c);
    assert l.elems == [c, a, b] && l.Back() == b;
  }

  /** Erasing B from C, A, B leaves C, A with A at the back. */
  method EraseBackOfThree(l: SList, a: Node, b: Node, c: Node)
    requires l.Valid() && l.elems == [c, a, b]
    modifies l, l.elems
  {
    var i := l.Increment(l.Begin());
    i := l.Increment(i);
    i := l.Erase(i);
    assert l.elems == [c, a] && l.Back() == a && b.next == null;
  }

  method MixedPushThenEraseBack()
  {
    var l, a, b, c := MixedPushes();
    EraseBackOfThree(l, a, b, c);
  }
}

/** The double-ended queue library. A `VecDeque` passed as `&mut` is an
    object whose contents, front first, are `elems`. */
module StdDeque {
  import opened Prelude

  class Deque<T> {
    var elems: seq<T>

    /** `deque_new`. */
    constructor ()
      ensures elems == []
    {
      elems := [];
    }

    /** `deque_push_front`. */
    method PushFront(item: T)
      modifies this
      ensures elems == [item] + old(elems)
    {
      elems := [item] + elems;
    }

    /** `deque_push_back`. */
    method PushBack(item: T)
      modifies this
      ensures elems == old(elems) + [item]
    {
      elems := elems + [item];
    }

    /** `deque_pop_front`: `None` when empty, else the first element,
        which is removed. */
    method PopFront() returns (r: Option<T>)
      modifies this
      ensures old(elems) == [] ==> r == None && elems == []
      ensures old(elems) != [] ==> r == Some(old(elems)[0]) && elems == old(elems)[1..]
    {
      if elems == [] {
        return None;
      }
      r := Some(elems[0]);
      elems := elems[1..];
    }

    /** `deque_pop_back`: `None` when empty, else the last element, which
        is removed. */
    method PopBack() returns (r: Option<T>)
      modifies this
      ensures old(elems) == [] ==> r == None && elems == []
      ensures old(elems) != [] ==>
        && r == Some(old(elems)[|old(elems)| - 1])
        && elems == old(elems)[..|old(elems)| - 1]
    {
      if elems == [] {
        return None;
      }
      r := Some(elems[|elems| - 1]);
      elems := elems[..|elems| - 1];
    }

    /** `deque_is_empty`. */
    function IsEmpty(): (b: bool)
      reads this
      ensures b <==> |elems| == 0
    {
      elems == []
    }
  }

  /** Pushing at the back and popping at the front is first in, first out;
      pushing and popping at the same end is last in, first out. */
  method QueueOrder() returns (a: Option<int>, b: Option<int>, c: Option<int>, empty: bool)
    ensures a == Some(1) && b == Some(2) && c == None && empty
  {
    var d := new Deque();
    d.PushBack(1);
    d.PushBack(2);
    a := d.PopFront();
    b := d.PopFront();
    c := d.PopFront();
    empty := d.IsEmpty();
  }

  method StackOrder() returns (a: Option<int>, b: Option<int>)
    ensures a == Some(2) && b == Some(1)
  {
    var d := new Deque();
    d.PushFront(1);
    d.PushFront(2);
    a := d.PopFront();
    b := d.PopBack();
  }
}

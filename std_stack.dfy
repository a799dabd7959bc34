/** The stack library: a stack is a vector whose end is the top. */
module StdStack {
  import opened Prelude
  import opened StdCollection

  /** `stack_new`. */
  method StackNew<T>() returns (s: Vec<T>)
    ensures fresh(s) && s.elems == []
  {
    s := new Vec();
  }

  /** `stack_push`: the item becomes the new top. */
  method StackPush<T>(s: Vec<T>, item: T)
    modifies s
    ensures s.elems == old(s.elems) + [item]
  {
    s.Push(item);
  }

  /** `stack_pop`: removes and returns the top, `None` when empty. */
  method StackPop<T>(s: Vec<T>) returns (r: Option<T>)
    modifies s
    ensures old(s.elems) == [] ==> r == None && s.elems == []
    ensures old(s.elems) != [] ==>
      && r == Some(old(s.elems)[|old(s.elems)| - 1])
      && s.elems == old(s.elems)[..|old(s.elems)| - 1]
  {
    r := s.Pop();
  }

  /** `stack_peek`: the top without removing it. */
  function StackPeek<T>(s: Vec<T>): (r: Option<T>)
    reads s
    ensures r == None <==> s.elems == []
    ensures r.Some? ==> r.value == s.elems[|s.elems| - 1]
  {
    if s.elems == [] then None else Some(s.elems[|s.elems| - 1])
  }

  /** `stack_is_empty`. */
  function StackIsEmpty<T>(s: Vec<T>): (b: bool)
    reads s
    ensures b <==> |s.elems| == 0
    ensures b <==> StackPeek(s) == None
  {
    s.elems == []
  }

  /** After a push, peeking sees the pushed item and popping returns it,
      leaving the stack as it was. */
  method PushPeekPop<T>(s: Vec<T>, item: T) returns (peeked: Option<T>, popped: Option<T>)
    modifies s
    ensures peeked == Some(item) && popped == Some(item)
    ensures s.elems == old(s.elems)
  {
    StackPush(s, item);
    peeked := StackPeek(s);
    popped := StackPop(s);
  }

  /** Last in, first out. */
  method Lifo() returns (a: Option<int>, b: Option<int>, c: Option<int>, empty: bool)
    ensures a == Some(2) && b == Some(1) && c == None && empty
  {
    var s := StackNew();
    StackPush(s, 1);
    StackPush(s, 2);
    a := StackPop(s);
    b := StackPop(s);
    c := StackPop(s);
    empty := StackIsEmpty(s);
  }
}

/** The shared min-priority queue. Every Homun "copy" of a heap handle is a
    handle to one and the same queue, so the queue is a Dafny object and a
    handle is a reference to it: two references to one object observe each
    other's pushes and pops. */
module PriorityQueue {
  import opened Prelude

  /** One queued `(priority, item)` pair. */
  datatype Entry = Entry(priority: int, item: string)

  // ── The order the queue pops in ─────────────────────────────

  /** Rust's `Ord` on strings: lexicographic, a proper prefix first. (Byte
      order of UTF-8 agrees with the order of the code points.) */
  predicate StrLe(a: string, b: string)
    decreases |a|
  {
    a == [] || (b != [] && (a[0] < b[0] || (a[0] == b[0] && StrLe(a[1..], b[1..]))))
  }

  lemma {:induction false} StrLeReflexive(a: string)
    ensures StrLe(a, a)
    decreases |a|
  {
    if a != [] {
      StrLeReflexive(a[1..]);
    }
  }

  lemma {:induction false} StrLeAntisymmetric(a: string, b: string)
    requires StrLe(a, b) && StrLe(b, a)
    ensures a == b
    decreases |a|
  {
    if a != [] && b != [] {
      StrLeAntisymmetric(a[1..], b[1..]);
      assert a == [a[0]] + a[1..] && b == [b[0]] + b[1..];
    }
  }

  lemma {:induction false} StrLeTransitive(a: string, b: string, c: string)
    requires StrLe(a, b) && StrLe(b, c)
    ensures StrLe(a, c)
    decreases |a|
  {
    if a != [] && a[0] == b[0] && b[0] == c[0] {
      StrLeTransitive(a[1..], b[1..], c[1..]);
    }
  }

  lemma {:induction false} StrLeTotal(a: string, b: string)
    ensures StrLe(a, b) || StrLe(b, a)
    decreases |a|
  {
    if a != [] && b != [] && a[0] == b[0] {
      StrLeTotal(a[1..], b[1..]);
    }
  }

  /** `a` leaves the queue no later than `b`. The queue stores
      `(Reverse(priority), item)` in a max-heap, so the smaller priority
      goes first and, among equal priorities, the greater item. */
  predicate Outranks(a: Entry, b: Entry)
  {
    a.priority < b.priority || (a.priority == b.priority && StrLe(b.item, a.item))
  }

  lemma OutranksReflexive(a: Entry)
    ensures Outranks(a, a)
  {
    StrLeReflexive(a.item);
  }

  lemma OutranksTotal(a: Entry, b: Entry)
    ensures Outranks(a, b) || Outranks(b, a)
  {
    StrLeTotal(a.item, b.item);
  }

  lemma OutranksTransitive(a: Entry, b: Entry, c: Entry)
    requires Outranks(a, b) && Outranks(b, c)
    ensures Outranks(a, c)
  {
    if a.priority == b.priority == c.priority {
      StrLeTransitive(c.item, b.item, a.item);
    }
  }

  /** `e` is the entry a pop takes from the contents `m`. */
  ghost predicate IsTop(e: Entry, m: multiset<Entry>)
  {
    e in m && forall x :: x in m ==> Outranks(e, x)
  }

  /** The order is total and antisymmetric, so a pop's result is determined
      by the contents alone: no two entries can both be the top. */
  lemma TopUnique(a: Entry, b: Entry, m: multiset<Entry>)
    requires IsTop(a, m) && IsTop(b, m)
    ensures a == b
  {
    assert Outranks(a, b) && Outranks(b, a);
    StrLeAntisymmetric(a.item, b.item);
  }

  /** The top has the least priority of all, and among the entries of that
      priority the lexicographically greatest item. */
  lemma TopIsMinimumThenGreatestItem(e: Entry, m: multiset<Entry>, x: Entry)
    requires IsTop(e, m) && x in m
    ensures e.priority <= x.priority
    ensures x.priority == e.priority ==> StrLe(x.item, e.item) && !StrLessThan(e.item, x.item)
  {
    if x.priority == e.priority && StrLessThan(e.item, x.item) {
      StrLeAntisymmetric(e.item, x.item);
    }
  }

  predicate StrLessThan(a: string, b: string)
  {
    StrLe(a, b) && a != b
  }

  /** The position of the entry a pop takes: a linear scan for an entry
      that outranks every other one. */
  method TopIndex(s: seq<Entry>) returns (best: nat)
    requires s != []
    ensures best < |s|
    ensures forall j :: 0 <= j < |s| ==> Outranks(s[best], s[j])
    ensures IsTop(s[best], multiset(s))
  {
    best := 0;
    var i := 1;
    OutranksReflexive(s[0]);
    while i < |s|
      invariant 1 <= i <= |s| && 0 <= best < i
      invariant forall j :: 0 <= j < i ==> Outranks(s[best], s[j])
    {
      if !Outranks(s[best], s[i]) {
        OutranksTotal(s[best], s[i]);
        forall j | 0 <= j < i
          ensures Outranks(s[i], s[j])
        {
          OutranksTransitive(s[i], s[best], s[j]);
        }
        OutranksReflexive(s[i]);
        best := i;
      }
      i := i + 1;
    }
    forall x | x in multiset(s)
      ensures Outranks(s[best], x)
    {
      assert x in s;
    }
  }

  /** Deleting position `i` removes one copy of `s[i]` and nothing else. */
  lemma RemoveAt<T>(s: seq<T>, i: nat)
    requires i < |s|
    ensures multiset(s[..i] + s[i + 1..]) == multiset(s) - multiset{s[i]}
  {
    assert s == s[..i] + [s[i]] + s[i + 1..];
  }

  // ── The queue ───────────────────────────────────────────────

  /** A heap handle. `items` holds the queued entries in no particular
      order; only their multiset is observable. */
  class Heap {
    var items: seq<Entry>

    ghost function Contents(): multiset<Entry>
      reads this
    {
      multiset(items)
    }

    /** `heap_new`: an empty queue. */
    constructor ()
      ensures Contents() == multiset{}
    {
      items := [];
    }

    /** `heap_push`: adds exactly one entry. */
    method Push(priority: int, item: string)
      modifies this
      ensures Contents() == old(Contents()) + multiset{Entry(priority, item)}
    {
      items := items + [Entry(priority, item)];
    }

    /** `heap_pop`: `None` on an empty queue; otherwise removes and returns
      the top entry, one copy of it. */
    method Pop() returns (r: Option<Entry>)
      modifies this
      ensures old(Contents()) == multiset{} ==> r == None && Contents() == multiset{}
      ensures old(Contents()) != multiset{} ==>
        && r.Some?
        && IsTop(r.value, old(Contents()))
        && Contents() == old(Contents()) - multiset{r.value}
    {
      if items == [] {
        return None;
      }
      var best := TopIndex(items);
      var e := items[best];
      RemoveAt(items, best);
      items := items[..best] + items[best + 1..];
      r := Some(e);
    }

    /** `heap_len`. */
    function Len(): (n: nat)
      reads this
      ensures n == |Contents()|
    {
      |items|
    }

    /** `heap_is_empty`: no entries, that is, a length of zero. */
    function IsEmpty(): (b: bool)
      reads this
      ensures b <==> Len() == 0
      ensures b <==> Contents() == multiset{}
    {
      items == []
    }

    /** Popping until `None`, as `while let Some(..) = heap_pop(h)` does:
        yields every queued entry once, each no later in the order than the
        ones after it, so priorities never decrease. */
    method PopUntilEmpty() returns (out: seq<Entry>)
      modifies this
      ensures Contents() == multiset{}
      ensures multiset(out) == old(Contents())
      ensures forall i, j :: 0 <= i < j < |out| ==> Outranks(out[i], out[j])
      ensures forall i, j :: 0 <= i < j < |out| ==> out[i].priority <= out[j].priority
    {
      out := [];
      while !IsEmpty()
        invariant multiset(out) + Contents() == old(Contents())
        invariant PopOrder(out, Contents())
        decreases |Contents()|
      {
        ghost var before := Contents();
        var r := Pop();
        PopOrderStep(out, r.value, before);
        out := out + [r.value];
      }
      forall i, j | 0 <= i < j < |out|
        ensures out[i].priority <= out[j].priority
      {
        assert Outranks(out[i], out[j]);
      }
    }
  }

  /** `out` is in pop order and outranks everything still queued in `m`. */
  ghost predicate PopOrder(out: seq<Entry>, m: multiset<Entry>)
  {
    && (forall i, j :: 0 <= i < j < |out| ==> Outranks(out[i], out[j]))
    && (forall i, x :: 0 <= i < |out| && x in m ==> Outranks(out[i], x))
  }

  /** Popping the top `e` of `m` extends the pop order. */
  lemma PopOrderStep(out: seq<Entry>, e: Entry, m: multiset<Entry>)
    requires PopOrder(out, m) && IsTop(e, m)
    ensures PopOrder(out + [e], m - multiset{e})
    ensures multiset(out + [e]) + (m - multiset{e}) == multiset(out) + m
    ensures |m - multiset{e}| < |m|
  {
    var out' := out + [e];
    forall i, j | 0 <= i < j < |out'|
      ensures Outranks(out'[i], out'[j])
    {
      if j == |out| {
        assert out'[i] == out[i];
      } else {
        assert out'[i] == out[i] && out'[j] == out[j];
      }
    }
    forall i, x | 0 <= i < |out'| && x in m - multiset{e}
      ensures Outranks(out'[i], x)
    {
      assert x in m;
      if i < |out| {
        assert out'[i] == out[i];
      }
    }
  }

  // ── Behaviour the heap's tests exercise ─────────────────────

  /** Two handles to one queue: a push through the first is seen through
      the second, and a pop through the second empties the first. */
  method SharedHandles() returns (len2: nat, popped: Option<Entry>, empty1: bool)
    ensures len2 == 1
    ensures popped == Some(Entry(7, "seven"))
    ensures empty1
  {
    var h1 := new Heap();
    var h2 := h1;
    h1.Push(7, "seven");
    len2 := h2.Len();
    popped := h2.Pop();
    empty1 := h1.IsEmpty();
  }

  /** A fresh queue has length 0, is empty and pops `None`. */
  method NewIsEmpty() returns (len: nat, empty: bool, popped: Option<Entry>)
    ensures len == 0 && empty && popped == None
  {
    var h := new Heap();
    len := h.Len();
    empty := h.IsEmpty();
    popped := h.Pop();
  }

  /** The smaller priority comes out first, whatever the push order. */
  method MinFirst() returns (first: Option<Entry>, len: nat)
    ensures first == Some(Entry(2, "low"))
    ensures len == 1
  {
    var h := new Heap();
    h.Push(10, "high");
    h.Push(2, "low");
    first := h.Pop();
    len := h.Len();
  }

  /** Equal priorities: the lexicographically greatest item comes out first. */
  method TieBreak() returns (first: Option<Entry>)
    ensures first == Some(Entry(1, "gamma"))
  {
    var h := new Heap();
    h.Push(1, "alpha");
    h.Push(1, "beta");
    h.Push(1, "gamma");
    ghost var m := h.Contents();
    var g := Entry(1, "gamma");
    assert m == multiset{Entry(1, "alpha"), Entry(1, "beta"), g};
    assert IsTop(g, m) by {
      assert StrLe("alpha", "gamma") && StrLe("beta", "gamma");
      StrLeReflexive("gamma");
    }
    first := h.Pop();
    TopUnique(first.value, g, m);
  }
}

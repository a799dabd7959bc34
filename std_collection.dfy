/** The collection library: sorting and reversing copies, enumeration,
    zipping, flattening, quantifiers, de-duplication, search, and the three
    operations that change a vector in place. */
module StdCollection {
  import opened Prelude
  import opened RustLib
  import Builtin
  import StdMod

  // ── sorted ──────────────────────────────────────────────────

  predicate SortedSeq(s: seq<int>)
  {
    forall i, j :: 0 <= i < j < |s| ==> s[i] <= s[j]
  }

  /** The sort of `out.sort()`, done in place on the copy: insertion, one
      element at a time, into the sorted prefix. */
  method SortInPlace(a: array<int>)
    modifies a
    ensures SortedSeq(a[..])
    ensures multiset(a[..]) == old(multiset(a[..]))
  {
    if a.Length == 0 {
      return;
    }
    var i := 1;
    while i < a.Length
      invariant 1 <= i <= a.Length
      invariant SortedSeq(a[..i])
      invariant multiset(a[..]) == old(multiset(a[..]))
    {
      InsertInto(a, i);
      i := i + 1;
    }
    assert a[..] == a[..a.Length];
  }

  /** Moves `a[i]` down by adjacent swaps until the prefix `a[..i + 1]` is
      sorted; the rest of the array is untouched. */
  method InsertInto(a: array<int>, i: nat)
    requires 0 < i < a.Length && SortedSeq(a[..i])
    modifies a
    ensures SortedSeq(a[..i + 1])
    ensures multiset(a[..]) == old(multiset(a[..]))
  {
    var j := i;
    while j > 0 && a[j - 1] > a[j]
      invariant 0 <= j <= i
      invariant forall p, q :: 0 <= p < q <= i && p != j && q != j ==> a[p] <= a[q]
      invariant forall q :: j < q <= i ==> a[j] <= a[q]
      invariant 0 < j < i ==> a[j - 1] <= a[j + 1]
      invariant multiset(a[..]) == old(multiset(a[..]))
    {
      SwapDown(a, j);
      j := j - 1;
    }
  }

  /** Swaps `a[j - 1]` and `a[j]`. */
  method SwapDown(a: array<int>, j: nat)
    requires 0 < j < a.Length
    modifies a
    ensures a[..] == old(a[..])[j - 1 := old(a[j])][j := old(a[j - 1])]
    ensures multiset(a[..]) == old(multiset(a[..]))
  {
    a[j - 1], a[j] := a[j], a[j - 1];
  }

  /** `sorted`: a sorted copy; the argument is not touched. */
  method Sorted(v: seq<int>) returns (out: seq<int>)
    ensures SortedSeq(out)
    ensures multiset(out) == multiset(v)
  {
    var a := new int[|v|](k requires 0 <= k < |v| => v[k]);
    assert a[..] == v;
    SortInPlace(a);
    out := a[..];
  }

  /** A sorted permutation is unique, so `sorted` is determined by the
      multiset of its argument. */
  lemma {:induction false} SortedUnique(a: seq<int>, b: seq<int>)
    requires SortedSeq(a) && SortedSeq(b) && multiset(a) == multiset(b)
    ensures a == b
    decreases |a|
  {
    if a != [] {
      SortedSameHead(a, b);
      HeadSplit(a);
      HeadSplit(b);
      SortedTail(a);
      SortedTail(b);
      SortedUnique(a[1..], b[1..]);
      assert a == [a[0]] + a[1..];
      assert b == [b[0]] + b[1..];
    }
  }

  /** Two sorted sequences with the same elements start with the same,
      least, element. */
  lemma SortedSameHead(a: seq<int>, b: seq<int>)
    requires SortedSeq(a) && SortedSeq(b) && multiset(a) == multiset(b) && a != []
    ensures b != [] && a[0] == b[0]
  {
    assert |b| == |a| by {
      assert |multiset(a)| == |a| && |multiset(b)| == |b|;
    }
    assert b[0] in multiset(a) by {
      assert b[0] in multiset(b);
    }
    assert a[0] in multiset(b) by {
      assert a[0] in multiset(a);
    }
    HeadIsLeast(a, b[0]);
    HeadIsLeast(b, a[0]);
  }

  /** The head of a sorted sequence is at most any of its elements. */
  lemma HeadIsLeast(a: seq<int>, x: int)
    requires SortedSeq(a) && x in multiset(a)
    ensures a[0] <= x
  {
    var j :| 0 <= j < |a| && a[j] == x;
  }

  lemma SortedTail(a: seq<int>)
    requires SortedSeq(a) && a != []
    ensures SortedSeq(a[1..])
  {
    assert forall i :: 0 <= i < |a| - 1 ==> a[1..][i] == a[i + 1];
  }

  /** Dropping the head drops one copy of it. */
  lemma HeadSplit(a: seq<int>)
    requires a != []
    ensures multiset(a[1..]) == multiset(a) - multiset{a[0]}
  {
    assert a == [a[0]] + a[1..];
  }

  // ── reversed ────────────────────────────────────────────────

  /** `reversed`: a reversed copy, reversed in place by swapping from both
      ends. */
  method Reversed<T>(v: seq<T>) returns (out: seq<T>)
    ensures out == Builtin.Reverse(v)
  {
    if v == [] {
      return [];
    }
    var a := new T[|v|](k requires 0 <= k < |v| => v[k]);
    var n := a.Length;
    var i := 0;
    while i < n / 2
      invariant 0 <= i <= n / 2
      invariant forall k :: 0 <= k < i ==> a[k] == v[n - 1 - k] && a[n - 1 - k] == v[k]
      invariant forall k :: i <= k < n - i ==> a[k] == v[k]
    {
      a[i], a[n - 1 - i] := a[n - 1 - i], a[i];
      i := i + 1;
    }
    out := a[..];
  }

  /** Reversing twice gives the vector back. */
  lemma ReverseInvolution<T>(v: seq<T>)
    ensures Builtin.Reverse(Builtin.Reverse(v)) == v
  {
  }

  // ── enumerate, zip, flatten ─────────────────────────────────

  /** `enumerate`: each element paired with its position. */
  function Enumerate<T>(v: seq<T>): (r: seq<(int, T)>)
    ensures |r| == |v|
  {
    if v == [] then [] else [(0, v[0])] + Shift(Enumerate(v[1..]))
  }

  function Shift<T>(ps: seq<(int, T)>): (r: seq<(int, T)>)
    ensures |r| == |ps| && forall k :: 0 <= k < |ps| ==> r[k] == (ps[k].0 + 1, ps[k].1)
  {
    if ps == [] then [] else [(ps[0].0 + 1, ps[0].1)] + Shift(ps[1..])
  }

  /** Entry `i` of `enumerate(v)` is `(i, v[i])`: the positions are
      `range!(len)` and the elements are `v` itself. */
  lemma {:induction false} EnumerateEntries<T>(v: seq<T>)
    ensures forall i :: 0 <= i < |v| ==> Enumerate(v)[i] == (i, v[i])
    ensures StdMod.Map(Enumerate(v), (p: (int, T)) => p.0) == StdMod.RangeTo(|v|)
    ensures StdMod.Map(Enumerate(v), (p: (int, T)) => p.1) == v
  {
    if v != [] {
      EnumerateEntries(v[1..]);
      forall i | 0 < i < |v|
        ensures Enumerate(v)[i] == (i, v[i])
      {
        assert Enumerate(v)[i] == Shift(Enumerate(v[1..]))[i - 1];
      }
    }
  }

  /** `zip` is `Iterator::zip`; its two projections give back the inputs
      cut to the shorter length. */
  lemma ZipProjections<A, B>(a: seq<A>, b: seq<B>)
    ensures var n := |Zip(a, b)|;
      && StdMod.Map(Zip(a, b), (p: (A, B)) => p.0) == a[..n]
      && StdMod.Map(Zip(a, b), (p: (A, B)) => p.1) == b[..n]
  {
  }

  /** The sum of the inner lengths. */
  function TotalLength<T>(vs: seq<seq<T>>): nat
  {
    if vs == [] then 0 else |vs[0]| + TotalLength(vs[1..])
  }

  /** `flatten`: the inner vectors back to back, in order. */
  function Flatten<T>(vs: seq<seq<T>>): (r: seq<T>)
    ensures |r| == TotalLength(vs)
  {
    if vs == [] then [] else vs[0] + Flatten(vs[1..])
  }

  /** Flattening respects concatenation of the outer vector. */
  lemma {:induction false} FlattenConcat<T>(xs: seq<seq<T>>, ys: seq<seq<T>>)
    ensures Flatten(xs + ys) == Flatten(xs) + Flatten(ys)
  {
    if xs == [] {
      assert xs + ys == ys;
    } else {
      assert (xs + ys)[0] == xs[0] && (xs + ys)[1..] == xs[1..] + ys;
      FlattenConcat(xs[1..], ys);
    }
  }

  /** Every element of the result sits in one of the inner vectors. */
  lemma {:induction false} FlattenMembers<T>(vs: seq<seq<T>>, x: T)
    ensures x in Flatten(vs) <==> exists i :: 0 <= i < |vs| && x in vs[i]
  {
    if vs != [] {
      FlattenMembers(vs[1..], x);
      if exists i :: 0 <= i < |vs[1..]| && x in vs[1..][i] {
        var i :| 0 <= i < |vs[1..]| && x in vs[1..][i];
        assert x in vs[i + 1];
      }
      if exists i :: 0 <= i < |vs| && x in vs[i] {
        var i :| 0 <= i < |vs| && x in vs[i];
        if i > 0 {
          assert x in vs[1..][i - 1];
        }
      }
    }
  }

  // ── any, all, count ─────────────────────────────────────────

  function Any<T>(v: seq<T>, f: T -> bool): (b: bool)
    ensures b <==> exists i :: 0 <= i < |v| && f(v[i])
  {
    if v == [] then false
    else
      assert forall i :: 0 < i < |v| ==> v[1..][i - 1] == v[i];
      f(v[0]) || Any(v[1..], f)
  }

  function All<T>(v: seq<T>, f: T -> bool): (b: bool)
    ensures b <==> forall i :: 0 <= i < |v| ==> f(v[i])
  {
    if v == [] then true
    else
      assert forall i :: 0 < i < |v| ==> v[1..][i - 1] == v[i];
      f(v[0]) && All(v[1..], f)
  }

  /** `count`: the length of the filtered vector. */
  function Count<T>(v: seq<T>, f: T -> bool): (n: nat)
    ensures n <= |v|
  {
    |StdMod.Filter(v, f)|
  }

  /** The count is zero exactly when nothing matches, and the full length
      exactly when everything does. */
  lemma {:induction false} CountBounds<T>(v: seq<T>, f: T -> bool)
    ensures Count(v, f) == 0 <==> !Any(v, f)
    ensures Count(v, f) == |v| <==> All(v, f)
  {
    if v != [] {
      CountBounds(v[1..], f);
      assert StdMod.Filter(v, f) == (if f(v[0]) then [v[0]] else []) + StdMod.Filter(v[1..], f);
      assert Any(v, f) == (f(v[0]) || Any(v[1..], f));
      assert All(v, f) == (f(v[0]) && All(v[1..], f));
    }
  }

  lemma CountConcat<T>(a: seq<T>, b: seq<T>, f: T -> bool)
    ensures Count(a + b, f) == Count(a, f) + Count(b, f)
  {
    StdMod.FilterConcat(a, b, f);
  }

  // ── unique ──────────────────────────────────────────────────

  /** The first occurrence of every value, in order: a value is kept when
      it has not been seen earlier in `v`. */
  function Dedup<T(==)>(v: seq<T>): (r: seq<T>)
    ensures forall i :: 0 <= i < |r| ==> r[i] in v
    ensures forall i :: 0 <= i < |v| ==> v[i] in r
  {
    if v == [] then []
    else
      var init := v[..|v| - 1];
      var last := v[|v| - 1];
      assert forall i :: 0 <= i < |init| ==> v[i] == init[i];
      if last in init then Dedup(init) else Dedup(init) + [last]
  }

  predicate NoDuplicates<T(==)>(s: seq<T>)
  {
    forall i, j :: 0 <= i < j < |s| ==> s[i] != s[j]
  }

  /** Each value appears once in the result. */
  lemma {:induction false} DedupNoDuplicates<T>(v: seq<T>)
    ensures NoDuplicates(Dedup(v))
  {
    if v != [] {
      DedupNoDuplicates(v[..|v| - 1]);
    }
  }

  /** A vector without repeats is its own de-duplication. */
  lemma {:induction false} DedupOfDistinct<T>(v: seq<T>)
    requires NoDuplicates(v)
    ensures Dedup(v) == v
  {
    if v != [] {
      var init := v[..|v| - 1];
      DedupOfDistinct(init);
      assert v[|v| - 1] !in init;
      assert v == init + [v[|v| - 1]];
    }
  }

  /** One more element is kept exactly when it is new. */
  lemma DedupSnoc<T>(w: seq<T>, x: T)
    ensures Dedup(w + [x]) == if x in w then Dedup(w) else Dedup(w) + [x]
  {
    assert (w + [x])[..|w|] == w;
  }

  /** One step of `unique`'s filter: `v[i]` passes exactly when it does
      not occur earlier. */
  lemma UniqueStep<T>(v: seq<T>, i: nat, out: seq<T>)
    requires i < |v| && out == Dedup(v[..i])
    ensures (if v[i] in v[..i] then out else out + [v[i]]) == Dedup(v[..i + 1])
  {
    assert v[..i + 1] == v[..i] + [v[i]];
    DedupSnoc(v[..i], v[i]);
  }

  /** `unique`: a `seen` set filled while filtering; an element passes
      when inserting it into `seen` succeeds. */
  method Unique<T(==)>(v: seq<T>) returns (out: seq<T>)
    ensures out == Dedup(v)
  {
    var seen: set<T> := {};
    out := [];
    var i := 0;
    while i < |v|
      invariant 0 <= i <= |v|
      invariant out == Dedup(v[..i])
      invariant forall y :: y in seen <==> y in v[..i]
    {
      var x := v[i];
      UniqueStep(v, i, out);
      assert v[..i + 1] == v[..i] + [x];
      if x !in seen {
        out := out + [x];
      }
      seen := seen + {x};
      i := i + 1;
    }
    assert v[..|v|] == v;
  }

  // ── index_of ────────────────────────────────────────────────

  /** `index_of`: the first position holding `item`, or -1. */
  function IndexOf<T(==)>(v: seq<T>, item: T): (r: int)
    ensures -1 <= r < |v|
    ensures r >= 0 ==> v[r] == item
    ensures forall j :: 0 <= j < |v| && (r == -1 || j < r) ==> v[j] != item
  {
    if v == [] then -1
    else if v[0] == item then 0
    else
      var k := IndexOf(v[1..], item);
      assert forall j :: 0 < j < |v| ==> v[1..][j - 1] == v[j];
      if k < 0 then -1 else k + 1
  }

  /** -1 exactly when `homun_contains` is false. */
  lemma IndexOfAgreesWithContains<T>(v: seq<T>, item: T)
    ensures IndexOf(v, item) == -1 <==> !Builtin.ContainsVec(v, item)
  {
  }

  // ── push, pop, remove ───────────────────────────────────────

  /** A `Vec` passed as `&mut`: the callee changes it, the caller sees it. */
  class Vec<T> {
    var elems: seq<T>

    constructor ()
      ensures elems == []
    {
      elems := [];
    }

    /** `push`: appends. */
    method Push(item: T)
      modifies this
      ensures elems == old(elems) + [item]
    {
      elems := elems + [item];
    }

    /** `pop`: removes and returns the last element, `None` when empty. */
    method Pop() returns (r: Option<T>)
      modifies this
      ensures old(elems) == [] ==> r == None && elems == []
      ensures old(elems) != [] ==>
        && r == Some(old(elems)[|old(elems)| - 1])
        && elems == old(elems)[..|old(elems)| - 1]
    {
      if elems == [] {
        return None;
      }
      r := Some(elems[|elems| - 1]);
      elems := elems[..|elems| - 1];
    }

    /** `remove`: a negative index counts from the end and is floored at 0;
      the resulting position must exist, or `Vec::remove` panics. The
      element there is returned and the rest close up. */
    method Remove(index: int) returns (x: T)
      requires RemovePosition(|elems|, index) < |elems|
      modifies this
      ensures var i := RemovePosition(|old(elems)|, index);
        && x == old(elems)[i]
        && elems == old(elems)[..i] + old(elems)[i + 1..]
    {
      var i := RemovePosition(|elems|, index);
      x := elems[i];
      elems := elems[..i] + elems[i + 1..];
    }
  }

  /** The position `remove` deletes from a vector of length `len`. */
  function RemovePosition(len: nat, index: int): (i: nat)
    ensures index >= 0 ==> i == index
    ensures -(len as int) <= index < 0 ==> i == len + index
    ensures index < -(len as int) ==> i == 0
  {
    if index >= 0 then index else if len + index < 0 then 0 else len + index
  }

  /** Removing deletes exactly one copy of the element. */
  lemma RemoveKeepsTheRest<T>(s: seq<T>, i: nat)
    requires i < |s|
    ensures multiset(s[..i] + s[i + 1..]) + multiset{s[i]} == multiset(s)
  {
    assert s == s[..i] + [s[i]] + s[i + 1..];
  }

  /** Pushing then popping gives the item back and the vector as before. */
  method PushPop(v: Vec<int>, item: int) returns (r: Option<int>)
    modifies v
    ensures r == Some(item) && v.elems == old(v.elems)
  {
    v.Push(item);
    r := v.Pop();
  }

  /** `remove(v, -1)` deletes the last element. */
  method RemoveLast() returns (x: int, rest: seq<int>)
    ensures x == 30 && rest == [10, 20]
  {
    var v := new Vec();
    v.Push(10);
    v.Push(20);
    v.Push(30);
    x := v.Remove(-1);
    rest := v.elems;
  }
}

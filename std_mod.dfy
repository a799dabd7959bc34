/** The prelude's iteration helpers: the three forms of `range!`, `len!`,
    and `filter!`, `map!` and `reduce!` over vectors. */
module StdMod {
  import opened Prelude

  // ── range! ──────────────────────────────────────────────────

  /** `range!(a, b)`, that is `a..b`: every integer from `a` up to but not
      including `b`. */
  function Range(a: int, b: int): (r: seq<int>)
    ensures |r| == if a < b then b - a else 0
    ensures forall k :: 0 <= k < |r| ==> r[k] == a + k
    decreases b - a
  {
    if a >= b then [] else [a] + Range(a + 1, b)
  }

  /** `range!(n)`, that is `0..n`. */
  function RangeTo(n: int): (r: seq<int>)
    ensures n <= 0 ==> r == []
    ensures n > 0 ==> |r| == n && forall k :: 0 <= k < n ==> r[k] == k
  {
    Range(0, n)
  }

  /** What `range!(s, e, st)` yields: from `s` in strides of `st` while the
      counter is below `e` (a positive stride) or above `e` (a negative
      one); a zero stride yields nothing. */
  function Stepped(s: int, e: int, st: int): (r: seq<int>)
    ensures st == 0 ==> r == []
    ensures r == [] <==> st == 0 || (st > 0 && s >= e) || (st < 0 && s <= e)
    ensures r != [] ==> r[0] == s
    ensures forall k :: 0 < k < |r| ==> r[k] == r[k - 1] + st
    ensures st > 0 ==> forall k :: 0 <= k < |r| ==> s <= r[k] < e
    ensures st < 0 ==> forall k :: 0 <= k < |r| ==> e < r[k] <= s
    decreases if st > 0 then e - s else if st < 0 then s - e else 0
  {
    if (st > 0 && s < e) || (st < 0 && s > e) then [s] + Stepped(s + st, e, st) else []
  }

  /** The stepped form is strictly increasing for a positive stride and
      strictly decreasing for a negative one. */
  lemma {:induction false} SteppedMonotone(s: int, e: int, st: int, i: int, j: int)
    requires 0 <= i < j < |Stepped(s, e, st)|
    ensures st > 0 ==> Stepped(s, e, st)[i] < Stepped(s, e, st)[j]
    ensures st < 0 ==> Stepped(s, e, st)[i] > Stepped(s, e, st)[j]
    decreases j - i
  {
    if i < j - 1 {
      SteppedMonotone(s, e, st, i, j - 1);
    }
  }

  /** A stride of one is the plain range. */
  lemma {:induction false} SteppedUnit(s: int, e: int)
    ensures Stepped(s, e, 1) == Range(s, e)
    decreases e - s
  {
    if s < e {
      SteppedUnit(s + 1, e);
    }
  }

  /** The `from_fn` closure of `range!(s, e, st)`: a counter `i_` starting
      at `s`; each call yields the counter and advances it by `st`, until
      the test fails. Collecting the calls gives `Stepped(s, e, st)`. */
  method SteppedRange(s: int, e: int, st: int) returns (out: seq<int>)
    ensures out == Stepped(s, e, st)
  {
    out := [];
    var i := s;
    while (st > 0 && i < e) || (st < 0 && i > e)
      invariant out + Stepped(i, e, st) == Stepped(s, e, st)
      decreases if st > 0 then e - i else if st < 0 then i - e else 0
    {
      SteppedCons(out, i, e, st, s);
      out := out + [i];
      i := i + st;
    }
    assert out + [] == out;
  }

  /** While the test passes, the counter is yielded and the rest follows
      from the advanced counter. */
  lemma SteppedCons(out: seq<int>, i: int, e: int, st: int, s: int)
    requires (st > 0 && i < e) || (st < 0 && i > e)
    requires out + Stepped(i, e, st) == Stepped(s, e, st)
    ensures (out + [i]) + Stepped(i + st, e, st) == Stepped(s, e, st)
  {
    assert Stepped(i, e, st) == [i] + Stepped(i + st, e, st);
    assert (out + [i]) + Stepped(i + st, e, st) == out + ([i] + Stepped(i + st, e, st));
  }

  // ── len! ────────────────────────────────────────────────────

  /** `len!` counts elements of a vector, a map or a set, and bytes of a
      string (one per character here, the text being ASCII). */
  function LenVec<T>(v: seq<T>): (n: nat)
    ensures n == |v|
  {
    |v|
  }

  function LenMap<K, V>(m: map<K, V>): (n: nat)
    ensures n == |m.Keys|
  {
    |m|
  }

  function LenSet<T>(s: set<T>): (n: nat)
    ensures n == |s|
  {
    |s|
  }

  function LenStr(s: string): (n: nat)
    ensures n == |s|
  {
    |s|
  }

  /** The count of a vector's distinct elements is at most its length. */
  lemma {:induction false} LenSetOfVec<T>(v: seq<T>)
    ensures LenSet(set x | x in v) <= LenVec(v)
  {
    if v != [] {
      var init := v[..|v| - 1];
      LenSetOfVec(init);
      assert (set x | x in v) == (set x | x in init) + {v[|v| - 1]} by {
        assert v == init + [v[|v| - 1]];
      }
    }
  }

  /** A vector without repeats has exactly as many distinct elements as it
      has elements. */
  lemma {:induction false} LenSetOfDistinct<T>(v: seq<T>)
    requires forall i, j :: 0 <= i < j < |v| ==> v[i] != v[j]
    ensures LenSet(set x | x in v) == LenVec(v)
  {
    if v != [] {
      var init, last := v[..|v| - 1], v[|v| - 1];
      LenSetOfDistinct(init);
      assert (set x | x in v) == (set x | x in init) + {last} by {
        assert v == init + [last];
      }
      forall i | 0 <= i < |init|
        ensures init[i] != last
      {
        assert init[i] == v[i];
      }
      assert last !in (set x | x in init);
    }
  }

  /** Inserting a key adds one to a map's length exactly when the key is
      new, and removing one takes one away exactly when it was there. */
  lemma LenMapUpdate<K, V>(m: map<K, V>, k: K, v: V)
    ensures LenMap(m[k := v]) == if k in m then LenMap(m) else LenMap(m) + 1
    ensures LenMap(m - {k}) == if k in m then LenMap(m) - 1 else LenMap(m)
  {
    assert m[k := v].Keys == m.Keys + {k};
    assert (m - {k}).Keys == m.Keys - {k};
  }

  /** The same for a set. */
  lemma LenSetUpdate<T>(s: set<T>, x: T)
    ensures LenSet(s + {x}) == if x in s then LenSet(s) else LenSet(s) + 1
    ensures LenSet(s - {x}) == if x in s then LenSet(s) - 1 else LenSet(s)
  {
  }

  /** Lengths add over concatenation, for vectors and for strings. */
  lemma LenConcat<T>(a: seq<T>, b: seq<T>, s: string, t: string)
    ensures LenVec(a + b) == LenVec(a) + LenVec(b)
    ensures LenStr(s + t) == LenStr(s) + LenStr(t)
  {
  }

  // ── filter!, map!, reduce! ──────────────────────────────────

  /** `filter!`: the elements satisfying `f`, in their original order. */
  function Filter<T>(v: seq<T>, f: T -> bool): (r: seq<T>)
    ensures |r| <= |v|
    ensures forall k :: 0 <= k < |r| ==> f(r[k])
    ensures multiset(r) <= multiset(v)
  {
    if v == [] then []
    else
      assert v == [v[0]] + v[1..];
      (if f(v[0]) then [v[0]] else []) + Filter(v[1..], f)
  }

  /** Filtering distributes over concatenation, so the kept elements stay
      in order. */
  lemma {:induction false} FilterConcat<T>(a: seq<T>, b: seq<T>, f: T -> bool)
    ensures Filter(a + b, f) == Filter(a, f) + Filter(b, f)
  {
    if a == [] {
      assert a + b == b;
    } else {
      var h := if f(a[0]) then [a[0]] else [];
      assert (a + b)[0] == a[0] && (a + b)[1..] == a[1..] + b;
      assert Filter(a + b, f) == h + Filter(a[1..] + b, f);
      FilterConcat(a[1..], b, f);
      assert Filter(a, f) == h + Filter(a[1..], f);
      assert h + (Filter(a[1..], f) + Filter(b, f)) == (h + Filter(a[1..], f)) + Filter(b, f);
    }
  }

  /** What `filter!` keeps and what the negated filter keeps add up to the
      whole vector. */
  lemma {:induction false} FilterPartition<T>(v: seq<T>, f: T -> bool)
    ensures LenVec(Filter(v, f)) + LenVec(Filter(v, x => !f(x))) == LenVec(v)
  {
    if v != [] {
      FilterPartition(v[1..], f);
    }
  }

  /** Nothing satisfying `f` is dropped, and nothing else is kept. */
  lemma {:induction false} FilterMembers<T>(v: seq<T>, f: T -> bool, x: T)
    ensures x in Filter(v, f) <==> x in v && f(x)
  {
    if v != [] {
      FilterMembers(v[1..], f, x);
      assert v == [v[0]] + v[1..];
      assert Filter(v, f) == (if f(v[0]) then [v[0]] else []) + Filter(v[1..], f);
    }
  }

  /** `map!`: `f` on every element, in order. */
  function Map<T, U>(v: seq<T>, f: T -> U): (r: seq<U>)
    ensures |r| == |v|
    ensures forall k :: 0 <= k < |v| ==> r[k] == f(v[k])
  {
    if v == [] then [] else [f(v[0])] + Map(v[1..], f)
  }

  /** A left fold of `f` over `v`, starting at `acc`. */
  function FoldLeft<T>(acc: T, v: seq<T>, f: (T, T) -> T): T
    decreases |v|
  {
    if v == [] then acc else FoldLeft(f(acc, v[0]), v[1..], f)
  }

  /** `reduce!`: `None` on an empty vector; otherwise the first element
      folded with the rest, left to right. */
  function Reduce<T>(v: seq<T>, f: (T, T) -> T): (r: Option<T>)
    ensures r == None <==> v == []
    ensures |v| == 1 ==> r == Some(v[0])
  {
    if v == [] then None else Some(FoldLeft(v[0], v[1..], f))
  }

  /** One more element folds into the result on the right. */
  lemma {:induction false} FoldSnoc<T>(acc: T, v: seq<T>, x: T, f: (T, T) -> T)
    ensures FoldLeft(acc, v + [x], f) == f(FoldLeft(acc, v, f), x)
    decreases |v|
  {
    if v != [] {
      assert (v + [x])[1..] == v[1..] + [x];
      FoldSnoc(f(acc, v[0]), v[1..], x, f);
    }
  }

  lemma ReduceSnoc<T>(v: seq<T>, x: T, f: (T, T) -> T)
    requires v != []
    ensures Reduce(v + [x], f) == Some(f(Reduce(v, f).value, x))
  {
    assert (v + [x])[1..] == v[1..] + [x];
    FoldSnoc(v[0], v[1..], x, f);
  }

  /** Summing with `reduce!`. */
  lemma ReduceSumExample()
    ensures Reduce([1, 2, 3], (a: int, b: int) => a + b) == Some(6)
  {
    var add := (a: int, b: int) => a + b;
    assert [1, 2, 3][1..] == [2, 3];
    assert FoldLeft(1, [2, 3], add) == FoldLeft(3, [3], add);
  }
}

/** The built-in layer every generated program gets: Python-style indexing
    with negative offsets, step-aware slicing, list concatenation and the
    `in` operator over lists, sets, maps and text. */
module Builtin {
  import opened Prelude

  // ── Indexing: arr[i], dict[key] ─────────────────────────────

  /** `v[key]` on a list: a negative key counts from the end. Any key that
      is still out of range after that makes the runtime panic, so the
      range is the caller's obligation. Wrapping a negative key is indexing
      modulo the length. */
  function IndexVec<T>(v: seq<T>, key: int): (r: T)
    requires -|v| <= key < |v|
    ensures r == v[key % |v|]
  {
    v[if key < 0 then |v| + key else key]
  }

  /** `d[key]` on a map: the runtime panics on a missing key. */
  function IndexMap<K, V(==)>(m: map<K, V>, key: K): (r: V)
    requires key in m
    ensures (key, r) in m.Items
  {
    m[key]
  }

  /** A negative index and its non-negative counterpart denote one element. */
  lemma IndexNegativeAgrees<T>(v: seq<T>, key: int)
    requires -|v| <= key < 0
    ensures IndexVec(v, key) == IndexVec(v, key + |v|)
  {
    assert key % |v| == (key + |v|) % |v|;
  }

  // ── Slicing: arr[a:b:c] ────────────────────────────────────

  /** The `norm` closure of `homun_slice`: a negative offset counts from the
      end, then the offset is clamped into `[0, len]`. */
  function Norm(len: nat, i: int): (r: nat)
    ensures r <= len
    ensures 0 <= i <= len ==> r == i
    ensures -(len as int) <= i < 0 ==> r == len + i
    ensures i < -(len as int) ==> r == 0
    ensures len < i ==> r == len
  {
    var j := if i < 0 then len + i else i;
    if j < 0 then 0 else if j > len then len else j
  }

  /** The indices of `(lo..hi).step_by(step)`: `lo`, `lo + step`, ... while
      below `hi`. */
  function Forward(lo: int, hi: int, step: nat): (r: seq<int>)
    requires step > 0
    ensures r == [] <==> hi <= lo
    ensures forall k :: 0 <= k < |r| ==> lo <= r[k] < hi
    ensures r != [] ==> r[0] == lo && hi <= r[|r| - 1] + step
    ensures forall k :: 0 < k < |r| ==> r[k] == r[k - 1] + step
    ensures lo < hi ==> |r| <= hi - lo
    decreases hi - lo
  {
    if hi <= lo then [] else [lo] + Forward(lo + step, hi, step)
  }

  /** The indices of `(lo..hi).rev().step_by(step)`: `hi - 1`, `hi - 1 - step`,
      ... while at least `lo`. */
  function Backward(lo: int, hi: int, step: nat): (r: seq<int>)
    requires step > 0
    ensures r == [] <==> hi <= lo
    ensures forall k :: 0 <= k < |r| ==> lo <= r[k] < hi
    ensures r != [] ==> r[0] == hi - 1 && r[|r| - 1] - step < lo
    ensures forall k :: 0 < k < |r| ==> r[k] == r[k - 1] - step
    ensures lo < hi ==> |r| <= hi - lo
    decreases hi - lo
  {
    if hi <= lo then [] else [hi - 1] + Backward(lo, hi - step, step)
  }

  /** The indices `homun_slice` reads, in the order it emits them. They are
      computed from the length alone. With a negative step an `end` of
      `i64::MAX` stands for "down to index 0" and a `start` of 0 for "from
      the last index"; otherwise `norm(end)` is the inclusive lower bound
      and `norm(start)` the exclusive upper bound. */
  function SliceIndices(len: nat, start: Int64, end: Int64, step: Int64): (r: seq<int>)
    ensures step == 0 ==> r == []
    ensures |r| <= len
    ensures forall k :: 0 <= k < |r| ==> 0 <= r[k] < len
    ensures step > 0 ==> forall k :: 0 < k < |r| ==> r[k - 1] < r[k]
    ensures step < 0 ==> forall k :: 0 < k < |r| ==> r[k] < r[k - 1]
  {
    if step > 0 then
      Forward(Norm(len, start), Norm(len, end), step)
    else if step < 0 then
      var lo := if end == I64_MAX then 0 else Norm(len, end);
      var hi := if start == 0 then len else Norm(len, start);
      Backward(lo, hi, -(step as int))
    else
      []
  }

  /** The elements of `v` at the given indices, in order. */
  function Gather<T>(v: seq<T>, idx: seq<int>): (r: seq<T>)
    requires forall k :: 0 <= k < |idx| ==> 0 <= idx[k] < |v|
    ensures |r| == |idx|
    ensures forall k :: 0 <= k < |r| ==> r[k] == v[idx[k]]
  {
    seq(|idx|, k requires 0 <= k < |idx| => v[idx[k]])
  }

  /** `homun_slice(v, start, end, step)`: every element of the result is an
      element of `v`, and the result is never longer than `v`. */
  function Slice<T>(v: seq<T>, start: Int64, end: Int64, step: Int64): (r: seq<T>)
    ensures |r| <= |v|
    ensures forall k :: 0 <= k < |r| ==> exists j :: 0 <= j < |v| && r[k] == v[j]
    ensures step == 0 ==> r == []
  {
    var idx := SliceIndices(|v|, start, end, step);
    var r := Gather(v, idx);
    assert forall k :: 0 <= k < |r| ==> 0 <= idx[k] < |v| && r[k] == v[idx[k]];
    r
  }

  /** With a positive step the slice reads the walk `Forward(s, e, step)`
      over the normalised bounds: `v[s], v[s + step], ...`, all below `e`,
      and nothing when `s >= e`. */
  lemma SliceForward<T>(v: seq<T>, start: Int64, end: Int64, step: Int64)
    requires step > 0
    ensures var s, e := Norm(|v|, start), Norm(|v|, end);
      var r := Slice(v, start, end, step);
      && (r == [] <==> e <= s)
      && (r != [] ==> r[0] == v[s])
      && r == Gather(v, Forward(s, e, step))
  {
  }

  /** With a negative step the slice reads the walk `Backward(lo, hi, -step)`:
      it starts at index `hi - 1` and goes down in strides of `-step` while
      at least `lo`, where `lo` and `hi` follow the two sentinels. */
  lemma SliceBackward<T>(v: seq<T>, start: Int64, end: Int64, step: Int64)
    requires step < 0
    ensures var lo := if end == I64_MAX then 0 else Norm(|v|, end);
      var hi := if start == 0 then |v| else Norm(|v|, start);
      var r := Slice(v, start, end, step);
      && (r == [] <==> hi <= lo)
      && (r != [] ==> r[0] == v[hi - 1])
      && r == Gather(v, Backward(lo, hi, -(step as int)))
  {
  }

  lemma {:induction false} ForwardUnit(lo: int, hi: int)
    requires lo <= hi
    ensures |Forward(lo, hi, 1)| == hi - lo
    ensures forall k :: 0 <= k < hi - lo ==> Forward(lo, hi, 1)[k] == lo + k
    decreases hi - lo
  {
    if lo < hi {
      ForwardUnit(lo + 1, hi);
    }
  }

  lemma {:induction false} BackwardUnit(lo: int, hi: int)
    requires lo <= hi
    ensures |Backward(lo, hi, 1)| == hi - lo
    ensures forall k :: 0 <= k < hi - lo ==> Backward(lo, hi, 1)[k] == hi - 1 - k
    decreases hi - lo
  {
    if lo < hi {
      BackwardUnit(lo, hi - 1);
    }
  }

  /** `v[0:len:1]` is `v` itself. */
  lemma SliceIdentity<T>(v: seq<T>)
    requires |v| <= I64_MAX
    ensures Slice(v, 0, |v|, 1) == v
  {
    ForwardUnit(0, |v|);
  }

  function Reverse<T>(v: seq<T>): (r: seq<T>)
    ensures |r| == |v|
    ensures forall k :: 0 <= k < |v| ==> r[k] == v[|v| - 1 - k]
  {
    seq(|v|, k requires 0 <= k < |v| => v[|v| - 1 - k])
  }

  /** `v[::-1]`, which the code generator emits with `start == 0` and
      `end == i64::MAX`, is the reverse of `v`. */
  lemma SliceDefaultReverse<T>(v: seq<T>)
    ensures Slice(v, 0, I64_MAX, -1) == Reverse(v)
  {
    BackwardUnit(0, |v|);
  }

  /** An explicit `v[0:len:-1]` is EMPTY: `start == 0` selects the top of
      the walk and `norm(len) == len` is the lower bound, so nothing lies
      between them. */
  lemma SliceExplicitBoundsReverseIsEmpty<T>(v: seq<T>)
    requires |v| < I64_MAX
    ensures Slice(v, 0, |v|, -1) == []
  {
    assert Norm(|v|, |v|) == |v|;
    assert SliceIndices(|v|, 0, |v|, -1) == Backward(|v|, |v|, 1) == [];
  }

  /** `v[3:0:-1]` walks indices 2, 1, 0: `norm(start)` is exclusive and
      `norm(end)` inclusive. */
  lemma SliceDescendingExample<T>(v: seq<T>)
    requires 4 <= |v|
    ensures Slice(v, 3, 0, -1) == [v[2], v[1], v[0]]
  {
    assert Backward(0, 3, 1) == [2, 1, 0] by {
      BackwardUnit(0, 3);
    }
    assert Norm(|v|, 3) == 3 && Norm(|v|, 0) == 0;
    var idx := SliceIndices(|v|, 3, 0, -1);
    assert idx == [2, 1, 0];
    var r := Gather(v, idx);
    assert |r| == 3 && r[0] == v[2] && r[1] == v[1] && r[2] == v[0];
    assert r == [v[2], v[1], v[0]];
  }

  /** The slice's indices depend on the length only: slicing commutes with
      any element-wise map. */
  lemma SliceCommutesWithMap<T, U>(v: seq<T>, f: T -> U, start: Int64, end: Int64, step: Int64)
    ensures var fv := seq(|v|, k requires 0 <= k < |v| => f(v[k]));
      var sv := Slice(v, start, end, step);
      Slice(fv, start, end, step) == seq(|sv|, k requires 0 <= k < |sv| => f(sv[k]))
  {
  }

  // ── Vec concat: a + b ───────────────────────────────────────

  /** `homun_concat(a, b)`: `a` then `b`, keeping order and duplicates. */
  function Concat<T>(a: seq<T>, b: seq<T>): (r: seq<T>)
    ensures |r| == |a| + |b|
    ensures r[..|a|] == a && r[|a|..] == b
    ensures multiset(r) == multiset(a) + multiset(b)
  {
    a + b
  }

  // ── Membership: x in collection ─────────────────────────────

  /** `Vec::contains`: a linear scan for an equal element. */
  predicate ContainsVec<T(==)>(v: seq<T>, item: T)
    ensures ContainsVec(v, item) <==> exists i :: 0 <= i < |v| && v[i] == item
  {
    |v| > 0 && (v[0] == item || ContainsVec(v[1..], item))
  }

  /** `HashSet::contains`. */
  predicate ContainsSet<T(==)>(s: set<T>, item: T)
    ensures ContainsSet(s, item) <==> {item} <= s
    ensures ContainsSet(s, item) <==> |s - {item}| < |s|
  {
    item in s
  }

  /** `HashMap::contains_key`: membership asks about keys, never values. */
  predicate ContainsMap<K(==), V>(m: map<K, V>, item: K)
    ensures ContainsMap(m, item) <==> |m.Keys - {item}| < |m|
  {
    item in m
  }

  /** `str::contains(char)`. */
  predicate ContainsChar(text: string, c: char)
    ensures ContainsChar(text, c) <==> exists i :: 0 <= i < |text| && text[i] == c
  {
    ContainsVec(text, c)
  }

  /** `sub` occurs in `text` at byte offset `i`. */
  predicate OccursAt(text: string, sub: string, i: int)
  {
    0 <= i && i + |sub| <= |text| && text[i..i + |sub|] == sub
  }

  /** `str::contains(&str)`, as a scan over the start offsets. */
  predicate ContainsStr(text: string, sub: string)
  {
    |sub| <= |text| && (text[..|sub|] == sub || ContainsStr(text[1..], sub))
  }

  lemma OccursShift(text: string, sub: string, i: int)
    requires |text| > 0 && 1 <= i
    ensures OccursAt(text, sub, i) <==> OccursAt(text[1..], sub, i - 1)
  {
    if i + |sub| <= |text| {
      assert text[1..][i - 1..i - 1 + |sub|] == text[i..i + |sub|];
    }
  }

  /** The scan finds the substring exactly when it occurs at some offset. */
  lemma {:induction false} ContainsStrCorrect(text: string, sub: string)
    ensures ContainsStr(text, sub) <==> exists i :: OccursAt(text, sub, i)
    decreases |text|
  {
    if |sub| <= |text| {
      if text[..|sub|] == sub {
        assert OccursAt(text, sub, 0);
      } else {
        ContainsStrCorrect(text[1..], sub);
        if ContainsStr(text[1..], sub) {
          var i :| OccursAt(text[1..], sub, i);
          OccursShift(text, sub, i + 1);
        }
        if exists i :: OccursAt(text, sub, i) {
          var i :| OccursAt(text, sub, i);
          assert i != 0;
          OccursShift(text, sub, i);
        }
      }
    } else {
      assert forall i :: !OccursAt(text, sub, i);
    }
  }

  /** The four capabilities agree with one another: a list contains what its
      element set contains, a map what its key set contains, and a text a
      char exactly when it contains the one-char string. */
  lemma ContainsConsistent<K, V>(v: seq<K>, m: map<K, V>, item: K, text: string, c: char)
    ensures ContainsVec(v, item) == ContainsSet((set x | x in v), item)
    ensures ContainsMap(m, item) == ContainsSet(m.Keys, item)
    ensures ContainsChar(text, c) == ContainsStr(text, [c])
  {
    ContainsStrCorrect(text, [c]);
    if ContainsStr(text, [c]) {
      var i :| OccursAt(text, [c], i);
      assert text[i] == text[i..i + 1][0];
    }
    if ContainsChar(text, c) {
      var i :| 0 <= i < |text| && text[i] == c;
      assert OccursAt(text, [c], i);
    }
  }

  /** `"a" in @{"a": 1}` holds and `"b" in @{"a": 1}` does not. */
  lemma ContainsMapExample()
    ensures ContainsMap(map["a" := 1], "a")
    ensures !ContainsMap(map["a" := 1], "b")
  {
  }
}

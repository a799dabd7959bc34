/** The Rust standard-library operations that several runtime files build
    on: `Iterator::zip` and `str::repeat`. */
module RustLib {

  /** `a.iter().zip(b.iter())`: pairs up to the shorter input. */
  function Zip<A, B>(a: seq<A>, b: seq<B>): (r: seq<(A, B)>)
    ensures |r| == if |a| <= |b| then |a| else |b|
    ensures forall i :: 0 <= i < |r| ==> r[i] == (a[i], b[i])
  {
    if a == [] || b == [] then [] else [(a[0], b[0])] + Zip(a[1..], b[1..])
  }

  /** `s.repeat(n)`: `n` copies of `s` back to back. */
  function Repeat<T>(s: seq<T>, n: nat): (r: seq<T>)
    ensures |r| == n * |s|
  {
    if n == 0 then [] else Repeat(s, n - 1) + s
  }

  /** Repeating once gives the string back, and repeating `m + n` times is
      repeating `m` times then `n` times. */
  lemma {:induction false} RepeatAdd<T>(s: seq<T>, m: nat, n: nat)
    ensures Repeat(s, 1) == s
    ensures Repeat(s, m + n) == Repeat(s, m) + Repeat(s, n)
    decreases n
  {
    assert Repeat(s, 1) == Repeat(s, 0) + s;
    if n > 0 {
      RepeatAdd(s, m, n - 1);
      assert Repeat(s, m + n) == Repeat(s, m + n - 1) + s;
    }
  }

  /** The first `n` elements of `s` repeated endlessly. */
  function Cycle<T>(s: seq<T>, n: nat): (r: seq<T>)
    requires s != []
    ensures |r| == n
    decreases n
  {
    if n <= |s| then s[..n] else s + Cycle(s, n - |s|)
  }

  /** A long enough repetition, cut to length `n`, is the endless cycle cut
      to `n`. */
  lemma {:induction false} RepeatPrefix<T>(s: seq<T>, k: nat, n: nat)
    requires s != [] && n <= k * |s|
    ensures Repeat(s, k)[..n] == Cycle(s, n)
    decreases k
  {
    if k == 0 {
      return;
    }
    RepeatAdd(s, 1, k - 1);
    assert Repeat(s, k) == s + Repeat(s, k - 1);
    if n > |s| {
      RepeatPrefix(s, k - 1, n - |s|);
      assert Repeat(s, k)[..n] == s + Repeat(s, k - 1)[..n - |s|];
    }
  }

  /** Repeating a single element gives a run of that element. */
  lemma {:induction false} RepeatSingle<T>(c: T, n: nat)
    ensures |Repeat([c], n)| == n
    ensures forall i :: 0 <= i < n ==> Repeat([c], n)[i] == c
  {
    if n > 0 {
      RepeatSingle(c, n - 1);
    }
  }
}

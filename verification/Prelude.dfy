/** Optional values, results, and sums over sequences. */
module Prelude {
  datatype Option<+T> = None | Some(value: T)

  datatype Result<+T, +E> = Ok(value: T) | Err(error: E)

  /** The sum of f over s. */
  function Sum<T>(s: seq<T>, f: T -> int): int {
    if s == [] then 0 else Sum(s[..|s| - 1], f) + f(s[|s| - 1])
  }

  lemma {:induction false} SumSnoc<T>(s: seq<T>, x: T, f: T -> int)
    ensures Sum(s + [x], f) == Sum(s, f) + f(x)
  {
    assert (s + [x])[..|s|] == s;
  }

  lemma {:induction false} SumConcat<T>(s: seq<T>, t: seq<T>, f: T -> int)
    ensures Sum(s + t, f) == Sum(s, f) + Sum(t, f)
  {
    if t == [] {
      assert s + t == s;
    } else {
      var last := |t| - 1;
      assert s + t == (s + t[..last]) + [t[last]];
      SumSnoc(s + t[..last], t[last], f);
      SumConcat(s, t[..last], f);
    }
  }

  /** Sums agree when their summands agree position by position. */
  lemma {:induction false} SumPointwise<T, U>(s: seq<T>, f: T -> int, t: seq<U>, g: U -> int)
    requires |s| == |t|
    requires forall i | 0 <= i < |s| :: f(s[i]) == g(t[i])
    ensures Sum(s, f) == Sum(t, g)
  {
    if s != [] {
      var last := |s| - 1;
      assert forall i | 0 <= i < last :: f(s[..last][i]) == g(t[..last][i]);
      SumPointwise(s[..last], f, t[..last], g);
    }
  }

  lemma {:induction false} Distribute(k: int, x: int, y: int)
    ensures k * (x + y) == k * x + k * y
  {
  }

  /** Sums are linear. */
  lemma {:induction false} SumLinear<T>(s: seq<T>, a: int, f: T -> int, b: int, g: T -> int, h: T -> int)
    requires forall i | 0 <= i < |s| :: h(s[i]) == a * f(s[i]) + b * g(s[i])
    ensures Sum(s, h) == a * Sum(s, f) + b * Sum(s, g)
  {
    if s != [] {
      var rest, last := s[..|s| - 1], s[|s| - 1];
      assert forall i | 0 <= i < |rest| :: rest[i] == s[i];
      SumLinear(rest, a, f, b, g, h);
      Distribute(a, Sum(rest, f), f(last));
      Distribute(b, Sum(rest, g), g(last));
    }
  }

  lemma {:induction false} SumBounds<T>(s: seq<T>, f: T -> int, lo: int, hi: int)
    requires forall i | 0 <= i < |s| :: lo <= f(s[i]) <= hi
    ensures lo * |s| <= Sum(s, f) <= hi * |s|
  {
    if s != [] {
      var rest := s[..|s| - 1];
      assert forall i | 0 <= i < |rest| :: rest[i] == s[i];
      SumBounds(rest, f, lo, hi);
      Distribute(lo, |rest|, 1);
      Distribute(hi, |rest|, 1);
    }
  }

  lemma {:induction false} SumZero<T>(s: seq<T>, f: T -> int)
    requires forall i | 0 <= i < |s| :: f(s[i]) == 0
    ensures Sum(s, f) == 0
  {
    SumBounds(s, f, 0, 0);
  }

  lemma {:induction false} SumRemove<T>(s: seq<T>, i: nat, f: T -> int)
    requires i < |s|
    ensures Sum(s, f) == Sum(s[..i] + s[i + 1..], f) + f(s[i])
  {
    assert s == (s[..i] + [s[i]]) + s[i + 1..];
    SumConcat(s[..i] + [s[i]], s[i + 1..], f);
    SumSnoc(s[..i], s[i], f);
    SumConcat(s[..i], s[i + 1..], f);
  }

  lemma {:induction false} Without<T>(s: seq<T>, i: nat)
    requires i < |s|
    ensures multiset(s) == multiset(s[..i] + s[i + 1..]) + multiset{s[i]}
  {
    assert s == s[..i] + [s[i]] + s[i + 1..];
  }

  /** A sum depends on the multiset of its summands, not on their order. */
  lemma {:induction false} SumPermutation<T>(s: seq<T>, t: seq<T>, f: T -> int)
    requires multiset(s) == multiset(t)
    ensures Sum(s, f) == Sum(t, f)
  {
    if s == [] {
      assert |t| == |multiset(t)| == 0;
    } else {
      var last := |s| - 1;
      assert s[last] in multiset(t);
      var i :| 0 <= i < |t| && t[i] == s[last];
      var rest, others := s[..last], t[..i] + t[i + 1..];
      assert multiset(rest) == multiset(others) by {
        Without(t, i);
        Without(s, last);
        assert s[..last] + s[last + 1..] == rest;
        assert multiset(rest) == multiset(s) - multiset{s[last]};
        assert multiset(others) == multiset(t) - multiset{s[last]};
      }
      SumPermutation(rest, others, f);
      SumRemove(t, i, f);
    }
  }
}

/** Sequences inside others, in order but with gaps. */
module Subsequences {
  predicate Within<T(==)>(a: seq<T>, b: seq<T>)
    decreases |b|
  {
    |a| == 0 || (|b| > 0 &&
      (Within(a, b[..|b| - 1]) || (a[|a| - 1] == b[|b| - 1] && Within(a[..|a| - 1], b[..|b| - 1]))))
  }

  lemma {:induction false} WithinSelf<T>(a: seq<T>)
    ensures Within(a, a)
  {
    if |a| > 0 { WithinSelf(a[..|a| - 1]); }
  }

  lemma {:induction false} WithinLonger<T>(a: seq<T>, b: seq<T>, more: seq<T>)
    requires Within(a, b)
    ensures Within(a, b + more)
  {
    if |more| == 0 {
      assert b + more == b;
    } else {
      assert (b + more)[..|b + more| - 1] == b + more[..|more| - 1];
      WithinLonger(a, b, more[..|more| - 1]);
    }
  }

  lemma {:induction false} WithinBoth<T>(a: seq<T>, b: seq<T>, more: seq<T>)
    requires Within(a, b)
    ensures Within(a + more, b + more)
  {
    if |more| == 0 {
      assert a + more == a && b + more == b;
    } else {
      assert (a + more)[..|a + more| - 1] == a + more[..|more| - 1];
      assert (b + more)[..|b + more| - 1] == b + more[..|more| - 1];
      WithinBoth(a, b, more[..|more| - 1]);
    }
  }

  lemma WithoutMiddle<T>(a: seq<T>, b: seq<T>, c: seq<T>)
    ensures Within(a + c, a + b + c)
  {
    WithinSelf(a);
    WithinLonger(a, a, b);
    WithinBoth(a, a + b, c);
  }

  lemma {:induction false} WithinTransitive<T>(a: seq<T>, b: seq<T>, c: seq<T>)
    requires Within(a, b) && Within(b, c)
    ensures Within(a, c)
    decreases |c|
  {
    if |a| > 0 {
      var b', c' := b[..|b| - 1], c[..|c| - 1];
      if Within(b, c') {
        WithinTransitive(a, b, c');
      } else if Within(a, b') {
        WithinTransitive(a, b', c');
      } else {
        WithinTransitive(a[..|a| - 1], b', c');
      }
    }
  }

  lemma {:induction false} WithinWhole<T>(a: seq<T>, b: seq<T>)
    requires Within(a, b)
    ensures |a| <= |b| && (|a| == |b| ==> a == b)
    decreases |b|
  {
    if |a| > 0 {
      var b' := b[..|b| - 1];
      if Within(a, b') {
        WithinWhole(a, b');
      } else {
        WithinWhole(a[..|a| - 1], b');
        assert a == a[..|a| - 1] + [a[|a| - 1]] && b == b' + [b[|b| - 1]];
      }
    }
  }
}

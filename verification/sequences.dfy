/** Facts about sequences shared by the filter, the discovery loop and the grouping. */
module Sequences {

  /** `a` is obtained from `b` by deleting elements and keeping the rest in order.
      Stated from the back, the end at which the source's loops append. */
  predicate IsSubsequence<T(==)>(a: seq<T>, b: seq<T>)
    decreases |b|
  {
    a == [] ||
    (b != [] &&
     ((a[|a| - 1] == b[|b| - 1] && IsSubsequence(a[..|a| - 1], b[..|b| - 1])) ||
      IsSubsequence(a, b[..|b| - 1])))
  }

  /** Appending the same element to both sides keeps the relation. */
  lemma SubsequenceSnoc<T>(a: seq<T>, b: seq<T>, x: T)
    requires IsSubsequence(a, b)
    ensures IsSubsequence(a + [x], b + [x])
  {
    assert (a + [x])[..|a|] == a && (b + [x])[..|b|] == b;
  }

  /** Appending to the longer side keeps the relation. */
  lemma SubsequenceExtend<T>(a: seq<T>, b: seq<T>, y: T)
    requires IsSubsequence(a, b)
    ensures IsSubsequence(a, b + [y])
  {
    assert (b + [y])[..|b|] == b;
  }

  /** No element occurs twice. */
  predicate Distinct<T(==)>(s: seq<T>) {
    forall i, j :: 0 <= i < j < |s| ==> s[i] != s[j]
  }

  /** The number of occurrences of `x` in `s`. */
  function Count<T(==)>(x: T, s: seq<T>): (n: nat)
    ensures n <= |s|
    ensures n > 0 <==> x in s
  {
    if s == [] then 0
    else
      assert s == s[..|s| - 1] + [s[|s| - 1]];
      Count(x, s[..|s| - 1]) + (if s[|s| - 1] == x then 1 else 0)
  }

  /** `n` copies of `x`. */
  function Repeat<T>(x: T, n: nat): (r: seq<T>)
    ensures |r| == n
    ensures forall i :: 0 <= i < n ==> r[i] == x
  {
    seq(n, _ => x)
  }

  /** The elements of `s`. */
  function Elements(s: seq<string>): (r: set<string>)
    ensures forall x :: x in r <==> x in s
    decreases |s|
  {
    if s == [] then {}
    else
      assert s == s[..|s| - 1] + [s[|s| - 1]];
      Elements(s[..|s| - 1]) + {s[|s| - 1]}
  }

  lemma RepeatSnoc<T>(x: T, n: nat)
    ensures Repeat(x, n + 1) == Repeat(x, n) + [x]
  {
  }

  lemma CountSnoc<T>(x: T, s: seq<T>, y: T)
    ensures Count(x, s + [y]) == Count(x, s) + if y == x then 1 else 0
  {
    assert (s + [y])[..|s|] == s;
  }

  lemma CountPrefixStep<T>(x: T, s: seq<T>, j: nat)
    requires j < |s|
    ensures Count(x, s[..j + 1]) == Count(x, s[..j]) + if s[j] == x then 1 else 0
  {
    assert s[..j + 1] == s[..j] + [s[j]];
    CountSnoc(x, s[..j], s[j]);
  }

  /** In a sequence without repetitions every element occurs at most once. */
  lemma {:induction false} CountDistinct<T>(x: T, s: seq<T>)
    requires Distinct(s)
    ensures Count(x, s) == if x in s then 1 else 0
    decreases |s|
  {
    if s != [] {
      var s' := s[..|s| - 1];
      assert Distinct(s');
      CountDistinct(x, s');
      assert s == s' + [s[|s| - 1]];
      if s[|s| - 1] == x {
        assert x !in s' by {
          forall i | 0 <= i < |s'| ensures s'[i] != x {
            assert s'[i] == s[i];
          }
        }
      }
    }
  }

  /** Every element of a subsequence is an element of the sequence. */
  lemma {:induction false} SubsequenceElements<T>(a: seq<T>, b: seq<T>)
    requires IsSubsequence(a, b)
    ensures forall x :: x in a ==> x in b
    decreases |b|
  {
    if a != [] {
      var a', b' := a[..|a| - 1], b[..|b| - 1];
      assert a == a' + [a[|a| - 1]] && b == b' + [b[|b| - 1]];
      if a[|a| - 1] == b[|b| - 1] && IsSubsequence(a', b') {
        SubsequenceElements(a', b');
      } else {
        SubsequenceElements(a, b');
      }
    }
  }

  /** A subsequence of a sequence without repetitions has none either. */
  lemma {:induction false} SubsequenceOfDistinct<T>(a: seq<T>, b: seq<T>)
    requires IsSubsequence(a, b) && Distinct(b)
    ensures Distinct(a)
    decreases |b|
  {
    if a != [] {
      var a', b' := a[..|a| - 1], b[..|b| - 1];
      assert Distinct(b');
      if a[|a| - 1] == b[|b| - 1] && IsSubsequence(a', b') {
        SubsequenceOfDistinct(a', b');
        SubsequenceElements(a', b');
        forall i, j | 0 <= i < j < |a| ensures a[i] != a[j] {
          if j == |a| - 1 {
            assert a[i] == a'[i] && a[i] in b';
            var k :| 0 <= k < |b'| && b'[k] == a[i];
            assert b[k] == a[i];
          } else {
            assert a[i] == a'[i] && a[j] == a'[j];
          }
        }
      } else {
        SubsequenceOfDistinct(a, b');
      }
    }
  }

  lemma AppendAssoc<T>(a: seq<T>, b: seq<T>, c: seq<T>)
    ensures (a + b) + c == a + (b + c)
  {
  }

  /** `t` occurs in `s` starting at position `i`. */
  predicate InfixAt<T(==)>(t: seq<T>, s: seq<T>, i: nat) {
    i + |t| <= |s| && s[i..i + |t|] == t
  }

  lemma InfixOfConcat<T>(u: seq<T>, t: seq<T>, v: seq<T>)
    ensures InfixAt(t, u + t + v, |u|)
  {
    assert (u + t + v)[|u|..|u| + |t|] == t;
  }

  lemma SplitLast<T>(s: seq<T>)
    requires s != []
    ensures s == s[..|s| - 1] + [s[|s| - 1]]
  {
  }

  /** Dropping the last element of `a + b` drops the last element of `b`. */
  lemma InitOfAppend<T>(a: seq<T>, b: seq<T>)
    requires b != []
    ensures (a + b)[..|a + b| - 1] == a + b[..|b| - 1]
    ensures (a + b)[|a + b| - 1] == b[|b| - 1]
  {
  }

  /** A slice is the concatenation of the slices that partition it. */
  lemma SliceSplit<T>(s: seq<T>, a: nat, b: nat, c: nat, d: nat, e: nat)
    requires a <= b <= c <= d <= e <= |s|
    ensures s[a..e] == s[a..b] + s[b..c] + s[c..d] + s[d..e]
  {
    assert s[c..e] == s[c..d] + s[d..e];
    assert s[b..e] == s[b..c] + s[c..e];
    assert s[a..e] == s[a..b] + s[b..e];
  }

  lemma WholePrefix<T>(s: seq<T>)
    ensures s[..|s|] == s
  {
  }

  lemma PrefixOfPrefix<T>(s: seq<T>, i: nat, j: nat)
    requires i <= j <= |s|
    ensures s[..j][..i] == s[..i]
  {
  }

  /** Two ways of bracketing the same six-part concatenation. */
  lemma Regroup<T>(h: seq<T>, a: seq<T>, b: seq<T>, c: seq<T>, d: seq<T>, e: seq<T>)
    ensures h + ((((a + b) + c) + d) + e) == ((h + a) + b) + ((c + d) + e)
    ensures h + ((((a + b) + c) + d) + e) == ((((h + a) + b) + c) + d) + e
  {
  }

  /** An infix of an infix is an infix. */
  lemma InfixTrans<T>(t: seq<T>, u: seq<T>, s: seq<T>, k: nat, i: nat)
    requires InfixAt(t, u, k) && InfixAt(u, s, i)
    ensures InfixAt(t, s, i + k)
  {
    forall n | 0 <= n < |t| ensures s[i + k + n] == t[n] {
      assert s[i..i + |u|][k + n] == u[k + n];
      assert u[k..k + |t|][n] == t[n];
    }
    assert s[i + k..i + k + |t|] == t;
  }

  /** Where each part of `a + (b + c + d + e)` sits. */
  lemma ConcatParts<T>(a: seq<T>, b: seq<T>, c: seq<T>, d: seq<T>, e: seq<T>)
    ensures var s := a + (b + c + d + e);
      var i, j, k := |a| + |b|, |a| + |b| + |c|, |a| + |b| + |c| + |d|;
      && |s| == k + |e|
      && s[|a|..i] == b && s[i..j] == c && s[j..k] == d && s[k..|s|] == e
  {
  }

  lemma {:induction false} CountAppend<T>(x: T, a: seq<T>, b: seq<T>)
    ensures Count(x, a + b) == Count(x, a) + Count(x, b)
    decreases |b|
  {
    if b != [] {
      var b' := b[..|b| - 1];
      CountAppend(x, a, b');
      assert a + b == (a + b') + [b[|b| - 1]];
      CountSnoc(x, a + b', b[|b| - 1]);
      assert b == b' + [b[|b| - 1]];
      CountSnoc(x, b', b[|b| - 1]);
    } else {
      assert a + b == a;
    }
  }

  lemma {:induction false} CountRepeat<T>(x: T, y: T, n: nat)
    ensures Count(x, Repeat(y, n)) == if x == y then n else 0
  {
    if n > 0 {
      CountRepeat(x, y, n - 1);
      RepeatSnoc(y, n - 1);
      CountSnoc(x, Repeat(y, n - 1), y);
    }
  }

  /** The occurrences in `s` of each of `keys`, added up. */
  function CountSum(keys: seq<string>, s: seq<string>): nat
    decreases |keys|
  {
    if keys == [] then 0
    else CountSum(keys[..|keys| - 1], s) + Count(keys[|keys| - 1], s)
  }

  lemma {:induction false} CountSumSnoc(keys: seq<string>, s: seq<string>, y: string)
    ensures CountSum(keys, s + [y]) == CountSum(keys, s) + Count(y, keys)
    decreases |keys|
  {
    if keys != [] {
      var k := keys[|keys| - 1];
      CountSumSnoc(keys[..|keys| - 1], s, y);
      CountSnoc(k, s, y);
      assert keys == keys[..|keys| - 1] + [k];
      CountSnoc(y, keys[..|keys| - 1], k);
    }
  }

  /** Counting every element of `s` against keys that list each of them once counts
      every position of `s` exactly once. */
  lemma {:induction false} CountSumCovers(keys: seq<string>, s: seq<string>)
    requires Distinct(keys)
    requires forall i :: 0 <= i < |s| ==> s[i] in keys
    ensures CountSum(keys, s) == |s|
    decreases |s|
  {
    if s == [] {
      CountSumEmpty(keys);
    } else {
      var s' := s[..|s| - 1];
      var y := s[|s| - 1];
      CountSumCovers(keys, s');
      assert s == s' + [y];
      CountSumSnoc(keys, s', y);
      CountDistinct(y, keys);
    }
  }

  lemma {:induction false} CountSumEmpty(keys: seq<string>)
    ensures CountSum(keys, []) == 0
    decreases |keys|
  {
    if keys != [] {
      CountSumEmpty(keys[..|keys| - 1]);
    }
  }
}

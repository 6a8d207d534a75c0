/** Small shared vocabulary: an optional value, a result, and order-preserving
    subsequences (what every filter of the pipeline produces). */
module Common {

  datatype Option<T> = None | Some(value: T)

  /** The outcome of an operation of the source that can raise. */
  datatype Result<T, E> = Success(value: T) | Failure(error: E)

  /** `a` is obtained from `b` by deleting elements; what remains keeps its order. */
  ghost predicate IsSubsequence<T>(a: seq<T>, b: seq<T>)
    decreases |b|
  {
    if a == [] then true
    else if b == [] then false
    else (a[0] == b[0] && IsSubsequence(a[1..], b[1..])) || IsSubsequence(a, b[1..])
  }

  lemma {:induction false} SubsequenceRefl<T>(a: seq<T>)
    ensures IsSubsequence(a, a)
    decreases |a|
  {
    if a != [] {
      SubsequenceRefl(a[1..]);
    }
  }

  lemma {:induction false} SubsequenceTrans<T>(a: seq<T>, b: seq<T>, c: seq<T>)
    requires IsSubsequence(a, b) && IsSubsequence(b, c)
    ensures IsSubsequence(a, c)
    decreases |c|
  {
    if a != [] {
      if b[0] == c[0] && IsSubsequence(b[1..], c[1..]) {
        if a[0] == b[0] && IsSubsequence(a[1..], b[1..]) {
          SubsequenceTrans(a[1..], b[1..], c[1..]);
        } else {
          SubsequenceTrans(a, b[1..], c[1..]);
        }
      } else {
        SubsequenceTrans(a, b, c[1..]);
      }
    }
  }

  /** A subsequence never holds more of any element than the sequence it comes from. */
  lemma {:induction false} SubsequenceMultiset<T>(a: seq<T>, b: seq<T>)
    requires IsSubsequence(a, b)
    ensures multiset(a) <= multiset(b) && |a| <= |b|
    decreases |b|
  {
    if a != [] {
      assert b == [b[0]] + b[1..];
      if a[0] == b[0] && IsSubsequence(a[1..], b[1..]) {
        SubsequenceMultiset(a[1..], b[1..]);
        assert a == [a[0]] + a[1..];
      } else {
        SubsequenceMultiset(a, b[1..]);
      }
    }
  }

  /** Every element of a subsequence is an element of the original. */
  lemma SubsequenceMember<T>(a: seq<T>, b: seq<T>, x: T)
    requires IsSubsequence(a, b) && x in a
    ensures x in b
  {
    SubsequenceMultiset(a, b);
    assert x in multiset(a);
  }

  lemma {:induction false} PrefixIsSubsequence<T>(s: seq<T>, j: nat)
    requires j <= |s|
    ensures IsSubsequence(s[..j], s)
    decreases |s|
  {
    if j > 0 {
      assert s[..j][1..] == s[1..][..j - 1];
      PrefixIsSubsequence(s[1..], j - 1);
    }
  }

  lemma {:induction false} SuffixIsSubsequence<T>(s: seq<T>, i: nat)
    requires i <= |s|
    ensures IsSubsequence(s[i..], s)
    decreases i
  {
    if i == 0 {
      SubsequenceRefl(s);
    } else {
      assert s[1..][i - 1..] == s[i..];
      SuffixIsSubsequence(s[1..], i - 1);
      assert s == [s[0]] + s[1..];
      SkipSubsequence(s[0], s[i..], s[1..]);
    }
  }

  lemma SliceIsSubsequence<T>(s: seq<T>, i: nat, j: nat)
    requires i <= j <= |s|
    ensures IsSubsequence(s[i..j], s)
  {
    assert s[i..j] == s[i..][..j - i];
    PrefixIsSubsequence(s[i..], j - i);
    SuffixIsSubsequence(s, i);
    SubsequenceTrans(s[i..j], s[i..], s);
  }

  /** Keeping the head while taking a subsequence of the tail. */
  lemma ConsSubsequence<T>(x: T, a: seq<T>, b: seq<T>)
    requires IsSubsequence(a, b)
    ensures IsSubsequence([x] + a, [x] + b)
  {
    assert ([x] + a)[1..] == a;
    assert ([x] + b)[1..] == b;
  }

  /** Dropping the head of the source while the result is a subsequence of the tail. */
  lemma SkipSubsequence<T>(x: T, a: seq<T>, b: seq<T>)
    requires IsSubsequence(a, b)
    ensures IsSubsequence(a, [x] + b)
  {
    if a != [] {
      assert ([x] + b)[1..] == b;
    }
  }

  /** Appending the same tail keeps one sequence's multiset within another's. */
  lemma AppendWithin<T>(a: seq<T>, b: seq<T>, tail: seq<T>)
    requires multiset(a) <= multiset(b)
    ensures multiset(a + tail) <= multiset(b + tail)
  {
    assert multiset(a + tail) == multiset(a) + multiset(tail);
    assert multiset(b + tail) == multiset(b) + multiset(tail);
  }

  /** Removing the element at position k removes one occurrence of it. */
  lemma RemovedMultiset<T>(b: seq<T>, k: nat)
    requires k < |b|
    ensures multiset(b[..k] + b[k + 1..]) == multiset(b) - multiset{b[k]}
    ensures multiset(b) == multiset(b[..k] + b[k + 1..]) + multiset{b[k]}
  {
    assert b == b[..k] + [b[k]] + b[k + 1..];
  }

  /** The sign of a product of reals, for steps the solver would otherwise
      have to find through nonlinear arithmetic. */
  lemma ProductNonNegative(x: real, y: real)
    requires x >= 0.0 && y >= 0.0
    ensures x * y >= 0.0
  {
  }

  lemma ProductPositive(x: real, y: real)
    requires x > 0.0 && y > 0.0
    ensures x * y > 0.0
  {
  }
}

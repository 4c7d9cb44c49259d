/** A few facts about sequences that the solver finds more easily on their own. */
module Sequences {

  lemma HeadTail<T>(s: seq<T>)
    requires s != []
    ensures s == [s[0]] + s[1..]
  {
  }

  lemma ConsParts<T>(x: T, s: seq<T>)
    ensures ([x] + s)[0] == x && ([x] + s)[1..] == s
  {
  }

  lemma PrefixAt<T>(p: seq<T>, s: seq<T>, i: nat)
    ensures p <= s && i < |p| ==> s[i] == p[i] && p[i] in p
  {
  }

  lemma Regroup<T>(a: seq<T>, b: seq<T>, c: seq<T>, d: seq<T>)
    ensures a + (b + c) + d == (a + b) + (c + d)
  {
  }

  lemma TakeTake<T>(s: seq<T>, n: nat, k: nat)
    requires k <= n <= |s|
    ensures s[..n][..k] == s[..k] && s[k..][n - k..] == s[n..] && s[..k] + s[k..] == s
    ensures n < |s| ==> s[k..][n - k] == s[n]
  {
  }

  lemma Assoc<T>(a: seq<T>, b: seq<T>, c: seq<T>)
    ensures a + b + c == a + (b + c)
  {
  }

  lemma PrefixParts<T>(s: seq<T>, p: seq<T>, i: nat)
    requires i <= |s| && p <= s[i..]
    ensures i + |p| <= |s| && s[..i + |p|] == s[..i] + p && s[i..][|p|..] == s[i + |p|..]
  {
    assert s[i..][..|p|] == p;
  }

  lemma SliceSlice<T>(s: seq<T>, a: nat, b: nat, c: nat, d: nat)
    requires a <= b <= |s| && c <= d <= b - a
    ensures s[a..b][c..d] == s[a + c..a + d] && s[a..b][d..] == s[a + d..b]
  {
    var slice := s[a..b];
    assert forall i | 0 <= i < b - a :: slice[i] == s[a + i];
    assert |slice[c..d]| == |s[a + c..a + d]| && forall i | 0 <= i < d - c :: slice[c..d][i] == s[a + c..a + d][i];
    assert slice[c..d] == s[a + c..a + d];
    assert |slice[d..]| == |s[a + d..b]| && forall i | 0 <= i < b - a - d :: slice[d..][i] == s[a + d..b][i];
    assert slice[d..] == s[a + d..b];
  }

  lemma AfterPart<T>(part: seq<T>, stop: T, rest: seq<T>)
    ensures (part + ([stop] + rest))[|part| + 1..] == rest
  {
  }

  lemma MultisetSplit<T>(a: seq<T>, b: seq<T>)
    ensures multiset(a + b) == multiset(a) + multiset(b)
  {
  }

  /** Where the first element of `a` stands in a permutation of `a`, and that the rest permute. */
  lemma TakeFirstOut<T>(a: seq<T>, b: seq<T>) returns (before: seq<T>, after: seq<T>)
    requires a != [] && multiset(a) == multiset(b)
    ensures b == before + ([a[0]] + after) && multiset(a[1..]) == multiset(before + after)
  {
    assert a[0] in multiset(b);
    var i :| 0 <= i < |b| && b[i] == a[0];
    before, after := b[..i], b[i + 1..];
    HeadTail(a);
    assert b == before + ([a[0]] + after);
    MultisetSplit(before, [a[0]] + after);
    MultisetSplit([a[0]], after);
    MultisetSplit(before, after);
    MultisetSplit([a[0]], a[1..]);
    assert multiset(a[1..]) == multiset(a) - multiset{a[0]} == multiset(before + after);
  }
}

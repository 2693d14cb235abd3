/** Facts about occurrences in sequences that several modules use. */
module Sequences {
  lemma ConcatAssociates<T>(a: seq<T>, b: seq<T>, c: seq<T>)
    ensures a + (b + c) == a + b + c
  {
  }

  lemma TakeConcat<T>(a: seq<T>, b: seq<T>, k: nat, n: nat)
    requires k <= |b| && n == |a| + k
    ensures (a + b)[..n] == a + b[..k]
  {
  }

  lemma ConcatCancels<T>(a: seq<T>, b: seq<T>, c: seq<T>)
    requires a + b == a + c
    ensures b == c
  {
    assert (a + b)[|a|..] == b && (a + c)[|a|..] == c;
  }

  lemma BeginsWith<T>(s: seq<T>, front: seq<T>)
    requires |front| <= |s| && forall i :: 0 <= i < |front| ==> s[i] == front[i]
    ensures s == front + s[|front|..]
  {
  }

  /** An element a multiset counts twice stands at two positions. */
  lemma {:induction false} Occurs<T>(s: seq<T>, e: T)
    ensures multiset(s)[e] >= 1 <==> e in s
    ensures multiset(s)[e] >= 2 ==> exists i, j :: 0 <= i < j < |s| && s[i] == e && s[j] == e
  {
    if s != [] {
      assert s == [s[0]] + s[1..];
      Occurs(s[1..], e);
      if multiset(s)[e] >= 2 {
        if s[0] == e {
          assert e in s[1..];
          var j :| 0 <= j < |s[1..]| && s[1..][j] == e;
          assert s[0] == e && s[j + 1] == e;
        } else {
          var i, j :| 0 <= i < j < |s[1..]| && s[1..][i] == e && s[1..][j] == e;
          assert s[i + 1] == e && s[j + 1] == e;
        }
      }
    }
  }

  lemma TwiceAt<T>(s: seq<T>, i: nat, j: nat)
    requires i < j < |s| && s[i] == s[j]
    ensures multiset(s)[s[i]] >= 2
  {
    assert s == s[..i] + [s[i]] + s[i + 1..j] + [s[j]] + s[j + 1..];
  }

  lemma SameMembers<T>(a: seq<T>, b: seq<T>)
    requires multiset(a) == multiset(b)
    ensures |a| == |b| && forall e :: e in a <==> e in b
  {
    forall e
      ensures e in a <==> e in b
    {
      Occurs(a, e);
      Occurs(b, e);
    }
    assert |multiset(a)| == |a| && |multiset(b)| == |b|;
  }

  /** No two positions hold related elements. */
  ghost predicate Apart<T(!new)>(s: seq<T>, same: (T, T) -> bool) {
    forall i, j :: 0 <= i < j < |s| ==> !same(s[i], s[j])
  }

  /** Permuting a sequence neither joins nor separates its elements. */
  lemma PermutedApart<T(!new)>(a: seq<T>, b: seq<T>, same: (T, T) -> bool)
    requires multiset(a) == multiset(b) && Apart(a, same)
    requires forall x, y :: same(x, y) ==> same(y, x)
    ensures Apart(b, same)
  {
    forall i, j | 0 <= i < j < |b|
      ensures !same(b[i], b[j])
    {
      Occurs(b, b[i]);
      Occurs(b, b[j]);
      Occurs(a, b[i]);
      Occurs(a, b[j]);
      if b[i] == b[j] {
        TwiceAt(b, i, j);
      }
    }
  }
}

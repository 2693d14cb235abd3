/** Strings as the source compares them: sequences of UTF-16 code units in lexicographic order. */
module Texts {
  type CodeUnit = n: int | 0 <= n < 0x1_0000

  type Text = seq<CodeUnit>

  const SLASH: CodeUnit := 0x2F

  /** A plain string's code units. */
  function Ascii(s: string): Text
    requires forall i :: 0 <= i < |s| ==> s[i] < '\U{80}'
  {
    seq(|s|, i requires 0 <= i < |s| => s[i] as CodeUnit)
  }

  /** The strict order `left < right` of two strings. */
  predicate Before(a: Text, b: Text) {
    b != [] && (a == [] || a[0] < b[0] || (a[0] == b[0] && Before(a[1..], b[1..])))
  }

  /** The two agree up to some place, where the first ends and the second goes on, or has the lesser code unit. */
  ghost predicate DiffersAt(a: Text, b: Text, n: int) {
    && 0 <= n <= |a| && n < |b| && (n == |a| || a[n] < b[n])
    && forall i :: 0 <= i < n ==> a[i] == b[i]
  }

  lemma {:induction false} BeforeMeaning(a: Text, b: Text)
    ensures Before(a, b) <==> exists n :: DiffersAt(a, b, n)
  {
    if b != [] {
      if a == [] || a[0] < b[0] {
        assert DiffersAt(a, b, 0);
      } else if a[0] == b[0] {
        BeforeMeaning(a[1..], b[1..]);
        if n :| DiffersAt(a[1..], b[1..], n) {
          forall i | 0 <= i < n + 1
            ensures a[i] == b[i]
          {
            assert i > 0 ==> a[1..][i - 1] == b[1..][i - 1];
          }
          assert DiffersAt(a, b, n + 1);
        }
        if n :| DiffersAt(a, b, n) {
          forall i | 0 <= i < n - 1
            ensures a[1..][i] == b[1..][i]
          {
            assert a[i + 1] == b[i + 1];
          }
          assert DiffersAt(a[1..], b[1..], n - 1);
        }
      }
    }
  }

  lemma {:induction false} BeforeIrreflexive(a: Text)
    ensures !Before(a, a)
  {
    if a != [] {
      BeforeIrreflexive(a[1..]);
    }
  }

  lemma {:induction false} BeforeTransitive(a: Text, b: Text, c: Text)
    requires Before(a, b) && Before(b, c)
    ensures Before(a, c)
  {
    if a != [] && a[0] == b[0] && b[0] == c[0] {
      BeforeTransitive(a[1..], b[1..], c[1..]);
    }
  }

  lemma {:induction false} BeforeTotal(a: Text, b: Text)
    ensures Before(a, b) || a == b || Before(b, a)
  {
    if a != [] && b != [] && a[0] == b[0] {
      BeforeTotal(a[1..], b[1..]);
      assert a == [a[0]] + a[1..] && b == [b[0]] + b[1..];
    }
  }

  /** `<=` on strings, the order every sort of texts uses. */
  predicate NotAfter(a: Text, b: Text) {
    !Before(b, a)
  }

  lemma NotAfterTransitive(a: Text, b: Text, c: Text)
    requires NotAfter(a, b) && NotAfter(b, c)
    ensures NotAfter(a, c)
  {
    BeforeTotal(a, b);
    BeforeTotal(b, c);
    if Before(c, a) {
      if a != b && b != c {
        BeforeTransitive(a, b, c);
      }
      BeforeIrreflexive(a);
      if Before(a, c) {
        BeforeTransitive(a, c, a);
      }
    }
  }

  lemma NotAfterTotal(a: Text, b: Text)
    ensures NotAfter(a, b) || NotAfter(b, a)
    ensures NotAfter(a, b) && NotAfter(b, a) ==> a == b
    ensures NotAfter(a, a)
  {
    BeforeTotal(a, b);
    BeforeIrreflexive(a);
    if Before(a, b) && Before(b, a) {
      BeforeTransitive(a, b, a);
    }
  }

  lemma BeforeNotAfter(a: Text, b: Text)
    requires Before(a, b)
    ensures NotAfter(a, b)
  {
    if Before(b, a) {
      BeforeTransitive(a, b, a);
      BeforeIrreflexive(a);
    }
  }
}

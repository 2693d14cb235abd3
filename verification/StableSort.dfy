/** Stable sorting, as JavaScript's `toSorted` promises it, and why its result is unique. */
module StableSort {
  import opened Sequences

  ghost predicate TotalPreorder<T(!new)>(leq: (T, T) -> bool) {
    && (forall x, y :: leq(x, y) || leq(y, x))
    && (forall x, y, z :: leq(x, y) && leq(y, z) ==> leq(x, z))
  }

  ghost predicate Sorted<T>(s: seq<T>, leq: (T, T) -> bool) {
    forall i, j :: 0 <= i < j < |s| ==> leq(s[i], s[j])
  }

  /** The elements of `s` that tie with `x`, in their order of occurrence. */
  ghost function Ties<T(!new)>(s: seq<T>, x: T, leq: (T, T) -> bool): seq<T> {
    if s == [] then []
    else
      (if leq(s[0], x) && leq(x, s[0]) then [s[0]] else []) + Ties(s[1..], x, leq)
  }

  /** Both sequences order every group of ties alike (so they hold the same elements). */
  ghost predicate SameTies<T(!new)>(s: seq<T>, t: seq<T>, leq: (T, T) -> bool) {
    forall x :: Ties(s, x, leq) == Ties(t, x, leq)
  }

  /** Place `x` behind everything it does not have to precede. */
  function Insert<T>(s: seq<T>, x: T, leq: (T, T) -> bool): (r: seq<T>)
    ensures multiset(r) == multiset(s) + multiset{x}
  {
    if s == [] then [x]
    else if leq(s[|s| - 1], x) then s + [x]
    else
      assert s == s[..|s| - 1] + [s[|s| - 1]];
      Insert(s[..|s| - 1], x, leq) + [s[|s| - 1]]
  }

  function Sort<T>(s: seq<T>, leq: (T, T) -> bool): (r: seq<T>)
    ensures multiset(r) == multiset(s)
  {
    if s == [] then []
    else
      assert s == s[..|s| - 1] + [s[|s| - 1]];
      Insert(Sort(s[..|s| - 1], leq), s[|s| - 1], leq)
  }

  lemma {:induction false} TiesConcat<T(!new)>(s: seq<T>, t: seq<T>, x: T, leq: (T, T) -> bool)
    ensures Ties(s + t, x, leq) == Ties(s, x, leq) + Ties(t, x, leq)
  {
    if s == [] {
      assert s + t == t;
    } else {
      var head := if leq(s[0], x) && leq(x, s[0]) then [s[0]] else [];
      TiesConcat(s[1..], t, x, leq);
      assert (s + t)[1..] == s[1..] + t;
      assert head + (Ties(s[1..], x, leq) + Ties(t, x, leq)) == head + Ties(s[1..], x, leq) + Ties(t, x, leq);
    }
  }

  lemma {:induction false} InsertSorted<T(!new)>(s: seq<T>, x: T, leq: (T, T) -> bool)
    requires TotalPreorder(leq) && Sorted(s, leq)
    ensures Sorted(Insert(s, x, leq), leq)
  {
    if s != [] && !leq(s[|s| - 1], x) {
      var init, last := s[..|s| - 1], s[|s| - 1];
      InsertSorted(init, x, leq);
      var r := Insert(init, x, leq);
      forall i | 0 <= i < |r|
        ensures leq(r[i], last)
      {
        assert r[i] in multiset(r);
        assert r[i] == x || r[i] in init;
      }
    }
  }

  lemma {:induction false} InsertTies<T(!new)>(s: seq<T>, x: T, y: T, leq: (T, T) -> bool)
    requires TotalPreorder(leq) && Sorted(s, leq)
    ensures Ties(Insert(s, x, leq), y, leq) == Ties(s + [x], y, leq)
  {
    if s != [] && !leq(s[|s| - 1], x) {
      var init, last := s[..|s| - 1], s[|s| - 1];
      InsertTies(init, x, y, leq);
      TiesConcat(Insert(init, x, leq), [last], y, leq);
      TiesConcat(init, [x], y, leq);
      assert s == init + [last];
      TiesConcat(init, [last], y, leq);
      TiesConcat(s, [x], y, leq);
      DistinctRanks(x, last, y, leq);
    } else {
      assert Insert(s, x, leq) == s + [x];
    }
  }

  lemma DistinctRanks<T(!new)>(x: T, z: T, y: T, leq: (T, T) -> bool)
    requires TotalPreorder(leq) && !leq(z, x)
    ensures Ties([x], y, leq) == [] || Ties([z], y, leq) == []
  {
    assert !(leq(z, y) && leq(y, x));
  }

  lemma {:induction false} SortSorted<T(!new)>(s: seq<T>, leq: (T, T) -> bool)
    requires TotalPreorder(leq)
    ensures Sorted(Sort(s, leq), leq)
  {
    if s != [] {
      SortSorted(s[..|s| - 1], leq);
      InsertSorted(Sort(s[..|s| - 1], leq), s[|s| - 1], leq);
    }
  }

  lemma {:induction false} SortTies<T(!new)>(s: seq<T>, y: T, leq: (T, T) -> bool)
    requires TotalPreorder(leq)
    ensures Ties(Sort(s, leq), y, leq) == Ties(s, y, leq)
  {
    if s != [] {
      var init, last := s[..|s| - 1], s[|s| - 1];
      SortSorted(init, leq);
      SortTies(init, y, leq);
      InsertTies(Sort(init, leq), last, y, leq);
      TiesConcat(Sort(init, leq), [last], y, leq);
      assert s == init + [last];
      TiesConcat(init, [last], y, leq);
    }
  }

  lemma {:induction false} TiesNonempty<T(!new)>(s: seq<T>, x: T, leq: (T, T) -> bool)
    ensures Ties(s, x, leq) != [] ==> exists i :: 0 <= i < |s| && leq(s[i], x) && leq(x, s[i])
  {
    if s != [] {
      TiesNonempty(s[1..], x, leq);
      if i :| 0 <= i < |s[1..]| && leq(s[1..][i], x) && leq(x, s[1..][i]) {
        assert leq(s[i + 1], x);
      }
    }
  }

  lemma HeadTies<T(!new)>(s: seq<T>, leq: (T, T) -> bool)
    requires TotalPreorder(leq) && s != []
    ensures Ties(s, s[0], leq) != []
  {
    assert leq(s[0], s[0]);
  }

  /** A stable sort has one result: sorted sequences with the same ties are equal. */
  lemma {:induction false} SortedUnique<T(!new)>(s: seq<T>, t: seq<T>, leq: (T, T) -> bool)
    requires TotalPreorder(leq) && Sorted(s, leq) && Sorted(t, leq) && SameTies(s, t, leq)
    ensures s == t
  {
    if s == [] && t == [] {
    } else if s == [] {
      HeadTies(t, leq);
    } else if t == [] {
      HeadTies(s, leq);
    } else {
      var x, y := s[0], t[0];
      assert Ties(s, x, leq) == Ties(t, x, leq) && Ties(s, y, leq) == Ties(t, y, leq);
      TiesNonempty(t, x, leq);
      TiesNonempty(s, y, leq);
      assert leq(x, y) && leq(y, x);
      assert Ties(s, x, leq)[0] == x && Ties(t, x, leq)[0] == y;
      forall z
        ensures Ties(s[1..], z, leq) == Ties(t[1..], z, leq)
      {
        assert Ties(s, z, leq) == Ties(t, z, leq);
        if leq(x, z) && leq(z, x) {
          assert Ties(s, z, leq) == [x] + Ties(s[1..], z, leq);
          assert Ties(t, z, leq) == [x] + Ties(t[1..], z, leq);
          assert Ties(s[1..], z, leq) == Ties(s, z, leq)[1..];
          assert Ties(t[1..], z, leq) == Ties(t, z, leq)[1..];
        } else {
          assert Ties(s, z, leq) == Ties(s[1..], z, leq);
          assert Ties(t, z, leq) == Ties(t[1..], z, leq);
        }
      }
      SortedUnique(s[1..], t[1..], leq);
      assert s == [x] + s[1..] && t == [y] + t[1..];
    }
  }

  /** Sequences with the same ties sort alike. */
  lemma {:induction false} SortSame<T(!new)>(s: seq<T>, t: seq<T>, leq: (T, T) -> bool)
    requires TotalPreorder(leq) && SameTies(s, t, leq)
    ensures Sort(s, leq) == Sort(t, leq)
  {
    forall x
      ensures Ties(Sort(s, leq), x, leq) == Ties(Sort(t, leq), x, leq)
    {
      SortTies(s, x, leq);
      SortTies(t, x, leq);
      assert Ties(s, x, leq) == Ties(t, x, leq);
    }
    SortSorted(s, leq);
    SortSorted(t, leq);
    SortedUnique(Sort(s, leq), Sort(t, leq), leq);
  }

  lemma {:induction false} PresortedLeft<T(!new)>(s: seq<T>, t: seq<T>, whole: seq<T>, leq: (T, T) -> bool)
    requires TotalPreorder(leq) && whole == s + t
    ensures SameTies(Sort(s, leq) + t, whole, leq)
  {
    forall x
      ensures Ties(Sort(s, leq) + t, x, leq) == Ties(whole, x, leq)
    {
      SortTies(s, x, leq);
      TiesConcat(Sort(s, leq), t, x, leq);
      TiesConcat(s, t, x, leq);
    }
  }

  lemma PresortedRight<T(!new)>(s: seq<T>, t: seq<T>, whole: seq<T>, leq: (T, T) -> bool)
    requires TotalPreorder(leq) && whole == s + t
    ensures SameTies(s + Sort(t, leq), whole, leq)
  {
    forall x
      ensures Ties(s + Sort(t, leq), x, leq) == Ties(whole, x, leq)
    {
      SortTies(t, x, leq);
      TiesConcat(s, Sort(t, leq), x, leq);
      TiesConcat(s, t, x, leq);
    }
  }

  /** Sorting part of a sequence before sorting the whole changes nothing, whichever part it is. */
  lemma {:induction false} SortAssociative<T(!new)>(a: seq<T>, b: seq<T>, c: seq<T>, leq: (T, T) -> bool)
    requires TotalPreorder(leq)
    ensures Sort(Sort(a + b, leq) + c, leq) == Sort(a + Sort(b + c, leq), leq)
  {
    ConcatAssociates(a, b, c);
    PresortedLeft(a + b, c, a + b + c, leq);
    PresortedRight(a, b + c, a + b + c, leq);
    SortAlike(Sort(a + b, leq) + c, a + b + c, a + Sort(b + c, leq), leq);
  }

  lemma SortAlike<T(!new)>(s: seq<T>, m: seq<T>, t: seq<T>, leq: (T, T) -> bool)
    requires TotalPreorder(leq) && SameTies(s, m, leq) && SameTies(t, m, leq)
    ensures Sort(s, leq) == Sort(t, leq)
  {
    forall x
      ensures Ties(s, x, leq) == Ties(t, x, leq)
    {
      assert Ties(s, x, leq) == Ties(m, x, leq);
    }
    SortSame(s, t, leq);
  }
}

/** What names and keys look like, told in letters: the alphabet, the reserved device names, and the segments a key may have. */
module SegmentNames {
  import opened Wrappers
  import opened Texts
  import opened Bytes
  import opened SegmentCodec
  import opened ObjectKeys
  import opened ObjectWalk

  // ----- Letters -----

  ghost predicate Between(first: char, u: int, last: char) {
    first as int <= u <= last as int
  }

  ghost predicate Is(u: int, letter: char) {
    u == letter as int
  }

  /** A byte that stands for itself: digits, lower-case letters, `_`, `~` and `-`; a dot only between others. */
  ghost predicate Unescaped(bytes: Segment, i: nat)
    requires i < |bytes|
  {
    var u := bytes[i];
    || Between('0', u, '9') || Between('a', u, 'z') || Is(u, '_') || Is(u, '~') || Is(u, '-')
    || (Is(u, '.') && i > 0 && i < |bytes| - 1)
  }

  /** A percent sign and two upper-case hexadecimal digits. */
  ghost function Percent(b: Byte): Text {
    Ascii("%") + [Ascii("0123456789ABCDEF")[b / 16], Ascii("0123456789ABCDEF")[b % 16]]
  }

  ghost function Pieces(bytes: Segment, i: nat): Text
    requires i <= |bytes|
    decreases |bytes| - i
  {
    if i == |bytes| then [] else (if Unescaped(bytes, i) then [bytes[i]] else Percent(bytes[i])) + Pieces(bytes, i + 1)
  }

  /** The same letter, or its other case. */
  ghost predicate SameLetter(u: int, v: int) {
    || u == v
    || (Between('a', u, 'z') && v == u - 'a' as int + 'A' as int)
    || (Between('a', v, 'z') && u == v - 'a' as int + 'A' as int)
  }

  ghost predicate SameButCase(a: Text, b: Text) {
    |a| == |b| && forall i :: 0 <= i < |a| ==> SameLetter(a[i], b[i])
  }

  /** The reserved device names, in any case. */
  ghost predicate Device(name: Text) {
    || SameButCase(name, Ascii("con")) || SameButCase(name, Ascii("prn"))
    || SameButCase(name, Ascii("aux")) || SameButCase(name, Ascii("nul"))
    || (|name| == 4 && Between('1', name[3], '9')
        && (SameButCase(name[..3], Ascii("com")) || SameButCase(name[..3], Ascii("lpt"))))
  }

  lemma FoldUnits(u: CodeUnit, v: CodeUnit)
    ensures FoldUnit(u) == FoldUnit(v) <==> SameLetter(u, v)
  {
  }

  /** Folding makes names equal exactly when they differ at most in case. */
  lemma FoldMeaning(a: Text, b: Text)
    ensures Fold(a) == Fold(b) <==> SameButCase(a, b)
  {
    if |a| == |b| {
      forall i | 0 <= i < |a|
        ensures Fold(a)[i] == Fold(b)[i] <==> SameLetter(a[i], b[i])
      {
        FoldUnits(a[i], b[i]);
      }
    }
  }

  lemma DeviceSpellings()
    ensures CON == Ascii("con") && PRN == Ascii("prn") && AUX == Ascii("aux") && NUL == Ascii("nul")
    ensures COM == Ascii("com") && LPT == Ascii("lpt")
    ensures Fold(CON) == CON && Fold(PRN) == PRN && Fold(AUX) == AUX && Fold(NUL) == NUL
    ensures Fold(COM) == COM && Fold(LPT) == LPT
  {
  }

  lemma FoldFront(name: Text)
    requires |name| == 4
    ensures Fold(name[..3]) == Fold(name)[..3]
  {
  }

  /** The names escaped as reserved are the device names. */
  lemma ReservedMeaning(name: Text)
    ensures Reserved(name) <==> Device(name)
  {
    DeviceSpellings();
    FoldMeaning(name, CON);
    FoldMeaning(name, PRN);
    FoldMeaning(name, AUX);
    FoldMeaning(name, NUL);
    if |name| == 4 {
      FoldFront(name);
      FoldMeaning(name[..3], COM);
      FoldMeaning(name[..3], LPT);
    }
  }

  // ----- Names -----

  lemma HexSpelled(n: nat)
    requires n < 16
    ensures HexDigit(n) == Ascii("0123456789ABCDEF")[n]
  {
  }

  lemma EscapeSpelled(b: Byte)
    ensures Escape(b) == Percent(b)
  {
    HexUnits(b);
    HexSpelled(b / 16);
    HexSpelled(b % 16);
  }

  lemma {:induction false} PiecesSpelled(bytes: Segment, i: nat)
    requires i <= |bytes|
    ensures EncodedFrom(bytes, i) == Pieces(bytes, i)
    decreases |bytes| - i
  {
    if i < |bytes| {
      EscapeSpelled(bytes[i]);
      PiecesSpelled(bytes, i + 1);
    }
  }

  /**
   * The name of a segment is each byte that stands for itself and each other byte as a percent escape; if that is a
   * device name, its first letter is escaped as well.
   */
  lemma NameMeaning(bytes: Segment)
    ensures Encode(bytes) == if bytes != [] && Device(Pieces(bytes, 0)) then Percent(bytes[0]) + Pieces(bytes, 1)
                             else Pieces(bytes, 0)
  {
    PiecesSpelled(bytes, 0);
    ReservedMeaning(Pieces(bytes, 0));
    if Reserved(EncodedFrom(bytes, 0)) {
      ReservedHead(bytes);
      EscapeSpelled(bytes[0]);
      PiecesSpelled(bytes, 1);
    }
  }

  /** A unit that may stand in a name. */
  ghost predicate InName(u: int) {
    || Between('0', u, '9') || Between('a', u, 'z') || Between('A', u, 'Z')
    || Is(u, '_') || Is(u, '~') || Is(u, '-') || Is(u, '%') || Is(u, '.')
  }

  /** Names of nonempty segments keep to the alphabet, have no dot at either end, and are no device names. */
  lemma NamesFit(bytes: Segment)
    requires bytes != []
    ensures var name := Encode(bytes);
            && name != [] && !Is(name[0], '.') && !Is(name[|name| - 1], '.') && !Device(name)
            && forall i :: 0 <= i < |name| ==> InName(name[i])
  {
    EncodeWellFormed(bytes);
    ReservedMeaning(Encode(bytes));
  }

  /** On a volume that ignores case no two segments share a name. */
  lemma NamesApart(a: Segment, b: Segment)
    requires SameButCase(Encode(a), Encode(b))
    ensures a == b
  {
    FoldMeaning(Encode(a), Encode(b));
    FoldInjective(a, b);
  }

  /** A name decodes exactly to the segment it is the name of, unless that is empty, one dot, two dots or no text. */
  lemma DecodedExactly(name: Text, normalise: Normalise, bytes: Segment)
    ensures Decode(name, normalise) == Some(bytes) <==>
            && name == Encode(bytes) && bytes != [] && bytes != ['.' as int] && bytes != ['.' as int, '.' as int]
            && normalise(bytes) == bytes
  {
    RoundTrip(bytes, normalise);
    if Decode(name, normalise).Some? {
      DecodeSound(name, normalise);
    }
  }

  // ----- Keys -----

  /** A whole segment of a key: what stands between slashes or the ends. */
  ghost predicate Span(key: Key, i: int, j: int) {
    && 0 <= i <= j <= |key|
    && (i == 0 || Is(key[i - 1], '/')) && (j == |key| || Is(key[j], '/'))
    && forall k :: i <= k < j ==> !Is(key[k], '/')
  }

  ghost predicate Dots(key: Key, i: int, j: int)
    requires 0 <= i <= j <= |key|
  {
    1 <= j - i <= 2 && forall k :: i <= k < j ==> Is(key[k], '.')
  }

  lemma NoDotRun(key: Key, i: nat, n: nat)
    requires DotRun(key, i, n)
    ensures Span(key, i, i + n) && Dots(key, i, i + n)
  {
  }

  lemma DotSpan(key: Key, i: nat, j: nat)
    requires Span(key, i, j) && Dots(key, i, j)
    ensures i < |key| && DotRun(key, i, j - i)
  {
  }

  /** A key is admitted exactly when none of its segments is empty, one dot or two dots. */
  lemma CheckMeaning(key: Key)
    ensures CheckKey(key) <==> forall i, j :: Span(key, i, j) ==> i < j && !Dots(key, i, j)
  {
    if CheckKey(key) {
      forall i, j | Span(key, i, j)
        ensures i < j && !Dots(key, i, j)
      {
        if i == j {
          EmptySpan(key, i);
        } else if Dots(key, i, j) {
          DotSpan(key, i, j);
        }
      }
    } else {
      RefusedSpan(key);
    }
  }

  lemma EmptySpan(key: Key, i: nat)
    requires Span(key, i, i)
    ensures !CheckKey(key)
  {
    if 0 < i < |key| {
      assert key[i] == SLASH && key[i - 1] == SLASH;
    }
  }

  lemma RefusedSpan(key: Key)
    requires !CheckKey(key)
    ensures exists i, j :: Span(key, i, j) && (i == j || Dots(key, i, j))
  {
    if key == [] || key[0] == SLASH {
      assert Span(key, 0, 0);
    } else if key[|key| - 1] == SLASH {
      assert Span(key, |key|, |key|);
    } else if i :| 0 < i < |key| && key[i] == SLASH && key[i - 1] == SLASH {
      assert Span(key, i, i);
    } else {
      var i, n :| 0 <= i < |key| && 1 <= n <= 2 && DotRun(key, i, n);
      NoDotRun(key, i, n);
    }
  }

  /** A listing prefix is admitted exactly when no segment is one dot or two dots, and none but the last is empty. */
  lemma PrefixMeaning(prefix: Key)
    ensures CheckPrefix(prefix) <==>
            forall i, j :: Span(prefix, i, j) ==> !Dots(prefix, i, j) && (i == j ==> j == |prefix|)
  {
    if CheckPrefix(prefix) {
      forall i, j | Span(prefix, i, j)
        ensures !Dots(prefix, i, j) && (i == j ==> j == |prefix|)
      {
        if Dots(prefix, i, j) {
          DotSpan(prefix, i, j);
        }
      }
    } else if prefix != [] && prefix[0] == SLASH {
      assert Span(prefix, 0, 0);
    } else if i :| 0 < i < |prefix| && prefix[i] == SLASH && prefix[i - 1] == SLASH {
      assert Span(prefix, i, i);
    } else {
      var i, n :| 0 <= i < |prefix| && 1 <= n <= 2 && DotRun(prefix, i, n);
      NoDotRun(prefix, i, n);
    }
  }
}

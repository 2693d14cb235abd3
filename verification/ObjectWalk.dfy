/** The directory walk behind a listing: it starts at the prefix's own directory, and misses no key for that, on any volume. */
module ObjectWalk {
  import opened Wrappers
  import opened Texts
  import opened Sequences
  import opened Bytes
  import opened SegmentCodec
  import opened ObjectKeys
  import opened CreateProtocol
  import opened CreateRuns
  import opened DirectorySpellings

  /** A listing prefix is a path: it may be empty or end in a slash, unlike a key. */
  predicate CheckPrefix(prefix: Key) {
    && (prefix != [] ==> prefix[0] != SLASH)
    && (forall i :: 0 < i < |prefix| && prefix[i] == SLASH ==> prefix[i - 1] != SLASH)
    && (forall i, n | 0 <= i < |prefix| && 1 <= n <= 2 :: !DotRun(prefix, i, n))
  }

  /** The prefix up to and including its last slash. */
  function DirPart(prefix: Key): (dir: Key)
    ensures dir <= prefix && (dir != [] ==> dir[|dir| - 1] == SLASH)
    ensures SLASH !in prefix[|dir|..]
  {
    if prefix == [] || prefix[|prefix| - 1] == SLASH then prefix
    else
      var dir := DirPart(prefix[..|prefix| - 1]);
      assert prefix[|dir|..] == prefix[..|prefix| - 1][|dir|..] + [prefix[|prefix| - 1]];
      dir
  }

  function Filled(segments: seq<Segment>): seq<Segment> {
    if segments == [] then []
    else (if segments[0] != [] then [segments[0]] else []) + Filled(segments[1..])
  }

  /** Where the walk starts. */
  function WalkRoot(volume: Volume, prefix: Key): Path {
    Names(volume, Filled(Split(DirPart(prefix))))
  }

  /** The names a listing shows for the node filed at `entry` below `root`: the spellings they were created with. */
  function Shown(s: System, root: Path, entry: Path): (shown: Path)
    ensures |shown| == |entry|
  {
    if entry == [] then []
    else
      var path := root + entry;
      Shown(s, root, entry[..|entry| - 1]) + [if path in s.spelled then s.spelled[path] else []]
  }

  /** The key the names shown for an entry below the walk's root stand for. */
  function EntryKey(prefix: Key, shown: Path, normalise: Normalise): Option<Key> {
    match DecodeEntry(shown, normalise)
    case None => None
    case Some(suffix) => Some(DirPart(prefix) + suffix)
  }

  /** The walk below the prefix's directory comes upon a file that stands for this key. */
  ghost predicate Found(s: System, prefix: Key, normalise: Normalise, entry: Path, key: Key) {
    var root := WalkRoot(s.volume, prefix);
    && entry != [] && IsFile(s.nodes, root + entry)
    && EntryKey(prefix, Shown(s, root, entry), normalise) == Some(key)
  }

  /** And lists it, if it has the prefix. */
  ghost predicate Walked(s: System, prefix: Key, normalise: Normalise, entry: Path, key: Key) {
    Found(s, prefix, normalise, entry, key) && prefix <= key
  }

  /** A text decoder leaves the key's segments alone. */
  ghost predicate Survives(key: Key, normalise: Normalise) {
    forall s :: s in Split(key) ==> normalise(s) == s
  }

  // ----- Splitting at a slash -----

  lemma {:induction false} SplitJoined(a: Key, b: Key)
    ensures Split(a + [SLASH] + b) == Split(a) + Split(b)
  {
    var whole := a + [SLASH] + b;
    if a == [] {
      assert whole[1..] == b;
    } else {
      SplitJoined(a[1..], b);
      assert a == [a[0]] + a[1..] && whole == [a[0]] + (a[1..] + [SLASH] + b);
      SplitCons(a[0], a[1..]);
      SplitCons(a[0], a[1..] + [SLASH] + b);
      FirstJoined(Split(a[1..]), Split(b), a[0]);
    }
  }

  lemma SplitCons(first: Byte, rest: Key)
    ensures var parts := Split(rest);
            Split([first] + rest) == if first == SLASH then [[]] + parts else [[first] + parts[0]] + parts[1..]
  {
    assert ([first] + rest)[1..] == rest;
  }

  lemma FirstJoined(a: seq<Segment>, b: seq<Segment>, first: Byte)
    requires a != []
    ensures [[]] + (a + b) == [[]] + a + b
    ensures [[first] + (a + b)[0]] + (a + b)[1..] == [[first] + a[0]] + a[1..] + b
  {
    assert (a + b)[1..] == a[1..] + b;
  }

  lemma {:induction false} JoinConcat(a: seq<Segment>, b: seq<Segment>)
    requires a != [] && b != []
    ensures Join(a + b) == Join(a) + [SLASH] + Join(b)
  {
    assert (a + b)[1..] == a[1..] + b;
    if |a| == 1 {
      assert a[1..] + b == b;
    } else {
      JoinConcat(a[1..], b);
      assert a[0] + [SLASH] + (Join(a[1..]) + [SLASH] + Join(b)) == a[0] + [SLASH] + Join(a[1..]) + [SLASH] + Join(b);
    }
  }

  lemma NamesConcat(volume: Volume, a: seq<Segment>, b: seq<Segment>)
    ensures Names(volume, a + b) == Names(volume, a) + Names(volume, b)
  {
    forall i | 0 <= i < |a| + |b|
      ensures Names(volume, a + b)[i] == (Names(volume, a) + Names(volume, b))[i]
    {
      NameAt(volume, a + b, i);
      if i < |a| {
        NameAt(volume, a, i);
      } else {
        NameAt(volume, b, i - |a|);
      }
    }
  }

  lemma {:induction false} FilledConcat(a: seq<Segment>, b: seq<Segment>)
    requires forall s :: s in a ==> s != []
    ensures Filled(a + b) == a + Filled(b)
  {
    if a == [] {
      assert a + b == b;
    } else {
      assert a[0] in a && forall s :: s in a[1..] ==> s in a;
      FilledConcat(a[1..], b);
      assert (a + b)[1..] == a[1..] + b && (a + b)[0] == a[0];
      ConcatAssociates([a[0]], a[1..], Filled(b));
      assert a == [a[0]] + a[1..];
    }
  }

  /** A directory part without its slash is itself a key. */
  lemma DirIsKey(prefix: Key, dir: Key)
    requires CheckPrefix(prefix) && dir + [SLASH] <= prefix
    ensures CheckKey(dir)
  {
    assert forall i :: 0 <= i < |dir| ==> prefix[i] == dir[i];
    assert prefix[|dir|] == SLASH;
    forall i, n | 0 <= i < |dir| && 1 <= n <= 2
      ensures !DotRun(dir, i, n)
    {
      assert !DotRun(prefix, i, n);
    }
  }

  /** The names of the walk's root are those of the segments in front of the directory's slash. */
  lemma RootNames(prefix: Key, dir: Key)
    requires CheckPrefix(prefix) && DirPart(prefix) == dir + [SLASH]
    ensures Filled(Split(DirPart(prefix))) == Split(dir)
  {
    DirIsKey(prefix, dir);
    CheckKeyExact(dir);
    SplitJoined(dir, []);
    assert dir + [SLASH] + [] == dir + [SLASH];
    FilledConcat(Split(dir), [[]]);
    assert Filled([[]]) == [] && Split(dir) + [] == Split(dir);
  }

  /** The segments of a key below the prefix's directory are those of the directory and those of the rest. */
  lemma SplitBelow(prefix: Key, rest: Key)
    requires CheckPrefix(prefix)
    ensures Split(DirPart(prefix) + rest) == Filled(Split(DirPart(prefix))) + Split(rest)
  {
    var part := DirPart(prefix);
    if part == [] {
      assert part + rest == rest && Filled(Split(part)) == [];
    } else {
      var dir := part[..|part| - 1];
      assert part == dir + [SLASH];
      RootNames(prefix, dir);
      SplitJoined(dir, rest);
    }
  }

  lemma JoinBelow(prefix: Key, segments: seq<Segment>)
    requires CheckPrefix(prefix) && segments != []
    ensures Join(Filled(Split(DirPart(prefix))) + segments) == DirPart(prefix) + Join(segments)
  {
    var part := DirPart(prefix);
    if part == [] {
      assert Filled(Split(part)) + segments == segments;
    } else {
      var dir := part[..|part| - 1];
      assert part == dir + [SLASH];
      RootNames(prefix, dir);
      JoinConcat(Split(dir), segments);
      JoinSplit(dir);
    }
  }

  // ----- Entries and keys -----

  /** Where below the walk's root a key under the prefix's directory stands. */
  function EntryOf(volume: Volume, prefix: Key, key: Key): Path
    requires DirPart(prefix) <= key
  {
    Names(volume, Split(key[|DirPart(prefix)|..]))
  }

  /** Names spelled like a key's are listed as that key, if they are listed at all. */
  lemma {:induction false} EntryKeyIs(prefix: Key, shown: Path, normalise: Normalise, key: Key)
    requires CheckPrefix(prefix) && shown != [] && EntryKey(prefix, shown, normalise).Some?
    requires PathOf(CaseSensitive, key) == WalkRoot(CaseSensitive, prefix) + shown
    ensures EntryKey(prefix, shown, normalise) == Some(key)
  {
    var above, segments := Filled(Split(DirPart(prefix))), DecodeNames(shown, normalise).value;
    DecodedNames(shown, normalise);
    NamesConcat(CaseSensitive, above, segments);
    NamesInjective(CaseSensitive, above + segments, Split(key));
    JoinBelow(prefix, segments);
    JoinSplit(key);
  }

  lemma PathBelow(volume: Volume, prefix: Key, key: Key)
    requires CheckPrefix(prefix) && DirPart(prefix) <= key
    ensures PathOf(volume, key) == WalkRoot(volume, prefix) + EntryOf(volume, prefix, key)
    ensures EntryOf(volume, prefix, key) != []
    ensures Split(key) == Filled(Split(DirPart(prefix))) + Split(key[|DirPart(prefix)|..])
  {
    var part := DirPart(prefix);
    var rest := key[|part|..];
    assert key == part + rest;
    SplitBelow(prefix, rest);
    NamesConcat(volume, Filled(Split(part)), Split(rest));
  }

  lemma EntryDecodes(segments: seq<Segment>, normalise: Normalise)
    requires !Hidden(Names(CaseSensitive, segments))
    requires forall s :: s in segments ==> GoodSegment(s) && normalise(s) == s
    ensures DecodeEntry(Names(CaseSensitive, segments), normalise) == Some(Join(segments))
  {
    NamesDecode(segments, normalise);
  }

  lemma RestSurvives(prefix: Key, key: Key, normalise: Normalise)
    requires CheckPrefix(prefix) && DirPart(prefix) <= key && CheckKey(key)
    requires forall s :: s in Split(key) ==> normalise(s) == s
    ensures forall s :: s in Split(key[|DirPart(prefix)|..]) ==> GoodSegment(s) && normalise(s) == s
    ensures !Hidden(EntryOf(CaseSensitive, prefix, key))
  {
    PathBelow(CaseSensitive, prefix, key);
    KeyPathsShown(CaseSensitive, key);
    EntryShown(WalkRoot(CaseSensitive, prefix), EntryOf(CaseSensitive, prefix, key));
    CheckKeyExact(key);
  }

  /** A key under the prefix's directory is listed from its names, if its segments survive a text decoder. */
  lemma EntryKeyOf(prefix: Key, key: Key, normalise: Normalise)
    requires CheckPrefix(prefix) && DirPart(prefix) <= key && CheckKey(key)
    requires forall s :: s in Split(key) ==> normalise(s) == s
    ensures EntryKey(prefix, EntryOf(CaseSensitive, prefix, key), normalise) == Some(key)
  {
    var rest := key[|DirPart(prefix)|..];
    RestSurvives(prefix, key, normalise);
    EntryDecodes(Split(rest), normalise);
    assert EntryOf(CaseSensitive, prefix, key) == Names(CaseSensitive, Split(rest));
    JoinSplit(rest);
    assert DirPart(prefix) + rest == key;
  }

  lemma EntryShown(root: Path, entry: Path)
    requires !Hidden(root + entry)
    ensures !Hidden(entry)
  {
    forall i | 0 <= i < |entry|
      ensures !(entry[i] != [] && entry[i][0] == DOT)
    {
      assert (root + entry)[|root| + i] == entry[i];
    }
  }

  // ----- What a walk shows -----

  predicate SpelledAt(s: System, path: Path, name: Text) {
    path in s.spelled && s.spelled[path] == name
  }

  /** The node at each step of the way from `root` along `entry` is spelled as in `shown`. */
  ghost predicate SpelledAlong(s: System, root: Path, entry: Path, shown: Path) {
    |entry| == |shown| && forall i :: 0 <= i < |shown| ==> SpelledAt(s, root + entry[..i + 1], shown[i])
  }

  /** All nodes on the way to a visible key are spelled as the key's writer spells them. */
  lemma KeyNodes(volume: Volume, run: seq<Step>, key: Key, n: nat, path: Path, segment: Segment)
    requires Visible(After(volume, run), key).Some? && n < |PathOf(volume, key)|
    requires path == PathOf(volume, key)[..n + 1] && segment == Split(key)[n]
    ensures SpelledAt(After(volume, run), path, Encode(segment))
  {
    var s := After(volume, run);
    WayExists(volume, run, key, n, path);
    RunVolume(volume, run);
    RunSpelled(volume, run);
    NameAt(volume, Split(key), n);
    assert path[|path| - 1] == PathOf(volume, key)[n];
    SpelledAs(s, path, segment);
  }

  lemma WayExists(volume: Volume, run: seq<Step>, key: Key, n: nat, path: Path)
    requires Visible(After(volume, run), key).Some? && n < |PathOf(volume, key)| && path == PathOf(volume, key)[..n + 1]
    ensures path in After(volume, run).nodes && !Temporary(path)
  {
    var whole := PathOf(volume, key);
    RunValid(volume, run);
    RunVolume(volume, run);
    KeyPathsShown(volume, key);
    assert path[n] == whole[n];
    if n + 1 < |whole| {
      Ancestors(After(volume, run).nodes, whole, n + 1);
    } else {
      assert path == whole;
    }
  }

  lemma BelowSpelled(volume: Volume, run: seq<Step>, key: Key, root: Path, entry: Path, i: nat, segment: Segment)
    requires Visible(After(volume, run), key).Some? && PathOf(volume, key) == root + entry && i < |entry|
    requires segment == Split(key)[|root| + i]
    ensures SpelledAt(After(volume, run), root + entry[..i + 1], Encode(segment))
  {
    TakeConcat(root, entry, i + 1, |root| + i + 1);
    KeyNodes(volume, run, key, |root| + i, root + entry[..i + 1], segment);
  }

  /** The names shown are those spelled at each step of the way. */
  lemma {:induction false} ShownAll(s: System, root: Path, entry: Path, shown: Path, n: nat)
    requires n <= |entry| && SpelledAlong(s, root, entry, shown)
    ensures Shown(s, root, entry[..n]) == shown[..n]
  {
    if n > 0 {
      ShownAll(s, root, entry, shown, n - 1);
      assert entry[..n][..n - 1] == entry[..n - 1];
      assert SpelledAt(s, root + entry[..(n - 1) + 1], shown[n - 1]);
      assert shown[..n] == shown[..n - 1] + [shown[n - 1]];
    }
  }

  lemma ShownKey(volume: Volume, run: seq<Step>, prefix: Key, key: Key)
    requires CheckPrefix(prefix) && DirPart(prefix) <= key && Visible(After(volume, run), key).Some?
    ensures Shown(After(volume, run), WalkRoot(volume, prefix), EntryOf(volume, prefix, key)) == EntryOf(CaseSensitive, prefix, key)
  {
    var root, entry, shown := WalkRoot(volume, prefix), EntryOf(volume, prefix, key), EntryOf(CaseSensitive, prefix, key);
    KeySpelledAlong(volume, run, prefix, key);
    ShownAll(After(volume, run), root, entry, shown, |entry|);
    assert entry[..|entry|] == entry && shown[..|entry|] == shown;
  }

  lemma KeySpelledAlong(volume: Volume, run: seq<Step>, prefix: Key, key: Key)
    requires CheckPrefix(prefix) && DirPart(prefix) <= key && Visible(After(volume, run), key).Some?
    ensures SpelledAlong(After(volume, run), WalkRoot(volume, prefix), EntryOf(volume, prefix, key), EntryOf(CaseSensitive, prefix, key))
  {
    var above, below := Filled(Split(DirPart(prefix))), Split(key[|DirPart(prefix)|..]);
    PathBelow(volume, prefix, key);
    forall i | 0 <= i < |below|
      ensures SpelledAt(After(volume, run), WalkRoot(volume, prefix) + Names(volume, below)[..i + 1], Names(CaseSensitive, below)[i])
    {
      NameAt(CaseSensitive, below, i);
      BelowSpelled(volume, run, key, Names(volume, above), Names(volume, below), i, below[i]);
    }
  }

  /** A node shown under a name that can be decoded is no temporary. */
  lemma ShownDecoded(s: System, root: Path, entry: Path, normalise: Normalise)
    requires AllSpelled(s) && entry != [] && root + entry in s.nodes
    requires DecodeEntry(Shown(s, root, entry), normalise).Some?
    ensures !Temporary(root + entry)
  {
    var path, shown := root + entry, Shown(s, root, entry);
    var name := shown[|shown| - 1];
    assert name == s.spelled[path] && path[|path| - 1] == Filed(s.volume, name);
    DecodedLast(shown, normalise);
    assert name != [] && name[0] != DOT;
    assert s.volume == CaseInsensitive ==> Fold(name)[0] == FoldUnit(name[0]);
  }

  lemma {:induction false} DecodedLast(shown: Path, normalise: Normalise)
    requires shown != [] && DecodeNames(shown, normalise).Some?
    ensures WellFormed(shown[|shown| - 1])
  {
    if |shown| > 1 {
      assert shown[1..][|shown| - 2] == shown[|shown| - 1];
      DecodedLast(shown[1..], normalise);
    }
  }

  // ----- The walk is exact -----

  /** A key whose path leads through the walk's root lies under the prefix's directory. */
  lemma UnderDirectory(volume: Volume, prefix: Key, entry: Path, key: Key)
    requires CheckPrefix(prefix) && entry != [] && PathOf(volume, key) == WalkRoot(volume, prefix) + entry
    ensures DirPart(prefix) <= key && entry == EntryOf(volume, prefix, key)
  {
    var above := Filled(Split(DirPart(prefix)));
    SplitUnder(volume, Split(key), above, entry);
    BeginsWith(Split(key), above);
    JoinUnder(prefix, key, Split(key)[|above|..]);
    PathBelow(volume, prefix, key);
    ConcatCancels(WalkRoot(volume, prefix), entry, EntryOf(volume, prefix, key));
  }

  lemma JoinUnder(prefix: Key, key: Key, below: seq<Segment>)
    requires CheckPrefix(prefix) && Split(key) == Filled(Split(DirPart(prefix))) + below && below != []
    ensures DirPart(prefix) <= key
  {
    JoinBelow(prefix, below);
    JoinSplit(key);
  }

  lemma SplitUnder(volume: Volume, segments: seq<Segment>, above: seq<Segment>, entry: Path)
    requires Names(volume, segments) == Names(volume, above) + entry && entry != []
    ensures |above| < |segments| && forall i :: 0 <= i < |above| ==> segments[i] == above[i]
  {
    forall i | 0 <= i < |above|
      ensures segments[i] == above[i]
    {
      assert (Names(volume, above) + entry)[i] == Names(volume, above)[i];
      SegmentAt(volume, segments, above, i);
    }
  }

  /** A file stands only for a key that is visible, at the very path the walk found. */
  lemma WalkSound(volume: Volume, run: seq<Step>, prefix: Key, normalise: Normalise, entry: Path, key: Key)
    requires CheckPrefix(prefix) && Found(After(volume, run), prefix, normalise, entry, key)
    ensures PathOf(volume, key) == WalkRoot(volume, prefix) + entry
    ensures Visible(After(volume, run), key).Some? && DirPart(prefix) <= key
  {
    var s, root := After(volume, run), WalkRoot(volume, prefix);
    RunVolume(volume, run);
    RunSpelled(volume, run);
    ShownDecoded(s, root, entry, normalise);
    FileIsKey(volume, run, root + entry);
    var found :| PathOf(volume, found) == root + entry && Visible(s, found).Some?;
    UnderDirectory(volume, prefix, entry, found);
    ShownKey(volume, run, prefix, found);
    PathBelow(CaseSensitive, prefix, found);
    EntryKeyIs(prefix, Shown(s, root, entry), normalise, found);
  }

  /** Every visible key under the prefix's directory is found. */
  lemma WalkComplete(volume: Volume, run: seq<Step>, prefix: Key, normalise: Normalise, key: Key)
    requires CheckPrefix(prefix) && DirPart(prefix) <= key && Visible(After(volume, run), key).Some?
    requires Survives(key, normalise)
    ensures Found(After(volume, run), prefix, normalise, EntryOf(volume, prefix, key), key)
  {
    RunVolume(volume, run);
    PathBelow(volume, prefix, key);
    ShownKey(volume, run, prefix, key);
    EntryKeyOf(prefix, key, normalise);
  }

  /**
   * On case-sensitive and case-folding volumes alike, the walk below the prefix's directory lists a key whose
   * segments survive a text decoder exactly when it is visible and has the prefix; temporaries are never listed.
   */
  lemma {:induction false} WalkExact(volume: Volume, run: seq<Step>, prefix: Key, normalise: Normalise, key: Key)
    requires CheckPrefix(prefix) && Survives(key, normalise)
    ensures (exists entry :: Walked(After(volume, run), prefix, normalise, entry, key))
            <==> prefix <= key && Visible(After(volume, run), key).Some?
  {
    var s := After(volume, run);
    if prefix <= key && Visible(s, key).Some? {
      WalkComplete(volume, run, prefix, normalise, key);
      assert Walked(s, prefix, normalise, EntryOf(volume, prefix, key), key);
    }
    if entry :| Walked(s, prefix, normalise, entry, key) {
      WalkSound(volume, run, prefix, normalise, entry, key);
    }
  }

  /** No key is found at two entries. */
  lemma WalkOnce(volume: Volume, run: seq<Step>, prefix: Key, normalise: Normalise, a: Path, b: Path, key: Key)
    requires CheckPrefix(prefix)
    requires Found(After(volume, run), prefix, normalise, a, key)
    requires Found(After(volume, run), prefix, normalise, b, key)
    ensures a == b
  {
    WalkSound(volume, run, prefix, normalise, a, key);
    WalkSound(volume, run, prefix, normalise, b, key);
    ConcatCancels(WalkRoot(volume, prefix), a, b);
  }

  /** What a walk finds survives a text decoder, if the prefix's own directory does. */
  lemma FoundSurvives(volume: Volume, run: seq<Step>, prefix: Key, normalise: Normalise, entry: Path, key: Key)
    requires CheckPrefix(prefix) && Found(After(volume, run), prefix, normalise, entry, key)
    requires forall s :: s in Filled(Split(DirPart(prefix))) ==> normalise(s) == s
    ensures Survives(key, normalise)
  {
    var shown := Shown(After(volume, run), WalkRoot(After(volume, run).volume, prefix), entry);
    var above, segments := Filled(Split(DirPart(prefix))), DecodeNames(shown, normalise).value;
    WalkSound(volume, run, prefix, normalise, entry, key);
    DecodedSurvive(shown, normalise);
    PathBelow(CaseSensitive, prefix, key);
    ShownKey(volume, run, prefix, key);
    UnderDirectory(volume, prefix, entry, key);
    RunVolume(volume, run);
    DecodedNames(shown, normalise);
    NamesInjective(CaseSensitive, segments, Split(key[|DirPart(prefix)|..]));
  }

  lemma {:induction false} DecodedSurvive(shown: Path, normalise: Normalise)
    requires DecodeNames(shown, normalise).Some?
    ensures forall s :: s in DecodeNames(shown, normalise).value ==> normalise(s) == s
  {
    if shown != [] {
      DecodeSound(shown[0], normalise);
      DecodedSurvive(shown[1..], normalise);
    }
  }
}

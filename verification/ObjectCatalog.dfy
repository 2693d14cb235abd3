/**
 * Listing a live directory: the loop that turns the entries of a walk into a page of keys, and what following its
 * cursors yields while creates go on. Keys are bytes to the file system and texts to the caller.
 */
module ObjectCatalog {
  import opened Wrappers
  import opened Texts
  import opened Sequences
  import opened Bytes
  import opened SegmentCodec
  import opened ObjectKeys
  import opened CreateProtocol
  import opened CreateRuns
  import opened ObjectWalk
  import opened ObjectListing

  /** The text of a key. */
  type Spell = Key -> Text

  /** One entry of a recursive directory listing: the names shown and whether a file stands there. */
  datatype Entry = Entry(shown: Path, isFile: bool)

  /** The texts of the keys that the files among the entries stand for. */
  function KeysShown(entries: seq<Entry>, prefix: Key, normalise: Normalise, spell: Spell): seq<Text> {
    if entries == [] then []
    else KeyShown(entries[0], prefix, normalise, spell) + KeysShown(entries[1..], prefix, normalise, spell)
  }

  function KeyShown(entry: Entry, prefix: Key, normalise: Normalise, spell: Spell): seq<Text> {
    match EntryKey(prefix, entry.shown, normalise)
    case None => []
    case Some(key) => if entry.isFile then [spell(key)] else []
  }

  /** One turn of the listing loop: nothing, or the text of the key to push. */
  method KeyListed(entry: Entry, prefix: Key, normalise: Normalise, spell: Spell, floor: Option<Text>)
    returns (keys: seq<Text>)
    ensures keys == Matching(KeyShown(entry, prefix, normalise, spell), spell(prefix), floor)
  {
    var suffix := DecodeListed(entry.shown, normalise);
    if suffix.None? {
      return [];
    }
    var key := DirPart(prefix) + suffix.value;
    if !StartsWith(spell(key), spell(prefix)) || !Past(floor, spell(key)) {
      return [];
    }
    if !entry.isFile {
      return [];
    }
    keys := [spell(key)];
  }

  lemma MatchingStep(entries: seq<Entry>, i: nat, prefix: Key, normalise: Normalise, spell: Spell, floor: Option<Text>)
    requires i < |entries|
    ensures Matching(KeysShown(entries[i..], prefix, normalise, spell), spell(prefix), floor) ==
            Matching(KeyShown(entries[i], prefix, normalise, spell), spell(prefix), floor)
            + Matching(KeysShown(entries[i + 1..], prefix, normalise, spell), spell(prefix), floor)
  {
    assert entries[i..][0] == entries[i] && entries[i..][1..] == entries[i + 1..];
    MatchingConcat(KeyShown(entries[i], prefix, normalise, spell), KeysShown(entries[i + 1..], prefix, normalise, spell),
                   spell(prefix), floor);
  }

  method Gather(entries: seq<Entry>, prefix: Key, normalise: Normalise, spell: Spell, floor: Option<Text>)
    returns (keys: seq<Text>)
    ensures keys == Matching(KeysShown(entries, prefix, normalise, spell), spell(prefix), floor)
  {
    keys := [];
    for i := 0 to |entries|
      invariant keys + Matching(KeysShown(entries[i..], prefix, normalise, spell), spell(prefix), floor)
             == Matching(KeysShown(entries, prefix, normalise, spell), spell(prefix), floor)
    {
      MatchingStep(entries, i, prefix, normalise, spell, floor);
      var more := KeyListed(entries[i], prefix, normalise, spell, floor);
      ConcatAssociates(keys, more, Matching(KeysShown(entries[i + 1..], prefix, normalise, spell), spell(prefix), floor));
      keys := keys + more;
    }
    assert entries[|entries|..] == [];
  }

  method List(entries: seq<Entry>, prefix: Key, normalise: Normalise, spell: Spell, options: ListOptions, size: nat)
    returns (r: Result<Page, ListFailure>)
    requires size >= 1
    ensures r == if !CheckPrefix(prefix) then Err(BadPrefix)
                 else Listed(KeysShown(entries, prefix, normalise, spell), spell(prefix), options, size)
    ensures CheckPrefix(prefix) && Distinct(KeysShown(entries, prefix, normalise, spell)) ==>
              ListedAs(KeysShown(entries, prefix, normalise, spell), spell(prefix), options, size, r)
  {
    if !CheckPrefix(prefix) {
      return Err(BadPrefix);
    }
    if Distinct(KeysShown(entries, prefix, normalise, spell)) {
      ListedExactly(KeysShown(entries, prefix, normalise, spell), spell(prefix), options, size);
    }
    var floor := ResolveFloor(spell(prefix), options);
    if floor.Err? {
      return Err(floor.error);
    }
    var keys := Gather(entries, prefix, normalise, spell, floor.value);
    var page := TakePage(SortKeys(keys), spell(prefix), size);
    r := Ok(page);
  }

  lemma {:induction false} MatchingConcat(a: seq<Text>, b: seq<Text>, prefix: Text, floor: Option<Text>)
    ensures Matching(a + b, prefix, floor) == Matching(a, prefix, floor) + Matching(b, prefix, floor)
  {
    if a == [] {
      assert a + b == b;
    } else {
      var head := if Matches(a[0], prefix, floor) then [a[0]] else [];
      MatchingConcat(a[1..], b, prefix, floor);
      assert (a + b)[1..] == a[1..] + b && (a + b)[0] == a[0];
      ConcatAssociates(head, Matching(a[1..], prefix, floor), Matching(b, prefix, floor));
    }
  }

  // ----- Entries of a live directory -----

  /** The entries of a recursive listing of the walk's root: every node below it once, as the volume shows it. */
  ghost predicate Lists(s: System, prefix: Key, below: seq<Path>, entries: seq<Entry>) {
    var root := WalkRoot(s.volume, prefix);
    && |below| == |entries|
    && (forall i, j :: 0 <= i < j < |below| ==> below[i] != below[j])
    && (forall entry :: entry in below <==> entry != [] && root + entry in s.nodes)
    && (forall i :: 0 <= i < |below| ==> entries[i] == Entry(Shown(s, root, below[i]), IsFile(s.nodes, root + below[i])))
  }

  /** Texts tell surviving keys apart and respect the prefix, as decoded UTF-8 does. */
  ghost predicate Spells(spell: Spell, normalise: Normalise, prefix: Key) {
    && (forall s :: s in Filled(Split(DirPart(prefix))) ==> normalise(s) == s)
    && (forall a, b :: Survives(a, normalise) && Survives(b, normalise) && spell(a) == spell(b) ==> a == b)
    && (forall key :: Survives(key, normalise) ==> (prefix <= key <==> spell(prefix) <= spell(key)))
  }

  /** This text is that of a visible, surviving key under the prefix's directory. */
  ghost predicate Shows(s: System, prefix: Key, normalise: Normalise, spell: Spell, key: Key, text: Text) {
    Survives(key, normalise) && DirPart(prefix) <= key && Visible(s, key).Some? && text == spell(key)
  }

  ghost predicate IsShown(s: System, prefix: Key, normalise: Normalise, spell: Spell, text: Text) {
    exists key :: Shows(s, prefix, normalise, spell, key, text)
  }

  lemma {:induction false} ShownAt(entries: seq<Entry>, prefix: Key, normalise: Normalise, spell: Spell, text: Text)
    ensures text in KeysShown(entries, prefix, normalise, spell)
            <==> exists i :: 0 <= i < |entries| && text in KeyShown(entries[i], prefix, normalise, spell)
  {
    if entries != [] {
      ShownAt(entries[1..], prefix, normalise, spell, text);
      if i :| 0 <= i < |entries[1..]| && text in KeyShown(entries[1..][i], prefix, normalise, spell) {
        assert text in KeyShown(entries[i + 1], prefix, normalise, spell);
      }
      if i :| 0 < i < |entries| && text in KeyShown(entries[i], prefix, normalise, spell) {
        assert entries[1..][i - 1] == entries[i];
      }
    }
  }

  /** A listing of the directory shows exactly the texts of the visible keys below it. */
  lemma CatalogExact(volume: Volume, run: seq<Step>, prefix: Key, normalise: Normalise, spell: Spell,
                     below: seq<Path>, entries: seq<Entry>, text: Text)
    requires CheckPrefix(prefix) && Spells(spell, normalise, prefix) && Lists(After(volume, run), prefix, below, entries)
    ensures text in KeysShown(entries, prefix, normalise, spell)
            <==> IsShown(After(volume, run), prefix, normalise, spell, text)
  {
    ShownAt(entries, prefix, normalise, spell, text);
    if i :| 0 <= i < |entries| && text in KeyShown(entries[i], prefix, normalise, spell) {
      EntryIsShown(volume, run, prefix, normalise, spell, below, entries, i, text);
    }
    if key :| Survives(key, normalise) && Shows(After(volume, run), prefix, normalise, spell, key, text) {
      KeyHasEntry(volume, run, prefix, normalise, spell, below, entries, key);
    }
  }

  lemma EntryIsShown(volume: Volume, run: seq<Step>, prefix: Key, normalise: Normalise, spell: Spell,
                     below: seq<Path>, entries: seq<Entry>, i: nat, text: Text)
    requires CheckPrefix(prefix) && Spells(spell, normalise, prefix) && Lists(After(volume, run), prefix, below, entries)
    requires i < |entries| && text in KeyShown(entries[i], prefix, normalise, spell)
    ensures IsShown(After(volume, run), prefix, normalise, spell, text)
  {
    EntryShows(volume, run, prefix, normalise, spell, below, entries, i);
  }

  lemma KeyHasEntry(volume: Volume, run: seq<Step>, prefix: Key, normalise: Normalise, spell: Spell,
                    below: seq<Path>, entries: seq<Entry>, key: Key)
    requires CheckPrefix(prefix) && Lists(After(volume, run), prefix, below, entries)
    requires Shows(After(volume, run), prefix, normalise, spell, key, spell(key))
    ensures exists i :: 0 <= i < |entries| && spell(key) in KeyShown(entries[i], prefix, normalise, spell)
  {
    var entry := EntryOf(volume, prefix, key);
    WalkComplete(volume, run, prefix, normalise, key);
    RunVolume(volume, run);
    assert entry in below;
    var i :| 0 <= i < |below| && below[i] == entry;
    assert spell(key) in KeyShown(entries[i], prefix, normalise, spell);
  }

  /** A file listed for a key stands for that visible key. */
  lemma EntryShows(volume: Volume, run: seq<Step>, prefix: Key, normalise: Normalise, spell: Spell,
                   below: seq<Path>, entries: seq<Entry>, i: nat)
    requires CheckPrefix(prefix) && Spells(spell, normalise, prefix) && Lists(After(volume, run), prefix, below, entries)
    requires i < |entries| && KeyShown(entries[i], prefix, normalise, spell) != []
    ensures EntryKey(prefix, entries[i].shown, normalise).Some?
    ensures var key := EntryKey(prefix, entries[i].shown, normalise).value;
            && Found(After(volume, run), prefix, normalise, below[i], key)
            && KeyShown(entries[i], prefix, normalise, spell) == [spell(key)]
            && Shows(After(volume, run), prefix, normalise, spell, key, spell(key))
  {
    var key := EntryKey(prefix, entries[i].shown, normalise).value;
    assert below[i] in below;
    assert Found(After(volume, run), prefix, normalise, below[i], key);
    WalkSound(volume, run, prefix, normalise, below[i], key);
    FoundSurvives(volume, run, prefix, normalise, below[i], key);
  }

  /** No two entries show the same text. */
  ghost predicate EachOnce(entries: seq<Entry>, prefix: Key, normalise: Normalise, spell: Spell) {
    forall i, j :: 0 <= i < j < |entries| ==>
      KeyShown(entries[i], prefix, normalise, spell) == [] ||
      KeyShown(entries[i], prefix, normalise, spell) != KeyShown(entries[j], prefix, normalise, spell)
  }

  lemma ShownApart(entries: seq<Entry>, prefix: Key, normalise: Normalise, spell: Spell, i: nat)
    requires EachOnce(entries, prefix, normalise, spell) && 0 < i < |entries|
    requires KeyShown(entries[0], prefix, normalise, spell) != []
    ensures KeyShown(entries[0], prefix, normalise, spell)[0] !in KeyShown(entries[i], prefix, normalise, spell)
  {
    assert KeyShown(entries[0], prefix, normalise, spell) != KeyShown(entries[i], prefix, normalise, spell);
  }

  lemma {:induction false} OnceDistinct(entries: seq<Entry>, prefix: Key, normalise: Normalise, spell: Spell)
    requires EachOnce(entries, prefix, normalise, spell)
    ensures Distinct(KeysShown(entries, prefix, normalise, spell))
  {
    if entries != [] {
      var head, tail := KeyShown(entries[0], prefix, normalise, spell), KeysShown(entries[1..], prefix, normalise, spell);
      assert forall i :: 0 <= i < |entries[1..]| ==> entries[1..][i] == entries[i + 1];
      OnceDistinct(entries[1..], prefix, normalise, spell);
      if head != [] {
        ShownAt(entries[1..], prefix, normalise, spell, head[0]);
        forall i | 0 <= i < |entries[1..]|
          ensures head[0] !in KeyShown(entries[1..][i], prefix, normalise, spell)
        {
          ShownApart(entries, prefix, normalise, spell, i + 1);
        }
      }
    }
  }

  lemma CatalogDistinct(volume: Volume, run: seq<Step>, prefix: Key, normalise: Normalise, spell: Spell,
                        below: seq<Path>, entries: seq<Entry>)
    requires CheckPrefix(prefix) && Spells(spell, normalise, prefix) && Lists(After(volume, run), prefix, below, entries)
    ensures Distinct(KeysShown(entries, prefix, normalise, spell))
  {
    forall i, j | 0 <= i < j < |entries|
      ensures KeyShown(entries[i], prefix, normalise, spell) == [] ||
              KeyShown(entries[i], prefix, normalise, spell) != KeyShown(entries[j], prefix, normalise, spell)
    {
      if KeyShown(entries[i], prefix, normalise, spell) != []
         && KeyShown(entries[i], prefix, normalise, spell) == KeyShown(entries[j], prefix, normalise, spell) {
        EntryShows(volume, run, prefix, normalise, spell, below, entries, i);
        EntryShows(volume, run, prefix, normalise, spell, below, entries, j);
        var key := EntryKey(prefix, entries[i].shown, normalise).value;
        WalkOnce(volume, run, prefix, normalise, below[i], below[j], key);
      }
    }
    OnceDistinct(entries, prefix, normalise, spell);
  }

  // ----- Following cursors over a run -----

  /** One page's walk: the moment of the run it sees, and what it sees there. */
  datatype Look = Look(moment: nat, below: seq<Path>, entries: seq<Entry>)

  ghost predicate Looks(volume: Volume, run: seq<Step>, prefix: Key, looks: seq<Look>) {
    && (forall i :: 0 <= i < |looks| ==>
          looks[i].moment <= |run| && Lists(After(volume, run[..looks[i].moment]), prefix, looks[i].below, looks[i].entries))
    && (forall i, j :: 0 <= i <= j < |looks| ==> looks[i].moment <= looks[j].moment)
  }

  function Stores(looks: seq<Look>, prefix: Key, normalise: Normalise, spell: Spell): (stores: seq<seq<Text>>)
    ensures |stores| == |looks|
    ensures forall i :: 0 <= i < |looks| ==> stores[i] == KeysShown(looks[i].entries, prefix, normalise, spell)
  {
    if looks == [] then []
    else [KeysShown(looks[0].entries, prefix, normalise, spell)] + Stores(looks[1..], prefix, normalise, spell)
  }

  /** What one walk shows every later walk shows. */
  lemma ShowsLater(volume: Volume, run: seq<Step>, prefix: Key, normalise: Normalise, spell: Spell, early: Look, late: Look,
                   text: Text)
    requires CheckPrefix(prefix) && Spells(spell, normalise, prefix) && early.moment <= late.moment <= |run|
    requires Lists(After(volume, run[..early.moment]), prefix, early.below, early.entries)
    requires Lists(After(volume, run[..late.moment]), prefix, late.below, late.entries)
    requires text in KeysShown(early.entries, prefix, normalise, spell)
    ensures text in KeysShown(late.entries, prefix, normalise, spell)
  {
    CatalogExact(volume, run[..early.moment], prefix, normalise, spell, early.below, early.entries, text);
    CatalogExact(volume, run[..late.moment], prefix, normalise, spell, late.below, late.entries, text);
    assert run[..late.moment][..early.moment] == run[..early.moment];
    StaysShown(volume, run[..late.moment], early.moment, prefix, normalise, spell, text);
  }

  lemma StaysShown(volume: Volume, run: seq<Step>, i: nat, prefix: Key, normalise: Normalise, spell: Spell, text: Text)
    requires i <= |run| && IsShown(After(volume, run[..i]), prefix, normalise, spell, text)
    ensures IsShown(After(volume, run), prefix, normalise, spell, text)
  {
    var key :| Survives(key, normalise) && Shows(After(volume, run[..i]), prefix, normalise, spell, key, text);
    VisibleForever(volume, run, i, key);
    assert Shows(After(volume, run), prefix, normalise, spell, key, text);
  }

  lemma StoresGrow(volume: Volume, run: seq<Step>, prefix: Key, normalise: Normalise, spell: Spell, looks: seq<Look>)
    requires CheckPrefix(prefix) && Spells(spell, normalise, prefix) && Looks(volume, run, prefix, looks)
    ensures Growing(Stores(looks, prefix, normalise, spell))
  {
    var stores := Stores(looks, prefix, normalise, spell);
    forall i | 0 <= i < |stores|
      ensures Distinct(stores[i])
    {
      CatalogDistinct(volume, run[..looks[i].moment], prefix, normalise, spell, looks[i].below, looks[i].entries);
    }
    forall i, j, k | 0 <= i <= j < |stores| && k in stores[i]
      ensures k in stores[j]
    {
      ShowsLater(volume, run, prefix, normalise, spell, looks[i], looks[j], k);
    }
  }

  /** The keys collected so far are, in ascending order, keys visible in the run with the prefix past the floor. */
  ghost predicate Collected(volume: Volume, run: seq<Step>, prefix: Key, spell: Spell, floor: Option<Text>, keys: seq<Text>) {
    && Ascending(keys)
    && forall k :: k in keys ==>
         exists key :: prefix <= key && Visible(After(volume, run), key).Some? && k == spell(key) && Past(floor, k)
  }

  /** Every surviving key with the prefix past the floor that was visible then is among them. */
  ghost predicate NoneMissed(s: System, prefix: Key, normalise: Normalise, spell: Spell, floor: Option<Text>, keys: seq<Text>) {
    forall key :: Survives(key, normalise) && prefix <= key && Visible(s, key).Some? && Past(floor, spell(key)) ==>
      spell(key) in keys
  }

  /** A listed text is the text of a key with the prefix, visible at the end of the run. */
  lemma ListedVisible(volume: Volume, run: seq<Step>, prefix: Key, normalise: Normalise, spell: Spell, looks: seq<Look>,
                      i: nat, text: Text)
    requires CheckPrefix(prefix) && Spells(spell, normalise, prefix) && Looks(volume, run, prefix, looks)
    requires i < |looks| && text in KeysShown(looks[i].entries, prefix, normalise, spell) && spell(prefix) <= text
    ensures exists key :: prefix <= key && Visible(After(volume, run), key).Some? && text == spell(key)
  {
    var moment := looks[i].moment;
    CatalogExact(volume, run[..moment], prefix, normalise, spell, looks[i].below, looks[i].entries, text);
    var key :| Survives(key, normalise) && Shows(After(volume, run[..moment]), prefix, normalise, spell, key, text);
    VisibleForever(volume, run, moment, key);
  }

  /**
   * Following cursors from any prefix and bound, while creates go on between the pages and on either kind of volume,
   * yields texts of visible keys with the prefix in strictly ascending order; once the last page is reached, every
   * such key that was visible at the first page is among them, once.
   */
  lemma CatalogFollowed(volume: Volume, run: seq<Step>, prefix: Key, normalise: Normalise, spell: Spell,
                        looks: seq<Look>, options: ListOptions, size: nat)
    requires size >= 1 && CheckPrefix(prefix) && Spells(spell, normalise, prefix) && Looks(volume, run, prefix, looks)
    requires ResolveFloor(spell(prefix), options).Ok?
    ensures var floor := ResolveFloor(spell(prefix), options).value;
            var r := Follow(Stores(looks, prefix, normalise, spell), spell(prefix), options, size);
            && r.Ok? && Collected(volume, run, prefix, spell, floor, r.value.keys)
            && (r.value.done ==> looks != [])
            && (r.value.done ==> NoneMissed(After(volume, run[..looks[0].moment]), prefix, normalise, spell, floor, r.value.keys))
  {
    var stores := Stores(looks, prefix, normalise, spell);
    var floor := ResolveFloor(spell(prefix), options).value;
    StoresGrow(volume, run, prefix, normalise, spell, looks);
    FollowExact(stores, spell(prefix), options, size);
    var r := Follow(stores, spell(prefix), options, size).value;
    forall k | k in r.keys
      ensures exists key :: prefix <= key && Visible(After(volume, run), key).Some? && k == spell(key) && Past(floor, k)
    {
      var i :| 0 <= i < |stores| && k in stores[i];
      ListedVisible(volume, run, prefix, normalise, spell, looks, i, k);
    }
    if r.done {
      FirstLook(volume, run, prefix, normalise, spell, looks, floor, r.keys);
    }
  }

  lemma FirstLook(volume: Volume, run: seq<Step>, prefix: Key, normalise: Normalise, spell: Spell, looks: seq<Look>,
                  floor: Option<Text>, keys: seq<Text>)
    requires CheckPrefix(prefix) && Spells(spell, normalise, prefix) && Looks(volume, run, prefix, looks) && looks != []
    requires forall k :: k in KeysShown(looks[0].entries, prefix, normalise, spell) && Matches(k, spell(prefix), floor) ==> k in keys
    ensures NoneMissed(After(volume, run[..looks[0].moment]), prefix, normalise, spell, floor, keys)
  {
    var run0, look := run[..looks[0].moment], looks[0];
    forall key | Survives(key, normalise) && prefix <= key && Visible(After(volume, run0), key).Some? && Past(floor, spell(key))
      ensures spell(key) in keys
    {
      KeyAmong(volume, run0, prefix, normalise, spell, look.below, look.entries, key);
    }
  }

  lemma KeyAmong(volume: Volume, run: seq<Step>, prefix: Key, normalise: Normalise, spell: Spell, below: seq<Path>,
                 entries: seq<Entry>, key: Key)
    requires CheckPrefix(prefix) && Spells(spell, normalise, prefix) && Lists(After(volume, run), prefix, below, entries)
    requires Survives(key, normalise) && prefix <= key && Visible(After(volume, run), key).Some?
    ensures spell(key) in KeysShown(entries, prefix, normalise, spell) && spell(prefix) <= spell(key)
  {
    assert Shows(After(volume, run), prefix, normalise, spell, key, spell(key));
    CatalogExact(volume, run, prefix, normalise, spell, below, entries, spell(key));
  }
}

/** Paged, prefix-bounded listing in key order, and what following the cursors yields while keys are created. */
module ObjectListing {
  import opened Wrappers
  import opened Texts
  import opened Sequences
  import opened StableSort

  /** A listing cursor names the prefix it belongs to and the last key of its page. */
  datatype Cursor = Cursor(prefix: Text, lastKey: Text)

  datatype ListOptions = ListOptions(cursor: Option<Cursor>, startAfter: Option<Text>)

  datatype Page = Page(keys: seq<Text>, cursor: Option<Cursor>)

  datatype ListFailure = BadPrefix | ForeignCursor

  predicate StartsWith(key: Text, prefix: Text) {
    prefix <= key
  }

  /** The key after which a page starts: the later of the cursor's last key and `startAfter`. */
  function ResolveFloor(prefix: Text, options: ListOptions): Result<Option<Text>, ListFailure> {
    match options.cursor
    case None => Ok(options.startAfter)
    case Some(cursor) =>
      if cursor.prefix != prefix || !StartsWith(cursor.lastKey, prefix) then Err(ForeignCursor)
      else if options.startAfter.Some? && Before(cursor.lastKey, options.startAfter.value) then Ok(options.startAfter)
      else Ok(Some(cursor.lastKey))
  }

  predicate Past(floor: Option<Text>, key: Text) {
    floor.None? || Before(floor.value, key)
  }

  predicate Matches(key: Text, prefix: Text, floor: Option<Text>) {
    StartsWith(key, prefix) && Past(floor, key)
  }

  function Matching(stored: seq<Text>, prefix: Text, floor: Option<Text>): seq<Text> {
    if stored == [] then []
    else (if Matches(stored[0], prefix, floor) then [stored[0]] else []) + Matching(stored[1..], prefix, floor)
  }

  function SortKeys(keys: seq<Text>): seq<Text> {
    Sort(keys, NotAfter)
  }

  function PageOf(sorted: seq<Text>, prefix: Text, size: nat): Page
    requires size >= 1
  {
    if |sorted| > size then Page(sorted[..size], Some(Cursor(prefix, sorted[size - 1])))
    else Page(sorted, None)
  }

  method TakePage(sorted: seq<Text>, prefix: Text, size: nat) returns (page: Page)
    requires size >= 1
    ensures page == PageOf(sorted, prefix, size)
  {
    var keys := if |sorted| > size then sorted[..size] else sorted;
    page := if |sorted| > size then Page(keys, Some(Cursor(prefix, keys[|keys| - 1]))) else Page(keys, None);
  }

  /** What one `list` call returns for the keys stored when it walks the directory. */
  function Listed(stored: seq<Text>, prefix: Text, options: ListOptions, size: nat): Result<Page, ListFailure>
    requires size >= 1
  {
    match ResolveFloor(prefix, options)
    case Err(e) => Err(e)
    case Ok(floor) => Ok(PageOf(SortKeys(Matching(stored, prefix, floor)), prefix, size))
  }

  // ----- One page -----

  ghost predicate Distinct(keys: seq<Text>) {
    forall i, j :: 0 <= i < j < |keys| ==> keys[i] != keys[j]
  }

  ghost predicate Ascending(keys: seq<Text>) {
    forall i, j :: 0 <= i < j < |keys| ==> Before(keys[i], keys[j])
  }

  lemma {:induction false} MatchingKeys(stored: seq<Text>, prefix: Text, floor: Option<Text>)
    requires Distinct(stored)
    ensures Distinct(Matching(stored, prefix, floor))
    ensures forall k :: k in Matching(stored, prefix, floor) <==> k in stored && Matches(k, prefix, floor)
  {
    if stored != [] {
      assert forall i :: 0 <= i < |stored[1..]| ==> stored[1..][i] == stored[i + 1];
      MatchingKeys(stored[1..], prefix, floor);
      assert forall k :: k in stored <==> k == stored[0] || k in stored[1..];
    }
  }

  lemma KeyOrder()
    ensures TotalPreorder(NotAfter)
  {
    forall a: Text, b: Text
      ensures NotAfter(a, b) || NotAfter(b, a)
    {
      NotAfterTotal(a, b);
    }
    forall a: Text, b: Text, c: Text | NotAfter(a, b) && NotAfter(b, c)
      ensures NotAfter(a, c)
    {
      NotAfterTransitive(a, b, c);
    }
  }

  lemma SortedKeys(keys: seq<Text>)
    requires Distinct(keys)
    ensures Ascending(SortKeys(keys)) && |SortKeys(keys)| == |keys|
    ensures forall k :: k in SortKeys(keys) <==> k in keys
  {
    KeyOrder();
    SortSorted(keys, NotAfter);
    var sorted := SortKeys(keys);
    SameMembers(keys, sorted);
    var same := (a: Text, b: Text) => a == b;
    assert Apart(keys, same);
    PermutedApart(keys, sorted, same);
    forall i, j | 0 <= i < j < |sorted|
      ensures Before(sorted[i], sorted[j])
    {
      assert !same(sorted[i], sorted[j]);
      BeforeTotal(sorted[i], sorted[j]);
    }
  }

  /**
   * The page holds matching keys in order: all of them without a cursor, and with one a full page that
   * ends at the cursor's key and leaves out only later matches.
   */
  ghost predicate FirstMatches(stored: seq<Text>, prefix: Text, floor: Option<Text>, size: nat, page: Page) {
    && Ascending(page.keys) && |page.keys| <= size
    && (forall k :: k in page.keys ==> k in stored && Matches(k, prefix, floor))
    && (page.cursor.None? ==> forall k :: k in stored && Matches(k, prefix, floor) ==> k in page.keys)
    && (page.cursor.Some? ==>
          && |page.keys| == size >= 1 && page.cursor.value == Cursor(prefix, page.keys[size - 1])
          && forall k :: k in stored && Matches(k, prefix, floor) && k !in page.keys ==> Before(page.keys[size - 1], k))
  }

  /** One page holds, in order, the matching keys up to its last one. */
  lemma OnePage(stored: seq<Text>, prefix: Text, options: ListOptions, size: nat)
    requires size >= 1 && Distinct(stored) && ResolveFloor(prefix, options).Ok?
    ensures Listed(stored, prefix, options, size).Ok?
    ensures FirstMatches(stored, prefix, ResolveFloor(prefix, options).value, size, Listed(stored, prefix, options, size).value)
  {
    var floor := ResolveFloor(prefix, options).value;
    var matching := Matching(stored, prefix, floor);
    MatchingKeys(stored, prefix, floor);
    SortedKeys(matching);
    var sorted := SortKeys(matching);
    if |sorted| > size {
      var page := sorted[..size];
      forall k | k in sorted && k !in page
        ensures Before(page[size - 1], k)
      {
        assert sorted == page + sorted[size..];
        var i :| 0 <= i < |sorted[size..]| && sorted[size..][i] == k;
        assert Before(sorted[size - 1], sorted[size + i]);
      }
    }
  }

  /** A key with the prefix, after the start that was asked for and after the cursor's page. */
  ghost predicate InScope(prefix: Text, options: ListOptions, key: Text) {
    && prefix <= key
    && (options.startAfter.Some? ==> Before(options.startAfter.value, key))
    && (options.cursor.Some? ==> Before(options.cursor.value.lastKey, key))
  }

  /** The cursor of another prefix, or one whose key lacks the prefix. */
  ghost predicate Foreign(prefix: Text, options: ListOptions) {
    options.cursor.Some? && (options.cursor.value.prefix != prefix || !(prefix <= options.cursor.value.lastKey))
  }

  /** A cursor is refused exactly when it is foreign; else the keys past the floor with the prefix are those in scope. */
  lemma FloorExactly(prefix: Text, options: ListOptions)
    ensures if Foreign(prefix, options) then ResolveFloor(prefix, options) == Err(ForeignCursor)
            else
              && ResolveFloor(prefix, options).Ok?
              && forall key :: Matches(key, prefix, ResolveFloor(prefix, options).value) <==> InScope(prefix, options, key)
  {
    if !Foreign(prefix, options) {
      forall key
        ensures Matches(key, prefix, ResolveFloor(prefix, options).value) <==> InScope(prefix, options, key)
      {
        FloorKeys(prefix, options, key);
      }
    }
  }

  lemma FloorKeys(prefix: Text, options: ListOptions, key: Text)
    requires !Foreign(prefix, options)
    ensures ResolveFloor(prefix, options).Ok?
    ensures Matches(key, prefix, ResolveFloor(prefix, options).value) <==> InScope(prefix, options, key)
  {
    if options.cursor.Some? && options.startAfter.Some? {
      var last, start := options.cursor.value.lastKey, options.startAfter.value;
      if Before(last, start) {
        if Before(start, key) {
          BeforeTransitive(last, start, key);
        }
      } else {
        BeforeTotal(last, start);
        if Before(start, last) && Before(last, key) {
          BeforeTransitive(start, last, key);
        }
      }
    }
  }

  /**
   * What a caller is told: a foreign cursor is refused; otherwise a page of the first stored keys in scope, ascending,
   * and a cursor at its last key exactly when stored keys in scope are left out.
   */
  ghost predicate ListedAs(stored: seq<Text>, prefix: Text, options: ListOptions, size: nat, r: Result<Page, ListFailure>) {
    if Foreign(prefix, options) then r == Err(ForeignCursor)
    else
      r.Ok? &&
      var keys, cursor := r.value.keys, r.value.cursor;
      && |keys| <= size
      && (forall i, j :: 0 <= i < j < |keys| ==> Before(keys[i], keys[j]))
      && (forall k :: k in keys ==> k in stored && InScope(prefix, options, k))
      && (cursor.Some? <==> exists k :: k in stored && InScope(prefix, options, k) && k !in keys)
      && (cursor.Some? ==>
            && |keys| == size > 0 && cursor.value == Cursor(prefix, keys[size - 1])
            && forall k :: k in stored && InScope(prefix, options, k) && k !in keys ==> Before(keys[size - 1], k))
  }

  /** A page with a cursor leaves out a match. */
  lemma CursorLeavesOut(stored: seq<Text>, prefix: Text, floor: Option<Text>, size: nat)
    requires size >= 1 && Distinct(stored) && |Matching(stored, prefix, floor)| > size
    ensures |SortKeys(Matching(stored, prefix, floor))| > size
    ensures exists k :: k in stored && Matches(k, prefix, floor) && k !in SortKeys(Matching(stored, prefix, floor))[..size]
  {
    var sorted := SortKeys(Matching(stored, prefix, floor));
    MatchingKeys(stored, prefix, floor);
    SortedKeys(Matching(stored, prefix, floor));
    var k := sorted[size];
    if k in sorted[..size] {
      var i :| 0 <= i < size && sorted[i] == k;
      BeforeIrreflexive(k);
    }
    assert k in sorted;
  }

  lemma {:induction false} ListedExactly(stored: seq<Text>, prefix: Text, options: ListOptions, size: nat)
    requires size >= 1 && Distinct(stored)
    ensures ListedAs(stored, prefix, options, size, Listed(stored, prefix, options, size))
  {
    FloorExactly(prefix, options);
    if !Foreign(prefix, options) {
      var floor := ResolveFloor(prefix, options).value;
      OnePage(stored, prefix, options, size);
      MatchingKeys(stored, prefix, floor);
      SortedKeys(Matching(stored, prefix, floor));
      if Listed(stored, prefix, options, size).value.cursor.Some? {
        CursorLeavesOut(stored, prefix, floor, size);
      }
    }
  }

  // ----- Following the cursors -----

  datatype Followed = Followed(keys: seq<Text>, done: bool)

  /** The keys collected by following cursors, page after page, while the store changes between pages. */
  function Follow(stores: seq<seq<Text>>, prefix: Text, options: ListOptions, size: nat): Result<Followed, ListFailure>
    requires size >= 1
    decreases |stores|
  {
    if stores == [] then Ok(Followed([], false))
    else
      match Listed(stores[0], prefix, options, size)
      case Err(e) => Err(e)
      case Ok(page) =>
        if page.cursor.None? then Ok(Followed(page.keys, true))
        else
          match Follow(stores[1..], prefix, options.(cursor := page.cursor), size)
          case Err(e) => Err(e)
          case Ok(rest) => Ok(Followed(page.keys + rest.keys, rest.done))
  }

  /** Stores that only gain keys. */
  ghost predicate Growing(stores: seq<seq<Text>>) {
    && (forall i :: 0 <= i < |stores| ==> Distinct(stores[i]))
    && (forall i, j, k :: 0 <= i <= j < |stores| && k in stores[i] ==> k in stores[j])
  }

  ghost predicate Ever(stores: seq<seq<Text>>, key: Text) {
    exists i :: 0 <= i < |stores| && key in stores[i]
  }

  /** A page's cursor resumes right after the page. */
  lemma CursorResumes(prefix: Text, options: ListOptions, page: Page)
    requires ResolveFloor(prefix, options).Ok? && page.cursor.Some? && page.keys != []
    requires page.cursor.value == Cursor(prefix, page.keys[|page.keys| - 1])
    requires forall k :: k in page.keys ==> Matches(k, prefix, ResolveFloor(prefix, options).value)
    ensures ResolveFloor(prefix, options.(cursor := page.cursor)) == Ok(Some(page.keys[|page.keys| - 1]))
  {
    var last := page.keys[|page.keys| - 1];
    assert last in page.keys;
    var floor := ResolveFloor(prefix, options).value;
    if options.startAfter.Some? && Before(last, options.startAfter.value) {
      var start := options.startAfter.value;
      assert NotAfter(start, floor.value) by {
        NotAfterTotal(start, start);
        if options.cursor.Some? {
          NotAfterTotal(options.cursor.value.lastKey, start);
        }
      }
      BeforeTransitive(floor.value, last, start);
    }
  }

  lemma PageResumes(stored: seq<Text>, prefix: Text, options: ListOptions, size: nat, page: Page)
    requires ResolveFloor(prefix, options).Ok? && page.cursor.Some?
    requires FirstMatches(stored, prefix, ResolveFloor(prefix, options).value, size, page)
    ensures page.cursor.value.lastKey in page.keys
    ensures ResolveFloor(prefix, options.(cursor := page.cursor)) == Ok(Some(page.cursor.value.lastKey))
  {
    CursorResumes(prefix, options, page);
  }

  lemma AscendingJoin(page: seq<Text>, rest: seq<Text>)
    requires page != [] && Ascending(page) && Ascending(rest)
    requires forall k :: k in rest ==> Before(page[|page| - 1], k)
    ensures Ascending(page + rest)
  {
    var whole, last := page + rest, page[|page| - 1];
    forall i, j | 0 <= i < j < |whole|
      ensures Before(whole[i], whole[j])
    {
      if i < |page| <= j {
        assert whole[j] in rest;
        if i < |page| - 1 {
          BeforeTransitive(whole[i], last, whole[j]);
        }
      }
    }
  }

  lemma FloorLater(prefix: Text, floor: Option<Text>, last: Text, key: Text)
    requires Matches(last, prefix, floor) && Matches(key, prefix, Some(last))
    ensures Matches(key, prefix, floor)
  {
    if floor.Some? {
      BeforeTransitive(floor.value, last, key);
    }
  }

  /** Matching keys only, strictly ascending; once done, every match present at the first page among them. */
  ghost predicate Complete(stores: seq<seq<Text>>, prefix: Text, floor: Option<Text>, followed: Followed) {
    && Ascending(followed.keys)
    && (forall k :: k in followed.keys ==> Ever(stores, k) && Matches(k, prefix, floor))
    && (followed.done ==>
          stores != [] && forall k :: k in stores[0] && Matches(k, prefix, floor) ==> k in followed.keys)
  }

  /** A page, and what following its cursor gives after it. */
  lemma PageThen(stores: seq<seq<Text>>, prefix: Text, floor: Option<Text>, size: nat, first: Page, rest: Followed)
    requires stores != [] && Growing(stores)
    requires FirstMatches(stores[0], prefix, floor, size, first) && first.cursor.Some?
    requires Complete(stores[1..], prefix, Some(first.cursor.value.lastKey), rest)
    ensures Complete(stores, prefix, floor, Followed(first.keys + rest.keys, rest.done))
  {
    var page, last, tail := first.keys, first.cursor.value.lastKey, stores[1..];
    assert last in page;
    AscendingJoin(page, rest.keys);
    forall k | k in page + rest.keys
      ensures Ever(stores, k) && Matches(k, prefix, floor)
    {
      if k in rest.keys {
        FloorLater(prefix, floor, last, k);
        var i :| 0 <= i < |tail| && k in tail[i];
        assert k in stores[i + 1];
      }
    }
    if rest.done {
      forall k | k in stores[0] && Matches(k, prefix, floor)
        ensures k in page + rest.keys
      {
        if k !in page {
          assert k in stores[1] && Matches(k, prefix, Some(last));
        }
      }
    }
  }

  lemma LastPage(stores: seq<seq<Text>>, prefix: Text, floor: Option<Text>, size: nat, page: Page)
    requires stores != [] && FirstMatches(stores[0], prefix, floor, size, page) && page.cursor.None?
    ensures Complete(stores, prefix, floor, Followed(page.keys, true))
  {
  }

  /**
   * Following cursors from any prefix and bound yields matching keys in strictly ascending order, so none
   * twice; once the last page is reached, every matching key present at the first page is among them.
   */
  lemma {:induction false} FollowExact(stores: seq<seq<Text>>, prefix: Text, options: ListOptions, size: nat)
    requires size >= 1 && Growing(stores) && ResolveFloor(prefix, options).Ok?
    ensures var r := Follow(stores, prefix, options, size);
            r.Ok? && Complete(stores, prefix, ResolveFloor(prefix, options).value, r.value)
    decreases |stores|
  {
    if stores != [] {
      var floor := ResolveFloor(prefix, options).value;
      OnePage(stores[0], prefix, options, size);
      var page := Listed(stores[0], prefix, options, size).value;
      if page.cursor.Some? {
        var next := options.(cursor := page.cursor);
        PageResumes(stores[0], prefix, options, size, page);
        GrowingTail(stores);
        FollowExact(stores[1..], prefix, next, size);
        PageThen(stores, prefix, floor, size, page, Follow(stores[1..], prefix, next, size).value);
      } else {
        LastPage(stores, prefix, floor, size, page);
      }
    }
  }

  lemma GrowingTail(stores: seq<seq<Text>>)
    requires Growing(stores) && stores != []
    ensures Growing(stores[1..])
  {
    assert forall i :: 0 <= i < |stores[1..]| ==> stores[1..][i] == stores[i + 1];
  }

  function Repeat(stored: seq<Text>, n: nat): (stores: seq<seq<Text>>)
    ensures |stores| == n && forall i :: 0 <= i < n ==> stores[i] == stored
  {
    if n == 0 then [] else [stored] + Repeat(stored, n - 1)
  }

  /** Raising the bound to a page's last key drops at least that page's keys from the matches. */
  lemma FewerMatch(stored: seq<Text>, prefix: Text, floor: Option<Text>, last: Text)
    requires Distinct(stored) && last in stored && Matches(last, prefix, floor)
    ensures |Matching(stored, prefix, Some(last))| < |Matching(stored, prefix, floor)|
  {
    MatchingKeys(stored, prefix, floor);
    BeforeIrreflexive(last);
    forall k | Matches(k, prefix, Some(last)) {
      FloorLater(prefix, floor, last, k);
    }
    FilterSmaller(stored, prefix, floor, last);
  }

  lemma {:induction false} FilterSmaller(stored: seq<Text>, prefix: Text, floor: Option<Text>, last: Text)
    requires forall k :: Matches(k, prefix, Some(last)) ==> Matches(k, prefix, floor)
    requires Matches(last, prefix, floor) && !Matches(last, prefix, Some(last))
    ensures |Matching(stored, prefix, Some(last))| <= |Matching(stored, prefix, floor)|
    ensures last in stored ==> |Matching(stored, prefix, Some(last))| < |Matching(stored, prefix, floor)|
  {
    if stored != [] {
      FilterSmaller(stored[1..], prefix, floor, last);
    }
  }

  /** On a store that stands still, following cursors ends: one page more than there are matching keys is enough. */
  lemma {:induction false} FollowEnds(stored: seq<Text>, prefix: Text, options: ListOptions, size: nat, n: nat)
    requires size >= 1 && Distinct(stored) && ResolveFloor(prefix, options).Ok?
    requires n > |Matching(stored, prefix, ResolveFloor(prefix, options).value)|
    ensures var r := Follow(Repeat(stored, n), prefix, options, size);
            && r.Ok? && r.value.done
            && r.value.keys == SortKeys(Matching(stored, prefix, ResolveFloor(prefix, options).value))
    decreases n
  {
    var floor := ResolveFloor(prefix, options).value;
    StillDone(stored, prefix, options, floor, size, n);
    var keys := Follow(Repeat(stored, n), prefix, options, size).value.keys;
    FollowExact(Repeat(stored, n), prefix, options, size);
    MatchingKeys(stored, prefix, floor);
    SortedKeys(Matching(stored, prefix, floor));
    assert Repeat(stored, n)[0] == stored;
    AscendingUnique(keys, SortKeys(Matching(stored, prefix, floor)));
  }

  lemma {:induction false} StillDone(stored: seq<Text>, prefix: Text, options: ListOptions, floor: Option<Text>, size: nat, n: nat)
    requires size >= 1 && Distinct(stored) && ResolveFloor(prefix, options) == Ok(floor)
    requires n > |Matching(stored, prefix, floor)|
    ensures var r := Follow(Repeat(stored, n), prefix, options, size);
            r.Ok? && r.value.done
    decreases n
  {
    StillFewer(stored, prefix, options, floor, size);
    RepeatCons(stored, n);
    var page := Listed(stored, prefix, options, size).value;
    if page.cursor.Some? {
      StillDone(stored, prefix, options.(cursor := page.cursor), Some(page.cursor.value.lastKey), size, n - 1);
    }
    FollowStep(Repeat(stored, n), prefix, options, size, page);
  }

  /** After a page that is not the last, fewer keys match. */
  lemma StillFewer(stored: seq<Text>, prefix: Text, options: ListOptions, floor: Option<Text>, size: nat)
    requires size >= 1 && Distinct(stored) && ResolveFloor(prefix, options) == Ok(floor)
    ensures Listed(stored, prefix, options, size).Ok?
    ensures var cursor := Listed(stored, prefix, options, size).value.cursor;
            cursor.Some? ==> && ResolveFloor(prefix, options.(cursor := cursor)) == Ok(Some(cursor.value.lastKey))
                             && |Matching(stored, prefix, Some(cursor.value.lastKey))| < |Matching(stored, prefix, floor)|
  {
    OnePage(stored, prefix, options, size);
    var page := Listed(stored, prefix, options, size).value;
    if page.cursor.Some? {
      PageResumes(stored, prefix, options, size, page);
      FewerMatch(stored, prefix, floor, page.cursor.value.lastKey);
    }
  }

  lemma RepeatCons(stored: seq<Text>, n: nat)
    requires n > 0
    ensures Repeat(stored, n)[0] == stored && Repeat(stored, n)[1..] == Repeat(stored, n - 1)
  {
  }

  lemma FollowStep(stores: seq<seq<Text>>, prefix: Text, options: ListOptions, size: nat, page: Page)
    requires size >= 1 && stores != [] && Listed(stores[0], prefix, options, size) == Ok(page)
    ensures var r := Follow(stores, prefix, options, size);
            if page.cursor.None? then r == Ok(Followed(page.keys, true))
            else var rest := Follow(stores[1..], prefix, options.(cursor := page.cursor), size);
                 rest.Ok? ==> r == Ok(Followed(page.keys + rest.value.keys, rest.value.done))
  {
  }

  lemma {:induction false} AscendingUnique(a: seq<Text>, b: seq<Text>)
    requires Ascending(a) && Ascending(b) && forall k :: k in a <==> k in b
    ensures a == b
  {
    KeyOrder();
    forall x
      ensures Ties(a, x, NotAfter) == Ties(b, x, NotAfter)
    {
      AscendingTies(a, x);
      AscendingTies(b, x);
    }
    AscendingSorted(a);
    AscendingSorted(b);
    SortedUnique(a, b, NotAfter);
  }

  lemma AscendingSorted(a: seq<Text>)
    requires Ascending(a)
    ensures Sorted(a, NotAfter)
  {
    forall i, j | 0 <= i < j < |a|
      ensures NotAfter(a[i], a[j])
    {
      BeforeNotAfter(a[i], a[j]);
    }
  }

  lemma {:induction false} AscendingTies(a: seq<Text>, x: Text)
    requires Ascending(a)
    ensures Ties(a, x, NotAfter) == if x in a then [x] else []
  {
    if a != [] {
      NotAfterTotal(a[0], x);
      NotAfterTotal(x, a[0]);
      assert forall i :: 0 <= i < |a[1..]| ==> a[1..][i] == a[i + 1];
      AscendingTies(a[1..], x);
      if a[0] == x && x in a[1..] {
        BeforeIrreflexive(x);
      }
    }
  }
}

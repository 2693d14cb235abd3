/** Object keys, the paths they are stored under, and the paths a listing turns back into keys. */
module ObjectKeys {
  import opened Wrappers
  import opened Texts
  import opened Bytes
  import opened SegmentCodec

  /** The UTF-8 bytes of a key's text. */
  type Key = seq<Byte>

  /** File names from the transport's root downwards. */
  type Path = seq<Text>

  /** The segments between slashes. */
  function Split(key: Key): (segments: seq<Segment>)
    ensures segments != []
  {
    if key == [] then [[]]
    else
      var rest := Split(key[1..]);
      if key[0] == SLASH then [[]] + rest else [[key[0]] + rest[0]] + rest[1..]
  }

  function Join(segments: seq<Segment>): Key {
    if segments == [] then []
    else if |segments| == 1 then segments[0]
    else segments[0] + [SLASH] + Join(segments[1..])
  }

  /** One or two dots standing between slashes or the ends of the key. */
  predicate DotRun(key: Key, i: nat, n: nat) {
    && 1 <= n <= 2 && i + n <= |key|
    && key[i] == DOT && key[i + n - 1] == DOT
    && (i == 0 || key[i - 1] == SLASH)
    && (i + n == |key| || key[i + n] == SLASH)
  }

  /** The key check, as conditions on the key's text. */
  predicate CheckKey(key: Key) {
    && key != [] && key[0] != SLASH && key[|key| - 1] != SLASH
    && (forall i :: 0 < i < |key| && key[i] == SLASH ==> key[i - 1] != SLASH)
    && (forall i, n | 0 <= i < |key| && 1 <= n <= 2 :: !DotRun(key, i, n))
  }

  predicate GoodSegment(segment: Segment) {
    segment != [] && !DotOnly(segment)
  }

  lemma {:induction false} SplitHead(key: Key, i: nat)
    requires i <= |key| && SLASH !in key[..i] && (i == |key| || key[i] == SLASH)
    ensures Split(key) == if i == |key| then [key] else [key[..i]] + Split(key[i + 1..])
  {
    if i == 0 {
    } else {
      assert key[1..][..i - 1] == key[..i][1..];
      SplitHead(key[1..], i - 1);
      assert key[..i] == [key[0]] + key[1..][..i - 1];
      assert i == |key| ==> key == [key[0]] + key[1..];
    }
  }

  function FirstSlash(key: Key): (i: nat)
    ensures i <= |key| && SLASH !in key[..i] && (i < |key| ==> key[i] == SLASH)
  {
    if key == [] || key[0] == SLASH then 0
    else
      var i := FirstSlash(key[1..]);
      assert key[..i + 1] == [key[0]] + key[1..][..i];
      i + 1
  }

  /** A key without its first segment is checked alike. */
  lemma CheckTail(key: Key, i: nat)
    requires 0 < i < |key| - 1 && SLASH !in key[..i] && key[i] == SLASH && key[i + 1] != SLASH
    requires !DotOnly(key[..i])
    ensures CheckKey(key) <==> CheckKey(key[i + 1..])
  {
    var tail := key[i + 1..];
    assert forall k :: 0 <= k < |tail| ==> tail[k] == key[i + 1 + k];
    assert forall k :: 0 <= k < i ==> key[k] == key[..i][k];
    forall k, n | 0 <= k < |tail| && 1 <= n <= 2
      ensures DotRun(tail, k, n) <==> DotRun(key, i + 1 + k, n)
    {
    }
    if CheckKey(key) {
      forall k | 0 < k < |tail| && tail[k] == SLASH
        ensures tail[k - 1] != SLASH
      {
        assert key[i + 1 + k] == SLASH;
      }
    }
    if CheckKey(tail) {
      forall k, n | 0 <= k < |key| && 1 <= n <= 2
        ensures !DotRun(key, k, n)
      {
        if k > i {
          assert !DotRun(tail, k - i - 1, n);
        } else if k == 0 && n == i {
          assert n == 1 ==> key[..i] == [key[0]];
          assert n == 2 ==> key[..i] == [key[0], key[1]];
        }
      }
      forall k | 0 < k < |key| && key[k] == SLASH
        ensures key[k - 1] != SLASH
      {
        if k > i + 1 {
          assert tail[k - i - 1] == SLASH;
        }
      }
    }
  }

  lemma CheckOne(key: Key)
    requires SLASH !in key
    ensures CheckKey(key) <==> GoodSegment(key)
  {
    if key == [DOT] {
      assert DotRun(key, 0, 1);
    } else if key == [DOT, DOT] {
      assert DotRun(key, 0, 2);
    }
  }

  lemma DotHead(key: Key, i: nat)
    requires i < |key| && key[i] == SLASH && DotOnly(key[..i])
    ensures !CheckKey(key)
  {
    assert key[0] == key[..i][0] && key[i - 1] == key[..i][i - 1];
    assert DotRun(key, 0, i);
  }

  /** The check admits exactly the keys whose segments are all nonempty and not dot-only. */
  lemma {:induction false} CheckKeyExact(key: Key)
    ensures CheckKey(key) <==> forall s :: s in Split(key) ==> GoodSegment(s)
  {
    var i := FirstSlash(key);
    SplitHead(key, i);
    if i == |key| {
      assert key[..i] == key;
      CheckOne(key);
    } else {
      var tail := key[i + 1..];
      CheckKeyExact(tail);
      assert Split(key) == [key[..i]] + Split(tail);
      assert key[..i] in Split(key);
      assert forall s :: s in Split(key) <==> s == key[..i] || s in Split(tail);
      if i == 0 {
      } else if DotOnly(key[..i]) {
        DotHead(key, i);
      } else if tail == [] {
        assert [] in Split(tail);
      } else if tail[0] == SLASH {
        assert Split(tail)[0] == [];
        assert key[i + 1] == SLASH;
      } else {
        CheckTail(key, i);
      }
    }
  }

  lemma {:induction false} JoinSplit(key: Key)
    ensures Join(Split(key)) == key
    ensures forall s :: s in Split(key) ==> SLASH !in s
  {
    if key != [] {
      JoinSplit(key[1..]);
      var rest := Split(key[1..]);
      assert key == [key[0]] + key[1..];
      if key[0] == SLASH {
        assert ([[]] + rest)[1..] == rest;
      } else {
        assert rest[0] in rest;
        assert ([[key[0]] + rest[0]] + rest[1..])[1..] == rest[1..];
        if |rest| > 1 {
          assert [key[0]] + (rest[0] + [SLASH] + Join(rest[1..])) == ([key[0]] + rest[0]) + [SLASH] + Join(rest[1..]);
        }
      }
    }
  }

  // ----- Paths -----

  datatype Volume = CaseSensitive | CaseInsensitive

  /** The name under which a volume files a given name. */
  function Filed(volume: Volume, name: Text): Text {
    if volume == CaseSensitive then name else Fold(name)
  }

  function Names(volume: Volume, segments: seq<Segment>): (path: Path)
    ensures |path| == |segments|
  {
    if segments == [] then [] else [Filed(volume, Encode(segments[0]))] + Names(volume, segments[1..])
  }

  lemma {:induction false} NameAt(volume: Volume, segments: seq<Segment>, i: nat)
    requires i < |segments|
    ensures Names(volume, segments)[i] == Filed(volume, Encode(segments[i]))
  {
    if i > 0 {
      NameAt(volume, segments[1..], i - 1);
    }
  }

  function PathOf(volume: Volume, key: Key): (path: Path)
    ensures path != []
  {
    Names(volume, Split(key))
  }

  lemma FiledInjective(volume: Volume, a: Segment, b: Segment)
    requires Filed(volume, Encode(a)) == Filed(volume, Encode(b))
    ensures a == b
  {
    FoldInjective(a, b);
  }

  /** Distinct keys never share a path, whether or not the volume tells case apart. */
  lemma PathInjective(volume: Volume, a: Key, b: Key)
    requires PathOf(volume, a) == PathOf(volume, b)
    ensures a == b
  {
    NamesInjective(volume, Split(a), Split(b));
    JoinSplit(a);
    JoinSplit(b);
  }

  /** A path one of whose names starts with a dot: a temporary, never an object. */
  predicate Hidden(path: Path) {
    exists i :: 0 <= i < |path| && path[i] != [] && path[i][0] == DOT
  }

  lemma FiledShown(volume: Volume, segment: Segment)
    requires GoodSegment(segment)
    ensures var name := Filed(volume, Encode(segment)); name != [] && name[0] != DOT
  {
    EncodeWellFormed(segment);
    assert Fold(Encode(segment))[0] == FoldUnit(Encode(segment)[0]);
  }

  lemma KeyPathsShown(volume: Volume, key: Key)
    requires CheckKey(key)
    ensures !Hidden(PathOf(volume, key))
  {
    CheckKeyExact(key);
    var segments, path := Split(key), PathOf(volume, key);
    forall i | 0 <= i < |path|
      ensures path[i] != [] && path[i][0] != DOT
    {
      assert segments[i] in segments;
      NameAt(volume, segments, i);
      FiledShown(volume, segments[i]);
    }
  }

  /** The key a listed entry stands for, if it stands for one. */
  function DecodeNames(path: Path, normalise: Normalise): Option<seq<Segment>> {
    if path == [] then Some([])
    else
      match Decode(path[0], normalise)
      case None => None
      case Some(segment) =>
        match DecodeNames(path[1..], normalise)
        case None => None
        case Some(rest) => Some([segment] + rest)
  }

  function DecodeEntry(path: Path, normalise: Normalise): Option<Key> {
    if Hidden(path) then None
    else
      match DecodeNames(path, normalise)
      case None => None
      case Some(segments) => Some(Join(segments))
  }

  method DecodeListed(path: Path, normalise: Normalise) returns (key: Option<Key>)
    ensures key == DecodeEntry(path, normalise)
  {
    if exists i :: 0 <= i < |path| && path[i] != [] && path[i][0] == DOT {
      return None;
    }
    var decoded: seq<Segment> := [];
    assert path[0..] == path;
    PrependNone(DecodeNames(path, normalise));
    for i := 0 to |path|
      invariant DecodeNames(path, normalise) == PrependAll(decoded, DecodeNames(path[i..], normalise))
    {
      assert path[i..][0] == path[i] && path[i..][1..] == path[i + 1..];
      var segment := DecodeSegment(path[i], normalise);
      if segment.None? {
        return None;
      }
      PrependOne(decoded, segment.value, DecodeNames(path[i + 1..], normalise));
      decoded := decoded + [segment.value];
    }
    assert path[|path|..] == [] && decoded + [] == decoded;
    key := Some(Join(decoded));
  }

  ghost function PrependAll(front: seq<Segment>, rest: Option<seq<Segment>>): Option<seq<Segment>> {
    match rest
    case None => None
    case Some(segments) => Some(front + segments)
  }

  lemma PrependNone(rest: Option<seq<Segment>>)
    ensures PrependAll([], rest) == rest
  {
    if rest.Some? {
      assert [] + rest.value == rest.value;
    }
  }

  lemma PrependOne(front: seq<Segment>, segment: Segment, rest: Option<seq<Segment>>)
    ensures PrependAll(front, PrependAll([segment], rest)) == PrependAll(front + [segment], rest)
  {
    if rest.Some? {
      assert front + ([segment] + rest.value) == front + [segment] + rest.value;
    }
  }

  lemma {:induction false} DecodeNamesCons(name: Text, rest: Path, segment: Segment, segments: seq<Segment>, normalise: Normalise)
    requires Decode(name, normalise) == Some(segment) && DecodeNames(rest, normalise) == Some(segments)
    ensures DecodeNames([name] + rest, normalise) == Some([segment] + segments)
  {
    assert ([name] + rest)[1..] == rest;
  }

  lemma {:induction false} NamesDecode(segments: seq<Segment>, normalise: Normalise)
    requires forall s :: s in segments ==> GoodSegment(s) && normalise(s) == s
    ensures DecodeNames(Names(CaseSensitive, segments), normalise) == Some(segments)
  {
    if segments != [] {
      var first, rest := segments[0], segments[1..];
      assert first in segments;
      RoundTrip(first, normalise);
      NamesDecode(rest, normalise);
      DecodeNamesCons(Encode(first), Names(CaseSensitive, rest), first, rest, normalise);
      assert segments == [first] + rest;
    }
  }

  lemma {:induction false} DecodedNames(path: Path, normalise: Normalise)
    requires DecodeNames(path, normalise).Some?
    ensures Names(CaseSensitive, DecodeNames(path, normalise).value) == path
  {
    if path != [] {
      DecodeSound(path[0], normalise);
      DecodedNames(path[1..], normalise);
      var segments := DecodeNames(path, normalise).value;
      assert segments[1..] == DecodeNames(path[1..], normalise).value;
    }
  }

  /** One name fixes one segment. */
  lemma SegmentAt(volume: Volume, a: seq<Segment>, b: seq<Segment>, i: nat)
    requires i < |a| && i < |b| && Names(volume, a)[i] == Names(volume, b)[i]
    ensures a[i] == b[i]
  {
    NameAt(volume, a, i);
    NameAt(volume, b, i);
    FiledInjective(volume, a[i], b[i]);
  }

  lemma NamesInjective(volume: Volume, a: seq<Segment>, b: seq<Segment>)
    requires Names(volume, a) == Names(volume, b)
    ensures a == b
  {
    assert |a| == |Names(volume, a)| == |b|;
    forall i | 0 <= i < |a|
      ensures a[i] == b[i]
    {
      SegmentAt(volume, a, b, i);
    }
  }
}

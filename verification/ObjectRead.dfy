/** Bounded reads of stored objects: whole or by range, collected from chunks of whatever size the file gives. */
module ObjectRead {
  import opened Wrappers
  import opened Bytes
  import opened ObjectKeys
  import opened CreateProtocol
  import opened CreateRuns

  datatype Range = Range(offset: int, length: int)

  datatype ReadOptions = ReadOptions(maxBytes: int, range: Option<Range>)

  datatype ReadFailure = Unacceptable | OverBudget

  datatype ReadResult = Found(bytes: seq<Byte>) | Absent | Refused(why: ReadFailure)

  const MAX_SAFE := 0x1F_FFFF_FFFF_FFFF

  predicate Safe(n: int) {
    -MAX_SAFE <= n <= MAX_SAFE
  }

  predicate GoodOptions(options: ReadOptions) {
    && Safe(options.maxBytes) && options.maxBytes > 0
    && (options.range.Some? ==>
          var range := options.range.value;
          && Safe(range.offset) && range.offset >= 0
          && Safe(range.length) && 0 < range.length <= options.maxBytes
          && Safe(range.offset + range.length))
  }

  /** What a read of an addressable key returns for the bytes stored under it. */
  function ReadOf(stored: Option<seq<Byte>>, options: ReadOptions): ReadResult {
    if !GoodOptions(options) then Refused(Unacceptable)
    else
      match stored
      case None => Absent
      case Some(bytes) =>
        if !Safe(|bytes|) then Refused(Unacceptable)
        else
          match options.range
          case None => if |bytes| > options.maxBytes then Refused(OverBudget) else Found(bytes)
          case Some(range) =>
            if range.offset >= |bytes| then Refused(Unacceptable)
            else Found(bytes[range.offset..Min(range.offset + range.length, |bytes|)])
  }

  // ----- Reading chunk by chunk -----

  /** An open file and its read position. */
  class OpenFile {
    const contents: seq<Byte>
    var position: nat

    constructor (contents: seq<Byte>)
      ensures this.contents == contents && position == 0
    {
      this.contents := contents;
      position := 0;
    }

    /** Some of the next bytes, at most `count`; nothing at the end of the file. */
    method ReadAlloc(count: nat) returns (chunk: Option<seq<Byte>>)
      requires count > 0 && position <= |contents|
      modifies this`position
      ensures old(position) <= position <= |contents|
      ensures chunk.None? <==> old(position) == |contents|
      ensures chunk.Some? ==> 0 < |chunk.value| <= count
      ensures contents[old(position)..position] == chunk.GetOr([])
    {
      if position == |contents| {
        return None;
      }
      var some :| 1 <= some <= count && position + some <= |contents|;
      chunk := Some(contents[position..position + some]);
      position := position + some;
    }
  }

  function Joined(chunks: seq<seq<Byte>>): seq<Byte> {
    if chunks == [] then [] else Joined(chunks[..|chunks| - 1]) + chunks[|chunks| - 1]
  }

  lemma JoinedMore(chunks: seq<seq<Byte>>, chunk: seq<Byte>)
    ensures Joined(chunks + [chunk]) == Joined(chunks) + chunk
  {
    assert (chunks + [chunk])[..|chunks|] == chunks;
  }

  lemma {:induction false} JoinedSplit(chunks: seq<seq<Byte>>, i: nat)
    requires i <= |chunks|
    ensures |Joined(chunks[..i])| <= |Joined(chunks)| && Joined(chunks[..i]) <= Joined(chunks)
  {
    if i == |chunks| {
      assert chunks[..i] == chunks;
    } else {
      assert chunks[..|chunks| - 1][..i] == chunks[..i];
      JoinedSplit(chunks[..|chunks| - 1], i);
    }
  }

  /** The collecting loop and the buffer its chunks are set into, one behind the other. */
  method ReadRange(file: OpenFile, offset: nat, length: nat) returns (bytes: seq<Byte>)
    requires offset + length <= |file.contents|
    modifies file`position
    ensures bytes == file.contents[offset..offset + length]
  {
    file.position := offset;
    var chunks: seq<seq<Byte>> := [];
    var remaining := length;
    while remaining > 0
      invariant 0 <= remaining <= length && file.position == offset + length - remaining
      invariant Joined(chunks) == file.contents[offset..file.position]
      decreases remaining
    {
      ghost var before := file.position;
      var chunk := file.ReadAlloc(remaining);
      if chunk.None? {
        break;
      }
      assert |file.contents[before..file.position]| == |chunk.value|;
      assert file.contents[offset..file.position] == file.contents[offset..before] + file.contents[before..file.position];
      JoinedMore(chunks, chunk.value);
      chunks := chunks + [chunk.value];
      remaining := remaining - |chunk.value|;
    }
    bytes := Collect(chunks, length - remaining);
  }

  method Collect(chunks: seq<seq<Byte>>, length: nat) returns (bytes: seq<Byte>)
    requires length == |Joined(chunks)|
    ensures bytes == Joined(chunks)
  {
    var collected := new Byte[length];
    var at := 0;
    for i := 0 to |chunks|
      invariant at == |Joined(chunks[..i])| <= length
      invariant collected[..at] == Joined(chunks[..i])
    {
      assert chunks[..i + 1] == chunks[..i] + [chunks[i]];
      JoinedMore(chunks[..i], chunks[i]);
      JoinedSplit(chunks, i + 1);
      Fill(collected, at, chunks[i]);
      at := at + |chunks[i]|;
    }
    assert chunks[..|chunks|] == chunks;
    bytes := collected[..];
  }

  /** One read. `stored` is what stands at the key's path: a file's bytes, or nothing that is a file. */
  method Read(volume: Volume, key: Key, stored: Option<seq<Byte>>, options: ReadOptions) returns (result: ReadResult)
    ensures result == if CheckKey(key) && NameLimits(PathOf(volume, key)) then ReadOf(stored, options)
                      else Refused(Unacceptable)
  {
    if !CheckKey(key) || !GoodOptions(options) || !NameLimits(PathOf(volume, key)) {
      return Refused(Unacceptable);
    }
    if stored.None? {
      return Absent;
    }
    var size := |stored.value|;
    if !Safe(size) {
      return Refused(Unacceptable);
    }
    if options.range.Some? {
      var range := options.range.value;
      if range.offset >= size {
        return Refused(Unacceptable);
      }
      var length := Min(range.length, size - range.offset);
      var file := new OpenFile(stored.value);
      var bytes := ReadRange(file, range.offset, length);
      return Found(bytes);
    }
    if size > options.maxBytes {
      return Refused(OverBudget);
    }
    result := Found(stored.value);
  }

  // ----- What reads mean -----

  /** Options that a read takes: safe integers, a positive budget, a nonempty range within it. */
  ghost predicate Acceptable(options: ReadOptions) {
    && 0 < options.maxBytes <= 9007199254740991
    && (options.range.Some? ==>
          var range := options.range.value;
          0 <= range.offset && 0 < range.length <= options.maxBytes && range.offset + range.length <= 9007199254740991)
  }

  /** The bytes are those from the range's offset on, to its end or the object's. */
  ghost predicate Slice(bytes: seq<Byte>, range: Range, r: seq<Byte>) {
    && 0 <= range.offset < |bytes|
    && |r| == (if range.offset + range.length <= |bytes| then range.length else |bytes| - range.offset)
    && forall i :: 0 <= i < |r| ==> r[i] == bytes[range.offset + i]
  }

  /** Every answer a read can give, and exactly when it gives it. */
  lemma ReadExactly(stored: Option<seq<Byte>>, options: ReadOptions, r: seq<Byte>)
    ensures ReadOf(stored, options) == Refused(Unacceptable) <==>
            || !Acceptable(options)
            || (stored.Some? && (|stored.value| > 9007199254740991
                                 || (options.range.Some? && options.range.value.offset >= |stored.value|)))
    ensures ReadOf(stored, options) == Absent <==> Acceptable(options) && stored.None?
    ensures ReadOf(stored, options) == Refused(OverBudget) <==>
            && Acceptable(options) && stored.Some? && options.range.None?
            && options.maxBytes < |stored.value| <= 9007199254740991
    ensures ReadOf(stored, options) == Found(r) <==>
            && Acceptable(options) && stored.Some? && |stored.value| <= 9007199254740991
            && (if options.range.None? then r == stored.value && |r| <= options.maxBytes
                else Slice(stored.value, options.range.value, r))
  {
    if Acceptable(options) && stored.Some? && options.range.Some? && options.range.value.offset < |stored.value| {
      var bytes, range := stored.value, options.range.value;
      var part := bytes[range.offset..Min(range.offset + range.length, |bytes|)];
      assert Slice(bytes, range, part);
      assert Slice(bytes, range, r) ==> r == part;
    }
  }

  /** A read never returns more than its budget, nor nothing where a range was found. */
  lemma WithinBudget(stored: Option<seq<Byte>>, options: ReadOptions)
    requires ReadOf(stored, options).Found?
    ensures var bytes := ReadOf(stored, options).bytes;
            && |bytes| <= options.maxBytes
            && (options.range.Some? ==> 0 < |bytes| <= options.range.value.length)
            && (options.range.Some? && |bytes| < options.range.value.length ==>
                  options.range.value.offset + |bytes| == |stored.value|)
  {
  }

  /** Reading an object by ranges of `step` bytes, from `offset` until a range begins past its end. */
  function Pieces(stored: seq<Byte>, offset: nat, step: nat): Option<seq<Byte>>
    requires step > 0
    decreases |stored| - offset
  {
    if offset >= |stored| then Some([])
    else
      match ReadOf(Some(stored), ReadOptions(step, Some(Range(offset, step))))
      case Found(bytes) =>
        (match Pieces(stored, offset + step, step)
         case None => None
         case Some(rest) => Some(bytes + rest))
      case _ => None
  }

  /** Consecutive ranges tile an object: read by pieces of any size it comes out whole, each byte once. */
  lemma {:induction false} PiecesJoin(stored: seq<Byte>, offset: nat, step: nat)
    requires 0 < step && Safe(|stored| + step) && offset <= |stored|
    ensures Pieces(stored, offset, step) == Some(stored[offset..])
    decreases |stored| - offset
  {
    if offset < |stored| {
      var end := Min(offset + step, |stored|);
      assert stored[offset..end] + stored[end..] == stored[offset..];
      if offset + step <= |stored| {
        PiecesJoin(stored, offset + step, step);
      } else {
        assert stored[end..] == [];
      }
    } else {
      assert stored[offset..] == [];
    }
  }

  /** Once a create has ended as "created", every later read of its key is a read of exactly its bytes. */
  lemma {:induction false} CreatedThenRead(volume: Volume, run: seq<Step>, i: nat, w: nat, options: ReadOptions)
    requires i <= |run| && w in After(volume, run[..i]).writers
    requires Outcome(After(volume, run[..i]).writers[w]) == Some(Created)
    ensures var writer := After(volume, run[..i]).writers[w];
            ReadOf(Visible(After(volume, run), writer.key), options) == ReadOf(Some(writer.bytes), options)
  {
    ReportedVisible(volume, run[..i], w);
    VisibleForever(volume, run, i, After(volume, run[..i]).writers[w].key);
  }
}

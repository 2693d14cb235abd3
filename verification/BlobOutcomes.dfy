/** Stored envelopes byte by byte, who stored what a get finds, and how a put that nobody disturbs ends. */
module BlobOutcomes {
  import opened Wrappers
  import opened Texts
  import opened Bytes
  import opened BlobEnvelope
  import opened BlobStore

  // ----- Envelopes -----

  /** The number that four bytes from an offset on spell, the first the most significant. */
  ghost function BigEndian(bytes: seq<Byte>, at: nat): nat
    requires at + 4 <= |bytes|
  {
    var a: int, b: int, c: int, d: int := bytes[at], bytes[at + 1], bytes[at + 2], bytes[at + 3];
    ((a * 256 + b) * 256 + c) * 256 + d
  }

  /** The letters GLB1, the length of the metadata, the metadata, the payload. */
  ghost predicate LaidOut(bytes: seq<Byte>, metadata: seq<Byte>, data: seq<Byte>) {
    && |bytes| == 8 + |metadata| + |data|
    && bytes[0] == 'G' as int && bytes[1] == 'L' as int && bytes[2] == 'B' as int && bytes[3] == '1' as int
    && BigEndian(bytes, 4) == |metadata|
    && bytes[8..8 + |metadata|] == metadata
    && bytes[8 + |metadata|..] == data
  }

  /** A reference of at most 64 KiB is enclosed with its payload, and a longer one is refused. */
  lemma EnclosedExactly(codec: Codec, ref: Ref, data: seq<Byte>)
    ensures if codec.jsonUnits(ref) <= 65536 && |codec.json(ref)| <= 65536
            then Enclose(codec, ref, data).Ok? && LaidOut(Enclose(codec, ref, data).value, codec.json(ref), data)
            else Enclose(codec, ref, data) == Err(MetadataTooLong)
  {
    if Enclose(codec, ref, data).Ok? {
      EnclosedLaidOut(codec.json(ref), data);
    }
  }

  lemma EnclosedLaidOut(metadata: seq<Byte>, data: seq<Byte>)
    requires |metadata| <= 65536
    ensures LaidOut(Word(MAGIC) + Word(|metadata|) + metadata + data, metadata, data)
  {
    var bytes := Word(MAGIC) + Word(|metadata|) + metadata + data;
    assert bytes[4..8] == Word(|metadata|);
    WordRoundTrip(bytes, 4, |metadata|);
    WordSpelled(bytes, 4);
    assert Word(MAGIC) == [0x47, 0x4C, 0x42, 0x31];
  }

  lemma WordSpelled(bytes: seq<Byte>, at: nat)
    requires at + 4 <= |bytes|
    ensures WordAt(bytes, at) == BigEndian(bytes, at)
  {
  }

  /** The bytes open under an address to this reference and payload. */
  ghost predicate OpensTo(codec: Codec, hash: Text, bytes: seq<Byte>, maxBytes: nat, ref: Ref, data: seq<Byte>) {
    exists length :: 0 <= length <= 65536 && 8 + length <= |bytes| && OpensAt(codec, hash, bytes, maxBytes, length, ref, data)
  }

  ghost predicate OpensAt(codec: Codec, hash: Text, bytes: seq<Byte>, maxBytes: nat, length: nat, ref: Ref, data: seq<Byte>)
    requires 8 + length <= |bytes|
  {
    && LaidOut(bytes, bytes[8..8 + length], data) && |data| <= maxBytes
    && codec.parse(bytes[8..8 + length]) == Some(ref)
    && ref.sha256 == hash && ref.bytes == |data| && codec.hash(data) == hash
  }

  /** Stored bytes open exactly when they are laid out as an envelope, fit the limit and describe themselves. */
  lemma OpensExactly(codec: Codec, hash: Text, bytes: seq<Byte>, maxBytes: nat, ref: Ref, data: seq<Byte>)
    ensures Open(codec, hash, bytes, maxBytes) == Ok(Blob(ref, data)) <==> OpensTo(codec, hash, bytes, maxBytes, ref, data)
  {
    if |bytes| >= 8 {
      WordSpelled(bytes, 0);
      WordSpelled(bytes, 4);
      MagicSpelled(bytes);
      if Open(codec, hash, bytes, maxBytes) == Ok(Blob(ref, data)) {
        assert OpensAt(codec, hash, bytes, maxBytes, WordAt(bytes, 4), ref, data);
      }
    }
  }

  lemma MagicSpelled(bytes: seq<Byte>)
    requires |bytes| >= 8
    ensures BigEndian(bytes, 0) == MAGIC <==>
            bytes[0] == 'G' as int && bytes[1] == 'L' as int && bytes[2] == 'B' as int && bytes[3] == '1' as int
  {
  }

  /** A get finds nothing exactly when nothing is stored at the address, and a blob exactly when what is stored opens to it. */
  lemma GetExactly(s: System, hash: Text, blob: Blob)
    ensures Get(s, hash) == NotFound <==> hash !in s.objects
    ensures Get(s, hash) == Found(blob) <==>
            hash in s.objects && OpensTo(s.codec, hash, s.objects[hash], s.limit, blob.ref, blob.data)
  {
    if hash in s.objects {
      OpensExactly(s.codec, hash, s.objects[hash], s.limit, blob.ref, blob.data);
    }
  }

  // ----- Winners -----

  /** The put whose create took effect: it stored the envelope of its own bytes, media type and filename. */
  ghost predicate StoredBy(s: System, hash: Text, p: nat) {
    && p in s.puts && s.puts[p].won && hash in s.objects
    && var input := s.puts[p].input;
       s.codec.hash(input.data) == hash
       && Enclose(s.codec, Ref(hash, input.mediaType, |input.data|, input.filename), input.data) == Ok(s.objects[hash])
  }

  /** Every object has exactly one winner. */
  ghost predicate Won(s: System) {
    && (forall hash :: hash in s.objects ==> exists p :: StoredBy(s, hash, p))
    && (forall p :: p in s.puts && s.puts[p].won ==> StoredBy(s, s.codec.hash(s.puts[p].input.data), p))
    && (forall p, q :: StoredTwice(s, p, q) ==> p == q)
  }

  ghost predicate StoredTwice(s: System, p: nat, q: nat) {
    && p in s.puts && q in s.puts && s.puts[p].won && s.puts[q].won
    && s.codec.hash(s.puts[p].input.data) == s.codec.hash(s.puts[q].input.data)
  }

  /** A step other than a commit that takes effect stores nothing and lets nobody win. */
  ghost predicate SameWinners(s: System, t: System) {
    && t.codec == s.codec && t.objects == s.objects && s.puts.Keys <= t.puts.Keys
    && (forall p :: p in t.puts && t.puts[p].won ==> p in s.puts && s.puts[p].won)
    && (forall p :: p in s.puts && s.puts[p].won ==> t.puts[p].won && t.puts[p].input == s.puts[p].input)
  }

  lemma SameWinnersWon(s: System, t: System)
    requires Won(s) && SameWinners(s, t)
    ensures Won(t)
  {
    forall hash | hash in t.objects
      ensures exists p :: StoredBy(t, hash, p)
    {
      var p :| p in s.puts && StoredBy(s, hash, p);
      assert StoredBy(t, hash, p);
    }
    forall p | p in t.puts && t.puts[p].won
      ensures StoredBy(t, t.codec.hash(t.puts[p].input.data), p)
    {
      assert StoredBy(s, s.codec.hash(s.puts[p].input.data), p);
    }
    forall p, q | StoredTwice(t, p, q)
      ensures p == q
    {
      assert StoredTwice(s, p, q);
    }
  }

  /** A put commits that finds its address free. */
  ghost predicate Wins(s: System, p: nat) {
    p in s.puts && s.puts[p].pending && EnvelopeOf(s, s.puts[p].input).Ok? && AddressOf(s, s.puts[p].input) !in s.objects
  }

  lemma StepWinners(s: System, step: Step)
    requires !(step.Commit? && Wins(s, step.p))
    ensures SameWinners(s, Next(s, step))
  {
  }

  /** Winners so far stay winners, at other addresses. */
  lemma WinnersApart(s: System, p: nat, hash: Text, q: nat)
    requires Wins(s, p) && StoredBy(s, hash, q)
    ensures StoredBy(Committing(s, p), hash, q) && q != p && hash != AddressOf(s, s.puts[p].input)
  {
  }

  lemma NewWinner(s: System, p: nat)
    requires Wins(s, p)
    ensures StoredBy(Committing(s, p), AddressOf(s, s.puts[p].input), p)
  {
  }

  /** Only the new winner and the old ones have won, and only its address is new. */
  lemma WinningMoves(s: System, p: nat)
    requires Wins(s, p)
    ensures var t := Committing(s, p);
            && t.codec == s.codec && t.objects.Keys == s.objects.Keys + {AddressOf(s, s.puts[p].input)} && t.puts.Keys == s.puts.Keys
            && forall q :: q in t.puts ==> t.puts[q].input == s.puts[q].input && (q != p ==> t.puts[q].won == s.puts[q].won)
  {
  }

  lemma WinningStored(s: System, p: nat, hash: Text)
    requires Won(s) && Wins(s, p) && hash in Committing(s, p).objects
    ensures exists q :: StoredBy(Committing(s, p), hash, q)
  {
    WinningMoves(s, p);
    NewWinner(s, p);
    if hash in s.objects {
      var q :| q in s.puts && StoredBy(s, hash, q);
      WinnersApart(s, p, hash, q);
    }
  }

  lemma WinningStores(s: System, p: nat, q: nat)
    requires Won(s) && Wins(s, p) && q in Committing(s, p).puts && Committing(s, p).puts[q].won
    ensures var t := Committing(s, p); var hash := t.codec.hash(t.puts[q].input.data);
            StoredBy(t, hash, q) && (q != p ==> hash != AddressOf(s, s.puts[p].input))
  {
    WinningMoves(s, p);
    NewWinner(s, p);
    if q != p {
      assert StoredBy(s, s.codec.hash(s.puts[q].input.data), q);
      WinnersApart(s, p, s.codec.hash(s.puts[q].input.data), q);
    }
  }

  lemma {:induction false} WinningWon(s: System, p: nat)
    requires Won(s) && Wins(s, p)
    ensures Won(Committing(s, p))
  {
    var t := Committing(s, p);
    forall hash | hash in t.objects
      ensures exists q :: StoredBy(t, hash, q)
    {
      WinningStored(s, p, hash);
    }
    forall q | q in t.puts && t.puts[q].won
      ensures StoredBy(t, t.codec.hash(t.puts[q].input.data), q)
    {
      WinningStores(s, p, q);
    }
    forall q, r | StoredTwice(t, q, r)
      ensures q == r
    {
      WinningMoves(s, p);
      WinningStores(s, p, q);
      WinningStores(s, p, r);
      assert q != p && r != p ==> StoredTwice(s, q, r);
    }
  }

  lemma {:induction false} RunWon(codec: Codec, limit: nat, run: seq<Step>)
    ensures Won(After(codec, limit, run))
  {
    if run != [] {
      var s, step := After(codec, limit, run[..|run| - 1]), run[|run| - 1];
      RunWon(codec, limit, run[..|run| - 1]);
      if step.Commit? && Wins(s, step.p) {
        WinningWon(s, step.p);
      } else {
        StepWinners(s, step);
        SameWinnersWon(s, Next(s, step));
      }
    }
  }

  /** What is got from an address is the one winner's payload under the one winner's reference. */
  lemma {:induction false} WinnerGot(s: System, hash: Text, p: nat)
    requires Valid(s) && StoredBy(s, hash, p)
    ensures var input := s.puts[p].input;
            Get(s, hash) == Found(Blob(Ref(hash, input.mediaType, |input.data|, input.filename), input.data))
  {
    assert PutSound(s, s.puts[p]);
    assert Get(s, hash).Found?;
    var input := s.puts[p].input;
    EnvelopeRoundTrip(s.codec, Ref(hash, input.mediaType, |input.data|, input.filename), input.data, hash, s.limit);
  }

  /**
   * In every run a put that succeeded is told a reference to its own bytes, under the media type and filename of the
   * one put that won the address: its own if that is itself.
   */
  lemma {:induction false} SucceededCarries(codec: Codec, limit: nat, run: seq<Step>, p: nat) returns (w: nat)
    requires Faithful(codec) && Succeeded(After(codec, limit, run), p)
    ensures var s := After(codec, limit, run);
            && w in s.puts && s.puts[w].won && (s.puts[p].won ==> w == p)
            && s.puts[w].input.data == s.puts[p].input.data
            && s.puts[p].phase.result == Ok(Ref(codec.hash(s.puts[p].input.data), s.puts[w].input.mediaType,
                                                |s.puts[p].input.data|, s.puts[w].input.filename))
  {
    var s := After(codec, limit, run);
    RunValid(codec, limit, run);
    RunWon(codec, limit, run);
    RunSettings(codec, limit, run);
    assert PutSound(s, s.puts[p]);
    var hash := codec.hash(s.puts[p].input.data);
    w :| w in s.puts && StoredBy(s, hash, w);
    WinnerGot(s, hash, w);
    if s.puts[p].won {
      assert StoredTwice(s, p, w);
    }
  }

  // ----- A put that nobody disturbs -----

  function PutSteps(p: nat, input: Input): seq<Step> {
    [Begin(p, input), Commit(p), AnswerCreated(p), AnswerConflict(p), Read(p)]
  }

  lemma {:induction false} OneMore(codec: Codec, limit: nat, run: seq<Step>, step: Step)
    ensures After(codec, limit, run + [step]) == Next(After(codec, limit, run), step)
  {
    assert (run + [step])[..|run|] == run;
  }

  lemma AppendedFive(run: seq<Step>, a: Step, b: Step, c: Step, d: Step, e: Step)
    ensures run + [a, b, c, d, e] == run + [a] + [b] + [c] + [d] + [e]
  {
  }

  lemma {:induction false} FiveSteps(codec: Codec, limit: nat, run: seq<Step>, a: Step, b: Step, c: Step, d: Step, e: Step)
    ensures After(codec, limit, run + [a, b, c, d, e]) == Next(Next(Next(Next(Next(After(codec, limit, run), a), b), c), d), e)
  {
    OneMore(codec, limit, run, a);
    OneMore(codec, limit, run + [a], b);
    OneMore(codec, limit, run + [a] + [b], c);
    OneMore(codec, limit, run + [a] + [b] + [c], d);
    OneMore(codec, limit, run + [a] + [b] + [c] + [d], e);
    AppendedFive(run, a, b, c, d, e);
  }

  ghost function Alone(s: System, p: nat, input: Input): System {
    Next(Next(Next(Next(Next(s, Begin(p, input)), Commit(p)), AnswerCreated(p)), AnswerConflict(p)), Read(p))
  }

  lemma TurnedAway(s: System, p: nat, input: Input)
    requires p !in s.puts && (|input.data| > s.limit || EnvelopeOf(s, input).Err?)
    ensures var t := Alone(s, p, input);
            p in t.puts && t.puts[p].phase == Done(Err(if |input.data| > s.limit then TooLarge else EncodeFailed))
  {
  }

  lemma FreeWon(s: System, p: nat, input: Input)
    requires p !in s.puts && |input.data| <= s.limit && EnvelopeOf(s, input).Ok? && AddressOf(s, input) !in s.objects
    ensures var t := Alone(s, p, input); p in t.puts && t.puts[p].phase == Done(Ok(RefOf(s, input)))
  {
  }

  lemma TakenRead(s: System, p: nat, input: Input)
    requires p !in s.puts && |input.data| <= s.limit && EnvelopeOf(s, input).Ok? && AddressOf(s, input) in s.objects
    ensures var t := Alone(s, p, input);
            p in t.puts && t.puts[p].phase == Done(match Get(s, AddressOf(s, input))
                                                   case NotFound => Err(ConflictAbsent)
                                                   case Broken => Err(ReadFailed)
                                                   case Found(blob) => if blob.data == input.data then Ok(blob.ref) else Err(Differs))
  {
  }

  /**
   * In every reachable system a put that nobody disturbs is told exactly this: that its bytes exceed the limit, or its
   * reference the envelope; at a free address its own reference; at a taken one the winner's reference if the winner
   * stored the same bytes, and otherwise that they differ.
   */
  lemma {:induction false} PutExactly(codec: Codec, limit: nat, run: seq<Step>, p: nat, input: Input)
    requires Faithful(codec) && p !in After(codec, limit, run).puts
    ensures var s, t := After(codec, limit, run), After(codec, limit, run + PutSteps(p, input));
            var hash := codec.hash(input.data);
            var own := Ref(hash, input.mediaType, |input.data|, input.filename);
            p in t.puts && t.puts[p].phase.Done? &&
            var result := t.puts[p].phase.result;
            if |input.data| > limit then result == Err(TooLarge)
            else if codec.jsonUnits(own) > 65536 || |codec.json(own)| > 65536 then result == Err(EncodeFailed)
            else if hash !in s.objects then result == Ok(own)
            else
              exists w :: StoredBy(s, hash, w) &&
                var winner := s.puts[w].input;
                result == if winner.data == input.data
                          then Ok(Ref(hash, winner.mediaType, |winner.data|, winner.filename)) else Err(Differs)
  {
    var s, hash := After(codec, limit, run), codec.hash(input.data);
    RunSettings(codec, limit, run);
    FiveSteps(codec, limit, run, Begin(p, input), Commit(p), AnswerCreated(p), AnswerConflict(p), Read(p));
    EnclosedExactly(codec, RefOf(s, input), input.data);
    if |input.data| > limit || EnvelopeOf(s, input).Err? {
      TurnedAway(s, p, input);
    } else if hash !in s.objects {
      FreeWon(s, p, input);
    } else {
      RunValid(codec, limit, run);
      RunWon(codec, limit, run);
      TakenRead(s, p, input);
      var w :| w in s.puts && StoredBy(s, hash, w);
      WinnerGot(s, hash, w);
    }
  }

  lemma AppendedTwo(run: seq<Step>, a: Step, b: Step)
    ensures run + [a, b] == run + [a] + [b]
  {
  }

  lemma {:induction false} TwoSteps(codec: Codec, limit: nat, run: seq<Step>, a: Step, b: Step)
    ensures After(codec, limit, run + [a, b]) == Next(Next(After(codec, limit, run), a), b)
  {
    OneMore(codec, limit, run, a);
    OneMore(codec, limit, run + [a], b);
    AppendedTwo(run, a, b);
  }

  lemma FailureRead(s: System, p: nat)
    requires p in s.puts && s.puts[p].phase.Creating?
    ensures var t, input := Next(Next(s, AnswerFailure(p)), Read(p)), s.puts[p].input;
            p in t.puts && t.puts[p].phase == Done(match Get(s, AddressOf(s, input))
                                                   case NotFound => Err(CreateFailed)
                                                   case Broken => Err(ReadFailed)
                                                   case Found(blob) => if blob.data == input.data then Ok(blob.ref) else Err(Differs))
  {
  }

  /**
   * A create that fails without telling whether it took effect ends, once read back, as what is stored decides: the
   * winner's reference if the winner, perhaps itself, stored the same bytes; otherwise that they differ; and a
   * failure if nothing is stored.
   */
  lemma {:induction false} AmbiguousExactly(codec: Codec, limit: nat, run: seq<Step>, p: nat)
    requires Faithful(codec)
    requires p in After(codec, limit, run).puts && After(codec, limit, run).puts[p].phase.Creating?
    ensures var s, t := After(codec, limit, run), After(codec, limit, run + [AnswerFailure(p), Read(p)]);
            var input := s.puts[p].input;
            var hash := codec.hash(input.data);
            p in t.puts && t.puts[p].phase.Done? &&
            var result := t.puts[p].phase.result;
            if hash !in s.objects then result == Err(CreateFailed)
            else
              exists w :: StoredBy(s, hash, w) &&
                var winner := s.puts[w].input;
                result == if winner.data == input.data
                          then Ok(Ref(hash, winner.mediaType, |winner.data|, winner.filename)) else Err(Differs)
  {
    var s := After(codec, limit, run);
    var hash := codec.hash(s.puts[p].input.data);
    RunSettings(codec, limit, run);
    TwoSteps(codec, limit, run, AnswerFailure(p), Read(p));
    FailureRead(s, p);
    if hash in s.objects {
      RunValid(codec, limit, run);
      RunWon(codec, limit, run);
      var w :| w in s.puts && StoredBy(s, hash, w);
      WinnerGot(s, hash, w);
    }
  }
}

/**
 * Content-addressed puts over create-if-absent storage. A create may be answered "created", "conflict" or
 * with a failure; after a failure it may or may not commit, then or later. The hash is arbitrary: different
 * bytes may share an address.
 */
module BlobStore {
  import opened Wrappers
  import opened Texts
  import opened Bytes
  import opened BlobEnvelope

  datatype Input = Input(data: seq<Byte>, mediaType: Text, filename: Option<Text>)

  datatype PutError = TooLarge | EncodeFailed | CreateFailed | ConflictAbsent | ReadFailed | Differs

  datatype Phase = Creating | Reading(createFailed: bool) | Done(result: Result<Ref, PutError>)

  /** One put: `pending` while its create may still commit, `won` once it has. */
  datatype Put = Put(input: Input, phase: Phase, pending: bool, won: bool)

  datatype System = System(codec: Codec, limit: nat, objects: map<Text, seq<Byte>>, puts: map<nat, Put>)

  function Empty(codec: Codec, limit: nat): System {
    System(codec, limit, map[], map[])
  }

  function AddressOf(s: System, input: Input): Text {
    s.codec.hash(input.data)
  }

  /** The reference a put would publish if its create wins. */
  function RefOf(s: System, input: Input): Ref {
    Ref(AddressOf(s, input), input.mediaType, |input.data|, input.filename)
  }

  function EnvelopeOf(s: System, input: Input): Result<seq<Byte>, Problem> {
    Enclose(s.codec, RefOf(s, input), input.data)
  }

  /** The byte budget of every read. */
  function Budget(s: System): nat {
    s.limit + HEADER + MAX_METADATA
  }

  datatype Got = Found(blob: Blob) | NotFound | Broken

  /** What `get` returns. */
  function Get(s: System, hash: Text): Got {
    if hash !in s.objects then NotFound
    else if |s.objects[hash]| > Budget(s) then Broken
    else
      match Open(s.codec, hash, s.objects[hash], s.limit)
      case Err(_) => Broken
      case Ok(blob) => Found(blob)
  }

  datatype Step =
    | Begin(p: nat, input: Input)
    | Commit(p: nat)
    | AnswerCreated(p: nat)
    | AnswerConflict(p: nat)
    | AnswerFailure(p: nat)
    | Read(p: nat)
    | ReadFailure(p: nat)

  function Set(s: System, p: nat, put: Put): System {
    s.(puts := s.puts[p := put])
  }

  function Beginning(s: System, step: Step): System
    requires step.Begin?
  {
    if step.p in s.puts then s
    else
      var input := step.input;
      Set(s, step.p,
          if |input.data| > s.limit then Put(input, Done(Err(TooLarge)), false, false)
          else if EnvelopeOf(s, input).Err? then Put(input, Done(Err(EncodeFailed)), false, false)
          else Put(input, Creating, true, false))
  }

  /** The conditional create takes effect, or finds the key taken. */
  function Committing(s: System, p: nat): System
    requires p in s.puts
  {
    var put := s.puts[p];
    var hash, envelope := AddressOf(s, put.input), EnvelopeOf(s, put.input);
    if !put.pending || envelope.Err? then s
    else if hash in s.objects then Set(s, p, put.(pending := false))
    else Set(s.(objects := s.objects[hash := envelope.value]), p, put.(pending := false, won := true))
  }

  /** After a conflict or an ambiguous failure only a verified stored payload publishes a reference. */
  function ReadBack(s: System, put: Put): Result<Ref, PutError>
    requires put.phase.Reading?
  {
    match Get(s, AddressOf(s, put.input))
    case NotFound => Err(if put.phase.createFailed then CreateFailed else ConflictAbsent)
    case Broken => Err(ReadFailed)
    case Found(blob) => if blob.data == put.input.data then Ok(blob.ref) else Err(Differs)
  }

  function Next(s: System, step: Step): System {
    if step.Begin? then Beginning(s, step)
    else if step.p !in s.puts then s
    else
      var p, put := step.p, s.puts[step.p];
      match step
      case Commit(_) => Committing(s, p)
      case AnswerCreated(_) => if put.phase.Creating? && put.won then Set(s, p, put.(phase := Done(Ok(RefOf(s, put.input))))) else s
      case AnswerConflict(_) =>
        if put.phase.Creating? && AddressOf(s, put.input) in s.objects
        then Set(s, p, put.(phase := Reading(false), pending := false)) else s
      case AnswerFailure(_) => if put.phase.Creating? then Set(s, p, put.(phase := Reading(true))) else s
      case Read(_) => if put.phase.Reading? then Set(s, p, put.(phase := Done(ReadBack(s, put)))) else s
      case ReadFailure(_) => if put.phase.Reading? then Set(s, p, put.(phase := Done(Err(ReadFailed)))) else s
  }

  // ----- The invariant -----

  /** Every stored object opens under its key, within the read budget. */
  ghost predicate ObjectsOpen(s: System) {
    forall hash :: hash in s.objects ==> Get(s, hash).Found?
  }

  ghost predicate PutSound(s: System, put: Put) {
    var hash := AddressOf(s, put.input);
    && (put.pending || put.won || !put.phase.Done? ==> EnvelopeOf(s, put.input).Ok? && |put.input.data| <= s.limit)
    && (put.won ==> hash in s.objects && Get(s, hash) == Found(Blob(RefOf(s, put.input), put.input.data)))
    && (put.phase.Done? && put.phase.result.Ok? ==> Get(s, hash) == Found(Blob(put.phase.result.value, put.input.data)))
  }

  ghost predicate Valid(s: System) {
    && Faithful(s.codec) && ObjectsOpen(s)
    && forall p :: p in s.puts ==> PutSound(s, s.puts[p])
  }

  /** `t` is `s` with perhaps more objects. */
  ghost predicate Grown(s: System, t: System) {
    && t.codec == s.codec && t.limit == s.limit
    && forall hash :: hash in s.objects ==> hash in t.objects && t.objects[hash] == s.objects[hash]
  }

  lemma GrownSound(s: System, t: System, put: Put)
    requires PutSound(s, put) && Grown(s, t)
    ensures PutSound(t, put)
  {
  }

  lemma StepGrows(s: System, step: Step)
    ensures Grown(s, Next(s, step))
  {
  }

  lemma OwnEnvelope(s: System, input: Input)
    requires Faithful(s.codec) && EnvelopeOf(s, input).Ok? && |input.data| <= s.limit
    ensures var hash := AddressOf(s, input);
            Get(s.(objects := s.objects[hash := EnvelopeOf(s, input).value]), hash) == Found(Blob(RefOf(s, input), input.data))
  {
    EnvelopeRoundTrip(s.codec, RefOf(s, input), input.data, AddressOf(s, input), s.limit);
  }

  lemma {:induction false} CommitKeeps(s: System, p: nat)
    requires Valid(s) && p in s.puts
    ensures Valid(Committing(s, p))
  {
    var put, t := s.puts[p], Committing(s, p);
    var hash := AddressOf(s, put.input);
    assert PutSound(s, put);
    if put.pending && EnvelopeOf(s, put.input).Ok? && hash !in s.objects {
      OwnEnvelope(s, put.input);
      assert Get(t, hash) == Found(Blob(RefOf(s, put.input), put.input.data));
      forall other | other in s.puts && other != p {
        GrownSound(s, t, s.puts[other]);
      }
      GrownSound(s, t, put);
    }
  }

  lemma OnePutKeeps(s: System, p: nat, put: Put)
    requires Valid(s) && PutSound(s, put)
    ensures Valid(Set(s, p, put))
  {
    var t := Set(s, p, put);
    forall other | other in t.puts
      ensures PutSound(t, t.puts[other])
    {
      GrownSound(s, t, t.puts[other]);
    }
  }

  lemma {:induction false} NextValid(s: System, step: Step)
    requires Valid(s)
    ensures Valid(Next(s, step))
  {
    if step.Commit? && step.p in s.puts {
      CommitKeeps(s, step.p);
    } else if Next(s, step) != s {
      if step.p in s.puts {
        assert PutSound(s, s.puts[step.p]);
      }
      OnePutKeeps(s, step.p, Next(s, step).puts[step.p]);
    }
  }

  // ----- Every run -----

  function After(codec: Codec, limit: nat, run: seq<Step>): System {
    if run == [] then Empty(codec, limit) else Next(After(codec, limit, run[..|run| - 1]), run[|run| - 1])
  }

  lemma {:induction false} RunValid(codec: Codec, limit: nat, run: seq<Step>)
    requires Faithful(codec)
    ensures Valid(After(codec, limit, run))
  {
    if run != [] {
      RunValid(codec, limit, run[..|run| - 1]);
      NextValid(After(codec, limit, run[..|run| - 1]), run[|run| - 1]);
    }
  }

  lemma {:induction false} RunGrows(codec: Codec, limit: nat, run: seq<Step>, i: nat)
    requires i <= |run|
    ensures Grown(After(codec, limit, run[..i]), After(codec, limit, run))
    decreases |run|
  {
    if i == |run| {
      assert run[..i] == run;
    } else {
      var init := run[..|run| - 1];
      assert init[..i] == run[..i];
      RunGrows(codec, limit, init, i);
      StepGrows(After(codec, limit, init), run[|run| - 1]);
    }
  }

  predicate Succeeded(s: System, p: nat) {
    p in s.puts && s.puts[p].phase.Done? && s.puts[p].phase.result.Ok?
  }

  /** Once a put has succeeded, every later get of its address yields exactly its bytes and its reference. */
  lemma PutThenGet(codec: Codec, limit: nat, run: seq<Step>, i: nat, p: nat)
    requires Faithful(codec) && i <= |run| && Succeeded(After(codec, limit, run[..i]), p)
    ensures var s := After(codec, limit, run[..i]);
            var input, ref := s.puts[p].input, s.puts[p].phase.result.value;
            Get(After(codec, limit, run), codec.hash(input.data)) == Found(Blob(ref, input.data))
  {
    RunValid(codec, limit, run[..i]);
    RunGrows(codec, limit, run, i);
    RunSettings(codec, limit, run[..i]);
    assert PutSound(After(codec, limit, run[..i]), After(codec, limit, run[..i]).puts[p]);
  }

  lemma {:induction false} RunSettings(codec: Codec, limit: nat, run: seq<Step>)
    ensures After(codec, limit, run).codec == codec && After(codec, limit, run).limit == limit
  {
    if run != [] {
      RunSettings(codec, limit, run[..|run| - 1]);
    }
  }

  /** All successful puts of the same bytes return the same reference, whatever each one proposed. */
  lemma SameReference(codec: Codec, limit: nat, run: seq<Step>, p: nat, q: nat)
    requires Faithful(codec)
    requires var s := After(codec, limit, run);
             Succeeded(s, p) && Succeeded(s, q) && s.puts[p].input.data == s.puts[q].input.data
    ensures var s := After(codec, limit, run);
            s.puts[p].phase.result == s.puts[q].phase.result
  {
    assert run[..|run|] == run;
    PutThenGet(codec, limit, run, |run|, p);
    PutThenGet(codec, limit, run, |run|, q);
  }

  /** Whatever is got has the address it was asked for, is described by its reference and within the limit. */
  lemma GotDescribed(s: System, hash: Text)
    requires Get(s, hash).Found?
    ensures var blob := Get(s, hash).blob;
            blob.ref.sha256 == hash == s.codec.hash(blob.data) && blob.ref.bytes == |blob.data| <= s.limit
  {
    OpenedDescribed(s.codec, hash, s.objects[hash], s.limit);
  }

  /**
   * Reading back after a conflict or an ambiguous failure succeeds exactly when the bytes stored at the
   * address are the put's own; bytes that merely share the address are told apart.
   */
  lemma ReadBackDecides(codec: Codec, limit: nat, run: seq<Step>, p: nat)
    requires Faithful(codec)
    requires var s := After(codec, limit, run); p in s.puts && s.puts[p].phase.Reading?
    ensures var s := After(codec, limit, run);
            var put, hash := s.puts[p], codec.hash(s.puts[p].input.data);
            match ReadBack(s, put)
            case Ok(ref) => Get(s, hash) == Found(Blob(ref, put.input.data))
            case Err(Differs) => Get(s, hash).Found? && Get(s, hash).blob.data != put.input.data
            case Err(e) => hash !in s.objects && e == CreateFailed && put.phase.createFailed
  {
    RunValid(codec, limit, run);
    ConflictPresent(codec, limit, run, p);
    RunSettings(codec, limit, run);
    var s := After(codec, limit, run);
    assert codec.hash(s.puts[p].input.data) in s.objects ==> Get(s, codec.hash(s.puts[p].input.data)).Found?;
  }

  ghost predicate KeyTaken(s: System, p: nat) {
    p in s.puts && s.puts[p].phase == Reading(false) ==> s.codec.hash(s.puts[p].input.data) in s.objects
  }

  /** A conflict is never answered over an absent object, so reading back never finds that. */
  lemma {:induction false} ConflictPresent(codec: Codec, limit: nat, run: seq<Step>, p: nat)
    ensures KeyTaken(After(codec, limit, run), p)
  {
    if run != [] {
      ConflictPresent(codec, limit, run[..|run| - 1], p);
      StepGrows(After(codec, limit, run[..|run| - 1]), run[|run| - 1]);
    }
  }
}

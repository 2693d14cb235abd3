/** The binary envelope of a stored blob: header, reference JSON, payload. */
module BlobEnvelope {
  import opened Wrappers
  import opened Texts
  import opened Bytes

  /** A content-addressed reference. */
  datatype Ref = Ref(sha256: Text, mediaType: Text, bytes: nat, filename: Option<Text>)

  datatype Blob = Blob(ref: Ref, data: seq<Byte>)

  /** What the store takes from outside: a hash, and a reference's JSON with its parser. */
  datatype Codec = Codec(
    hash: seq<Byte> -> Text,
    jsonUnits: Ref -> nat,
    json: Ref -> seq<Byte>,
    parse: seq<Byte> -> Option<Ref>)

  /** Parsing undoes printing; nothing is asked of the hash. */
  ghost predicate Faithful(codec: Codec) {
    forall ref: Ref :: codec.parse(codec.json(ref)) == Some(ref)
  }

  datatype Problem =
    | MetadataTooLong | Truncated | WrongVersion | PayloadTooLong | BadMetadata | WrongReference | WrongHash

  const MAGIC := 0x474C_4231
  const HEADER := 8
  const MAX_METADATA := 0x1_0000

  /** The stored bytes of a reference and its payload. */
  function Enclose(codec: Codec, ref: Ref, data: seq<Byte>): Result<seq<Byte>, Problem> {
    if codec.jsonUnits(ref) > MAX_METADATA || |codec.json(ref)| > MAX_METADATA then Err(MetadataTooLong)
    else Ok(Word(MAGIC) + Word(|codec.json(ref)|) + codec.json(ref) + data)
  }

  method Encode(codec: Codec, ref: Ref, data: seq<Byte>) returns (result: Result<seq<Byte>, Problem>)
    ensures result == Enclose(codec, ref, data)
  {
    if codec.jsonUnits(ref) > MAX_METADATA {
      return Err(MetadataTooLong);
    }
    var metadata := codec.json(ref);
    if |metadata| > MAX_METADATA {
      return Err(MetadataTooLong);
    }
    var bytes := new Byte[HEADER + |metadata| + |data|];
    Fill(bytes, 0, Word(MAGIC));
    Fill(bytes, 4, Word(|metadata|));
    Fill(bytes, HEADER, metadata);
    Fill(bytes, HEADER + |metadata|, data);
    assert bytes[..] == Word(MAGIC) + Word(|metadata|) + metadata + data;
    result := Ok(bytes[..]);
  }

  function Open(codec: Codec, hash: Text, bytes: seq<Byte>, maxBytes: nat): Result<Blob, Problem> {
    if |bytes| < HEADER then Err(Truncated)
    else if WordAt(bytes, 0) != MAGIC then Err(WrongVersion)
    else
      var length := WordAt(bytes, 4);
      if length > MAX_METADATA then Err(MetadataTooLong)
      else
        var offset := HEADER + length;
        if offset > |bytes| then Err(Truncated)
        else if |bytes| - offset > maxBytes then Err(PayloadTooLong)
        else
          var data := bytes[offset..];
          match codec.parse(bytes[HEADER..offset])
          case None => Err(BadMetadata)
          case Some(ref) =>
            if ref.sha256 != hash || ref.bytes != |data| then Err(WrongReference)
            else if codec.hash(data) != hash then Err(WrongHash)
            else Ok(Blob(ref, data))
  }

  /** A reference that describes its payload and its address. */
  predicate Describes(codec: Codec, hash: Text, ref: Ref, data: seq<Byte>) {
    ref.sha256 == hash && ref.bytes == |data| && codec.hash(data) == hash
  }

  /**
   * An envelope opens exactly under the address its reference and payload both have, within the payload
   * limit, and then to exactly what was enclosed.
   */
  lemma {:induction false} EnvelopeRoundTrip(codec: Codec, ref: Ref, data: seq<Byte>, hash: Text, maxBytes: nat)
    requires Faithful(codec) && Enclose(codec, ref, data).Ok?
    ensures var blob := Open(codec, hash, Enclose(codec, ref, data).value, maxBytes);
            && (blob.Ok? <==> |data| <= maxBytes && Describes(codec, hash, ref, data))
            && (blob.Ok? ==> blob.value == Blob(ref, data))
  {
    var json := codec.json(ref);
    var bytes := Enclose(codec, ref, data).value;
    assert bytes[0..4] == Word(MAGIC) && bytes[4..8] == Word(|json|);
    WordRoundTrip(bytes, 0, MAGIC);
    WordRoundTrip(bytes, 4, |json|);
    assert bytes[HEADER..HEADER + |json|] == json && bytes[HEADER + |json|..] == data;
    assert codec.parse(json) == Some(ref);
  }

  /** Whatever opens under an address has a payload of that address, described by its reference, within the limit. */
  lemma OpenedDescribed(codec: Codec, hash: Text, bytes: seq<Byte>, maxBytes: nat)
    requires Open(codec, hash, bytes, maxBytes).Ok?
    ensures var blob := Open(codec, hash, bytes, maxBytes).value;
            && Describes(codec, hash, blob.ref, blob.data) && |blob.data| <= maxBytes
            && |bytes| <= maxBytes + HEADER + MAX_METADATA
            && blob.data == bytes[|bytes| - |blob.data|..]
  {
  }
}

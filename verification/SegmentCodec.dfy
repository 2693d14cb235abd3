/** The escape codec between object key segments (UTF-8 bytes) and file names. */
module SegmentCodec {
  import opened Wrappers
  import opened Texts
  import opened Sequences
  import opened Bytes

  /** One key segment, as the UTF-8 bytes of its text (section 3 of RFC 3629). */
  type Segment = seq<Byte>

  /** A text decoder followed by the text encoder: the identity on well-formed UTF-8 without a leading BOM. */
  type Normalise = Segment -> Segment

  const DOT: Byte := 0x2E
  const PERCENT: CodeUnit := 0x25

  predicate Digit(u: int) { 0x30 <= u <= 0x39 }
  predicate Lower(u: int) { 0x61 <= u <= 0x7A }
  predicate Upper(u: int) { 0x41 <= u <= 0x5A }

  /** A byte that stands for itself wherever it is: a digit, a lower-case letter, `_`, `~` or `-`. */
  predicate Plain(u: int) {
    Digit(u) || Lower(u) || u == 0x5F || u == 0x7E || u == 0x2D
  }

  predicate Safe(bytes: Segment, i: nat)
    requires i < |bytes|
  {
    Plain(bytes[i]) || (bytes[i] == DOT && 0 < i < |bytes| - 1)
  }

  function HexDigit(n: int): CodeUnit
    requires 0 <= n < 16
  {
    if n < 10 then 0x30 + n else 0x41 + n - 10
  }

  /** A byte in upper-case hexadecimal, without leading zeros. */
  function UpperHex(b: Byte): Text {
    if b < 16 then [HexDigit(b)] else [HexDigit(b / 16), HexDigit(b % 16)]
  }

  function Escape(b: Byte): Text {
    [PERCENT] + (if b < 16 then [0x30] else []) + UpperHex(b)
  }

  function Piece(bytes: Segment, i: nat): Text
    requires i < |bytes|
  {
    if Safe(bytes, i) then [bytes[i]] else Escape(bytes[i])
  }

  function EncodedFrom(bytes: Segment, i: nat): Text
    requires i <= |bytes|
    decreases |bytes| - i
  {
    if i == |bytes| then [] else Piece(bytes, i) + EncodedFrom(bytes, i + 1)
  }

  function FoldUnit(u: CodeUnit): CodeUnit {
    if Upper(u) then u + 32 else u
  }

  /** ASCII case folding of a name. */
  function Fold(name: Text): (r: Text)
    ensures |r| == |name| && forall i :: 0 <= i < |r| ==> r[i] == FoldUnit(name[i])
  {
    if name == [] then [] else [FoldUnit(name[0])] + Fold(name[1..])
  }

  const CON: Text := [0x63, 0x6F, 0x6E]
  const PRN: Text := [0x70, 0x72, 0x6E]
  const AUX: Text := [0x61, 0x75, 0x78]
  const NUL: Text := [0x6E, 0x75, 0x6C]
  const COM: Text := [0x63, 0x6F, 0x6D]
  const LPT: Text := [0x6C, 0x70, 0x74]

  /** A reserved device name, in any case. */
  predicate Reserved(name: Text) {
    var f := Fold(name);
    || f == CON || f == PRN || f == AUX || f == NUL
    || (|f| == 4 && (f[..3] == COM || f[..3] == LPT) && 0x31 <= f[3] <= 0x39)
  }

  /** A name with its first unit escaped. */
  function EscapeHead(out: Text): Text
    requires out != [] && out[0] < 256
  {
    [PERCENT] + UpperHex(out[0]) + out[1..]
  }

  /** The file name of one segment; a reserved name has its first letter escaped as well. */
  function Encode(bytes: Segment): Text {
    var out := EncodedFrom(bytes, 0);
    if Reserved(out) then
      EncodedAscii(bytes, 0);
      EscapeHead(out)
    else out
  }

  method EncodeSegment(bytes: Segment) returns (out: Text)
    ensures out == Encode(bytes)
  {
    out := EncodeBytes(bytes);
    if Reserved(out) {
      EncodedAscii(bytes, 0);
      out := EscapeHead(out);
    }
  }

  lemma EncodedStep(bytes: Segment, i: nat)
    requires i < |bytes|
    ensures EncodedFrom(bytes, i) == Piece(bytes, i) + EncodedFrom(bytes, i + 1)
  {
  }

  /** The encoding loop: every byte as itself or escaped. */
  method EncodeBytes(bytes: Segment) returns (out: Text)
    ensures out == EncodedFrom(bytes, 0)
  {
    out := [];
    var i := 0;
    while i < |bytes|
      invariant i <= |bytes|
      invariant out + EncodedFrom(bytes, i) == EncodedFrom(bytes, 0)
    {
      EncodedStep(bytes, i);
      ConcatAssociates(out, Piece(bytes, i), EncodedFrom(bytes, i + 1));
      out := out + Piece(bytes, i);
      i := i + 1;
    }
    assert EncodedFrom(bytes, i) == [] && out + [] == out;
  }

  // ----- Decoding -----

  predicate HexUnit(u: int) {
    Digit(u) || 0x41 <= u <= 0x46
  }

  function HexValue(u: int): int {
    if Digit(u) then u - 0x30 else if Lower(u) then u - 0x61 + 10 else u - 0x41 + 10
  }

  predicate NameUnit(u: int) {
    Plain(u) || Upper(u) || u == PERCENT
  }

  /** The shape of a stored name: ASCII of the alphabet, dots anywhere but in front. */
  predicate WellFormed(name: Text) {
    name != [] && name[0] != DOT && forall i :: 0 <= i < |name| ==> NameUnit(name[i]) || name[i] == DOT
  }

  /** The bytes a name spells out, when every escape has two upper-case hexadecimal digits. */
  function Unescape(name: Text): Option<Segment>
    requires forall i :: 0 <= i < |name| ==> name[i] < 256
  {
    if name == [] then Some([])
    else if name[0] == PERCENT then
      if |name| < 3 || !HexUnit(name[1]) || !HexUnit(name[2]) then None
      else
        match Unescape(name[3..])
        case None => None
        case Some(rest) => Some([16 * HexValue(name[1]) + HexValue(name[2])] + rest)
    else
      match Unescape(name[1..])
      case None => None
      case Some(rest) => Some([name[0]] + rest)
  }

  predicate DotOnly(segment: Segment) {
    segment == [DOT] || segment == [DOT, DOT]
  }

  function Decode(name: Text, normalise: Normalise): Option<Segment> {
    if !WellFormed(name) then None
    else
      match Unescape(name)
      case None => None
      case Some(bytes) =>
        var decoded := normalise(bytes);
        if DotOnly(decoded) then None
        else if Encode(decoded) == name then Some(decoded)
        else None
  }

  method DecodeSegment(name: Text, normalise: Normalise) returns (segment: Option<Segment>)
    ensures segment == Decode(name, normalise)
  {
    if !WellFormed(name) {
      return None;
    }
    var bytes := ReadName(name);
    if bytes.None? {
      return None;
    }
    var decoded := normalise(bytes.value);
    if DotOnly(decoded) {
      return None;
    }
    var again := EncodeSegment(decoded);
    segment := if again == name then Some(decoded) else None;
  }

  /** The decoding loop: it fills a buffer of the name's length, one byte per unit or escape. */
  method ReadName(name: Text) returns (result: Option<Segment>)
    requires forall i :: 0 <= i < |name| ==> name[i] < 256
    ensures result == Unescape(name)
  {
    var bytes := new Byte[|name|];
    var length, i := 0, 0;
    assert name[0..] == name && bytes[..0] == [];
    PrependNothing(Unescape(name));
    while i < |name|
      invariant length <= i <= |name|
      invariant Unescape(name) == Prepend(bytes[..length], Unescape(name[i..]))
    {
      ghost var before := bytes[..length];
      UnescapeStep(name, i);
      if name[i] == PERCENT {
        if i + 3 > |name| || !HexUnit(name[i + 1]) || !HexUnit(name[i + 2]) {
          return None;
        }
        bytes[length] := 16 * HexValue(name[i + 1]) + HexValue(name[i + 2]);
        PrependTwice(before, bytes[length], Unescape(name[i + 3..]));
        i := i + 2;
      } else {
        bytes[length] := name[i];
        PrependTwice(before, bytes[length], Unescape(name[i + 1..]));
      }
      assert bytes[..length + 1] == before + [bytes[length]];
      length := length + 1;
      i := i + 1;
    }
    assert name[|name|..] == [];
    assert bytes[..length] + [] == bytes[..length];
    result := Some(bytes[..length]);
  }

  /** One turn of the decoding loop. */
  lemma UnescapeStep(name: Text, i: nat)
    requires i < |name| && forall k :: 0 <= k < |name| ==> name[k] < 256
    ensures Unescape(name[i..]) ==
            if name[i] != PERCENT then Prepend([name[i]], Unescape(name[i + 1..]))
            else if i + 3 > |name| || !HexUnit(name[i + 1]) || !HexUnit(name[i + 2]) then None
            else Prepend([16 * HexValue(name[i + 1]) + HexValue(name[i + 2])], Unescape(name[i + 3..]))
  {
    var rest := name[i..];
    assert rest[0] == name[i] && rest[1..] == name[i + 1..];
    if i + 3 <= |name| {
      assert rest[1] == name[i + 1] && rest[2] == name[i + 2] && rest[3..] == name[i + 3..];
    }
  }

  ghost function Prepend(front: Segment, rest: Option<Segment>): Option<Segment> {
    match rest
    case None => None
    case Some(bytes) => Some(front + bytes)
  }

  lemma PrependNothing(rest: Option<Segment>)
    ensures Prepend([], rest) == rest
  {
    if rest.Some? {
      assert [] + rest.value == rest.value;
    }
  }

  lemma PrependTwice(front: Segment, b: Byte, rest: Option<Segment>)
    ensures Prepend(front, Prepend([b], rest)) == Prepend(front + [b], rest)
  {
    if rest.Some? {
      assert front + ([b] + rest.value) == front + [b] + rest.value;
    }
  }

  // ----- What the encoding looks like -----

  lemma HexUnits(b: Byte)
    ensures Escape(b) == [PERCENT, HexDigit(b / 16), HexDigit(b % 16)]
    ensures HexUnit(HexDigit(b / 16)) && HexUnit(HexDigit(b % 16))
    ensures 16 * HexValue(HexDigit(b / 16)) + HexValue(HexDigit(b % 16)) == b
    ensures 16 * HexValue(FoldUnit(HexDigit(b / 16))) + HexValue(FoldUnit(HexDigit(b % 16))) == b
  {
  }

  /** Encoded text uses only the alphabet. */
  lemma {:induction false} EncodedAscii(bytes: Segment, i: nat)
    requires i <= |bytes|
    ensures forall k :: 0 <= k < |EncodedFrom(bytes, i)| ==>
              NameUnit(EncodedFrom(bytes, i)[k]) || EncodedFrom(bytes, i)[k] == DOT
    decreases |bytes| - i
  {
    if i < |bytes| {
      HexUnits(bytes[i]);
      EncodedAscii(bytes, i + 1);
    }
  }

  /** A reserved name begins with a letter. */
  lemma ReservedLetter(name: Text)
    requires Reserved(name)
    ensures name != [] && (Lower(name[0]) || Upper(name[0]))
  {
    var f := Fold(name);
    assert f != [] && Lower(f[0]);
    assert f[0] == FoldUnit(name[0]);
  }

  /** A letter in front of the encoding stands for itself. */
  lemma LetterHead(bytes: Segment)
    requires var out := EncodedFrom(bytes, 0); out != [] && (Lower(out[0]) || Upper(out[0]))
    ensures bytes != [] && Lower(bytes[0])
    ensures EncodedFrom(bytes, 0) == [bytes[0]] + EncodedFrom(bytes, 1)
  {
    assert EncodedFrom(bytes, 0)[0] == Piece(bytes, 0)[0];
  }

  /** The first letter of a reserved name stands for itself, until it is escaped. */
  lemma {:induction false} ReservedHead(bytes: Segment)
    requires Reserved(EncodedFrom(bytes, 0))
    ensures bytes != [] && Lower(bytes[0])
    ensures EncodedFrom(bytes, 0) == [bytes[0]] + EncodedFrom(bytes, 1)
    ensures Encode(bytes) == Escape(bytes[0]) + EncodedFrom(bytes, 1)
  {
    ReservedLetter(EncodedFrom(bytes, 0));
    LetterHead(bytes);
    EscapedLetter(bytes[0], EncodedFrom(bytes, 1));
  }

  lemma EscapedLetter(b: Byte, rest: Text)
    requires b >= 16
    ensures EscapeHead([b] + rest) == Escape(b) + rest
  {
    assert ([b] + rest)[1..] == rest;
    assert [PERCENT] + [] + UpperHex(b) == [PERCENT] + UpperHex(b);
  }

  /** Every encoding is an escape or plain first piece followed by the encoding of the rest. */
  lemma {:induction false} EncodeShape(bytes: Segment)
    requires bytes != []
    ensures Encode(bytes) == Escape(bytes[0]) + EncodedFrom(bytes, 1)
         || (Encode(bytes) == [bytes[0]] + EncodedFrom(bytes, 1) && Plain(bytes[0]))
    ensures !Reserved(Encode(bytes))
  {
    if Reserved(EncodedFrom(bytes, 0)) {
      ReservedHead(bytes);
      HexUnits(bytes[0]);
      assert Fold(Encode(bytes))[0] == PERCENT;
    }
  }

  lemma {:induction false} LastUnit(bytes: Segment, i: nat)
    requires i < |bytes|
    ensures EncodedFrom(bytes, i) != [] && EncodedFrom(bytes, i)[|EncodedFrom(bytes, i)| - 1] != DOT
    decreases |bytes| - i
  {
    HexUnits(bytes[i]);
    if i + 1 < |bytes| {
      LastUnit(bytes, i + 1);
    } else {
      assert EncodedFrom(bytes, i + 1) == [];
    }
  }

  /**
   * The name of a nonempty segment is well formed, neither starts nor ends with a dot, and is no reserved
   * device name.
   */
  lemma EncodeWellFormed(bytes: Segment)
    requires bytes != []
    ensures WellFormed(Encode(bytes)) && !Reserved(Encode(bytes))
    ensures Encode(bytes)[|Encode(bytes)| - 1] != DOT
  {
    EncodeShape(bytes);
    PiecesWellFormed(bytes);
  }

  lemma {:induction false} PiecesWellFormed(bytes: Segment)
    requires bytes != []
    ensures EndsWellFormed(Escape(bytes[0]) + EncodedFrom(bytes, 1))
    ensures Plain(bytes[0]) ==> EndsWellFormed([bytes[0]] + EncodedFrom(bytes, 1))
  {
    HexUnits(bytes[0]);
    EncodedAscii(bytes, 1);
    if |bytes| > 1 {
      LastUnit(bytes, 1);
    }
    JoinWellFormed(Escape(bytes[0]), EncodedFrom(bytes, 1));
    if Plain(bytes[0]) {
      JoinWellFormed([bytes[0]], EncodedFrom(bytes, 1));
    }
  }

  predicate EndsWellFormed(name: Text) {
    WellFormed(name) && name[|name| - 1] != DOT
  }

  lemma JoinWellFormed(first: Text, rest: Text)
    requires first != [] && forall k :: 0 <= k < |first| ==> NameUnit(first[k]) && first[k] != DOT
    requires forall k :: 0 <= k < |rest| ==> NameUnit(rest[k]) || rest[k] == DOT
    requires rest != [] ==> rest[|rest| - 1] != DOT
    ensures EndsWellFormed(first + rest)
  {
  }

  // ----- Undoing the encoding -----

  lemma UnescapeEscape(b: Byte, rest: Text)
    requires forall i :: 0 <= i < |rest| ==> rest[i] < 256
    ensures forall i :: 0 <= i < |Escape(b) + rest| ==> (Escape(b) + rest)[i] < 256
    ensures Unescape(Escape(b) + rest) == Prepend([b], Unescape(rest))
  {
    HexUnits(b);
    var name := Escape(b) + rest;
    assert name[0] == PERCENT && name[1] == HexDigit(b / 16) && name[2] == HexDigit(b % 16) && name[3..] == rest;
  }

  lemma UnescapePlain(b: Byte, rest: Text)
    requires b != PERCENT && forall i :: 0 <= i < |rest| ==> rest[i] < 256
    ensures Unescape([b] + rest) == Prepend([b], Unescape(rest))
  {
    assert ([b] + rest)[1..] == rest;
  }

  lemma UnescapePiece(bytes: Segment, i: nat, rest: Text)
    requires i < |bytes| && forall k :: 0 <= k < |rest| ==> rest[k] < 256
    ensures forall k :: 0 <= k < |Piece(bytes, i) + rest| ==> (Piece(bytes, i) + rest)[k] < 256
    ensures Unescape(Piece(bytes, i) + rest) == Prepend([bytes[i]], Unescape(rest))
  {
    if Safe(bytes, i) {
      UnescapePlain(bytes[i], rest);
    } else {
      UnescapeEscape(bytes[i], rest);
    }
  }

  lemma {:induction false} UnescapeEncoded(bytes: Segment, i: nat)
    requires i <= |bytes|
    ensures forall k :: 0 <= k < |EncodedFrom(bytes, i)| ==> EncodedFrom(bytes, i)[k] < 256
    ensures Unescape(EncodedFrom(bytes, i)) == Some(bytes[i..])
    decreases |bytes| - i
  {
    if i < |bytes| {
      UnescapeEncoded(bytes, i + 1);
      UnescapePiece(bytes, i, EncodedFrom(bytes, i + 1));
      assert EncodedFrom(bytes, i) == Piece(bytes, i) + EncodedFrom(bytes, i + 1);
      assert [bytes[i]] + bytes[i + 1..] == bytes[i..];
    } else {
      assert EncodedFrom(bytes, i) == [] && bytes[i..] == [];
    }
  }

  lemma UnescapeEncode(bytes: Segment)
    ensures forall k :: 0 <= k < |Encode(bytes)| ==> Encode(bytes)[k] < 256
    ensures Unescape(Encode(bytes)) == Some(bytes)
  {
    UnescapeEncoded(bytes, 0);
    if Reserved(EncodedFrom(bytes, 0)) {
      ReservedHead(bytes);
      UnescapeEncoded(bytes, 1);
      UnescapeEscape(bytes[0], EncodedFrom(bytes, 1));
      assert [bytes[0]] + bytes[1..] == bytes;
    }
  }

  /**
   * Decoding undoes encoding exactly for the nonempty segments other than `.` and `..` whose bytes survive
   * a text decoder; every other segment's name is refused.
   */
  lemma RoundTrip(bytes: Segment, normalise: Normalise)
    ensures Decode(Encode(bytes), normalise) ==
            if bytes != [] && !DotOnly(bytes) && normalise(bytes) == bytes then Some(bytes) else None
  {
    UnescapeEncode(bytes);
    if bytes != [] {
      EncodeWellFormed(bytes);
      UnescapeEncode(normalise(bytes));
    }
  }

  /** Decoding succeeds only on names the encoder produces, and gives a segment that encodes back to the name. */
  lemma DecodeSound(name: Text, normalise: Normalise)
    requires Decode(name, normalise).Some?
    ensures var bytes := Decode(name, normalise).value;
            Encode(bytes) == name && bytes != [] && !DotOnly(bytes) && normalise(bytes) == bytes
  {
    UnescapeEncode(Decode(name, normalise).value);
  }

  /** The bytes a name spells out when the case of its hexadecimal digits is ignored. */
  ghost function Spelled(name: Text): seq<int> {
    if name == [] then []
    else if name[0] == PERCENT && |name| >= 3 then [16 * HexValue(name[1]) + HexValue(name[2])] + Spelled(name[3..])
    else [name[0] as int] + Spelled(name[1..])
  }

  lemma {:induction false} FoldConcat(a: Text, b: Text)
    ensures Fold(a + b) == Fold(a) + Fold(b)
  {
  }

  lemma SpelledEscape(b: Byte, rest: Text)
    ensures Spelled(Fold(Escape(b) + rest)) == [b as int] + Spelled(Fold(rest))
  {
    HexUnits(b);
    var name := Fold(Escape(b) + rest);
    FoldConcat(Escape(b), rest);
    assert name[0] == PERCENT && name[1] == FoldUnit(HexDigit(b / 16)) && name[2] == FoldUnit(HexDigit(b % 16));
    assert name[3..] == Fold(rest);
  }

  lemma SpelledPlain(b: Byte, rest: Text)
    requires Plain(b) || b == DOT
    ensures Spelled(Fold([b] + rest)) == [b as int] + Spelled(Fold(rest))
  {
    FoldConcat([b], rest);
    assert Fold([b] + rest)[1..] == Fold(rest) && Fold([b] + rest)[0] == b;
  }

  lemma {:induction false} SpelledEncoded(bytes: Segment, i: nat)
    requires i <= |bytes|
    ensures Spelled(Fold(EncodedFrom(bytes, i))) == bytes[i..]
    decreases |bytes| - i
  {
    if i < |bytes| {
      SpelledEncoded(bytes, i + 1);
      SpelledEscape(bytes[i], EncodedFrom(bytes, i + 1));
      if Safe(bytes, i) {
        SpelledPlain(bytes[i], EncodedFrom(bytes, i + 1));
      }
      assert [bytes[i]] + bytes[i + 1..] == bytes[i..];
    }
  }

  lemma SpelledEncode(bytes: Segment)
    ensures Spelled(Fold(Encode(bytes))) == bytes
  {
    SpelledEncoded(bytes, 0);
    if bytes != [] {
      EncodeShape(bytes);
      SpelledEncoded(bytes, 1);
      SpelledEscape(bytes[0], EncodedFrom(bytes, 1));
      if Plain(bytes[0]) {
        SpelledPlain(bytes[0], EncodedFrom(bytes, 1));
      }
      assert [bytes[0]] + bytes[1..] == bytes;
    }
  }

  /** Segments whose names agree up to case are equal: case-variant keys cannot share a file. */
  lemma FoldInjective(a: Segment, b: Segment)
    requires Fold(Encode(a)) == Fold(Encode(b))
    ensures a == b
  {
    SpelledEncode(a);
    SpelledEncode(b);
  }
}

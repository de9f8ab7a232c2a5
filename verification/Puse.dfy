/** The PUSE message envelope of `messaging.rs`: header extensions, header, envelope. */
module Puse {
  import opened Wrappers
  import opened Bytes

  const MAGIC: Bytes := [0x50, 0x55, 0x53, 0x45]
  const VERSION: Byte := 1
  const MAX_ENVELOPE: nat := 1_048_576
  const MAX_EXTENSION: nat := 1024
  const MIN_ENVELOPE: nat := 4 + 1 + 1 + 20 + 20 + 16 + 2 + 1 + 12 + 4 + 64

  type Iid = b: Bytes | |b| == 20 witness seq(20, _ => 0)
  type MessageId = b: Bytes | |b| == 16 witness seq(16, _ => 0)
  type Nonce = b: Bytes | |b| == 12 witness seq(12, _ => 0)
  type PublicKey = b: Bytes | |b| == 32 witness seq(32, _ => 0)
  type Signature = b: Bytes | |b| == 64 witness seq(64, _ => 0)

  datatype PuseError =
    | ExtensionRequired | ExtensionTooLarge | InitialLength | RatchetLength | GroupLength | GroupIteration
    | UnknownExtension
    | TooLarge | TooShort | BadMagic | BadVersion | ReservedFlags | EnvelopeLength
    | NotForDirect | NotForGroup | ReservedRecipient | CiphertextLength | TrailingBytes

  datatype Extension =
    | Initial(ephemeral: PublicKey)
    | Ratchet(dhPublic: PublicKey, pn: U32, n: U32)
    | Group(keyId: MessageId, iteration: U32)

  datatype Header = Header(flags: Byte, sender: Iid, recipient: Iid, messageId: MessageId,
                           extension: Bytes, nonce: Nonce, ciphertextLength: U32)

  datatype Envelope = Envelope(header: Header, ciphertext: Bytes, signature: Signature)

  // ----- slices ---------------------------------------------------------------------------

  lemma Cut(b: Bytes, at: nat, to: nat)
    requires at <= to <= |b|
    ensures b[at..] == b[at..to] + b[to..]
  {
  }

  // ----- header extensions -------------------------------------------------------------------

  function BuildExtension(x: Extension): Result<Bytes, PuseError> {
    match x
    case Initial(ephemeral) => Success([0x00] + ephemeral)
    case Ratchet(dhPublic, pn, n) => Success([0x01] + (dhPublic + (ToBigEndian(pn, 4) + ToBigEndian(n, 4))))
    case Group(keyId, iteration) =>
      if iteration == 0 then Failure(GroupIteration) else Success([0x02] + (keyId + ToBigEndian(iteration, 4)))
  }

  function ValidateExtension(b: Bytes): Result<(), PuseError> {
    if b == [] then Failure(ExtensionRequired)
    else if |b| > MAX_EXTENSION then Failure(ExtensionTooLarge)
    else if b[0] == 0x00 then if |b| != 33 then Failure(InitialLength) else Success(())
    else if b[0] == 0x01 then if |b| != 41 then Failure(RatchetLength) else Success(())
    else if b[0] == 0x02 then
      if |b| != 21 then Failure(GroupLength)
      else if ReadU32(b[17..21]) == 0 then Failure(GroupIteration)
      else Success(())
    else Success(())
  }

  function ParseExtension(b: Bytes): Result<Extension, PuseError> {
    var valid := ValidateExtension(b);
    if valid.Failure? then Failure(valid.error)
    else if b[0] == 0x00 then Success(Initial(b[1..33]))
    else if b[0] == 0x01 then Success(Ratchet(b[1..33], ReadU32(b[33..37]), ReadU32(b[37..41])))
    else if b[0] == 0x02 then Success(Group(b[1..17], ReadU32(b[17..21])))
    else Failure(UnknownExtension)
  }

  /** Parsing undoes building, for every extension that can be built. */
  lemma ParseUndoesBuild(x: Extension)
    ensures BuildExtension(x).Failure? <==> x.Group? && x.iteration == 0
    ensures BuildExtension(x).Success? ==> ParseExtension(BuildExtension(x).value) == Success(x)
  {
    hide ToBigEndian, FromBigEndian;
    if BuildExtension(x).Success? {
      var b := BuildExtension(x).value;
      Part(b, 0, [b[0]], b[1..]);
      match x
      case Initial(ephemeral) =>
        Part(b, 1, ephemeral, []);
      case Ratchet(dhPublic, pn, n) =>
        Part(b, 1, dhPublic, ToBigEndian(pn, 4) + ToBigEndian(n, 4));
        Part(b, 33, ToBigEndian(pn, 4), ToBigEndian(n, 4));
        assert b[37..41] == ToBigEndian(n, 4);
        U32RoundTrips(pn);
        U32RoundTrips(n);
      case Group(keyId, iteration) =>
        Part(b, 1, keyId, ToBigEndian(iteration, 4));
        assert b[17..21] == ToBigEndian(iteration, 4);
        U32RoundTrips(iteration);
    }
  }

  /** Building undoes parsing, so a parser accepts exactly what can be built. */
  lemma BuildUndoesParse(b: Bytes)
    requires ParseExtension(b).Success?
    ensures BuildExtension(ParseExtension(b).value) == Success(b)
  {
    hide ToBigEndian, FromBigEndian, ReadU32;
    assert b == [b[0]] + b[1..];
    if b[0] == 0x00 {
      assert b[1..] == b[1..33];
    } else if b[0] == 0x01 {
      U32Reencodes(b[33..37]);
      U32Reencodes(b[37..41]);
      Cut(b, 1, 33);
      Cut(b, 33, 37);
      assert b[37..] == b[37..41];
    } else if b[0] == 0x02 {
      U32Reencodes(b[17..21]);
      Cut(b, 1, 17);
      assert b[17..] == b[17..21];
    }
  }

  /** What passes for an extension: whatever can be built, and anything within a kilobyte of a type
      that is not known. */
  lemma ValidExactly(b: Bytes)
    ensures ValidateExtension(b).Success? <==>
      (exists x :: BuildExtension(x) == Success(b)) || (b != [] && b[0] > 0x02 && |b| <= 1024)
  {
    if ParseExtension(b).Success? {
      BuildUndoesParse(b);
    }
    if x :| BuildExtension(x) == Success(b) {
      ParseUndoesBuild(x);
    }
  }

  // ----- envelopes -------------------------------------------------------------------------------

  /** What follows a header: ciphertext and signature. */
  function HeaderThen(h: Header, rest: Bytes): Bytes {
    MAGIC + ([VERSION] + ([h.flags] + (h.sender + (h.recipient + (h.messageId +
      (ToBigEndian(|h.extension|, 2) + (h.extension + (h.nonce + (ToBigEndian(h.ciphertextLength, 4) + rest)))))))))
  }

  function EncodeHeader(h: Header): Result<Bytes, PuseError> {
    var valid := ValidateExtension(h.extension);
    if valid.Failure? then Failure(valid.error) else Success(HeaderThen(h, []))
  }

  /** The bytes of an envelope. */
  function Wire(e: Envelope): Bytes {
    HeaderThen(e.header, e.ciphertext + e.signature)
  }

  /** The extension the low two flag bits ask for. */
  predicate FlagsMatch(flags: Byte, extensionType: Byte) {
    flags < 0x20 &&
    (flags % 4 == 0 ==> extensionType == 0x00 || extensionType == 0x01) &&
    (flags % 4 == 1 ==> extensionType == 0x02) &&
    flags % 4 < 2
  }

  /** What a receiver takes: a valid extension of the type the flags ask for, an honest
      ciphertext length, and at most a megabyte in all. */
  predicate Legal(e: Envelope) {
    ValidateExtension(e.header.extension).Success? &&
    FlagsMatch(e.header.flags, e.header.extension[0]) &&
    e.header.ciphertextLength == |e.ciphertext| &&
    |Wire(e)| <= MAX_ENVELOPE
  }

  function CheckRecipient(flags: Byte, extensionType: Byte): Result<(), PuseError> {
    if flags % 4 == 0 then
      if extensionType != 0x00 && extensionType != 0x01 then Failure(NotForDirect) else Success(())
    else if flags % 4 == 1 then
      if extensionType != 0x02 then Failure(NotForGroup) else Success(())
    else Failure(ReservedRecipient)
  }

  /** The checks before the extension is cut out. */
  function CheckFront(b: Bytes): Result<(), PuseError> {
    if |b| > MAX_ENVELOPE then Failure(TooLarge)
    else if |b| < MIN_ENVELOPE then Failure(TooShort)
    else if b[..4] != MAGIC then Failure(BadMagic)
    else if b[4] != VERSION then Failure(BadVersion)
    else if b[5] / 32 != 0 then Failure(ReservedFlags)
    else if |b| < 64 + FromBigEndian(b[62..64]) + 12 + 4 + 64 then Failure(EnvelopeLength)
    else Success(())
  }

  function DecodeEnvelope(b: Bytes): Result<Envelope, PuseError> {
    var front := CheckFront(b);
    if front.Failure? then Failure(front.error)
    else
      var m := 64 + FromBigEndian(b[62..64]);
      var extension := b[64..m];
      var valid := ValidateExtension(extension);
      if valid.Failure? then Failure(valid.error)
      else
        var fits := CheckRecipient(b[5], extension[0]);
        if fits.Failure? then Failure(fits.error)
        else
          var length := ReadU32(b[m + 12..m + 16]);
          if |b| < m + 16 + length + 64 then Failure(CiphertextLength)
          else if m + 16 + length + 64 != |b| then Failure(TrailingBytes)
          else
            Success(Envelope(
                      Header(b[5], b[6..26], b[26..46], b[46..62], extension, b[m..m + 12], length),
                      b[m + 16..m + 16 + length],
                      b[m + 16 + length..]))
  }

  lemma ExtensionLength(extension: Bytes)
    requires ValidateExtension(extension).Success?
    ensures 1 <= |extension| && FromBigEndian(ToBigEndian(|extension|, 2)) == |extension|
  {
    Widths();
    FromTo(|extension|, 2);
  }

  lemma HeaderLength(h: Header, rest: Bytes)
    ensures |HeaderThen(h, rest)| == 80 + |h.extension| + |rest|
  {
  }

  /** Where the fields of an encoded header lie. */
  lemma FrontFields(h: Header, rest: Bytes)
    ensures
      var b := HeaderThen(h, rest);
      |b| >= 64 && b[..4] == MAGIC && b[4] == VERSION && b[5] == h.flags && b[6..26] == h.sender &&
      b[26..46] == h.recipient && b[46..62] == h.messageId && b[62..64] == ToBigEndian(|h.extension|, 2) &&
      b[64..] == h.extension + (h.nonce + (ToBigEndian(h.ciphertextLength, 4) + rest))
  {
    hide ToBigEndian;
    var b := HeaderThen(h, rest);
    var length := ToBigEndian(|h.extension|, 2);
    var s64 := h.extension + (h.nonce + (ToBigEndian(h.ciphertextLength, 4) + rest));
    var s62 := length + s64;
    var s46 := h.messageId + s62;
    var s26 := h.recipient + s46;
    var s6 := h.sender + s26;
    assert b == MAGIC + ([VERSION] + ([h.flags] + s6)) && b[0..] == b;
    hide HeaderThen;
    Part(b, 0, MAGIC, [VERSION] + ([h.flags] + s6));
    Part(b, 4, [VERSION], [h.flags] + s6);
    Part(b, 5, [h.flags], s6);
    Part(b, 6, h.sender, s26);
    Part(b, 26, h.recipient, s46);
    Part(b, 46, h.messageId, s62);
    Part(b, 62, length, s64);
    assert b[4] == b[4..5][0] && b[5] == b[5..6][0] && b[..4] == b[0..4];
  }

  lemma BackFields(h: Header, rest: Bytes)
    ensures
      var b, m := HeaderThen(h, rest), 64 + |h.extension|;
      m + 16 <= |b| && b[64..m] == h.extension && b[m..m + 12] == h.nonce &&
      b[m + 12..m + 16] == ToBigEndian(h.ciphertextLength, 4) && b[m + 16..] == rest
  {
    FrontFields(h, rest);
    hide ToBigEndian, HeaderThen;
    var b, m := HeaderThen(h, rest), 64 + |h.extension|;
    var length := ToBigEndian(h.ciphertextLength, 4);
    Part(b, 64, h.extension, h.nonce + (length + rest));
    Part(b, m, h.nonce, length + rest);
    Part(b, m + 12, length, rest);
  }

  /** A receiver takes an encoded envelope back unchanged exactly when it is legal: of the
      encoder's own inputs, those with matching flags, an honest length and a bearable size. */
  lemma DecodeUndoesEncodeExactly(e: Envelope)
    requires EncodeHeader(e.header).Success?
    ensures DecodeEnvelope(Wire(e)) == Success(e) <==> Legal(e)
  {
    var h, rest := e.header, e.ciphertext + e.signature;
    var b, m := Wire(e), 64 + |e.header.extension|;
    FrontFields(h, rest);
    BackFields(h, rest);
    HeaderLength(h, rest);
    ExtensionLength(h.extension);
    U32RoundTrips(h.ciphertextLength);
    hide HeaderThen, ToBigEndian, FromBigEndian, ValidateExtension, ReadU32;
    if h.ciphertextLength == |e.ciphertext| {
      Part(b, m + 16, e.ciphertext, e.signature);
    }
  }

  /** The header parts in front of a cut make up the whole. */
  lemma Reassemble(b: Bytes, h: Header, m: nat)
    requires 64 <= m <= m + 16 <= |b|
    requires b[..4] == MAGIC && b[4] == VERSION && b[5] == h.flags
    requires b[6..26] == h.sender && b[26..46] == h.recipient && b[46..62] == h.messageId
    requires b[62..64] == ToBigEndian(|h.extension|, 2) && b[64..m] == h.extension
    requires b[m..m + 12] == h.nonce && b[m + 12..m + 16] == ToBigEndian(h.ciphertextLength, 4)
    ensures HeaderThen(h, b[m + 16..]) == b
  {
    hide ToBigEndian;
    Cut(b, m + 12, m + 16);
    Cut(b, m, m + 12);
    Cut(b, 64, m);
    Cut(b, 62, 64);
    Cut(b, 46, 62);
    Cut(b, 26, 46);
    Cut(b, 6, 26);
    Cut(b, 5, 6);
    Cut(b, 4, 5);
    Cut(b, 0, 4);
    assert b[4..5] == [VERSION] && b[5..6] == [h.flags] && b[0..4] == b[..4] && b[0..] == b;
  }

  /** What the decoder accepts is legal and is exactly the encoding of what it returned. */
  lemma EncodeUndoesDecode(b: Bytes)
    requires DecodeEnvelope(b).Success?
    ensures Legal(DecodeEnvelope(b).value) && Wire(DecodeEnvelope(b).value) == b
  {
    hide ToBigEndian, FromBigEndian, ReadU32, ValidateExtension, HeaderThen;
    var e := DecodeEnvelope(b).value;
    var m := 64 + FromBigEndian(b[62..64]);
    ToFrom(b[62..64]);
    U32Reencodes(b[m + 12..m + 16]);
    Reassemble(b, e.header, m);
    Cut(b, m + 16, m + 16 + e.header.ciphertextLength);
    assert b[m + 16..] == e.ciphertext + e.signature;
    Nonempty(e.header.extension);
  }

  lemma Nonempty(extension: Bytes)
    ensures ValidateExtension(extension).Success? ==> extension != []
  {
  }

  /** The accepted strings are exactly the encodings of legal envelopes, one each. */
  lemma AcceptedExactly(b: Bytes, e: Envelope)
    ensures DecodeEnvelope(b) == Success(e) <==> Legal(e) && Wire(e) == b
  {
    if DecodeEnvelope(b) == Success(e) {
      EncodeUndoesDecode(b);
    }
    if Legal(e) && Wire(e) == b {
      DecodeUndoesEncodeExactly(e);
    }
  }

  /** No two accepted strings decode alike. */
  lemma DecodeInjective(a: Bytes, b: Bytes)
    requires DecodeEnvelope(a).Success? && DecodeEnvelope(a) == DecodeEnvelope(b)
    ensures a == b
  {
    EncodeUndoesDecode(a);
    EncodeUndoesDecode(b);
  }

  // ----- the same, step by step --------------------------------------------------------------------

  lemma HeaderThenAppends(h: Header, rest: Bytes)
    ensures HeaderThen(h, rest) == HeaderThen(h, []) + rest
  {
    hide ToBigEndian;
    assert ToBigEndian(h.ciphertextLength, 4) + [] == ToBigEndian(h.ciphertextLength, 4);
  }

  method EncodePuseHeader(h: Header) returns (r: Result<Bytes, PuseError>)
    ensures r == EncodeHeader(h)
  {
    hide ToBigEndian;
    var valid := ValidateExtension(h.extension);
    if valid.Failure? {
      return Failure(valid.error);
    }
    var out := MAGIC;
    out := out + [VERSION];
    out := out + [h.flags];
    out := out + h.sender;
    out := out + h.recipient;
    out := out + h.messageId;
    out := out + ToBigEndian(|h.extension|, 2);
    out := out + h.extension;
    out := out + h.nonce;
    out := out + ToBigEndian(h.ciphertextLength, 4);
    assert out == HeaderThen(h, []);
    r := Success(out);
  }

  /** `build_puse_envelope` after encryption: length, header, ciphertext, signature over all before it. */
  method BuildPuseEnvelope(header: Header, ciphertext: Bytes, sign: Bytes -> Signature)
      returns (r: Result<Bytes, PuseError>)
    ensures r.Failure? <==> |ciphertext| >= 0x1_0000_0000 || ValidateExtension(header.extension).Failure?
    ensures r.Success? ==> |r.value| >= 64
    ensures r.Success? ==>
      r.value == Wire(Envelope(header.(ciphertextLength := |ciphertext|), ciphertext,
                               sign(r.value[..|r.value| - 64])))
  {
    hide ToBigEndian;
    if |ciphertext| >= 0x1_0000_0000 {
      return Failure(CiphertextLength);
    }
    var h := header.(ciphertextLength := |ciphertext|);
    var encoded := EncodePuseHeader(h);
    if encoded.Failure? {
      return encoded;
    }
    HeaderThenAppends(h, []);
    var bytes := encoded.value + ciphertext;
    var signature := sign(bytes);
    assert (bytes + signature)[..|bytes + signature| - 64] == bytes;
    HeaderThenAppends(h, ciphertext + signature);
    assert bytes + signature == HeaderThen(h, []) + (ciphertext + signature);
    r := Success(bytes + signature);
  }

  /** The cursor stays inside the buffer on every input: each slice below is in range. */
  method DecodePuse(b: Bytes) returns (r: Result<Envelope, PuseError>)
    ensures r == DecodeEnvelope(b)
  {
    hide FromBigEndian, ReadU32, ValidateExtension;
    if |b| > MAX_ENVELOPE {
      return Failure(TooLarge);
    }
    if |b| < 4 + 1 + 1 + 20 + 20 + 16 + 2 + 1 + 12 + 4 + 64 {
      return Failure(TooShort);
    }
    if b[..4] != MAGIC {
      return Failure(BadMagic);
    }
    if b[4] != VERSION {
      return Failure(BadVersion);
    }
    var idx := 5;
    var flags := b[idx];
    if flags / 32 != 0 {
      return Failure(ReservedFlags);
    }
    idx := idx + 1;
    var sender := b[idx..idx + 20];
    idx := idx + 20;
    var recipient := b[idx..idx + 20];
    idx := idx + 20;
    var messageId := b[idx..idx + 16];
    idx := idx + 16;
    var extLen := FromBigEndian(b[idx..idx + 2]);
    idx := idx + 2;
    if |b| < idx + extLen + 12 + 4 + 64 {
      return Failure(EnvelopeLength);
    }
    var extension := b[idx..idx + extLen];
    idx := idx + extLen;
    var valid := ValidateExtension(extension);
    Nonempty(extension);
    if valid.Failure? {
      return Failure(valid.error);
    }
    var fits := CheckRecipient(flags, extension[0]);
    if fits.Failure? {
      return Failure(fits.error);
    }
    var nonce := b[idx..idx + 12];
    idx := idx + 12;
    var length := ReadU32(b[idx..idx + 4]);
    idx := idx + 4;
    if |b| < idx + length + 64 {
      return Failure(CiphertextLength);
    }
    var ciphertext := b[idx..idx + length];
    idx := idx + length;
    var signature := b[idx..idx + 64];
    idx := idx + 64;
    if idx != |b| {
      return Failure(TrailingBytes);
    }
    assert signature == b[idx - 64..];
    var header := Header(flags, sender, recipient, messageId, extension, nonce, length);
    r := Success(Envelope(header, ciphertext, signature));
  }
}

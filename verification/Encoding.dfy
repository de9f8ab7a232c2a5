/** Crockford base32 of `encoding.rs`: five bits a character, most significant first. */
module Encoding {
  import opened Wrappers
  import opened Bytes

  const CROCKFORD_ALPHABET: string := "0123456789abcdefghjkmnpqrstvwxyz"

  datatype EncodingError = EmptyBase32 | InvalidCharacter

  // ----- bit strings ----------------------------------------------------------------------

  type Bit = b: int | 0 <= b < 2

  /** The low `w` bits of `x`, most significant first. */
  function ToBits(x: nat, w: nat): (bits: seq<Bit>)
    ensures |bits| == w
  {
    if w == 0 then [] else ToBits(x / 2, w - 1) + [x % 2]
  }

  function FromBits(bits: seq<Bit>): nat {
    if bits == [] then 0 else 2 * FromBits(bits[..|bits| - 1]) + bits[|bits| - 1]
  }

  lemma {:induction false} FromTo(x: nat, w: nat)
    requires x < Pow2(w)
    ensures FromBits(ToBits(x, w)) == x
  {
    if w > 0 {
      FromTo(x / 2, w - 1);
      assert ToBits(x, w)[..w - 1] == ToBits(x / 2, w - 1);
    }
  }

  lemma {:induction false} ToFrom(bits: seq<Bit>)
    ensures FromBits(bits) < Pow2(|bits|) && ToBits(FromBits(bits), |bits|) == bits
  {
    if bits != [] {
      ToFrom(bits[..|bits| - 1]);
      assert bits == bits[..|bits| - 1] + [bits[|bits| - 1]];
    }
  }

  lemma {:induction false} FromAppend(a: seq<Bit>, b: seq<Bit>)
    ensures FromBits(a + b) == FromBits(a) * Pow2(|b|) + FromBits(b)
  {
    if b == [] {
      assert a + b == a;
    } else {
      var front, last := b[..|b| - 1], b[|b| - 1];
      FromAppend(a, front);
      assert (a + b)[..|a + b| - 1] == a + front;
      DoubleProduct(FromBits(a), Pow2(|front|));
    }
  }

  lemma DoubleProduct(x: nat, p: nat)
    ensures 2 * (x * p) == x * (2 * p)
  {
  }

  /** The bit of weight `2^(w - 1 - j)`. */
  lemma {:induction false} BitAt(x: nat, w: nat, j: nat)
    requires j < w
    ensures ToBits(x, w)[j] == x / Pow2(w - 1 - j) % 2
    decreases w
  {
    if j < w - 1 {
      BitAt(x / 2, w - 1, j);
      DivideTwice(x, Pow2(w - 2 - j));
    }
  }

  lemma DivideTwice(x: nat, p: nat)
    requires p > 0
    ensures x / 2 / p == x / (2 * p)
  {
    var q, r := x / (2 * p), x % (2 * p);
    assert x == 2 * (p * q) + r;
    assert x / 2 == p * q + r / 2 && 0 <= r / 2 < p;
    QuotientUnique(x / 2, p, q, r / 2);
  }

  lemma QuotientUnique(x: int, p: int, q: int, r: int)
    requires p > 0 && x == p * q + r && 0 <= r < p
    ensures x / p == q && x % p == r
  {
    var d := x / p - q;
    assert p * (x / p) + x % p == x;
    assert p * d == r - x % p;
    MultipleBounds(p, d);
  }

  lemma MultipleBounds(p: int, d: int)
    requires p > 0
    ensures d > 0 ==> p * d >= p
    ensures d < 0 ==> p * d <= -p
  {
  }

  /** The bits of a list of `w`-bit values, one after the other. */
  function Flatten(values: seq<nat>, w: nat): (bits: seq<Bit>)
    ensures |bits| == w * |values|
  {
    if values == [] then []
    else
      assert w * |values| == w * (|values| - 1) + w;
      Flatten(values[..|values| - 1], w) + ToBits(values[|values| - 1], w)
  }

  ghost predicate Fits(values: seq<nat>, w: nat) {
    forall i :: 0 <= i < |values| ==> values[i] < Pow2(w)
  }

  lemma {:induction false} FlattenAt(values: seq<nat>, w: nat, i: nat, j: nat)
    requires i < |values| && j < w
    ensures w * i + j < w * |values| && Flatten(values, w)[w * i + j] == ToBits(values[i], w)[j]
  {
    var front := values[..|values| - 1];
    assert w * |values| == w * |front| + w;
    if i < |front| {
      FlattenAt(front, w, i, j);
    }
  }

  lemma {:induction false} FlattenInjective(a: seq<nat>, b: seq<nat>, w: nat)
    requires Fits(a, w) && Fits(b, w) && |a| == |b| && Flatten(a, w) == Flatten(b, w)
    ensures a == b
  {
    forall i | 0 <= i < |a| ensures a[i] == b[i] {
      forall j | 0 <= j < w ensures ToBits(a[i], w)[j] == ToBits(b[i], w)[j] {
        FlattenAt(a, w, i, j);
        FlattenAt(b, w, i, j);
      }
      assert ToBits(a[i], w) == ToBits(b[i], w);
      FromTo(a[i], w);
      FromTo(b[i], w);
    }
  }

  function Octet(bits: seq<Bit>): Byte
    requires |bits| == 8
  {
    ToFrom(bits);
    Powers();
    FromBits(bits)
  }

  function Quintet(bits: seq<Bit>): (value: nat)
    requires |bits| == 5
    ensures value < 32
  {
    ToFrom(bits);
    Powers();
    FromBits(bits)
  }

  /** Cuts a bit string into bytes; an incomplete last byte is dropped. */
  function Octets(bits: seq<Bit>): (values: Bytes)
    ensures |values| == |bits| / 8
  {
    seq(|bits| / 8, i requires 0 <= i < |bits| / 8 => Octet(bits[8 * i..8 * i + 8]))
  }

  /** Cuts a bit string into five-bit groups. */
  function Quintets(bits: seq<Bit>): (values: seq<nat>)
    ensures |values| == |bits| / 5
  {
    seq(|bits| / 5, i requires 0 <= i < |bits| / 5 => Quintet(bits[5 * i..5 * i + 5]))
  }

  lemma OctetBit(bits: seq<Bit>, i: nat, j: nat)
    requires i < |bits| / 8 && j < 8
    ensures Flatten(Octets(bits), 8)[8 * i + j] == bits[8 * i + j]
  {
    var group := bits[8 * i..8 * i + 8];
    FlattenAt(Octets(bits), 8, i, j);
    ToFrom(group);
    assert ToBits(Octets(bits)[i], 8) == group;
  }

  lemma QuintetBit(bits: seq<Bit>, i: nat, j: nat)
    requires i < |bits| / 5 && j < 5
    ensures Flatten(Quintets(bits), 5)[5 * i + j] == bits[5 * i + j]
  {
    var group := bits[5 * i..5 * i + 5];
    FlattenAt(Quintets(bits), 5, i, j);
    ToFrom(group);
    assert ToBits(Quintets(bits)[i], 5) == group;
  }

  lemma OctetsFit(bits: seq<Bit>)
    ensures Fits(Octets(bits), 8) && Flatten(Octets(bits), 8) == bits[..8 * (|bits| / 8)]
  {
    hide Octets, Flatten;
    Powers();
    forall k | 0 <= k < 8 * (|bits| / 8) ensures Flatten(Octets(bits), 8)[k] == bits[k] {
      OctetBit(bits, k / 8, k % 8);
    }
  }

  lemma QuintetsFit(bits: seq<Bit>)
    ensures Fits(Quintets(bits), 5) && Flatten(Quintets(bits), 5) == bits[..5 * (|bits| / 5)]
  {
    hide Quintets, Flatten;
    Powers();
    forall i | 0 <= i < |Quintets(bits)| ensures Quintets(bits)[i] < Pow2(5) {
      QuintetAt(bits, i);
    }
    forall k | 0 <= k < 5 * (|bits| / 5) ensures Flatten(Quintets(bits), 5)[k] == bits[k] {
      QuintetBit(bits, k / 5, k % 5);
    }
  }

  lemma QuintetAt(bits: seq<Bit>, i: nat)
    requires i < |bits| / 5
    ensures Quintets(bits)[i] < 32
  {
  }

  // ----- the alphabet --------------------------------------------------------------------------

  function CrockfordValue(ch: char): Option<nat> {
    if '0' <= ch <= '9' then Some((ch - '0') as nat)
    else if 'a' <= ch <= 'h' then Some(10 + (ch - 'a') as nat)
    else if ch == 'j' then Some(18) else if ch == 'k' then Some(19)
    else if ch == 'm' then Some(20) else if ch == 'n' then Some(21)
    else if ch == 'p' then Some(22) else if ch == 'q' then Some(23) else if ch == 'r' then Some(24)
    else if ch == 's' then Some(25) else if ch == 't' then Some(26)
    else if ch == 'v' then Some(27) else if ch == 'w' then Some(28) else if ch == 'x' then Some(29)
    else if ch == 'y' then Some(30) else if ch == 'z' then Some(31)
    else None
  }

  /** The value table inverts the alphabet. */
  lemma ValueOfLetter(value: nat)
    requires value < 32
    ensures CrockfordValue(CROCKFORD_ALPHABET[value]) == Some(value)
  {
  }

  lemma LetterOfValue(ch: char)
    requires CrockfordValue(ch).Some?
    ensures CrockfordValue(ch).value < 32 && CROCKFORD_ALPHABET[CrockfordValue(ch).value] == ch
  {
  }

  /** The characters are the digits and the letters but i, l, o and u, in ascending order; with the
      two lemmas before, this leaves one table only. */
  lemma AlphabetAscends(a: char, b: char)
    ensures CrockfordValue(a).Some? <==> '0' <= a <= '9' || ('a' <= a <= 'z' && a !in "ilou")
    ensures CrockfordValue(a).Some? && CrockfordValue(b).Some? ==>
      (CrockfordValue(a).value < CrockfordValue(b).value <==> a < b)
  {
  }

  // ----- the codec, as functions -------------------------------------------------------------------

  function Zeros(n: nat): seq<Bit> {
    seq(n, _ => 0)
  }

  /** Zero bits up to a multiple of five. */
  function PadToFive(bits: seq<Bit>): (padded: seq<Bit>)
    ensures |padded| % 5 == 0 && |padded| == (|bits| + 4) / 5 * 5
  {
    bits + Zeros((|bits| + 4) / 5 * 5 - |bits|)
  }

  function Letters(values: seq<nat>): (s: string)
    requires forall i :: 0 <= i < |values| ==> values[i] < 32
    ensures |s| == |values|
  {
    seq(|values|, i requires 0 <= i < |values| => CROCKFORD_ALPHABET[values[i]])
  }

  function Groups(data: Bytes): (values: seq<nat>)
    ensures forall i :: 0 <= i < |values| ==> values[i] < 32
  {
    var bits := PadToFive(Flatten(data, 8));
    forall i | 0 <= i < |Quintets(bits)| ensures Quintets(bits)[i] < 32 { QuintetAt(bits, i); }
    Quintets(bits)
  }

  function CrockfordEncode(data: Bytes): string {
    Letters(Groups(data))
  }

  predicate AllValid(s: string) {
    forall i :: 0 <= i < |s| ==> CrockfordValue(s[i]).Some?
  }

  function ValuesOf(s: string): (values: seq<nat>)
    requires AllValid(s)
    ensures |values| == |s|
  {
    seq(|s|, i requires 0 <= i < |s| => CrockfordValue(s[i]).value)
  }

  function CrockfordDecode(s: string): Result<Bytes, EncodingError> {
    if AllValid(s) then Success(Octets(Flatten(ValuesOf(s), 5))) else Failure(InvalidCharacter)
  }

  function ValidateCrockford(s: string): Result<(), EncodingError> {
    if s == "" then Failure(EmptyBase32)
    else if forall i :: 0 <= i < |s| ==> IsBase32Lower(s[i]) then Success(())
    else Failure(InvalidCharacter)
  }

  predicate IsBase32Lower(ch: char) {
    '0' <= ch <= '9' || 'a' <= ch <= 'h' || 'j' <= ch <= 'k' || 'm' <= ch <= 'n' || 'p' <= ch <= 't' || 'v' <= ch <= 'z'
  }

  // ----- round trips -----------------------------------------------------------------------------------

  lemma LettersRoundTrip(values: seq<nat>)
    requires forall i :: 0 <= i < |values| ==> values[i] < 32
    ensures AllValid(Letters(values)) && ValuesOf(Letters(values)) == values
  {
    forall i | 0 <= i < |values| ensures CrockfordValue(Letters(values)[i]) == Some(values[i]) {
      ValueOfLetter(values[i]);
    }
  }

  lemma ValuesRoundTrip(s: string)
    requires AllValid(s)
    ensures forall i :: 0 <= i < |s| ==> ValuesOf(s)[i] < 32
    ensures Letters(ValuesOf(s)) == s
  {
    forall i | 0 <= i < |s| ensures ValuesOf(s)[i] < 32 && CROCKFORD_ALPHABET[ValuesOf(s)[i]] == s[i] {
      LetterOfValue(s[i]);
    }
  }

  lemma GroupsBits(data: Bytes)
    ensures Fits(Groups(data), 5) && Flatten(Groups(data), 5) == PadToFive(Flatten(data, 8))
  {
    var bits := PadToFive(Flatten(data, 8));
    QuintetsFit(bits);
    assert bits[..5 * (|bits| / 5)] == bits;
  }

  lemma BytesFit(data: Bytes)
    ensures Fits(data, 8)
  {
    Powers();
  }

  /** Decoding undoes encoding, for every byte string. */
  lemma DecodeUndoesEncode(data: Bytes)
    ensures CrockfordDecode(CrockfordEncode(data)) == Success(data)
  {
    var bits := Flatten(data, 8);
    LettersRoundTrip(Groups(data));
    GroupsBits(data);
    var padded := PadToFive(bits);
    OctetsFit(padded);
    assert |padded| / 8 == |data|;
    assert padded[..8 * |data|] == bits;
    BytesFit(data);
    FlattenInjective(Octets(padded), data, 8);
  }

  /** The number that digits stand for in some base, most significant digit first. */
  function Positional(digits: seq<nat>, base: nat): nat {
    if digits == [] then 0 else Positional(digits[..|digits| - 1], base) * base + digits[|digits| - 1]
  }

  lemma {:induction false} FlattenedNumber(values: seq<nat>, w: nat)
    requires Fits(values, w)
    ensures FromBits(Flatten(values, w)) == Positional(values, Pow2(w))
  {
    if values != [] {
      var front, last := values[..|values| - 1], values[|values| - 1];
      FlattenedNumber(front, w);
      FromAppend(Flatten(front, w), ToBits(last, w));
      FromTo(last, w);
    }
  }

  lemma {:induction false} BytesNumber(data: Bytes)
    ensures Positional(data, 256) == FromBigEndian(data)
  {
    if data != [] {
      BytesNumber(data[..|data| - 1]);
    }
  }

  /** The encoding is the data as one big-endian number, with fewer than five zero bits behind it,
      written in base 32. */
  lemma EncodingIsNumeral(data: Bytes) returns (zeros: nat)
    ensures zeros < 5 && 5 * |CrockfordEncode(data)| == 8 * |data| + zeros
    ensures AllValid(CrockfordEncode(data))
    ensures Positional(ValuesOf(CrockfordEncode(data)), 32) == FromBigEndian(data) * Pow2(zeros)
  {
    hide Flatten, Quintets, FromBits, Positional, FromBigEndian, ValuesOf, AllValid;
    var bits := Flatten(data, 8);
    zeros := |PadToFive(bits)| - |bits|;
    Powers();
    LettersRoundTrip(Groups(data));
    GroupsBits(data);
    FlattenedNumber(Groups(data), 5);
    FromAppend(bits, Zeros(zeros));
    ZerosAreZero(zeros);
    BytesFit(data);
    FlattenedNumber(data, 8);
    BytesNumber(data);
    EncodedLength(data);
  }

  /** The bits a decoder leaves over: fewer than eight at the end of the input. */
  function Leftover(s: string): seq<Bit>
    requires AllValid(s)
  {
    Flatten(ValuesOf(s), 5)[8 * (5 * |s| / 8)..]
  }

  lemma ReencodedTail(s: string)
    requires AllValid(s) && CrockfordEncode(CrockfordDecode(s).value) == s
    ensures 5 * |s| % 8 < 5 && Leftover(s) == Zeros(5 * |s| % 8)
  {
    hide Quintets, Octets, Letters, Flatten, AllValid, Quintet, Octet;
    var data := CrockfordDecode(s).value;
    var bits := Flatten(ValuesOf(s), 5);
    var kept := bits[..8 * (|bits| / 8)];
    OctetsFit(bits);
    GroupsBits(data);
    LettersRoundTrip(Groups(data));
    assert PadToFive(kept) == bits;
    assert Leftover(s) == PadToFive(kept)[|kept|..];
  }

  lemma CleanTailReencodes(s: string)
    requires AllValid(s) && 5 * |s| % 8 < 5 && Leftover(s) == Zeros(5 * |s| % 8)
    ensures CrockfordEncode(CrockfordDecode(s).value) == s
  {
    hide Quintets, Octets, Letters, Flatten, AllValid, Quintet, Octet;
    var data := CrockfordDecode(s).value;
    var bits := Flatten(ValuesOf(s), 5);
    var kept := bits[..8 * (|bits| / 8)];
    OctetsFit(bits);
    GroupsBits(data);
    ValuesRoundTrip(s);
    Powers();
    assert bits == kept + Leftover(s);
    assert PadToFive(kept) == kept + Leftover(s);
    FlattenInjective(Groups(data), ValuesOf(s), 5);
  }

  /** Encoding undoes decoding exactly when the input has no superfluous character and the
      bits left over are zero. */
  lemma EncodeUndoesDecodeExactly(s: string)
    requires AllValid(s)
    ensures CrockfordEncode(CrockfordDecode(s).value) == s <==>
      5 * |s| % 8 < 5 && Leftover(s) == Zeros(5 * |s| % 8)
  {
    hide Octets, Flatten, Zeros, Leftover, CrockfordEncode, ValuesOf;
    if CrockfordEncode(CrockfordDecode(s).value) == s {
      ReencodedTail(s);
    }
    if 5 * |s| % 8 < 5 && Leftover(s) == Zeros(5 * |s| % 8) {
      CleanTailReencodes(s);
    }
  }

  /** A superfluous character: "0" decodes, and no bytes encode to it. */
  lemma SuperfluousCharacterAccepted()
    ensures CrockfordDecode("0") == Success([])
    ensures forall data: Bytes :: CrockfordEncode(data) != "0"
  {
    assert CrockfordValue("0"[0]) == Some(0);
    assert CrockfordEncode([]) == "";
    forall data: Bytes ensures CrockfordEncode(data) != "0" { DecodeUndoesEncode(data); }
  }

  /** Left-over bits that are not zero: "01" and "00" decode alike. */
  lemma LeftoverBitsAccepted()
    ensures CrockfordDecode("01") == CrockfordDecode("00") == Success([0]) && CrockfordEncode([0]) == "00"
  {
    LeftoverDecodes(0);
    LeftoverDecodes(1);
    EncodeUndoesDecodeExactly("00");
    LastBits(0);
  }

  lemma LeftoverDecodes(value: nat)
    requires value < 2
    ensures CrockfordDecode(['0', CROCKFORD_ALPHABET[value]]) == Success([0])
  {
    var s := ['0', CROCKFORD_ALPHABET[value]];
    ValueOfLetter(0);
    ValueOfLetter(value);
    assert ValuesOf(s) == [0, value];
    FirstBits(value);
    var bits := Flatten(ValuesOf(s), 5);
    assert |bits| == 10;
    assert bits[8 * 0..8 * 0 + 8] == Zeros(8);
    ZerosAreZero(8);
    assert s[0] == CROCKFORD_ALPHABET[0] && AllValid(s);
    assert Octets(bits)[0] == Octet(Zeros(8)) == 0;
    assert Octets(bits) == [0];
  }

  lemma FirstBits(value: nat)
    requires value < 2
    ensures forall j :: 0 <= j < 8 ==> Flatten([0, value], 5)[j] == 0
  {
    forall j | 0 <= j < 8 ensures Flatten([0, value], 5)[j] == 0 {
      FlattenAt([0, value], 5, j / 5, j % 5);
      BitAt([0, value][j / 5], 5, j % 5);
      assert Pow2(1) == 2 && Pow2(2) == 4 && Pow2(3) == 8 && Pow2(4) == 16;
    }
  }

  lemma {:induction false} ZerosAreZero(n: nat)
    ensures FromBits(Zeros(n)) == 0
  {
    if n > 0 {
      ZerosAreZero(n - 1);
      assert Zeros(n)[..n - 1] == Zeros(n - 1);
    }
  }

  lemma LastBits(value: nat)
    requires value == 0
    ensures Leftover("00") == Zeros(2) && AllValid("00")
  {
    ValueOfLetter(0);
    assert ValuesOf("00") == [0, 0];
    forall j | 8 <= j < 10 ensures Flatten([0, 0], 5)[j] == 0 {
      FlattenAt([0, 0], 5, 1, j - 5);
      BitAt(0, 5, j - 5);
    }
  }

  /** So 32-character strings over the alphabet and 20-byte arrays are in bijection. */
  lemma IdsAreTwentyBytes(s: string)
    requires |s| == 32 && ValidateCrockford(s).Success?
    ensures
      var r := CrockfordDecode(s);
      r.Success? && |r.value| == 20 && CrockfordEncode(r.value) == s
  {
    ValidatorExact(s);
    EncodeUndoesDecodeExactly(s);
    assert Leftover(s) == Zeros(0);
  }

  lemma TwentyBytesAreIds(data: Bytes)
    requires |data| == 20
    ensures
      var s := CrockfordEncode(data);
      |s| == 32 && ValidateCrockford(s).Success? && CrockfordDecode(s) == Success(data)
  {
    DecodeUndoesEncode(data);
    ValidatorExact(CrockfordEncode(data));
  }

  /** The validator accepts exactly the non-empty strings the decoder accepts. */
  lemma ValidatorExact(s: string)
    ensures ValidateCrockford(s).Success? <==> s != "" && CrockfordDecode(s).Success?
  {
    forall ch: char ensures IsBase32Lower(ch) <==> CrockfordValue(ch).Some? { }
  }

  // ----- the codec, as the loops that compute it ---------------------------------------------------

  lemma FromPush(bits: seq<Bit>, bit: Bit)
    ensures FromBits(bits + [bit]) == 2 * FromBits(bits) + bit
  {
    assert (bits + [bit])[..|bits|] == bits;
  }

  /** What the encoder reads by bit index is the padded bit string. */
  lemma PaddedBit(data: Bytes, k: nat)
    requires k < |PadToFive(Flatten(data, 8))|
    ensures PadToFive(Flatten(data, 8))[k] ==
      if k < 8 * |data| then data[k / 8] / Pow2(7 - k % 8) % 2 else 0
  {
    if k < 8 * |data| {
      FlattenAt(data, 8, k / 8, k % 8);
      BitAt(data[k / 8], 8, k % 8);
    }
  }

  method EncodeBase32(data: Bytes) returns (result: string)
    ensures result == CrockfordEncode(data)
  {
    hide Flatten, PadToFive, CrockfordEncode, FromBits, Pow2, ToBits;
    EncodedLength(data);
    ghost var padded := PadToFive(Flatten(data, 8));
    result := "";
    var totalBits := |data| * 8;
    var groups := (totalBits + 4) / 5;
    assert |padded| == 5 * groups;
    for group := 0 to groups
      invariant result == CrockfordEncode(data)[..group]
    {
      var value := 0;
      assert padded[5 * group..5 * group] == [];
      for bit := 0 to 5
        invariant value == FromBits(padded[5 * group..5 * group + bit])
      {
        var bitIndex := group * 5 + bit;
        PaddedBit(data, bitIndex);
        var bitValue := 0;
        if bitIndex < totalBits {
          var shift := 7 - bitIndex % 8;
          bitValue := data[bitIndex / 8] / Pow2(shift) % 2;
        }
        FromPush(padded[5 * group..5 * group + bit], bitValue);
        assert padded[5 * group..5 * group + bit] + [bitValue] == padded[5 * group..5 * group + bit + 1];
        value := value * 2 + bitValue;
      }
      GroupIs(data, group, value);
      result := result + [CROCKFORD_ALPHABET[value]];
    }
    assert CrockfordEncode(data)[..groups] == CrockfordEncode(data);
  }

  lemma EncodedLength(data: Bytes)
    ensures |CrockfordEncode(data)| == (8 * |data| + 4) / 5 && FromBits([]) == 0
  {
    hide Flatten;
  }

  lemma GroupIs(data: Bytes, group: nat, value: nat)
    requires
      var padded := PadToFive(Flatten(data, 8));
      group < |padded| / 5 && value == FromBits(padded[5 * group..5 * group + 5])
    ensures value < 32 && group < |CrockfordEncode(data)| && CrockfordEncode(data)[group] == CROCKFORD_ALPHABET[value]
  {
    QuintetAt(PadToFive(Flatten(data, 8)), group);
  }

  const TWO_32: nat := 0x1_0000_0000

  /** `(buffer << 5) | value` on 32 bits. */
  function PushQuintet(buffer: nat, value: nat): (shifted: nat)
    requires value < 32
    ensures shifted < TWO_32
  {
    buffer * 32 % TWO_32 + value
  }

  /** `(buffer >> bits) & 0xff`. */
  function ByteAbove(buffer: nat, bits: nat): Byte {
    buffer / Pow2(bits) % 256
  }

  lemma ModuloDivides(x: nat, p: nat, m: nat)
    requires p > 0 && m > 0
    ensures p * m > 0 && x % (p * m) % p == x % p
  {
    MultipleBounds(p, m);
    var q, r := x / (p * m), x % (p * m);
    var q2, r2 := r / p, r % p;
    assert x == p * m * q + r && r == p * q2 + r2;
    assert p * m * q == p * (m * q);
    QuotientUnique(x, p, m * q + q2, r2);
  }

  lemma {:induction false} FromBelow(bits: seq<Bit>)
    ensures FromBits(bits) < Pow2(|bits|)
  {
    ToFrom(bits);
  }

  lemma ScaleModulo(x: nat, p: nat, m: nat)
    requires p > 0 && m > 0
    ensures p * m > 0 && x * m % (p * m) == x % p * m
  {
    MultipleBounds(p, m);
    var q, r := x / p, x % p;
    assert r * m < p * m by {
      MultipleBounds(m, p - r);
      Distribute(p - r, r, m);
    }
    assert x * m == (p * m) * q + r * m by {
      assert x == p * q + r;
      Distribute(p * q, r, m);
      assert p * q * m == (p * m) * q;
    }
    QuotientUnique(x * m, p * m, q, r * m);
  }

  lemma Distribute(a: int, b: int, m: int)
    ensures (a + b) * m == a * m + b * m
  {
  }

  lemma U32Splits(k: nat)
    requires k <= 32
    ensures TWO_32 == Pow2(k) * Pow2(32 - k)
  {
    hide Pow2;
    Powers();
    PowersAdd(8, 8);
    assert Pow2(16) == 65536;
    PowersAdd(16, 16);
    PowersAdd(k, 32 - k);
  }

  lemma ShiftModulo(x: nat, p: nat, rest: nat, low: nat)
    requires p > 0 && rest > 0 && TWO_32 == p * 32 * rest && low < 32
    ensures p * 32 > 0 && (x * 32 % TWO_32 + low) % (p * 32) == x % p * 32 + low
  {
    var shifted := x * 32 % TWO_32;
    ModuloDivides(x * 32, p * 32, rest);
    ScaleModulo(x, p, 32);
    assert shifted % (p * 32) == x % p * 32;
    QuotientUnique(shifted + low, p * 32, shifted / (p * 32), x % p * 32 + low);
  }

  /** Shifting a character into the 32-bit buffer, whose top bits fall off, keeps the pending bits. */
  lemma ShiftIn(buffer: nat, pending: seq<Bit>, val: nat)
    requires |pending| < 8 && buffer % Pow2(|pending|) == FromBits(pending) && val < 32
    ensures
      PushQuintet(buffer, val) % Pow2(|pending| + 5) == FromBits(pending + ToBits(val, 5))
  {
    hide Pow2, FromBits, ToBits;
    var n := |pending|;
    Powers();
    PowersAdd(n, 5);
    U32Splits(n + 5);
    ShiftModulo(buffer, Pow2(n), Pow2(27 - n), val);
    FromAppend(pending, ToBits(val, 5));
    FromTo(val, 5);
  }

  lemma SplitByte(x: nat, p: nat, octet: nat, rest: nat)
    requires p > 0 && octet < 256 && rest < p && x % (256 * p) == octet * p + rest
    ensures x / p % 256 == octet && x % p == rest
  {
    var q := x / (256 * p);
    assert x == p * (256 * q + octet) + rest by {
      assert x == (256 * p) * q + x % (256 * p);
      assert (256 * p) * q == p * (256 * q);
    }
    QuotientUnique(x, p, 256 * q + octet, rest);
  }

  /** Taking the byte above the lowest bits leaves those bits pending. */
  lemma ShiftOut(buffer: nat, octet: seq<Bit>, rest: seq<Bit>)
    requires |octet| == 8 && buffer % Pow2(8 + |rest|) == FromBits(octet + rest)
    ensures ByteAbove(buffer, |rest|) == Octet(octet) && buffer % Pow2(|rest|) == FromBits(rest)
  {
    hide Pow2, FromBits;
    Powers();
    PowersAdd(8, |rest|);
    FromAppend(octet, rest);
    FromBelow(octet);
    FromBelow(rest);
    SplitByte(buffer, Pow2(|rest|), FromBits(octet), FromBits(rest));
  }

  lemma OctetsGrow(bits: seq<Bit>, octet: seq<Bit>)
    requires |bits| % 8 == 0 && |octet| == 8
    ensures Octets(bits + octet) == Octets(bits) + [Octet(octet)]
  {
    hide Octet;
    var all := bits + octet;
    forall i | 0 <= i < |bits| / 8 ensures Octets(all)[i] == Octets(bits)[i] {
      assert all[8 * i..8 * i + 8] == bits[8 * i..8 * i + 8];
    }
    assert all[|bits|..|bits| + 8] == octet;
  }

  lemma OctetsIgnoreTail(bits: seq<Bit>, tail: seq<Bit>)
    requires |bits| % 8 == 0 && |tail| < 8
    ensures Octets(bits + tail) == Octets(bits)
  {
    hide Octet;
    forall i | 0 <= i < |bits| / 8 ensures Octets(bits + tail)[i] == Octets(bits)[i] {
      assert (bits + tail)[8 * i..8 * i + 8] == bits[8 * i..8 * i + 8];
    }
  }

  lemma FlattenGrows(s: string, k: nat)
    requires k < |s| && AllValid(s[..k + 1])
    ensures AllValid(s[..k]) && s[k] == s[..k + 1][k]
    ensures Flatten(ValuesOf(s[..k + 1]), 5) == Flatten(ValuesOf(s[..k]), 5) + ToBits(CrockfordValue(s[k]).value, 5)
  {
    assert forall i :: 0 <= i < k ==> s[..k][i] == s[..k + 1][i];
    assert ValuesOf(s[..k + 1])[..k] == ValuesOf(s[..k]);
  }

  method DecodeBase32(s: string) returns (r: Result<Bytes, EncodingError>)
    ensures r == CrockfordDecode(s)
  {
    hide Octets, Octet, Flatten, ValuesOf, CrockfordValue, Pow2, FromBits, ToBits, PushQuintet, ByteAbove;
    var buffer, bits, out := 0, 0, [];
    ghost var done: seq<Bit>, pending: seq<Bit> := [], [];
    Start();
    for k := 0 to |s|
      invariant AllValid(s[..k]) && 0 <= buffer < TWO_32
      invariant done + pending == Flatten(ValuesOf(s[..k]), 5) && |done| % 8 == 0 && out == Octets(done)
      invariant bits == |pending| < 8 && buffer % Pow2(bits) == FromBits(pending)
    {
      assert AllValid(s) ==> CrockfordValue(s[k]).Some?;
      var value := CrockfordValue(s[k]);
      if value.None? {
        return Failure(InvalidCharacter);
      }
      LetterOfValue(s[k]);
      FlattenGrows(s, k);
      ShiftIn(buffer, pending, value.value);
      buffer := PushQuintet(buffer, value.value);
      bits := bits + 5;
      pending := pending + ToBits(value.value, 5);
      while bits >= 8
        invariant 0 <= bits == |pending| && |done| % 8 == 0 && out == Octets(done)
        invariant done + pending == Flatten(ValuesOf(s[..k + 1]), 5)
        invariant buffer % Pow2(bits) == FromBits(pending)
      {
        assert pending[..8] + pending[8..] == pending;
        ShiftOut(buffer, pending[..8], pending[8..]);
        OctetsGrow(done, pending[..8]);
        bits := bits - 8;
        out := out + [ByteAbove(buffer, bits)];
        done, pending := done + pending[..8], pending[8..];
      }
    }
    OctetsIgnoreTail(done, pending);
    assert s[..|s|] == s;
    r := Success(out);
  }

  lemma Start()
    ensures AllValid("") && Flatten(ValuesOf(""), 5) == [] && Octets([]) == []
    ensures Pow2(0) == 1 && FromBits([]) == 0
  {
  }

  method ValidateBase32(s: string) returns (r: Result<(), EncodingError>)
    ensures r == ValidateCrockford(s)
  {
    if s == "" {
      return Failure(EmptyBase32);
    }
    for k := 0 to |s|
      invariant forall i :: 0 <= i < k ==> IsBase32Lower(s[i])
    {
      if !IsBase32Lower(s[k]) {
        return Failure(InvalidCharacter);
      }
    }
    r := Success(());
  }
}

/** Reading the mapped address out of a STUN binding response, `nat.rs`. */
module Stun {
  import opened Wrappers
  import opened Bytes
  import Encoding

  const BINDING_RESPONSE: nat := 0x0101
  const MAGIC_COOKIE: nat := 0x2112A442
  const MAPPED_ADDRESS: nat := 0x0001
  const XOR_MAPPED_ADDRESS: nat := 0x0020
  const IPV4: Byte := 0x01
  const IPV6: Byte := 0x02

  /** An IPv4 socket address; the host as the big-endian integer of its four octets. */
  datatype SocketAddress = SocketAddress(host: U32, port: U16)

  datatype StunError =
    | TooShort | NotBindingResponse | Truncated | BadMagic | NoMappedAddress
    | AddressTooShort | Ipv6Unsupported | UnknownFamily

  // ----- exclusive or ---------------------------------------------------------------------

  /** Exclusive or of the low `w` bits. */
  function Xor(a: nat, b: nat, w: nat): (x: nat)
    ensures x < Pow2(w)
  {
    if w == 0 then 0 else 2 * Xor(a / 2, b / 2, w - 1) + if a % 2 == b % 2 then 0 else 1
  }

  lemma {:induction false} XorTwice(a: nat, b: nat, w: nat)
    requires a < Pow2(w)
    ensures Xor(Xor(a, b, w), b, w) == a
  {
    if w > 0 {
      XorTwice(a / 2, b / 2, w - 1);
      var high, low := Xor(a / 2, b / 2, w - 1), if a % 2 == b % 2 then 0 else 1;
      assert Xor(a, b, w) / 2 == high && Xor(a, b, w) % 2 == low;
    }
  }

  /** Bit by bit: a bit is set where exactly one of the two has it set. */
  lemma {:induction false} XorBit(a: nat, b: nat, w: nat, i: nat)
    requires i < w
    ensures Xor(a, b, w) / Pow2(i) % 2 == 1 <==> a / Pow2(i) % 2 != b / Pow2(i) % 2
    decreases w
  {
    XorHalves(a, b, w);
    hide Xor;
    if i > 0 {
      XorBit(a / 2, b / 2, w - 1, i - 1);
      assert Pow2(i) == 2 * Pow2(i - 1);
      hide Pow2;
      Encoding.DivideTwice(a, Pow2(i - 1));
      Encoding.DivideTwice(b, Pow2(i - 1));
      Encoding.DivideTwice(Xor(a, b, w), Pow2(i - 1));
    }
  }

  lemma XorHalves(a: nat, b: nat, w: nat)
    requires w > 0
    ensures Xor(a, b, w) / 2 == Xor(a / 2, b / 2, w - 1)
    ensures Xor(a, b, w) % 2 == 1 <==> a % 2 != b % 2
  {
  }

  function Xor16(a: U16, b: U16): U16 {
    Powers();
    Xor(a, b, 16)
  }

  function Xor32(a: U32, b: U32): U32 {
    Powers();
    Xor(a, b, 32)
  }

  // ----- the parser ------------------------------------------------------------------------

  /** The address under the mask of the magic cookie. */
  function Masked(a: SocketAddress): SocketAddress {
    SocketAddress(Xor32(a.host, MAGIC_COOKIE), Xor16(a.port, MAGIC_COOKIE / 0x1_0000))
  }

  /** The mask of RFC 5389, section 15.2, bit by bit: the cookie on the host, and its high half on
      the port. */
  lemma MaskExactly(a: SocketAddress, i: nat)
    ensures i < 32 ==> (Masked(a).host / Pow2(i) % 2 == 1 <==> a.host / Pow2(i) % 2 != 0x2112A442 / Pow2(i) % 2)
    ensures i < 16 ==> (Masked(a).port / Pow2(i) % 2 == 1 <==> a.port / Pow2(i) % 2 != 0x2112 / Pow2(i) % 2)
  {
    hide Xor, Pow2;
    if i < 32 {
      XorBit(a.host, MAGIC_COOKIE, 32, i);
    }
    if i < 16 {
      XorBit(a.port, 0x2112, 16, i);
    }
  }

  function ParseXorMapped(data: Bytes): Result<SocketAddress, StunError> {
    if |data| < 8 then Failure(AddressTooShort)
    else if data[1] == IPV4 then
      Success(Masked(SocketAddress(ReadU32(data[4..8]), ReadU16(data[2..4]))))
    else if data[1] == IPV6 then Failure(Ipv6Unsupported)
    else Failure(UnknownFamily)
  }

  function ParseMapped(data: Bytes): Result<SocketAddress, StunError> {
    if |data| < 8 then Failure(AddressTooShort)
    else if data[1] == IPV4 then Success(SocketAddress(ReadU32(data[4..8]), ReadU16(data[2..4])))
    else if data[1] == IPV6 then Failure(Ipv6Unsupported)
    else Failure(UnknownFamily)
  }

  /** The length rounded up to a multiple of four. */
  function Padded(length: nat): (padded: nat)
    ensures length <= padded < length + 4 && padded % 4 == 0
  {
    (length + 3) / 4 * 4
  }

  /** The attribute walk from an offset to the declared end. */
  function Walk(response: Bytes, offset: nat, end: nat): Result<SocketAddress, StunError>
    requires end <= |response|
    decreases end - offset
  {
    if offset + 4 > end then Failure(NoMappedAddress)
    else
      var kind := ReadU16(response[offset..offset + 2]);
      var length := ReadU16(response[offset + 2..offset + 4]);
      if offset + 4 + length > end then Failure(NoMappedAddress)
      else
        var value := response[offset + 4..offset + 4 + length];
        if kind == XOR_MAPPED_ADDRESS then ParseXorMapped(value)
        else if kind == MAPPED_ADDRESS then ParseMapped(value)
        else Walk(response, offset + 4 + Padded(length), end)
  }

  function Parse(response: Bytes): Result<SocketAddress, StunError> {
    if |response| < 20 then Failure(TooShort)
    else if ReadU16(response[0..2]) != BINDING_RESPONSE then Failure(NotBindingResponse)
    else
      var length := ReadU16(response[2..4]);
      if |response| < 20 + length then Failure(Truncated)
      else if ReadU32(response[4..8]) != MAGIC_COOKIE then Failure(BadMagic)
      else Walk(response, 20, 20 + length)
  }

  /** Terminates, and reads inside the buffer, on every input. */
  method ParseStunResponse(response: Bytes) returns (r: Result<SocketAddress, StunError>)
    ensures r == Parse(response)
  {
    hide ReadU16, ReadU32, ParseXorMapped, ParseMapped;
    if |response| < 20 {
      return Failure(TooShort);
    }
    if ReadU16(response[0..2]) != BINDING_RESPONSE {
      return Failure(NotBindingResponse);
    }
    var messageLength: nat := ReadU16(response[2..4]);
    if |response| < 20 + messageLength {
      return Failure(Truncated);
    }
    if ReadU32(response[4..8]) != MAGIC_COOKIE {
      return Failure(BadMagic);
    }
    var offset := 20;
    var end := 20 + messageLength;
    while offset + 4 <= end
      invariant 20 <= offset && Walk(response, offset, end) == Walk(response, 20, end)
      decreases end - offset
    {
      var kind := ReadU16(response[offset..offset + 2]);
      var length := ReadU16(response[offset + 2..offset + 4]);
      assert offset + 4 + length <= end ==>
        response[offset + 4..offset + 4 + length] == response[offset + 4..][..length];
      offset := offset + 4;
      if offset + length > end {
        break;
      }
      if kind == XOR_MAPPED_ADDRESS {
        return ParseXorMapped(response[offset..offset + length]);
      } else if kind == MAPPED_ADDRESS {
        return ParseMapped(response[offset..offset + length]);
      }
      offset := offset + Padded(length);
    }
    r := Failure(NoMappedAddress);
  }

  // ----- messages as they are laid out ------------------------------------------------------

  type Value = b: Bytes | |b| < 0x1_0000 witness []

  /** An attribute and the bytes, of any value, that fill it up to a multiple of four. */
  datatype Attribute = Attribute(kind: U16, value: Value, padding: Bytes)

  predicate WellPadded(attributes: seq<Attribute>) {
    forall i :: 0 <= i < |attributes| ==>
      |attributes[i].value| + |attributes[i].padding| == Padded(|attributes[i].value|)
  }

  function LayoutOne(a: Attribute): Bytes {
    ToBigEndian(a.kind, 2) + (ToBigEndian(|a.value|, 2) + (a.value + a.padding))
  }

  function Layout(attributes: seq<Attribute>): Bytes {
    if attributes == [] then [] else LayoutOne(attributes[0]) + Layout(attributes[1..])
  }

  type TransactionId = b: Bytes | |b| == 12 witness seq(12, _ => 0)

  /** A binding response (RFC 5389, sections 6 and 15), and whatever follows it in the buffer. */
  function Message(attributes: seq<Attribute>, id: TransactionId, extra: Bytes): Bytes {
    ToBigEndian(BINDING_RESPONSE, 2) + (ToBigEndian(|Layout(attributes)|, 2) +
      (ToBigEndian(MAGIC_COOKIE, 4) + (id + (Layout(attributes) + extra))))
  }

  predicate IsAddress(a: Attribute) {
    a.kind == XOR_MAPPED_ADDRESS || a.kind == MAPPED_ADDRESS
  }

  /** The first mapped address of either kind. */
  function FirstAddress(attributes: seq<Attribute>): Option<Attribute> {
    if attributes == [] then None
    else if IsAddress(attributes[0]) then Some(attributes[0])
    else FirstAddress(attributes[1..])
  }

  function Read(found: Option<Attribute>): Result<SocketAddress, StunError> {
    if found.None? then Failure(NoMappedAddress)
    else if found.value.kind == XOR_MAPPED_ADDRESS then ParseXorMapped(found.value.value)
    else ParseMapped(found.value.value)
  }

  /** Where the fields of the attribute at an offset lie. */
  lemma AttributeAt(response: Bytes, offset: nat, a: Attribute, rest: Bytes)
    requires offset <= |response| && response[offset..] == LayoutOne(a) + rest
    requires |a.value| + |a.padding| == Padded(|a.value|)
    ensures
      var n := |a.value|;
      offset + 4 + Padded(n) <= |response| &&
      ReadU16(response[offset..offset + 2]) == a.kind && ReadU16(response[offset + 2..offset + 4]) == n &&
      response[offset + 4..offset + 4 + n] == a.value && response[offset + 4 + Padded(n)..] == rest
  {
    hide ToBigEndian, ReadU16;
    var kind, length := ToBigEndian(a.kind, 2), ToBigEndian(|a.value|, 2);
    assert LayoutOne(a) + rest == kind + (length + (a.value + (a.padding + rest)));
    Part(response, offset, kind, length + (a.value + (a.padding + rest)));
    Part(response, offset + 2, length, a.value + (a.padding + rest));
    Part(response, offset + 4, a.value, a.padding + rest);
    Part(response, offset + 4 + |a.value|, a.padding, rest);
    U16RoundTrips(a.kind);
    U16RoundTrips(|a.value|);
  }

  lemma {:induction false} WalkReads(response: Bytes, offset: nat, end: nat, attributes: seq<Attribute>, extra: Bytes)
    requires WellPadded(attributes) && offset <= end <= |response|
    requires response[offset..] == Layout(attributes) + extra && end == offset + |Layout(attributes)|
    ensures Walk(response, offset, end) == Read(FirstAddress(attributes))
    decreases |attributes|
  {
    hide ReadU16, ParseXorMapped, ParseMapped;
    if attributes != [] {
      var a, rest := attributes[0], attributes[1..];
      assert LayoutOne(a) + Layout(rest) + extra == LayoutOne(a) + (Layout(rest) + extra);
      AttributeAt(response, offset, a, Layout(rest) + extra);
      assert |LayoutOne(a)| == 4 + Padded(|a.value|);
      if !IsAddress(a) {
        WalkReads(response, offset + 4 + Padded(|a.value|), end, rest, extra);
      }
    }
  }

  // ----- main results ---------------------------------------------------------------------------

  /** Of a well laid out response the parser returns the first mapped address of either kind,
      whatever the padding, the transaction and the bytes behind the message are. */
  lemma ParseReadsFirstAddress(attributes: seq<Attribute>, id: TransactionId, extra: Bytes)
    requires WellPadded(attributes) && |Layout(attributes)| < 0x1_0000
    ensures Parse(Message(attributes, id, extra)) == Read(FirstAddress(attributes))
  {
    hide ToBigEndian, ReadU16, ReadU32, Layout, Walk, Read, FirstAddress;
    var b, body := Message(attributes, id, extra), Layout(attributes) + extra;
    var kind, magic := ToBigEndian(BINDING_RESPONSE, 2), ToBigEndian(MAGIC_COOKIE, 4);
    var length := ToBigEndian(|Layout(attributes)|, 2);
    assert b[0..] == b;
    Part(b, 0, kind, length + (magic + (id + body)));
    Part(b, 2, length, magic + (id + body));
    Part(b, 4, magic, id + body);
    Part(b, 8, id, body);
    U16RoundTrips(BINDING_RESPONSE);
    U16RoundTrips(|Layout(attributes)|);
    U32RoundTrips(MAGIC_COOKIE);
    WalkReads(b, 20, 20 + |Layout(attributes)|, attributes, extra);
  }

  /** The value of an address attribute, plain (RFC 5389, section 15.1) or masked by the magic
      cookie (section 15.2). */
  function MappedValue(a: SocketAddress): Value {
    [0, IPV4] + (ToBigEndian(a.port, 2) + ToBigEndian(a.host, 4))
  }

  function XorMappedValue(a: SocketAddress): Value {
    MappedValue(Masked(a))
  }

  lemma MappedFields(a: SocketAddress)
    ensures
      var v := MappedValue(a);
      |v| == 8 && v[1] == IPV4 && ReadU16(v[2..4]) == a.port && ReadU32(v[4..8]) == a.host
  {
    hide ToBigEndian, ReadU16, ReadU32;
    var v := MappedValue(a);
    Part(v, 2, ToBigEndian(a.port, 2), ToBigEndian(a.host, 4));
    assert v[4..8] == v[4..];
    U16RoundTrips(a.port);
    U32RoundTrips(a.host);
  }

  /** The mask is undone, and a plain address is read as it is. */
  lemma AddressesReadBack(a: SocketAddress)
    ensures ParseMapped(MappedValue(a)) == Success(a)
    ensures ParseXorMapped(XorMappedValue(a)) == Success(a)
  {
    hide ReadU16, ReadU32, Xor, MappedValue;
    MappedFields(a);
    MappedFields(Masked(a));
    Powers();
    XorTwice(a.host, MAGIC_COOKIE, 32);
    XorTwice(a.port, MAGIC_COOKIE / 0x1_0000, 16);
  }

  function XorMapped(a: SocketAddress): Attribute {
    Attribute(XOR_MAPPED_ADDRESS, XorMappedValue(a), [])
  }

  function Mapped(a: SocketAddress): Attribute {
    Attribute(MAPPED_ADDRESS, MappedValue(a), [])
  }

  lemma {:induction false} FirstAfter(before: seq<Attribute>, a: Attribute, after: seq<Attribute>)
    requires IsAddress(a) && forall i :: 0 <= i < |before| ==> !IsAddress(before[i])
    ensures FirstAddress(before + [a] + after) == Some(a)
  {
    if before != [] {
      FirstAfter(before[1..], a, after);
      assert (before + [a] + after)[1..] == before[1..] + [a] + after;
    }
  }

  /** A server that answers with an address, masked or plain, after any other attributes is
      understood; what comes later, another address included, makes no difference. */
  lemma AnswerUnderstood(before: seq<Attribute>, a: SocketAddress, masked: bool, after: seq<Attribute>,
                         id: TransactionId, extra: Bytes)
    requires forall i :: 0 <= i < |before| ==> !IsAddress(before[i])
    requires
      var all := before + [if masked then XorMapped(a) else Mapped(a)] + after;
      WellPadded(all) && |Layout(all)| < 0x1_0000
    ensures Parse(Message(before + [if masked then XorMapped(a) else Mapped(a)] + after, id, extra)) == Success(a)
  {
    hide Layout, Parse, Message, ParseXorMapped, ParseMapped, MappedValue;
    var answer := if masked then XorMapped(a) else Mapped(a);
    ParseReadsFirstAddress(before + [answer] + after, id, extra);
    FirstAfter(before, answer, after);
    AddressesReadBack(a);
  }

  /** Hence a masked address is not preferred: a plain one in front of it is returned. */
  lemma PlainFirstWins(plain: SocketAddress, masked: SocketAddress, id: TransactionId)
    ensures Parse(Message([Mapped(plain), XorMapped(masked)], id, [])) == Success(plain)
  {
    hide Parse, Message, ToBigEndian;
    var all := [] + [Mapped(plain)] + [XorMapped(masked)];
    assert all == [Mapped(plain), XorMapped(masked)];
    assert all[1..] == [XorMapped(masked)] && all[1..][1..] == [];
    assert |LayoutOne(all[0])| == 12 && |LayoutOne(all[1])| == 12;
    assert Layout(all[1..]) == LayoutOne(all[1]) + Layout([]);
    assert |Layout(all)| == 24;
    AnswerUnderstood([], plain, false, [XorMapped(masked)], id, []);
  }

  lemma {:induction false} WalkStaysInside(response: Bytes, offset: nat, end: nat, extra: Bytes)
    requires end <= |response|
    ensures Walk(response + extra, offset, end) == Walk(response, offset, end)
    decreases end - offset
  {
    hide ReadU16, ParseXorMapped, ParseMapped;
    if offset + 4 <= end {
      var all := response + extra;
      assert all[offset..offset + 2] == response[offset..offset + 2];
      assert all[offset + 2..offset + 4] == response[offset + 2..offset + 4];
      var length := ReadU16(response[offset + 2..offset + 4]);
      if offset + 4 + length <= end {
        assert all[offset + 4..offset + 4 + length] == response[offset + 4..offset + 4 + length];
        WalkStaysInside(response, offset + 4 + Padded(length), end, extra);
      }
    }
  }

  /** On any bytes at all, what lies behind the declared length is never looked at. */
  lemma NothingReadBeyondLength(response: Bytes, extra: Bytes)
    requires |response| >= 4 && |response| >= 20 + ReadU16(response[2..4])
    ensures Parse(response + extra) == Parse(response)
  {
    hide ReadU16, ReadU32, Walk;
    var all := response + extra;
    assert all[0..2] == response[0..2] && all[2..4] == response[2..4] && all[4..8] == response[4..8];
    WalkStaysInside(response, 20, 20 + ReadU16(response[2..4]), extra);
  }
}

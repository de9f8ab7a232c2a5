/** Byte strings: lexicographic order and big-endian integers. */
module Bytes {
  type Byte = b: int | 0 <= b < 256

  type Bytes = seq<Byte>

  /** Rust's order on byte slices: the first difference decides, a proper prefix is smaller. */
  predicate Less(a: Bytes, b: Bytes) {
    if b == [] then false
    else if a == [] then true
    else a[0] < b[0] || (a[0] == b[0] && Less(a[1..], b[1..]))
  }

  predicate LessEq(a: Bytes, b: Bytes) {
    !Less(b, a)
  }

  lemma LessAsymmetric(a: Bytes, b: Bytes)
    requires Less(a, b)
    ensures !Less(b, a)
  {
  }

  lemma {:induction false} LessTrichotomy(a: Bytes, b: Bytes)
    ensures Less(a, b) || a == b || Less(b, a)
  {
    if a != [] && b != [] && a[0] == b[0] {
      LessTrichotomy(a[1..], b[1..]);
      assert a == [a[0]] + a[1..] && b == [b[0]] + b[1..];
    }
  }

  lemma {:induction false} LessTransitive(a: Bytes, b: Bytes, c: Bytes)
    requires Less(a, b) && Less(b, c)
    ensures Less(a, c)
  {
    if a != [] && a[0] == b[0] && b[0] == c[0] {
      LessTransitive(a[1..], b[1..], c[1..]);
    }
  }

  /** The first difference decides, at place `k`; or there is none and `a` ends there. */
  predicate FirstDifference(a: Bytes, b: Bytes, k: nat) {
    k <= |a| && k < |b| && a[..k] == b[..k] && (k == |a| || a[k] < b[k])
  }

  lemma {:induction false} LessExactly(a: Bytes, b: Bytes)
    ensures Less(a, b) <==> exists k: nat :: FirstDifference(a, b, k)
  {
    if a == [] && b != [] {
      assert FirstDifference(a, b, 0);
    } else if a != [] && b != [] {
      LessExactly(a[1..], b[1..]);
      if a[0] < b[0] {
        assert FirstDifference(a, b, 0);
      } else if Less(a, b) {
        var k: nat :| FirstDifference(a[1..], b[1..], k);
        assert a[..k + 1] == [a[0]] + a[1..][..k] && b[..k + 1] == [b[0]] + b[1..][..k];
        assert FirstDifference(a, b, k + 1);
      }
      if k: nat :| FirstDifference(a, b, k) {
        DifferenceInTail(a, b, k);
      }
    }
  }

  lemma DifferenceInTail(a: Bytes, b: Bytes, k: nat)
    requires a != [] && b != [] && FirstDifference(a, b, k)
    ensures a[0] < b[0] || (a[0] == b[0] && k > 0 && FirstDifference(a[1..], b[1..], k - 1))
  {
    if k > 0 {
      assert a[0] == a[..k][0] == b[..k][0] == b[0];
      assert a[1..][..k - 1] == a[..k][1..] && b[1..][..k - 1] == b[..k][1..];
    }
  }

  /** Behind parts of equal length, the parts decide first. */
  lemma {:induction false} LessInParts(a: Bytes, b: Bytes, x: Bytes, y: Bytes)
    requires |a| == |b|
    ensures Less(a + x, b + y) <==> Less(a, b) || (a == b && Less(x, y))
  {
    if a == [] {
      assert a + x == x && b + y == y;
    } else {
      assert (a + x)[1..] == a[1..] + x && (b + y)[1..] == b[1..] + y;
      LessInParts(a[1..], b[1..], x, y);
      assert a == [a[0]] + a[1..] && b == [b[0]] + b[1..];
    }
  }

  // ----- big-endian integers --------------------------------------------------------------

  function Pow256(width: nat): (p: nat)
    ensures p > 0
  {
    if width == 0 then 1 else 256 * Pow256(width - 1)
  }

  /** The low `width` bytes of an integer, most significant first. */
  function ToBigEndian(value: nat, width: nat): (b: Bytes)
    ensures |b| == width
  {
    if width == 0 then [] else ToBigEndian(value / 256, width - 1) + [value % 256]
  }

  function FromBigEndian(b: Bytes): nat {
    if b == [] then 0 else 256 * FromBigEndian(b[..|b| - 1]) + b[|b| - 1]
  }

  lemma {:induction false} FromTo(value: nat, width: nat)
    requires value < Pow256(width)
    ensures FromBigEndian(ToBigEndian(value, width)) == value
  {
    if width > 0 {
      FromTo(value / 256, width - 1);
      var b := ToBigEndian(value, width);
      assert b[..|b| - 1] == ToBigEndian(value / 256, width - 1);
    }
  }

  lemma {:induction false} ToFrom(b: Bytes)
    ensures FromBigEndian(b) < Pow256(|b|) && ToBigEndian(FromBigEndian(b), |b|) == b
  {
    if b != [] {
      ToFrom(b[..|b| - 1]);
      assert b == b[..|b| - 1] + [b[|b| - 1]];
    }
  }

  /** Most significant first: big-endian bytes are ordered as the integers are. */
  lemma {:induction false} BigEndianOrder(a: nat, b: nat, width: nat)
    requires a < Pow256(width) && b < Pow256(width)
    ensures Less(ToBigEndian(a, width), ToBigEndian(b, width)) <==> a < b
  {
    if width > 0 {
      BigEndianOrder(a / 256, b / 256, width - 1);
      FromTo(a / 256, width - 1);
      FromTo(b / 256, width - 1);
      LessInParts(ToBigEndian(a / 256, width - 1), ToBigEndian(b / 256, width - 1), [a % 256], [b % 256]);
    }
  }

  // ----- fixed-width fields -----------------------------------------------------------------

  type U16 = n: nat | n < 0x1_0000 witness 0
  type U32 = n: nat | n < 0x1_0000_0000 witness 0

  lemma Widths()
    ensures Pow256(1) == 0x100 && Pow256(2) == 0x1_0000 && Pow256(4) == 0x1_0000_0000
    ensures Pow256(8) == 0x1_0000_0000_0000_0000
  {
    assert Pow256(3) == 0x100_0000 && Pow256(5) == 0x100_0000_0000 && Pow256(6) == 0x1_0000_0000_0000;
  }

  function ReadU16(b: Bytes): U16
    requires |b| == 2
  {
    ToFrom(b);
    Widths();
    FromBigEndian(b)
  }

  function ReadU32(b: Bytes): U32
    requires |b| == 4
  {
    ToFrom(b);
    Widths();
    FromBigEndian(b)
  }

  lemma U16RoundTrips(value: U16)
    ensures ReadU16(ToBigEndian(value, 2)) == value
  {
    Widths();
    FromTo(value, 2);
  }

  lemma U32RoundTrips(value: U32)
    ensures ReadU32(ToBigEndian(value, 4)) == value
  {
    Widths();
    FromTo(value, 4);
  }

  lemma U32Reencodes(b: Bytes)
    requires |b| == 4
    ensures ToBigEndian(ReadU32(b), 4) == b
  {
    ToFrom(b);
  }

  // ----- reading at a cursor -------------------------------------------------------------------

  /** The part at a cursor, and what lies behind it. */
  lemma Part(b: Bytes, at: nat, part: Bytes, rest: Bytes)
    requires at <= |b| && b[at..] == part + rest
    ensures at + |part| <= |b| && b[at..at + |part|] == part && b[at + |part|..] == rest
  {
    assert b[at..at + |part|] == b[at..][..|part|];
    assert b[at + |part|..] == b[at..][|part|..];
  }

  // ----- powers of two ------------------------------------------------------------------------------

  function Pow2(k: nat): (p: nat)
    ensures p > 0
  {
    if k == 0 then 1 else 2 * Pow2(k - 1)
  }

  lemma {:induction false} PowersAdd(a: nat, b: nat)
    ensures Pow2(a + b) == Pow2(a) * Pow2(b)
  {
    if b > 0 {
      PowersAdd(a, b - 1);
      assert 2 * (Pow2(a) * Pow2(b - 1)) == Pow2(a) * (2 * Pow2(b - 1));
    }
  }

  lemma Powers()
    ensures Pow2(5) == 32 && Pow2(8) == 256 && Pow2(16) == 0x1_0000 && Pow2(32) == 0x1_0000_0000
  {
    assert Pow2(4) == 16 && Pow2(6) == 64;
    BigPowers();
  }

  lemma BigPowers()
    ensures Pow2(8) == 256 ==> Pow2(16) == 0x1_0000 && Pow2(32) == 0x1_0000_0000
  {
    hide Pow2;
    PowersAdd(8, 8);
    PowersAdd(16, 16);
  }
}

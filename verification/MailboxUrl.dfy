/** Percent-encoding and path normalisation of mailbox URLs, `mailbox.rs`. */
module MailboxUrl {
  import opened Wrappers
  import opened Bytes

  const PERCENT: Byte := 0x25
  const SLASH: Byte := 0x2F

  datatype UrlError = TruncatedEscape | InvalidEscape

  // ----- characters ---------------------------------------------------------------------

  predicate IsUnreserved(b: Byte) {
    0x30 <= b <= 0x39 || 0x41 <= b <= 0x5A || 0x61 <= b <= 0x7A || b == 0x2D || b == 0x2E || b == 0x5F || b == 0x7E
  }

  predicate IsHex(b: Byte) {
    0x30 <= b <= 0x39 || 0x41 <= b <= 0x46 || 0x61 <= b <= 0x66
  }

  function HexValue(b: Byte): (v: nat)
    requires IsHex(b)
    ensures v < 16
  {
    if b <= 0x39 then b - 0x30 else if b <= 0x46 then b - 0x41 + 10 else b - 0x61 + 10
  }

  function Uppercase(b: Byte): Byte {
    if 0x61 <= b <= 0x7A then b - 32 else b
  }

  function HexDigit(v: nat): Byte
    requires v < 16
  {
    if v < 10 then 0x30 + v else 0x41 + v - 10
  }

  /** The UTF-8 bytes of the character whose code is the byte. */
  function Utf8(b: Byte): Bytes {
    if b < 0x80 then [b] else [0xC0 + b / 64, 0x80 + b % 64]
  }

  predicate IsAscii(s: Bytes) {
    forall i :: 0 <= i < |s| ==> s[i] < 0x80
  }

  /** Why the escape at the front of a string is refused, or the byte it stands for. */
  function Escape(s: Bytes): (r: Result<Byte, UrlError>)
    requires s != [] && s[0] == PERCENT
    ensures r.Success? ==> |s| >= 3
  {
    if |s| <= 2 then Failure(TruncatedEscape)
    else if !IsHex(s[1]) || !IsHex(s[2]) then Failure(InvalidEscape)
    else Success(16 * HexValue(s[1]) + HexValue(s[2]))
  }

  /** The characters RFC 3986, section 2.3, calls unreserved. */
  lemma UnreservedExactly(b: Byte)
    ensures
      var c := b as char;
      IsUnreserved(b) <==> 'A' <= c <= 'Z' || 'a' <= c <= 'z' || '0' <= c <= '9' || c in "-._~"
  {
  }

  /** Digits in either case are read, and written in upper case. */
  lemma HexExactly(b: Byte, v: nat)
    requires v < 16
    ensures IsHex(b) && HexValue(b) == v <==> b as char == "0123456789abcdef"[v] || b as char == "0123456789ABCDEF"[v]
    ensures HexDigit(v) as char == "0123456789ABCDEF"[v]
  {
  }

  /** RFC 3629, section 3: one byte below 0x80, else a lead and a continuation byte, whose payload
      bits make up the character code. */
  lemma Utf8Reads(b: Byte)
    ensures
      var u := Utf8(b);
      if |u| == 1 then u[0] == b < 0x80
      else |u| == 2 && u[0] / 32 == 6 && u[1] / 64 == 2 && u[0] % 32 * 64 + u[1] % 64 == b >= 0x80
  {
  }

  // ----- normalisation, as a function and as the loop ------------------------------------------

  function Normalize(s: Bytes): Result<Bytes, UrlError> {
    if s == [] then Success([])
    else if s[0] == PERCENT then
      var e := Escape(s);
      if e.Failure? then Failure(e.error)
      else if IsUnreserved(e.value) then After([e.value], Normalize(s[3..]))
      else After([PERCENT, Uppercase(s[1]), Uppercase(s[2])], Normalize(s[3..]))
    else After(Utf8(s[0]), Normalize(s[1..]))
  }

  method NormalizePercentEncoding(s: Bytes) returns (r: Result<Bytes, UrlError>)
    ensures r == Normalize(s)
  {
    hide Utf8, IsUnreserved, HexValue;
    var result: Bytes := [];
    var i := 0;
    assert s[0..] == s && After([], Normalize(s)) == Normalize(s) by { AfterBoth([], [], Normalize(s)); }
    while i < |s|
      invariant 0 <= i <= |s|
      invariant Normalize(s) == After(result, Normalize(s[i..]))
    {
      assert i + 3 <= |s| ==> s[i..][3..] == s[i + 3..];
      assert s[i..][1..] == s[i + 1..];
      if s[i] == PERCENT {
        if i + 2 >= |s| {
          return Failure(TruncatedEscape);
        }
        if !IsHex(s[i + 1]) || !IsHex(s[i + 2]) {
          return Failure(InvalidEscape);
        }
        var value := 16 * HexValue(s[i + 1]) + HexValue(s[i + 2]);
        if IsUnreserved(value) {
          AfterBoth(result, [value], Normalize(s[i + 3..]));
          result := result + [value];
        } else {
          AfterBoth(result, [PERCENT, Uppercase(s[i + 1]), Uppercase(s[i + 2])], Normalize(s[i + 3..]));
          result := result + [PERCENT, Uppercase(s[i + 1]), Uppercase(s[i + 2])];
        }
        i := i + 3;
      } else {
        AfterBoth(result, Utf8(s[i]), Normalize(s[i + 1..]));
        result := result + Utf8(s[i]);
        i := i + 1;
      }
    }
    assert result + [] == result;
    r := Success(result);
  }

  // ----- what a spelling means -------------------------------------------------------------------

  /** A byte standing for itself, or one whose escape matters. An escaped unreserved byte is the
      byte itself (RFC 3986, section 6.2.2.2); the case of hex digits carries no meaning
      (section 6.2.2.1). */
  datatype Token = Literal(b: Byte) | Escaped(b: Byte)

  function Meaning(s: Bytes): Result<seq<Token>, UrlError> {
    if s == [] then Success([])
    else if s[0] == PERCENT then
      var e := Escape(s);
      if e.Failure? then Failure(e.error)
      else After([if IsUnreserved(e.value) then Literal(e.value) else Escaped(e.value)], Meaning(s[3..]))
    else After([Literal(s[0])], Meaning(s[1..]))
  }

  /** Full percent-decoding. */
  function Decode(s: Bytes): Result<Bytes, UrlError> {
    if s == [] then Success([])
    else if s[0] == PERCENT then
      var e := Escape(s);
      if e.Failure? then Failure(e.error) else After([e.value], Decode(s[3..]))
    else After([s[0]], Decode(s[1..]))
  }

  function Octets(ts: seq<Token>): Bytes {
    if ts == [] then [] else [ts[0].b] + Octets(ts[1..])
  }

  function Spell(t: Token): Bytes {
    match t
    case Literal(b) => Utf8(b)
    case Escaped(b) => [PERCENT, HexDigit(b / 16), HexDigit(b % 16)]
  }

  function SpellAll(ts: seq<Token>): Bytes {
    if ts == [] then [] else Spell(ts[0]) + SpellAll(ts[1..])
  }

  /** No bare percent sign and no needless escape. */
  predicate Proper(t: Token) {
    if t.Literal? then t.b != PERCENT else !IsUnreserved(t.b)
  }

  predicate AllProper(ts: seq<Token>) {
    forall i :: 0 <= i < |ts| ==> Proper(ts[i])
  }

  /** How many literal bytes are not ASCII. */
  function Wide(ts: seq<Token>): nat {
    if ts == [] then 0 else (if ts[0].Literal? && ts[0].b >= 0x80 then 1 else 0) + Wide(ts[1..])
  }

  /** A literal byte from 0x80 on is read back as the two bytes of its UTF-8 form. */
  function Widen(ts: seq<Token>): seq<Token> {
    if ts == [] then []
    else if ts[0].Literal? && ts[0].b >= 0x80 then
      [Literal(Utf8(ts[0].b)[0]), Literal(Utf8(ts[0].b)[1])] + Widen(ts[1..])
    else [ts[0]] + Widen(ts[1..])
  }

  lemma UppercaseDigit(b: Byte)
    requires IsHex(b)
    ensures Uppercase(b) == HexDigit(HexValue(b))
  {
  }

  lemma Nibbles(high: nat, low: nat)
    requires high < 16 && low < 16
    ensures (16 * high + low) / 16 == high && (16 * high + low) % 16 == low
  {
  }

  /** Normalising is spelling out the meaning. */
  lemma {:induction false} NormalizeSpells(s: Bytes)
    ensures Normalize(s).Success? <==> Meaning(s).Success?
    ensures Meaning(s).Success? ==> AllProper(Meaning(s).value) && Normalize(s).value == SpellAll(Meaning(s).value)
    ensures Meaning(s).Failure? ==> Normalize(s).error == Meaning(s).error
  {
    if s != [] {
      if s[0] == PERCENT {
        var e := Escape(s);
        if e.Success? {
          NormalizeSpells(s[3..]);
          Nibbles(HexValue(s[1]), HexValue(s[2]));
          UppercaseDigit(s[1]);
          UppercaseDigit(s[2]);
          var t := if IsUnreserved(e.value) then Literal(e.value) else Escaped(e.value);
          SpellAllFirst(t, if Meaning(s[3..]).Success? then Meaning(s[3..]).value else []);
        }
      } else {
        NormalizeSpells(s[1..]);
        SpellAllFirst(Literal(s[0]), if Meaning(s[1..]).Success? then Meaning(s[1..]).value else []);
      }
    }
  }

  lemma SpellAllFirst(t: Token, ts: seq<Token>)
    ensures SpellAll([t] + ts) == Spell(t) + SpellAll(ts) && Octets([t] + ts) == [t.b] + Octets(ts)
    ensures Wide([t] + ts) == (if t.Literal? && t.b >= 0x80 then 1 else 0) + Wide(ts)
  {
    assert ([t] + ts)[1..] == ts;
  }

  lemma {:induction false} DecodeIsOctets(s: Bytes)
    ensures Decode(s).Success? <==> Meaning(s).Success?
    ensures Meaning(s).Success? ==> Decode(s).value == Octets(Meaning(s).value)
  {
    if s != [] {
      var n := if s[0] == PERCENT then 3 else 1;
      if n <= |s| {
        DecodeIsOctets(s[n..]);
        if Meaning(s).Success? {
          SpellAllFirst(Meaning(s).value[0], Meaning(s[n..]).value);
        }
      }
    }
  }

  lemma {:induction false} AsciiIsNotWide(s: Bytes)
    requires Meaning(s).Success?
    ensures IsAscii(s) <==> Wide(Meaning(s).value) == 0
  {
    if s != [] {
      var n := if s[0] == PERCENT then 3 else 1;
      AsciiIsNotWide(s[n..]);
      SpellAllFirst(Meaning(s).value[0], Meaning(s[n..]).value);
      assert s == s[..n] + s[n..];
      assert IsAscii(s) <==> IsAscii(s[..n]) && IsAscii(s[n..]);
    }
  }

  lemma EscapeSpelled(b: Byte, rest: Bytes)
    ensures
      var s := Spell(Escaped(b)) + rest;
      s[0] == PERCENT && Escape(s) == Success(b) && s[3..] == rest
  {
  }

  lemma ReadEscaped(b: Byte, rest: Bytes)
    requires !IsUnreserved(b)
    ensures Meaning(Spell(Escaped(b)) + rest) == After([Escaped(b)], Meaning(rest))
  {
    EscapeSpelled(b, rest);
    hide Spell, Escape, IsUnreserved;
  }

  lemma ReadLiteral(b: Byte, rest: Bytes)
    requires b != PERCENT
    ensures Meaning([b] + rest) == After([Literal(b)], Meaning(rest))
  {
    hide Escape, IsUnreserved;
    assert ([b] + rest)[1..] == rest;
  }

  lemma ReadWide(b: Byte, rest: Bytes)
    requires b >= 0x80
    ensures Meaning(Utf8(b) + rest) == After([Literal(Utf8(b)[0]), Literal(Utf8(b)[1])], Meaning(rest))
  {
    var u := Utf8(b);
    assert |u| == 2 && u[0] != PERCENT && u[1] != PERCENT;
    hide Utf8, Meaning;
    assert u + rest == [u[0]] + ([u[1]] + rest);
    ReadLiteral(u[0], [u[1]] + rest);
    ReadLiteral(u[1], rest);
    AfterBoth([Literal(u[0])], [Literal(u[1])], Meaning(rest));
    assert [Literal(u[0])] + [Literal(u[1])] == [Literal(u[0]), Literal(u[1])];
  }

  /** Reading back a spelling gives its tokens, except that wide literals fall apart. */
  lemma {:induction false} MeaningOfSpelling(ts: seq<Token>)
    requires AllProper(ts)
    ensures Meaning(SpellAll(ts)) == Success(Widen(ts))
  {
    if ts != [] {
      var t, rest := ts[0], SpellAll(ts[1..]);
      MeaningOfSpelling(ts[1..]);
      assert Proper(t);
      hide Meaning, IsUnreserved;
      if t.Escaped? {
        ReadEscaped(t.b, rest);
      } else if t.b < 0x80 {
        ReadLiteral(t.b, rest);
      } else {
        ReadWide(t.b, rest);
      }
    }
  }

  lemma {:induction false} WidenGrows(ts: seq<Token>)
    ensures |SpellAll(Widen(ts))| == |SpellAll(ts)| + 2 * Wide(ts)
    ensures |Octets(Widen(ts))| == |Octets(ts)| + Wide(ts)
    ensures Wide(ts) == 0 ==> Widen(ts) == ts
  {
    if ts != [] {
      hide Spell, SpellAll, Octets, Wide, Utf8;
      WidenGrows(ts[1..]);
      var rest := Widen(ts[1..]);
      assert ts == [ts[0]] + ts[1..];
      SpellAllFirst(ts[0], ts[1..]);
      if ts[0].Literal? && ts[0].b >= 0x80 {
        WideLiteral(ts[0].b, rest);
      } else {
        SpellAllFirst(ts[0], rest);
      }
    } else {
      assert Widen(ts) == ts;
    }
  }

  /** Two bytes instead of one, each of them wide again. */
  lemma WideLiteral(b: Byte, rest: seq<Token>)
    requires b >= 0x80
    ensures |Utf8(b)| == 2 && |Spell(Literal(b))| == 2
    ensures
      var u := [Literal(Utf8(b)[0]), Literal(Utf8(b)[1])];
      |SpellAll(u + rest)| == 4 + |SpellAll(rest)| && |Octets(u + rest)| == 2 + |Octets(rest)|
  {
    var first, second := Literal(Utf8(b)[0]), Literal(Utf8(b)[1]);
    assert [first, second] + rest == [first] + ([second] + rest);
    SpellAllFirst(first, [second] + rest);
    SpellAllFirst(second, rest);
  }

  /** A percent sign with two hex digits behind it. */
  predicate GoodEscape(s: Bytes, i: nat) {
    i + 2 < |s| && IsHex(s[i + 1]) && IsHex(s[i + 2])
  }

  /** A string is refused exactly if a percent sign somewhere in it is not followed by two hex digits. */
  lemma {:induction false} RefusedExactly(s: Bytes)
    ensures Normalize(s).Success? <==> forall i :: 0 <= i < |s| && s[i] == PERCENT ==> GoodEscape(s, i)
  {
    if s != [] {
      var n := if s[0] == PERCENT then 3 else 1;
      if n <= |s| {
        RefusedExactly(s[n..]);
        forall i | n <= i < |s| ensures s[n..][i - n] == s[i] && (GoodEscape(s, i) <==> GoodEscape(s[n..], i - n)) { }
        forall i | 0 <= i < |s[n..]| ensures s[n..][i] == s[i + n] { }
      }
      assert s[0] == PERCENT && GoodEscape(s, 0) ==> s[1] != PERCENT && s[2] != PERCENT;
    }
  }

  // ----- main results on percent-encoding -----------------------------------------------------------

  /** Normalising twice is normalising once, for exactly the ASCII strings. */
  lemma IdempotentExactly(s: Bytes)
    requires Normalize(s).Success?
    ensures Normalize(Normalize(s).value).Success?
    ensures Normalize(Normalize(s).value) == Normalize(s) <==> IsAscii(s)
  {
    NormalizeSpells(s);
    var ts := Meaning(s).value;
    MeaningOfSpelling(ts);
    NormalizeSpells(Normalize(s).value);
    WidenGrows(ts);
    AsciiIsNotWide(s);
  }

  /** Normalisation keeps the percent-decoded octets, for exactly the ASCII strings. */
  lemma OctetsKeptExactly(s: Bytes)
    requires Normalize(s).Success?
    ensures Decode(s).Success?
    ensures Decode(Normalize(s).value) == Decode(s) <==> IsAscii(s)
  {
    NormalizeSpells(s);
    var ts := Meaning(s).value;
    MeaningOfSpelling(ts);
    DecodeIsOctets(s);
    DecodeIsOctets(Normalize(s).value);
    WidenGrows(ts);
    AsciiIsNotWide(s);
  }

  /** A byte from 0x80 on: normalising makes two bytes of it, and four when done again. */
  lemma WideByteGrows(b: Byte)
    requires b >= 0x80
    ensures Normalize([b]) == Success(Utf8(b)) && |Utf8(b)| == 2
    ensures Normalize(Utf8(b)).Success? && Normalize(Utf8(b)) != Normalize([b])
    ensures Decode([b]) == Success([b]) && Decode(Utf8(b)) != Decode([b])
  {
    assert [b][1..] == [] && Utf8(b) + [] == Utf8(b) && [b] + [] == [b];
    IdempotentExactly([b]);
    OctetsKeptExactly([b]);
    assert !IsAscii([b]) by { assert [b][0] == b; }
  }

  lemma {:induction false} SpellInjective(a: seq<Token>, b: seq<Token>)
    requires AllProper(a) && AllProper(b) && SpellAll(a) == SpellAll(b)
    ensures a == b
    decreases |a|
  {
    SpellsSomething(a);
    SpellsSomething(b);
    if a != [] {
      FirstSpelling(a[0], SpellAll(a[1..]), b[0], SpellAll(b[1..]));
      SpellInjective(a[1..], b[1..]);
      assert a == [a[0]] + a[1..] && b == [b[0]] + b[1..];
    }
  }

  lemma SpellsSomething(ts: seq<Token>)
    ensures ts == [] <==> SpellAll(ts) == []
  {
  }

  lemma FirstSpelling(s: Token, x: Bytes, t: Token, y: Bytes)
    requires Proper(s) && Proper(t) && Spell(s) + x == Spell(t) + y
    ensures s == t && x == y
  {
    var n := |Spell(s)|;
    var whole := Spell(s) + x;
    assert whole[0] == Spell(s)[0] == Spell(t)[0];
    if n > 1 {
      assert whole[1] == Spell(s)[1];
      assert |Spell(t)| > 1 ==> whole[1] == Spell(t)[1];
    }
    if n > 2 {
      assert whole[2] == Spell(s)[2];
      assert |Spell(t)| > 2 ==> whole[2] == Spell(t)[2];
    }
    assert s == t;
    assert x == whole[n..] == y;
  }

  /** Two spellings normalise alike exactly when they mean the same: they differ at most in hex
      case and in escaping unreserved bytes. */
  lemma AlikeExactly(s: Bytes, t: Bytes)
    requires Normalize(s).Success? && Normalize(t).Success?
    ensures Normalize(s) == Normalize(t) <==> Meaning(s) == Meaning(t)
  {
    NormalizeSpells(s);
    NormalizeSpells(t);
    if Normalize(s) == Normalize(t) {
      SpellInjective(Meaning(s).value, Meaning(t).value);
    }
  }

  // ----- paths --------------------------------------------------------------------------------------

  function StripSlashes(path: Bytes): (stripped: Bytes) {
    if path != [] && path[|path| - 1] == SLASH then StripSlashes(path[..|path| - 1]) else path
  }

  function CanonicalPath(raw: Bytes): Result<Bytes, UrlError> {
    var path := if raw == [] then Success([SLASH]) else Normalize(raw);
    if path.Failure? then path
    else if |path.value| <= 1 then path
    else
      var stripped := StripSlashes(path.value);
      Success(if stripped == [] then [SLASH] else stripped)
  }

  method CanonicalizePath(raw: Bytes) returns (r: Result<Bytes, UrlError>)
    ensures r == CanonicalPath(raw)
  {
    var path: Bytes := [SLASH];
    if raw != [] {
      var normalized := NormalizePercentEncoding(raw);
      if normalized.Failure? {
        return normalized;
      }
      path := normalized.value;
    }
    if |path| > 1 {
      ghost var whole := path;
      while path != [] && path[|path| - 1] == SLASH
        invariant StripSlashes(path) == StripSlashes(whole)
        decreases |path|
      {
        path := path[..|path| - 1];
      }
      if path == [] {
        path := [SLASH];
      }
    }
    r := Success(path);
  }

  lemma {:induction false} StripsPrefix(path: Bytes)
    ensures StripSlashes(path) <= path
    ensures StripSlashes(path) == [] || StripSlashes(path)[|StripSlashes(path)| - 1] != SLASH
    ensures forall i :: |StripSlashes(path)| <= i < |path| ==> path[i] == SLASH
  {
    if path != [] && path[|path| - 1] == SLASH {
      StripsPrefix(path[..|path| - 1]);
    }
  }

  lemma {:induction false} SpellAppend(a: seq<Token>, b: seq<Token>)
    ensures SpellAll(a + b) == SpellAll(a) + SpellAll(b)
  {
    hide Spell;
    if a == [] {
      assert a + b == b;
    } else {
      SpellAppend(a[1..], b);
      assert (a + b)[1..] == a[1..] + b;
    }
  }

  lemma {:induction false} NarrowIsFixed(ts: seq<Token>)
    requires AllProper(ts) && Wide(ts) == 0
    ensures Normalize(SpellAll(ts)) == Success(SpellAll(ts)) && IsAscii(SpellAll(ts))
  {
    MeaningOfSpelling(ts);
    WidenGrows(ts);
    NormalizeSpells(SpellAll(ts));
    AsciiIsNotWide(SpellAll(ts));
  }

  lemma {:induction false} WideFront(ts: seq<Token>)
    requires ts != [] && Wide(ts) == 0
    ensures Wide(ts[..|ts| - 1]) == 0
  {
    if |ts| > 1 {
      WideFront(ts[1..]);
      assert ts[..|ts| - 1] == [ts[0]] + ts[1..][..|ts| - 2];
      SpellAllFirst(ts[0], ts[1..][..|ts| - 2]);
    }
  }

  /** A slash at the end is a token of its own: the spelling without it is still a spelling. */
  lemma LastSlash(ts: seq<Token>)
    requires AllProper(ts) && SpellAll(ts) != [] && SpellAll(ts)[|SpellAll(ts)| - 1] == SLASH
    ensures ts != [] && SpellAll(ts[..|ts| - 1]) == SpellAll(ts)[..|SpellAll(ts)| - 1]
  {
    SpellsSomething(ts);
    hide Spell, Utf8, Proper;
    var front, last := ts[..|ts| - 1], ts[|ts| - 1];
    assert ts == front + [last];
    SpellAppend(front, [last]);
    SpellAllFirst(last, []);
    assert SpellAll([last]) == Spell(last) by { assert [last] + [] == [last]; }
    SlashToken(last);
  }

  lemma SlashToken(t: Token)
    requires Proper(t)
    ensures Spell(t) != [] && (Spell(t)[|Spell(t)| - 1] == SLASH ==> Spell(t) == [SLASH])
  {
  }

  /** A normalised string stays normalised when a slash at its end goes. */
  lemma DropLastSlash(s: Bytes)
    requires s != [] && s[|s| - 1] == SLASH && Normalize(s) == Success(s) && IsAscii(s)
    ensures Normalize(s[..|s| - 1]) == Success(s[..|s| - 1])
  {
    hide Meaning, SpellAll, Wide, Utf8, Spell, Normalize, Proper;
    NormalizeSpells(s);
    AsciiIsNotWide(s);
    var ts := Meaning(s).value;
    LastSlash(ts);
    WideFront(ts);
    NarrowIsFixed(ts[..|ts| - 1]);
  }

  lemma {:induction false} NeverLonger(s: Bytes)
    requires IsAscii(s) && Normalize(s).Success?
    ensures |Normalize(s).value| <= |s|
  {
    if s != [] {
      NeverLonger(s[if s[0] == PERCENT then 3 else 1..]);
    }
  }

  lemma {:induction false} StripKeepsNormal(s: Bytes)
    requires Normalize(s) == Success(s) && IsAscii(s)
    ensures Normalize(StripSlashes(s)) == Success(StripSlashes(s))
  {
    if s != [] && s[|s| - 1] == SLASH {
      DropLastSlash(s);
      StripKeepsNormal(s[..|s| - 1]);
    }
  }

  function Slashes(n: nat): Bytes {
    seq(n, _ => SLASH)
  }

  lemma {:induction false} StripExactly(path: Bytes, kept: Bytes, n: nat)
    requires path == kept + Slashes(n) && (kept == [] || kept[|kept| - 1] != SLASH)
    ensures StripSlashes(path) == kept
  {
    if n > 0 {
      assert path[..|path| - 1] == kept + Slashes(n - 1);
      StripExactly(path[..|path| - 1], kept, n - 1);
    } else {
      assert path == kept;
    }
  }

  /** The canonical form of a path is its normal form without the slashes at its end, and a single
      slash where nothing else is left. */
  lemma CanonicalPathExactly(raw: Bytes, normal: Bytes, kept: Bytes, n: nat)
    requires normal == kept + Slashes(n) && (kept == [] || kept[|kept| - 1] != SLASH)
    requires if raw == [] then normal == [] else Normalize(raw) == Success(normal)
    ensures CanonicalPath(raw) == Success(if kept == [] then [SLASH] else kept)
  {
    hide Normalize;
    StripExactly(normal, kept, n);
    if raw != [] {
      NormalizedNonempty(raw);
      assert n == 0 ==> normal == kept;
      assert n == 1 && kept == [] ==> normal == [SLASH];
    }
  }

  /** A path that comes back unchanged: what the token check compares for. */
  predicate IsCanonical(path: Bytes) {
    path != [] && IsAscii(path) && Normalize(path) == Success(path) &&
    (path == [SLASH] || path[|path| - 1] != SLASH)
  }

  lemma NormalizedIsAscii(s: Bytes)
    requires IsAscii(s) && Normalize(s).Success?
    ensures IsAscii(Normalize(s).value)
  {
    NormalizeSpells(s);
    AsciiIsNotWide(s);
    NarrowIsFixed(Meaning(s).value);
  }

  lemma {:induction false} NormalizedNonempty(s: Bytes)
    requires s != [] && Normalize(s).Success?
    ensures Normalize(s).value != []
  {
  }

  /** Canonical paths are the fixed points, and canonicalisation always reaches one. */
  lemma CanonicalIsFixed(path: Bytes)
    requires IsAscii(path)
    ensures CanonicalPath(path) == Success(path) <==> IsCanonical(path)
  {
    if path != [] && Normalize(path).Success? {
      var n := Normalize(path).value;
      StripsPrefix(n);
      NormalizedNonempty(path);
      NeverLonger(path);
      assert CanonicalPath(path) == Success(path) && |n| > 1 && StripSlashes(n) != [] ==> n == path;
    }
  }

  lemma RootIsNormal()
    ensures Normalize([SLASH]) == Success([SLASH])
  {
    var ts := [Literal(SLASH)];
    SpellAllFirst(Literal(SLASH), []);
    assert [Literal(SLASH)] + [] == ts;
    assert SpellAll(ts) == [SLASH] && Wide(ts) == 0;
    NarrowIsFixed(ts);
  }

  /** Canonicalising a path twice is canonicalising it once. */
  lemma CanonicalPathIdempotent(raw: Bytes)
    requires IsAscii(raw) && CanonicalPath(raw).Success?
    ensures IsCanonical(CanonicalPath(raw).value)
    ensures CanonicalPath(CanonicalPath(raw).value) == CanonicalPath(raw)
  {
    RootIsNormal();
    if raw != [] {
      var n := Normalize(raw).value;
      IdempotentExactly(raw);
      NormalizedIsAscii(raw);
      NormalizedNonempty(raw);
      StripKeepsNormal(n);
      StripsPrefix(n);
    }
    CanonicalIsFixed(CanonicalPath(raw).value);
  }
}

/** `\uXXXX` escapes: UTF-16 code units in, UTF-8 bytes out. */
module Unicode {
  import opened Bytes
  import Text

  datatype Literal = Reject | Accept(codepoint: nat, consumed: nat)

  predicate IsHex(b: Byte) {
    IsDigit(b) || 65 <= b <= 70 || 97 <= b <= 102
  }

  function HexValue(b: Byte): nat
    requires IsHex(b)
  {
    if IsDigit(b) then b - 48 else if b <= 70 then b - 55 else b - 87
  }

  predicate HexRun(c: seq<Byte>, i: nat, n: nat)
    requires i + n <= |c|
  {
    forall k :: i <= k < i + n ==> IsHex(c[k])
  }

  /** The value of `n` hexadecimal digits. */
  function HexNumber(c: seq<Byte>, i: nat, n: nat): nat
    requires i + n <= |c| && HexRun(c, i, n)
  {
    if n == 0 then 0 else HexNumber(c, i, n - 1) * 0x10 + HexValue(c[i + n - 1])
  }

  /** `parse_hex4`: the value of four hexadecimal digits, and 0 as soon as one of them is not a digit. */
  function Hex4(c: seq<Byte>, i: nat): (h: nat)
    requires i + 4 <= |c|
    ensures h < 0x10000
  {
    if HexRun(c, i, 4) then
      assert HexNumber(c, i, 2) < 0x100 by { assert HexNumber(c, i, 1) == HexNumber(c, i, 0) * 0x10 + HexValue(c[i]); }
      assert HexNumber(c, i, 4) == (HexNumber(c, i, 2) * 0x10 + HexValue(c[i + 2])) * 0x10 + HexValue(c[i + 3]);
      HexNumber(c, i, 4)
    else 0
  }

  method ParseHex4(c: seq<Byte>, at: nat) returns (h: nat)
    requires at + 4 <= |c|
    ensures h == Hex4(c, at)
  {
    h := 0;
    for i := 0 to 4
      invariant HexRun(c, at, i)
      invariant h == if 0 < i < 4 then HexNumber(c, at, i) * 0x10 else HexNumber(c, at, i)
    {
      var b: int := c[at + i];
      if 48 <= b <= 57 {
        h := h + (b - 48);
      } else if 65 <= b <= 70 {
        h := h + 10 + (b - 65);
      } else if 97 <= b <= 102 {
        h := h + 10 + (b - 97);
      } else {
        return 0;
      }
      assert HexNumber(c, at, i + 1) == HexNumber(c, at, i) * 0x10 + HexValue(c[at + i]);
      if i < 3 {
        h := h * 0x10;
      }
    }
  }

  predicate IsLowSurrogate(u: nat) { 0xDC00 <= u <= 0xDFFF }
  predicate IsHighSurrogate(u: nat) { 0xD800 <= u <= 0xDBFF }

  /** The decoding half of `utf16_literal_to_utf8`; `c[end]` is the quote that closes the string. */
  function DecodeLiteral(c: seq<Byte>, i: nat, end: nat): (r: Literal)
    requires i <= end <= |c|
    ensures r.Accept? ==> r.consumed in {6, 12} && i + r.consumed <= end
    ensures r.Accept? ==> r.codepoint <= 0x10FFFF
  {
    if end - i < 6 then Reject
    else
      var first := Hex4(c, i + 2);
      if IsLowSurrogate(first) then Reject
      else if IsHighSurrogate(first) then
        if end - (i + 6) < 6 then Reject
        else if c[i + 6] != BACKSLASH || c[i + 7] != LOWER_U then Reject
        else
          var second := Hex4(c, i + 8);
          if !IsLowSurrogate(second) then Reject
          else Accept(0x10000 + (first % 0x400) * 0x400 + second % 0x400, 12)
      else Accept(first, 6)
  }

  /** The encoding half: a mark byte, then continuation bytes of six bits each. Setting bit 7 and
      clearing bit 6 of a byte is written as 0x80 plus the byte modulo 0x40. */
  function EncodeUtf8(cp: nat): (s: seq<Byte>)
    requires cp <= 0x10FFFF
    ensures 1 <= |s| <= 4
    ensures |s| <= 3 || cp >= 0x10000
  {
    if cp < 0x80 then [cp]
    else if cp < 0x800 then [0xC0 + cp / 0x40, 0x80 + cp % 0x40]
    else if cp < 0x10000 then [0xE0 + cp / 0x1000, 0x80 + cp / 0x40 % 0x40, 0x80 + cp % 0x40]
    else [0xF0 + cp / 0x40000, 0x80 + cp / 0x1000 % 0x40, 0x80 + cp / 0x40 % 0x40, 0x80 + cp % 0x40]
  }

  /** Writes the encoding at `at`, last byte first, as the loop over `pos` does. */
  method WriteUtf8(output: array<Byte>, at: nat, codepoint: nat) returns (length: nat)
    requires codepoint <= 0x10FFFF
    requires at + |EncodeUtf8(codepoint)| <= output.Length
    modifies output
    ensures length == |EncodeUtf8(codepoint)|
    ensures output[..at + length] == old(output[..at]) + EncodeUtf8(codepoint)
  {
    var mark: nat;
    if codepoint < 0x80 {
      length, mark := 1, 0;
    } else if codepoint < 0x800 {
      length, mark := 2, 0xC0;
    } else if codepoint < 0x10000 {
      length, mark := 3, 0xE0;
    } else {
      length, mark := 4, 0xF0;
    }
    var cp := codepoint;
    var pos := length - 1;
    ghost var e := EncodeUtf8(codepoint);
    while pos > 0
      invariant 0 <= pos < length
      invariant output[..at] == old(output[..at])
      invariant forall k :: pos < k < length ==> output[at + k] == e[k]
      invariant pos == length - 1 ==> cp == codepoint
      invariant pos == length - 2 ==> cp == codepoint / 0x40
      invariant pos == length - 3 ==> cp == codepoint / 0x1000
      invariant pos == length - 4 ==> cp == codepoint / 0x40000
    {
      output[at + pos] := 0x80 + cp % 0x40;
      cp := cp / 0x40;
      pos := pos - 1;
    }
    if length > 1 {
      output[at] := mark + cp;
    } else {
      output[at] := cp;
    }
    assert output[at..at + length] == e;
    assert output[..at + length] == output[..at] + output[at..at + length];
  }

  // ----- what the two halves mean -----

  /** A Unicode scalar value: a code point that is not a surrogate. */
  predicate IsScalar(cp: nat) {
    cp <= 0x10FFFF && !(0xD800 <= cp <= 0xDFFF)
  }

  /** Section 2.1 of RFC 2781. */
  function Utf16Units(cp: nat): seq<nat>
    requires IsScalar(cp)
  {
    if cp < 0x10000 then [cp]
    else [0xD800 + (cp - 0x10000) / 0x400, 0xDC00 + (cp - 0x10000) % 0x400]
  }

  /** A well-formed `\uXXXX` escape of the code unit `u` stands at `i`: its four digits, in either case,
      are those of `u` in base sixteen. */
  predicate SpellsUnit(c: seq<Byte>, i: nat, u: nat)
    requires i + 6 <= |c|
  {
    && u < 0x10000
    && c[i] == BACKSLASH
    && c[i + 1] == LOWER_U
    && Lower(c[i + 2]) == Text.HexDigit(u / 0x1000)
    && Lower(c[i + 3]) == Text.HexDigit(u / 0x100 % 0x10)
    && Lower(c[i + 4]) == Text.HexDigit(u / 0x10 % 0x10)
    && Lower(c[i + 5]) == Text.HexDigit(u % 0x10)
  }

  /** Of all bytes, exactly the hexadecimal digits are a digit of base sixteen in either case. */
  lemma DigitIsHex(b: Byte, d: nat)
    requires d < 0x10
    ensures Lower(b) == Text.HexDigit(d) <==> IsHex(b) && HexValue(b) == d
  {
  }

  /** What `parse_hex4` gives is the one code unit that the escape spells, and it spells one exactly when
      all four bytes are hexadecimal digits. */
  lemma SpellsHex4(c: seq<Byte>, i: nat, u: nat)
    requires i + 6 <= |c| && c[i] == BACKSLASH && c[i + 1] == LOWER_U
    ensures SpellsUnit(c, i, u) <==> HexRun(c, i + 2, 4) && u == Hex4(c, i + 2)
  {
    if u < 0x10000 {
      DigitIsHex(c[i + 2], u / 0x1000);
      DigitIsHex(c[i + 3], u / 0x100 % 0x10);
      DigitIsHex(c[i + 4], u / 0x10 % 0x10);
      DigitIsHex(c[i + 5], u % 0x10);
    }
    if HexRun(c, i + 2, 4) {
      Hex4Digits(c, i + 2);
      hide HexNumber;
      BaseSixteen(u, HexValue(c[i + 2]), HexValue(c[i + 3]), HexValue(c[i + 4]), HexValue(c[i + 5]));
    }
  }

  lemma Hex4Digits(c: seq<Byte>, i: nat)
    requires i + 4 <= |c| && HexRun(c, i, 4)
    ensures Hex4(c, i) == ((HexValue(c[i]) * 0x10 + HexValue(c[i + 1])) * 0x10 + HexValue(c[i + 2])) * 0x10 + HexValue(c[i + 3])
  {
    assert HexNumber(c, i, 1) == HexNumber(c, i, 0) * 0x10 + HexValue(c[i]);
    assert HexNumber(c, i, 2) == HexNumber(c, i, 1) * 0x10 + HexValue(c[i + 1]);
    assert HexNumber(c, i, 3) == HexNumber(c, i, 2) * 0x10 + HexValue(c[i + 2]);
    assert HexNumber(c, i, 4) == HexNumber(c, i, 3) * 0x10 + HexValue(c[i + 3]);
  }

  lemma BaseSixteen(u: nat, a: nat, b: nat, c: nat, d: nat)
    requires a < 0x10 && b < 0x10 && c < 0x10 && d < 0x10
    ensures u == ((a * 0x10 + b) * 0x10 + c) * 0x10 + d
        <==> u < 0x10000 && a == u / 0x1000 && b == u / 0x100 % 0x10 && c == u / 0x10 % 0x10 && d == u % 0x10
  {
    LastDigit(u, (a * 0x10 + b) * 0x10 + c, d);
    LastDigit(u / 0x10, a * 0x10 + b, c);
    LastDigit(u / 0x100, a, b);
    assert u / 0x10 / 0x10 == u / 0x100 && u / 0x100 / 0x10 == u / 0x1000;
  }

  lemma LastDigit(u: nat, upper: nat, d: nat)
    requires d < 0x10
    ensures u == upper * 0x10 + d <==> upper == u / 0x10 && d == u % 0x10
  {
  }

  /** `c` holds, from `i` and before `end`, well-formed escapes of exactly `units`. */
  predicate Spells(c: seq<Byte>, i: nat, end: nat, units: seq<nat>)
    requires end <= |c|
    decreases units
  {
    units == [] || (i + 6 <= end && SpellsUnit(c, i, units[0]) && Spells(c, i + 6, end, units[1..]))
  }

  /** The escape at `i` (and the one after it, when it is needed) has four hexadecimal digits. */
  predicate WellFormedEscape(c: seq<Byte>, i: nat, end: nat)
    requires end <= |c|
  {
    i + 6 <= end && c[i] == BACKSLASH && c[i + 1] == LOWER_U && HexRun(c, i + 2, 4) &&
    (IsHighSurrogate(Hex4(c, i + 2)) && i + 12 <= end && c[i + 6] == BACKSLASH && c[i + 7] == LOWER_U ==> HexRun(c, i + 8, 4))
  }

  /** A well-formed escape is accepted exactly when it spells a scalar value in UTF-16, and then the
      code point is that value: lone and reversed surrogates are all rejected. */
  lemma DecodesUtf16(c: seq<Byte>, i: nat, end: nat)
    requires end <= |c| && i <= end && WellFormedEscape(c, i, end)
    ensures DecodeLiteral(c, i, end).Accept? <==> exists cp: nat :: IsScalar(cp) && Spells(c, i, end, Utf16Units(cp))
    ensures forall cp: nat :: IsScalar(cp) && Spells(c, i, end, Utf16Units(cp)) ==>
      DecodeLiteral(c, i, end) == Accept(cp, 6 * |Utf16Units(cp)|)
  {
    var r := DecodeLiteral(c, i, end);
    if r.Accept? {
      AcceptedSpells(c, i, end);
    }
    forall cp: nat | IsScalar(cp) && Spells(c, i, end, Utf16Units(cp))
      ensures r == Accept(cp, 6 * |Utf16Units(cp)|)
    {
      SpelledIsAccepted(c, i, end, cp);
    }
  }

  lemma AcceptedSpells(c: seq<Byte>, i: nat, end: nat)
    requires end <= |c| && i <= end && WellFormedEscape(c, i, end)
    requires DecodeLiteral(c, i, end).Accept?
    ensures IsScalar(DecodeLiteral(c, i, end).codepoint)
    ensures Spells(c, i, end, Utf16Units(DecodeLiteral(c, i, end).codepoint))
  {
    var cp := DecodeLiteral(c, i, end).codepoint;
    var first := Hex4(c, i + 2);
    SpellsHex4(c, i, first);
    if IsHighSurrogate(first) {
      var second := Hex4(c, i + 8);
      SpellsHex4(c, i + 6, second);
      SurrogateArithmetic(first, second);
      assert Utf16Units(cp) == [first, second];
      assert [first, second][1..] == [second] && [second][1..] == [];
    } else {
      assert Utf16Units(cp) == [first] && [first][1..] == [];
    }
  }

  lemma SurrogateArithmetic(first: nat, second: nat)
    requires IsHighSurrogate(first) && IsLowSurrogate(second)
    ensures 0x10000 <= 0x10000 + (first % 0x400) * 0x400 + second % 0x400 <= 0x10FFFF
    ensures Utf16Units(0x10000 + (first % 0x400) * 0x400 + second % 0x400) == [first, second]
  {
    assert first % 0x400 == first - 0xD800 && second % 0x400 == second - 0xDC00;
  }

  lemma StartsEscape(c: seq<Byte>, i: nat, u: nat)
    requires i + 6 <= |c| && SpellsUnit(c, i, u)
    ensures c[i] == BACKSLASH && c[i + 1] == LOWER_U
  {
  }

  lemma SpelledIsAccepted(c: seq<Byte>, i: nat, end: nat, cp: nat)
    requires end <= |c| && i <= end && IsScalar(cp) && Spells(c, i, end, Utf16Units(cp))
    ensures DecodeLiteral(c, i, end) == Accept(cp, 6 * |Utf16Units(cp)|)
  {
    hide SpellsUnit;
    var units := Utf16Units(cp);
    StartsEscape(c, i, units[0]);
    SpellsHex4(c, i, units[0]);
    if cp >= 0x10000 {
      assert units[1..] == [units[1]];
      assert Spells(c, i + 6, end, units[1..]);
      StartsEscape(c, i + 6, units[1]);
      SpellsHex4(c, i + 6, units[1]);
      var v := cp - 0x10000;
      assert units[0] % 0x400 == v / 0x400 && units[1] % 0x400 == v % 0x400;
    }
  }

  predicate IsTail(b: Byte) { 0x80 <= b <= 0xBF }

  /** The octet sequences of section 4 of RFC 3629. */
  predicate IsUtf8Char(s: seq<Byte>) {
    match |s|
    case 1 => s[0] <= 0x7F
    case 2 => 0xC2 <= s[0] <= 0xDF && IsTail(s[1])
    case 3 =>
      && IsTail(s[1]) && IsTail(s[2])
      && ((s[0] == 0xE0 && s[1] >= 0xA0) || 0xE1 <= s[0] <= 0xEC || (s[0] == 0xED && s[1] <= 0x9F) || 0xEE <= s[0] <= 0xEF)
    case 4 =>
      && IsTail(s[1]) && IsTail(s[2]) && IsTail(s[3])
      && ((s[0] == 0xF0 && s[1] >= 0x90) || 0xF1 <= s[0] <= 0xF3 || (s[0] == 0xF4 && s[1] <= 0x8F))
    case _ => false
  }

  /** The six payload bits of a continuation octet. */
  function TailBits(b: Byte): nat
    requires IsTail(b)
  {
    b - 0x80
  }

  /** The character number such a sequence carries (section 3 of RFC 3629). */
  function Utf8Value(s: seq<Byte>): nat
    requires IsUtf8Char(s)
  {
    var lead: int := s[0];
    if |s| == 1 then lead
    else if |s| == 2 then (lead - 0xC0) * 0x40 + TailBits(s[1])
    else if |s| == 3 then (lead - 0xE0) * 0x1000 + TailBits(s[1]) * 0x40 + TailBits(s[2])
    else (lead - 0xF0) * 0x40000 + TailBits(s[1]) * 0x1000 + TailBits(s[2]) * 0x40 + TailBits(s[3])
  }

  /** The bytes written for a scalar value are the one valid UTF-8 sequence carrying it. */
  lemma EncodesUtf8(cp: nat, s: seq<Byte>)
    requires IsScalar(cp)
    ensures IsUtf8Char(EncodeUtf8(cp)) && Utf8Value(EncodeUtf8(cp)) == cp
    ensures IsUtf8Char(s) && Utf8Value(s) == cp ==> s == EncodeUtf8(cp)
  {
    EncodingCarries(cp);
    if IsUtf8Char(s) && Utf8Value(s) == cp {
      CarrierIsUnique(s);
    }
  }

  lemma EncodingCarries(cp: nat)
    requires IsScalar(cp)
    ensures IsUtf8Char(EncodeUtf8(cp)) && Utf8Value(EncodeUtf8(cp)) == cp
  {
    assert cp == cp / 0x40 * 0x40 + cp % 0x40;
    assert cp / 0x40 == cp / 0x1000 * 0x40 + cp / 0x40 % 0x40;
    assert cp / 0x1000 == cp / 0x40000 * 0x40 + cp / 0x1000 % 0x40;
  }

  lemma CarrierIsUnique(s: seq<Byte>)
    requires IsUtf8Char(s)
    ensures Utf8Value(s) <= 0x10FFFF && s == EncodeUtf8(Utf8Value(s))
  {
    if |s| == 2 {
      SixBits(s[0] - 0xC0, TailBits(s[1]));
    } else if |s| == 3 {
      CarrierOfThree(s);
    } else if |s| == 4 {
      CarrierOfFour(s);
    }
  }

  lemma CarrierOfThree(s: seq<Byte>)
    requires |s| == 3 && IsUtf8Char(s)
    ensures Utf8Value(s) <= 0x10FFFF && s == EncodeUtf8(Utf8Value(s))
  {
    var lead: int := s[0];
    var upper := (lead - 0xE0) * 0x40 + TailBits(s[1]);
    SixBits(upper, TailBits(s[2]));
    SixBits(lead - 0xE0, TailBits(s[1]));
    assert Utf8Value(s) / 0x1000 == upper / 0x40;
  }

  lemma CarrierOfFour(s: seq<Byte>)
    requires |s| == 4 && IsUtf8Char(s)
    ensures Utf8Value(s) <= 0x10FFFF && s == EncodeUtf8(Utf8Value(s))
  {
    var lead: int := s[0];
    var top := (lead - 0xF0) * 0x40 + TailBits(s[1]);
    var upper := top * 0x40 + TailBits(s[2]);
    SixBits(upper, TailBits(s[3]));
    SixBits(top, TailBits(s[2]));
    SixBits(lead - 0xF0, TailBits(s[1]));
    assert Utf8Value(s) / 0x1000 == upper / 0x40;
    assert Utf8Value(s) / 0x40000 == top / 0x40;
  }

  lemma SixBits(upper: nat, lower: nat)
    requires lower < 0x40
    ensures (upper * 0x40 + lower) / 0x40 == upper && (upper * 0x40 + lower) % 0x40 == lower
  {
  }
}

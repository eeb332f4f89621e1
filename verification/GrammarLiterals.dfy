/** `parse_string` reads exactly the literals of the grammar. */
module GrammarLiterals {
  import opened Bytes
  import opened Json
  import opened Unicode
  import opened ParseSpec
  import opened Grammar
  import Text

  // ----- the closing quote -----

  /** From a position that no backslash hides, the first pass stops at the first quote that is not hidden. */
  lemma {:induction false} ScanStops(c: seq<Byte>, start: nat, i: nat)
    requires start <= i <= |c| && !IsHidden(c, start, i)
    ensures var end := ScanEnd(c, i);
      && (end >= 0 ==> !IsHidden(c, start, end))
      && forall k :: i <= k < (if end < 0 then |c| else end) && c[k] == QUOTE ==> IsHidden(c, start, k)
    decreases |c| - i
  {
    if i < |c| && c[i] != QUOTE {
      assert Backslashes(c, start, i + 1) == if c[i] == BACKSLASH then 1 + Backslashes(c, start, i) else 0;
      if c[i] == BACKSLASH {
        if i + 1 < |c| {
          assert Backslashes(c, start, i + 2) == if c[i + 1] == BACKSLASH then 1 + Backslashes(c, start, i + 1) else 0;
          ScanStops(c, start, i + 2);
        }
      } else {
        ScanStops(c, start, i + 1);
      }
    }
  }

  /** Where a literal that starts at `i` would have to be closed. */
  ghost predicate ClosesAt(c: seq<Byte>, i: nat, end: nat) {
    && i < end < |c|
    && c[end] == QUOTE
    && !IsHidden(c, i + 1, end)
    && forall k :: i < k < end && c[k] == QUOTE ==> IsHidden(c, i + 1, k)
  }

  lemma ScanCloses(c: seq<Byte>, i: nat, end: nat)
    requires i < |c|
    ensures ScanEnd(c, i + 1) == end <==> ClosesAt(c, i, end)
  {
    hide Backslashes;
    assert Backslashes(c, i + 1, i + 1) == 0 by { NoBackslashes(c, i + 1); }
    ScanStops(c, i + 1, i + 1);
  }

  lemma NoBackslashes(c: seq<Byte>, start: nat)
    requires start <= |c|
    ensures Backslashes(c, start, start) == 0
  {
  }

  // ----- pieces -----

  /** A `\u` escape is refused when no piece starts there, and else decoded as the one piece that does. */
  lemma DecodesUnits(c: seq<Byte>, k: nat, end: nat, n: nat, b: seq<Byte>)
    requires k < end < |c| && c[k] == BACKSLASH && c[k + 1] == LOWER_U
    ensures IsPiece(c, k, end, n, b) <==>
      DecodeLiteral(c, k, end).Accept? && n == DecodeLiteral(c, k, end).consumed && b == EncodeUtf8(DecodeLiteral(c, k, end).codepoint)
  {
    hide SpellsUnit, Hex4, HexRun, EncodeUtf8, IsUtf8Char, Utf8Value;
    assert !(|b| == 1 && IsShort(c[k + 1], b[0]));
    if end - k < 6 {
    } else {
      SpellsHex4(c, k, Hex4(c, k + 2));
      forall u: nat ensures SpellsUnit(c, k, u) <==> HexRun(c, k + 2, 4) && u == Hex4(c, k + 2) {
        SpellsHex4(c, k, u);
      }
      if !HexRun(c, k + 2, 4) {
        BrokenUnit(c, k, end);
      } else {
        UnitsPiece(c, k, end, n, b);
      }
    }
  }

  lemma BrokenUnit(c: seq<Byte>, k: nat, end: nat)
    requires k + 6 <= end < |c| && !HexRun(c, k + 2, 4)
    ensures DecodeLiteral(c, k, end) == Accept(0, 6) && EncodeUtf8(0) == [0]
  {
  }

  /** The case of a first escape with four digits. */
  lemma UnitsPiece(c: seq<Byte>, k: nat, end: nat, n: nat, b: seq<Byte>)
    requires k + 6 <= end < |c| && c[k] == BACKSLASH && c[k + 1] == LOWER_U && HexRun(c, k + 2, 4)
    ensures (exists cp: nat :: IsScalar(cp) && n == 6 * |Utf16Units(cp)| && Spells(c, k, end, Utf16Units(cp)) && Carries(b, cp))
      <==> DecodeLiteral(c, k, end).Accept? && n == DecodeLiteral(c, k, end).consumed && b == EncodeUtf8(DecodeLiteral(c, k, end).codepoint)
  {
    hide SpellsUnit, HexRun, Hex4, EncodeUtf8, IsUtf8Char, Utf8Value, Spells, DecodeLiteral;
    var r := DecodeLiteral(c, k, end);
    if r.Accept? {
      AcceptedHere(c, k, end);
      EncodesUtf8(r.codepoint, b);
    }
    if cp: nat :| IsScalar(cp) && n == 6 * |Utf16Units(cp)| && Spells(c, k, end, Utf16Units(cp)) && Carries(b, cp) {
      SpelledIsAccepted(c, k, end, cp);
      EncodesUtf8(cp, b);
    }
  }

  lemma AcceptedHere(c: seq<Byte>, k: nat, end: nat)
    requires k + 6 <= end < |c| && c[k] == BACKSLASH && c[k + 1] == LOWER_U && HexRun(c, k + 2, 4)
    requires DecodeLiteral(c, k, end).Accept?
    ensures var r := DecodeLiteral(c, k, end);
      IsScalar(r.codepoint) && Spells(c, k, end, Utf16Units(r.codepoint)) && r.consumed == 6 * |Utf16Units(r.codepoint)|
  {
    hide SpellsUnit, HexNumber;
    AcceptedSpells(c, k, end);
    SpelledIsAccepted(c, k, end, DecodeLiteral(c, k, end).codepoint);
  }

  /** One turn of the second pass: it fails when no piece starts at `k`, and else takes the one that does. */
  lemma DecodesPiece(c: seq<Byte>, k: nat, end: nat)
    requires k < end < |c| && c[end] == QUOTE
    ensures (exists n: nat, b :: IsPiece(c, k, end, n, b)) || Decode(c, k, end) == Decoded([], k)
    ensures forall n: nat, b :: IsPiece(c, k, end, n, b) ==>
      0 < n && k + n <= end + 1 && Decode(c, k, end) == Emit(b, Decode(c, k + n, end))
  {
    hide DecodeLiteral, EncodeUtf8, IsPiece;
    DecodeUnfolds(c, k, end);
    if c[k] == BACKSLASH && c[k + 1] == LOWER_U {
      hide Decode;
      var r := DecodeLiteral(c, k, end);
      forall n: nat, b ensures IsPiece(c, k, end, n, b) <==> r.Accept? && n == r.consumed && b == EncodeUtf8(r.codepoint) {
        DecodesUnits(c, k, end, n, b);
      }
      if r.Accept? {
        assert IsPiece(c, k, end, r.consumed, EncodeUtf8(r.codepoint));
      }
    } else {
      PlainPiece(c, k, end);
    }
  }

  lemma DecodeUnfolds(c: seq<Byte>, k: nat, end: nat)
    requires k < end < |c|
    ensures c[k] == BACKSLASH && c[k + 1] == LOWER_U ==>
      var r := DecodeLiteral(c, k, end);
      Decode(c, k, end) == if r.Reject? then Decoded([], k) else Emit(EncodeUtf8(r.codepoint), Decode(c, k + r.consumed, end))
  {
    hide DecodeLiteral, EncodeUtf8;
  }

  lemma PlainPiece(c: seq<Byte>, k: nat, end: nat)
    requires k < end < |c| && !(c[k] == BACKSLASH && c[k + 1] == LOWER_U)
    ensures (exists n: nat, b :: IsPiece(c, k, end, n, b)) || Decode(c, k, end) == Decoded([], k)
    ensures forall n: nat, b :: IsPiece(c, k, end, n, b) ==>
      0 < n && k + n <= end + 1 && Decode(c, k, end) == Emit(b, Decode(c, k + n, end))
  {
    hide DecodeLiteral, EncodeUtf8, Spells;
    forall n: nat, b ensures IsPiece(c, k, end, n, b) <==>
      || (n == 1 && c[k] != BACKSLASH && b == [c[k]])
      || (n == 2 && c[k] == BACKSLASH && SimpleEscape(c[k + 1]) >= 0 && b == [SimpleEscape(c[k + 1])])
    {
      PlainPieceIs(c, k, end, n, b);
    }
    hide IsPiece;
    if c[k] != BACKSLASH {
      assert IsPiece(c, k, end, 1, [c[k]]);
    } else if SimpleEscape(c[k + 1]) >= 0 {
      assert IsPiece(c, k, end, 2, [SimpleEscape(c[k + 1])]);
    }
  }

  lemma PlainPieceIs(c: seq<Byte>, k: nat, end: nat, n: nat, b: seq<Byte>)
    requires k < end < |c| && !(c[k] == BACKSLASH && c[k + 1] == LOWER_U)
    ensures IsPiece(c, k, end, n, b) <==>
      || (n == 1 && c[k] != BACKSLASH && b == [c[k]])
      || (n == 2 && c[k] == BACKSLASH && SimpleEscape(c[k + 1]) >= 0 && b == [SimpleEscape(c[k + 1])])
  {
    hide SpellsUnit;
    if cp: nat :| IsScalar(cp) && Spells(c, k, end, Utf16Units(cp)) {
      StartsEscape(c, k, Utf16Units(cp)[0]);
      assert false;
    }
    if |b| == 1 {
      assert IsShort(c[k + 1], b[0]) <==> SimpleEscape(c[k + 1]) == b[0];
      assert b == [b[0]];
    }
  }

  // ----- strings -----

  /** The second pass succeeds exactly when the bytes before the closing quote stand for something, and
      then it writes that. */
  lemma {:induction false} DecodesWhole(c: seq<Byte>, k: nat, end: nat, bytes: seq<Byte>)
    requires k <= end + 1 && end < |c| && c[end] == QUOTE
    ensures StandsFor(c, k, end, bytes) <==> Decode(c, k, end).stop >= end && Decode(c, k, end).bytes == bytes
    decreases end + 1 - k
  {
    hide Decode, IsPiece, StandsFor;
    if k >= end {
      NothingLeft(c, k, end, bytes);
    } else {
      StandsForUnfolds(c, k, end, bytes);
      DecodesPiece(c, k, end);
      if StandsFor(c, k, end, bytes) {
        var n: nat, m: nat :| 0 < n && k + n <= end + 1 && m <= |bytes| && IsPiece(c, k, end, n, bytes[..m]) && StandsFor(c, k + n, end, bytes[m..]);
        DecodesWhole(c, k + n, end, bytes[m..]);
        assert bytes == bytes[..m] + bytes[m..];
      }
      if Decode(c, k, end).stop >= end && Decode(c, k, end).bytes == bytes {
        var n: nat, b :| IsPiece(c, k, end, n, b);
        var m := |b|;
        assert bytes == b + Decode(c, k + n, end).bytes;
        assert bytes[..m] == b && bytes[m..] == Decode(c, k + n, end).bytes;
        DecodesWhole(c, k + n, end, bytes[m..]);
      }
    }
  }

  lemma NothingLeft(c: seq<Byte>, k: nat, end: nat, bytes: seq<Byte>)
    requires end <= k <= end + 1 && end < |c|
    ensures StandsFor(c, k, end, bytes) <==> bytes == []
    ensures Decode(c, k, end) == Decoded([], k)
  {
  }

  lemma StandsForUnfolds(c: seq<Byte>, k: nat, end: nat, bytes: seq<Byte>)
    requires k < end < |c|
    ensures StandsFor(c, k, end, bytes) <==>
      exists n: nat, m: nat :: 0 < n && k + n <= end + 1 && m <= |bytes| && IsPiece(c, k, end, n, bytes[..m]) && StandsFor(c, k + n, end, bytes[m..])
  {
    hide IsPiece;
  }

  lemma {:induction false} UpToNulIs(s: CString, bytes: seq<Byte>)
    ensures IsUpToNul(s, bytes) <==> s == UpToNul(bytes)
    decreases |bytes|
  {
    if bytes != [] && bytes[0] != 0 {
      var rest := UpToNul(bytes[1..]);
      UpToNulIs(rest, bytes[1..]);
      if IsUpToNul(s, bytes) && s != [] {
        UpToNulIs(s[1..], bytes[1..]);
        assert s == [s[0]] + s[1..];
      }
    }
  }

  /** A literal is read to its closing quote, and nothing else is. */
  lemma LiteralIsRead(c: seq<Byte>, i: nat, o: nat, s: CString)
    requires i < |c|
    ensures ParseString(c, i) == Done(s, o) <==> IsLiteral(c, i, o, s)
  {
    hide ScanEnd, Decode, UpToNul, StandsFor, IsHidden, IsUpToNul;
    var end := ScanEnd(c, i + 1);
    if end >= 0 { ScanCloses(c, i, end); }
    if IsLiteral(c, i, o, s) {
      var bytes :| StandsFor(c, i + 1, o - 1, bytes) && IsUpToNul(s, bytes);
      ScanCloses(c, i, o - 1);
      DecodesWhole(c, i + 1, o - 1, bytes);
      UpToNulIs(s, bytes);
    } else if c[i] == QUOTE && end >= 0 {
      var d := Decode(c, i + 1, end);
      DecodesWhole(c, i + 1, end, d.bytes);
      UpToNulIs(UpToNul(d.bytes), d.bytes);
    }
  }

  // ----- what the printer writes -----

  /** `e`, with a quote behind it, is one piece that stands for `c`, written without control bytes. */
  ghost predicate Writes(e: seq<Byte>, c: CChar) {
    e != [] && e != [QUOTE] && (forall k :: 0 <= k < |e| ==> e[k] >= 32) && IsPiece(e + [QUOTE], 0, |e|, |e|, [c])
  }

  /** The pieces that stand for a single byte of a C string. */
  lemma OneByte(e: seq<Byte>, c: CChar)
    requires e != []
    ensures IsPiece(e + [QUOTE], 0, |e|, |e|, [c]) <==>
      || (|e| == 1 && e[0] != BACKSLASH && e[0] == c)
      || (|e| == 2 && e[0] == BACKSLASH && IsShort(e[1], c))
      || (|e| == 6 && c < 0x80 && SpellsUnit(e, 0, c))
  {
    hide SpellsUnit, IsUtf8Char, Utf8Value;
    var all := e + [QUOTE];
    if c < 0x80 { OneUnit(c); }
    if |e| == 6 {
      SameUnit(all, e, c);
      if c < 0x80 && SpellsUnit(e, 0, c) {
        assert Utf16Units(c)[1..] == [];
        assert Spells(all, 0, 6, Utf16Units(c)) && Carries([c], c);
      }
    }
    if cp: nat :| IsScalar(cp) && |e| == 6 * |Utf16Units(cp)| && Spells(all, 0, |e|, Utf16Units(cp)) && Carries([c], cp) {
      CarriesOne(c, cp);
    }
  }

  lemma SameUnit(all: seq<Byte>, e: seq<Byte>, u: nat)
    requires |e| == 6 && all == e + [QUOTE]
    ensures SpellsUnit(all, 0, u) == SpellsUnit(e, 0, u)
  {
  }

  lemma OneUnit(c: CChar)
    requires c < 0x80
    ensures IsScalar(c) && Utf16Units(c) == [c] && Carries([c], c)
  {
  }

  lemma CarriesOne(c: CChar, cp: nat)
    requires Carries([c], cp)
    ensures cp == c < 0x80
  {
  }

  /** The printer writes each character as its shortest piece without control bytes, in lower case. */
  lemma EscapeIsShortest(c: CChar, e: seq<Byte>)
    ensures Writes(Text.Escape(c), c)
    ensures Writes(e, c) ==> |Text.Escape(c)| <= |e|
    ensures Writes(e, c) && |Text.Escape(c)| == |e| ==> forall k :: 0 <= k < |e| ==> Text.Escape(c)[k] in {e[k], Lower(e[k])}
  {
    hide IsPiece;
    OneByte(Text.Escape(c), c);
    if e != [] { OneByte(e, c); }
  }
}

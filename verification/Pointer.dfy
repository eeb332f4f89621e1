/** JSON pointers (RFC 6901): encoding keys, matching tokens, following and finding paths. */
module Pointer {
  import opened Bytes
  import opened Json

  const SIZE_MAX_PLUS_ONE: nat := 0x1_0000_0000_0000_0000

  // ----- keys as tokens -----

  function EncodeByte(c: CChar): (e: CString)
    ensures 1 <= |e| <= 2
    ensures SLASH !in e
  {
    if c == SLASH then [TILDE, ONE] else if c == TILDE then [TILDE, ZERO] else [c]
  }

  /** Section 3 of RFC 6901. */
  function Encode(key: CString): (e: CString)
    ensures |e| >= |key|
    ensures SLASH !in e
  {
    if key == [] then [] else EncodeByte(key[0]) + Encode(key[1..])
  }

  lemma {:induction false} EncodeSnoc(key: CString, c: CChar)
    ensures Encode(key + [c]) == Encode(key) + EncodeByte(c)
  {
    hide EncodeByte;
    if key == [] {
      assert (key + [c])[1..] == [];
    } else {
      EncodeSnoc(key[1..], c);
      assert (key + [c])[1..] == key[1..] + [c];
    }
  }

  /** `pointer_encoded_length`. */
  method EncodedLength(key: CString) returns (length: nat)
    ensures length == |Encode(key)|
  {
    length := 0;
    var i := 0;
    while At(key, i) != 0
      invariant i <= |key|
      invariant length == |Encode(key[..i])|
      decreases |key| - i
    {
      EncodeSnoc(key[..i], key[i]);
      assert key[..i] + [key[i]] == key[..i + 1];
      if key[i] == TILDE || key[i] == SLASH {
        length := length + 1;
      }
      length := length + 1;
      i := i + 1;
    }
    assert key[..i] == key;
  }

  /** One turn of the loop of `encode_string_as_pointer`. */
  method EncodeByteInto(destination: array<Byte>, at: nat, c: CChar) returns (to: nat)
    requires at + |EncodeByte(c)| <= destination.Length
    modifies destination
    ensures to == at + |EncodeByte(c)|
    ensures destination[..to] == old(destination[..at]) + EncodeByte(c)
  {
    to := at;
    if c == SLASH {
      destination[to] := TILDE;
      destination[to + 1] := ONE;
      to := to + 1;
    } else if c == TILDE {
      destination[to] := TILDE;
      destination[to + 1] := ZERO;
      to := to + 1;
    } else {
      destination[to] := c;
    }
    to := to + 1;
  }

  /** `encode_string_as_pointer` into memory at `at`: the encoding and its NUL. */
  method EncodeInto(destination: array<Byte>, at: nat, source: CString)
    requires at + |Encode(source)| < destination.Length
    modifies destination
    ensures destination[..at + |Encode(source)| + 1] == old(destination[..at]) + Terminated(Encode(source))
  {
    hide EncodeByte;
    var i, to := 0, at;
    ghost var before := destination[..at];
    assert source[..0] == [] && before + [] == before;
    while At(source, i) != 0
      invariant i <= |source|
      invariant to == at + |Encode(source[..i])| && to + |Encode(source[i..])| == at + |Encode(source)|
      invariant destination[..to] == before + Encode(source[..i])
      decreases |source| - i
    {
      EncodeSnoc(source[..i], source[i]);
      assert source[..i] + [source[i]] == source[..i + 1];
      assert source[i..][1..] == source[i + 1..];
      Assoc(before, Encode(source[..i]), EncodeByte(source[i]));
      to := EncodeByteInto(destination, to, source[i]);
      i := i + 1;
    }
    assert source[..i] == source;
    destination[to] := 0;
    assert destination[..to + 1] == destination[..to] + [0];
  }

  // ----- matching a key against a token -----

  /** The first position from `i` on that ends a token. */
  function TokenEnd(p: CString, i: nat): (k: nat)
    requires i <= |p|
    ensures i <= k <= |p|
    ensures forall j :: i <= j < k ==> p[j] != SLASH
    ensures k < |p| ==> p[k] == SLASH
    decreases |p| - i
  {
    if i < |p| && p[i] != SLASH then TokenEnd(p, i + 1) else i
  }

  /** `compare_pointers` on what is left of the name and the token at `i`. */
  function ComparePointers(name: CString, p: CString, i: nat, caseSensitive: bool): bool
    requires i <= |p|
    decreases name
  {
    if name != [] && i < |p| && p[i] != SLASH then
      if p[i] == TILDE then
        if (At(p, i + 1) != ZERO || name[0] != TILDE) && (At(p, i + 1) != ONE || name[0] != SLASH) then false
        else ComparePointers(name[1..], p, i + 2, caseSensitive)
      else if (!caseSensitive && Lower(name[0]) != Lower(p[i])) || (caseSensitive && name[0] != p[i]) then false
      else ComparePointers(name[1..], p, i + 1, caseSensitive)
    else (i < |p| && p[i] != SLASH) == (name != [])
  }

  method CComparePointers(name: CString, pointer: CString, start: nat, caseSensitive: bool) returns (equal: bool)
    requires start <= |pointer|
    ensures equal == ComparePointers(name, pointer, start, caseSensitive)
  {
    var n: nat, p: nat := 0, start;
    while At(name, n) != 0 && At(pointer, p) != 0 && At(pointer, p) != SLASH
      invariant n <= |name| && p <= |pointer|
      invariant ComparePointers(name[n..], pointer, p, caseSensitive) == ComparePointers(name, pointer, start, caseSensitive)
      decreases |name| - n
    {
      assert name[n..][1..] == name[n + 1..];
      if At(pointer, p) == TILDE {
        if (At(pointer, p + 1) != ZERO || At(name, n) != TILDE) && (At(pointer, p + 1) != ONE || At(name, n) != SLASH) {
          return false;
        }
        p := p + 1;
      } else if (!caseSensitive && Lower(At(name, n)) != Lower(At(pointer, p))) || (caseSensitive && At(name, n) != At(pointer, p)) {
        return false;
      }
      n, p := n + 1, p + 1;
    }
    equal := (At(pointer, p) != 0 && At(pointer, p) != SLASH) == (At(name, n) != 0);
  }

  /** A key matches a token exactly when the token is its encoding; a malformed escape matches nothing. */
  lemma {:induction false} MatchesItsEncoding(name: CString, p: CString, i: nat)
    requires i <= |p|
    ensures ComparePointers(name, p, i, true) <==> p[i..TokenEnd(p, i)] == Encode(name)
    decreases name
  {
    hide EncodeByte;
    var end := TokenEnd(p, i);
    if name != [] && i < end {
      if p[i] != TILDE {
        MatchesItsEncoding(name[1..], p, i + 1);
        PlainToken(p[i..end], p[i + 1..end], name);
      } else if i + 1 < |p| && (p[i + 1] == ZERO || p[i + 1] == ONE) {
        MatchesItsEncoding(name[1..], p, i + 2);
        assert p[i..end] == [TILDE, p[i + 1]] + p[i + 2..end];
        EscapedToken(p[i..end], [TILDE, p[i + 1]], p[i + 2..end], name);
      } else {
        NotAnEscape(p, i, end, name);
      }
    }
  }

  lemma PlainToken(token: CString, rest: CString, name: CString)
    requires name != [] && token != [] && rest == token[1..] && token[0] != TILDE && token[0] != SLASH
    ensures token == Encode(name) <==> token[0] == name[0] && rest == Encode(name[1..])
  {
    var e, encoded := EncodeByte(name[0]), Encode(name[1..]);
    assert (e + encoded)[0] == e[0];
    if token[0] == e[0] {
      assert token == [token[0]] + rest;
      assert (e + encoded)[1..] == encoded;
    }
  }

  lemma EscapedToken(token: CString, head: CString, rest: CString, name: CString)
    requires name != [] && token == head + rest && (head == [TILDE, ZERO] || head == [TILDE, ONE])
    ensures token == Encode(name) <==>
      name[0] == (if head[1] == ZERO then TILDE else SLASH) && rest == Encode(name[1..])
  {
    var e, encoded := EncodeByte(name[0]), Encode(name[1..]);
    if token == e + encoded {
      assert token[0] == e[0];
      assert token[..2] == e && token[2..] == encoded;
    }
  }

  lemma NotAnEscape(p: CString, i: nat, end: nat, name: CString)
    requires i < end <= |p| && p[i] == TILDE && name != []
    requires !(i + 1 < |p| && (p[i + 1] == ZERO || p[i + 1] == ONE))
    ensures p[i..end] != Encode(name)
  {
    var e := EncodeByte(name[0]);
    assert p[i..end][0] == p[i] && Encode(name)[0] == e[0];
    if |e| == 2 {
      assert Encode(name)[1] == e[1];
      if i + 1 < end {
        assert p[i..end][1] == p[i + 1];
      }
    }
  }

  lemma {:induction false} EncodeInjective(a: CString, b: CString)
    requires Encode(a) == Encode(b)
    ensures a == b
  {
    if a != [] && b != [] {
      var ea, eb := EncodeByte(a[0]), EncodeByte(b[0]);
      assert Encode(a)[0] == ea[0] && Encode(b)[0] == eb[0];
      if |ea| == 2 {
        assert Encode(a)[1] == ea[1] && Encode(b)[1] == eb[1];
      }
      assert ea == eb;
      assert Encode(a)[|ea|..] == Encode(a[1..]) && Encode(b)[|eb|..] == Encode(b[1..]);
      EncodeInjective(a[1..], b[1..]);
      assert a == [a[0]] + a[1..] && b == [b[0]] + b[1..];
    }
  }

  lemma LowerEscapes(c: CChar)
    ensures Lower(c) == SLASH <==> c == SLASH
    ensures Lower(c) == TILDE <==> c == TILDE
    ensures Lower(c) == ZERO <==> c == ZERO
    ensures Lower(c) == ONE <==> c == ONE
  {
  }

  lemma {:induction false} EncodeLower(key: CString)
    ensures Encode(LowerAll(key)) == LowerAll(Encode(key))
  {
    if key != [] {
      EncodeLower(key[1..]);
      LowerEscapes(key[0]);
      assert LowerAll(key)[1..] == LowerAll(key[1..]);
    }
  }

  lemma {:induction false} TokenEndLower(p: CString, i: nat)
    requires i <= |p|
    ensures TokenEnd(LowerAll(p), i) == TokenEnd(p, i)
    decreases |p| - i
  {
    if i < |p| {
      LowerEscapes(p[i]);
      if p[i] != SLASH { TokenEndLower(p, i + 1); }
    }
  }

  /** Matching ignoring case is matching what is left in lower case. */
  lemma {:induction false} ComparesLower(name: CString, p: CString, i: nat)
    requires i <= |p|
    ensures ComparePointers(name, p, i, false) == ComparePointers(LowerAll(name), LowerAll(p), i, true)
    decreases name
  {
    if i < |p| {
      LowerEscapes(p[i]);
      if i + 1 < |p| { LowerEscapes(p[i + 1]); }
      if name != [] && p[i] != SLASH {
        LowerEscapes(name[0]);
        assert LowerAll(name)[1..] == LowerAll(name[1..]);
        if p[i] != TILDE {
          ComparesLower(name[1..], p, i + 1);
        } else if At(p, i + 1) == ZERO || At(p, i + 1) == ONE {
          ComparesLower(name[1..], p, i + 2);
        }
      }
    }
  }

  /** A key matches a token ignoring case exactly when, in lower case, the token is its encoding. */
  lemma MatchesLoosely(name: CString, p: CString, i: nat)
    requires i <= |p|
    ensures ComparePointers(name, p, i, false) <==> LowerAll(p[i..TokenEnd(p, i)]) == Encode(LowerAll(name))
  {
    hide ComparePointers, Encode, TokenEnd;
    ComparesLower(name, p, i);
    TokenEndLower(p, i);
    MatchesItsEncoding(LowerAll(name), LowerAll(p), i);
    assert LowerAll(p)[i..TokenEnd(p, i)] == LowerAll(p[i..TokenEnd(p, i)]);
  }

  /** A token followed by the end of the pointer or by the next one. */
  lemma TokenIs(p: CString, i: nat, token: CString, rest: CString)
    requires i <= |p| && p[i..] == token + rest && SLASH !in token && (rest == [] || rest[0] == SLASH)
    ensures TokenEnd(p, i) == i + |token|
    ensures p[i..TokenEnd(p, i)] == token && p[TokenEnd(p, i)..] == rest
  {
    var end := i + |token|;
    assert forall j :: i <= j < end ==> p[j] == p[i..][j - i] == token[j - i];
    if end < |p| {
      assert p[end] == p[i..][|token|] == rest[0];
    }
    TokenEndUnique(p, i, end);
    assert p[i..end] == p[i..][..|token|] && p[end..] == p[i..][|token|..];
  }

  lemma {:induction false} TokenEndUnique(p: CString, i: nat, end: nat)
    requires i <= end <= |p| && (end == |p| || p[end] == SLASH)
    requires forall j :: i <= j < end ==> p[j] != SLASH
    ensures TokenEnd(p, i) == end
    decreases end - i
  {
    if i < end {
      TokenEndUnique(p, i + 1, end);
    }
  }

  // ----- array indices -----

  /** `decode_array_index_from_pointer`: no leading zero, nothing but digits, wrapping at the width of `usize`;
      an empty token reads as 0. */
  function DecodeIndex(p: CString, i: nat): Option<nat>
    requires i <= |p|
  {
    if At(p, i) == ZERO && At(p, i + 1) != 0 && At(p, i + 1) != SLASH then None
    else
      var end := DigitsEnd(p, i);
      if At(p, end) != 0 && At(p, end) != SLASH then None else Some(DigitsValue(p[i..end]) % SIZE_MAX_PLUS_ONE)
  }

  lemma WrapDigit(v: nat, d: nat)
    ensures (v % SIZE_MAX_PLUS_ONE * 10 + d) % SIZE_MAX_PLUS_ONE == (10 * v + d) % SIZE_MAX_PLUS_ONE
  {
    var q, r := v / SIZE_MAX_PLUS_ONE, v % SIZE_MAX_PLUS_ONE;
    assert 10 * v + d == 10 * q * SIZE_MAX_PLUS_ONE + (r * 10 + d);
    WholeTurns(10 * q, r * 10 + d);
  }

  lemma {:induction false} WholeTurns(q: nat, x: nat)
    ensures (q * SIZE_MAX_PLUS_ONE + x) % SIZE_MAX_PLUS_ONE == x % SIZE_MAX_PLUS_ONE
  {
    if q > 0 {
      WholeTurns(q - 1, x);
      var y := (q - 1) * SIZE_MAX_PLUS_ONE + x;
      assert (y + SIZE_MAX_PLUS_ONE) % SIZE_MAX_PLUS_ONE == y % SIZE_MAX_PLUS_ONE;
    }
  }

  method CDecodeIndex(pointer: CString, start: nat) returns (index: Option<nat>)
    requires start <= |pointer|
    ensures index == DecodeIndex(pointer, start)
  {
    if At(pointer, start) == ZERO && At(pointer, start + 1) != 0 && At(pointer, start + 1) != SLASH {
      return None;
    }
    var parsed: nat, position := 0, start;
    while IsDigit(At(pointer, position))
      invariant start <= position <= |pointer|
      invariant DigitsEnd(pointer, position) == DigitsEnd(pointer, start)
      invariant forall k :: start <= k < position ==> IsDigit(pointer[k])
      invariant parsed == DigitsValue(pointer[start..position]) % SIZE_MAX_PLUS_ONE
      decreases |pointer| - position
    {
      var digit: int := At(pointer, position);
      WrapDigit(DigitsValue(pointer[start..position]), digit - 48);
      assert pointer[start..position + 1][..position - start] == pointer[start..position];
      parsed := (parsed * 10 + (digit - 48)) % SIZE_MAX_PLUS_ONE;
      position := position + 1;
    }
    if At(pointer, position) != 0 && At(pointer, position) != SLASH {
      return None;
    }
    return Some(parsed);
  }

  lemma {:induction false} DigitsEndIs(p: seq<Byte>, i: nat, end: nat)
    requires i <= end <= |p| && (end == |p| || !IsDigit(p[end]))
    requires forall j :: i <= j < end ==> IsDigit(p[j])
    ensures DigitsEnd(p, i) == end
    decreases end - i
  {
    if i < end {
      DigitsEndIs(p, i + 1, end);
    }
  }

  lemma IndexDecodes(p: CString, i: nat, n: nat, rest: CString)
    requires i <= |p| && p[i..] == Digits(n) + rest && (rest == [] || rest[0] == SLASH) && n < SIZE_MAX_PLUS_ONE
    ensures DecodeIndex(p, i) == Some(n) && TokenEnd(p, i) == i + |Digits(n)| && p[TokenEnd(p, i)..] == rest
  {
    hide DigitsValue, Digits, TokenEnd;
    var token := Digits(n);
    assert SLASH !in token;
    TokenIs(p, i, token, rest);
    var end := i + |token|;
    assert forall j :: i <= j < end ==> p[j] == p[i..end][j - i];
    DigitsEndIs(p, i, end);
    DigitsRoundTrip(n);
    if p[i] == ZERO {
      assert n == 0 && |token| == 1;
    }
  }

  /** A token that names the element at `n`: its decimal text, taken at the width of `usize`; the empty token
      names the first element. */
  ghost predicate NamesIndex(token: CString, n: nat) {
    (token == [] && n == 0) || exists m: nat :: token == Digits(m) && n == m % SIZE_MAX_PLUS_ONE
  }

  lemma {:induction false} DigitsOfValue(s: CString)
    requires s != [] && (forall i :: 0 <= i < |s| ==> IsDigit(s[i])) && (s[0] == ZERO ==> |s| == 1)
    ensures Digits(DigitsValue(s)) == s
  {
    var init := s[..|s| - 1];
    if init == [] {
      assert DigitsValue(init) == 0;
    } else {
      DigitsOfValue(init);
      assert DigitsValue(init) > 0;
    }
    assert s == init + [s[|s| - 1]];
  }

  /** A token is taken for the index it names and for no other, and refused when it names none. */
  lemma DecodesNamed(p: CString, i: nat, n: nat)
    requires i <= |p|
    ensures DecodeIndex(p, i) == Some(n) <==> NamesIndex(p[i..TokenEnd(p, i)], n)
  {
    hide DigitsValue, Digits;
    var end := TokenEnd(p, i);
    var token := p[i..end];
    if NamesIndex(token, n) && token != [] {
      var m: nat :| token == Digits(m) && n == m % SIZE_MAX_PLUS_ONE;
      assert forall j :: i <= j < end ==> p[j] == token[j - i];
      DigitsEndIs(p, i, end);
      DigitsRoundTrip(m);
    } else if token == [] {
      DigitsEndIs(p, i, i);
      ValueOfNothing();
    }
    if DecodeIndex(p, i) == Some(n) && token != [] {
      var last := DigitsEnd(p, i);
      TokenEndUnique(p, i, last);
      DigitsOfValue(token);
      assert token == Digits(DigitsValue(token));
    }
  }

  lemma ValueOfNothing()
    ensures DigitsValue([]) == 0
  {
  }
}

/** `decode_pointer_inplace`, as the source has it: it does not move ordinary bytes down, and it writes a
    decoded slash one place too far. */
module DecodeInPlace {
  import opened Bytes
  import opened Pointer

  /** What is left in memory when the read cursor is at `r` and the write cursor at `w`. */
  function DecodeFrom(s: CString, r: nat, w: nat): CString
    requires w <= r <= |s|
    decreases |s| - r
  {
    if r == |s| then s[..w]
    else if s[r] != TILDE then DecodeFrom(s, r + 1, w + 1)
    else if At(s, r + 1) == ZERO then DecodeFrom(s[w := TILDE], r + 2, w + 1)
    else if At(s, r + 1) == ONE then DecodeFrom(s[w + 1 := SLASH], r + 2, w + 1)
    else s
  }

  function Decode(s: CString): CString {
    DecodeFrom(s, 0, 0)
  }

  method DecodePointerInPlace(memory: array<Byte>, ghost s: CString)
    requires |s| < memory.Length && memory[..|s|] == s && memory[|s|] == 0
    modifies memory
    ensures UpToNul(memory[..]) == Decode(s)
  {
    var r, w := 0, 0;
    ghost var now: CString := s;
    assert forall i :: 0 <= i < |s| ==> memory[i] == memory[..|s|][i];
    while memory[r] != 0
      invariant w <= r <= |s| == |now| && memory[|s|] == 0
      invariant forall i :: 0 <= i < |s| ==> memory[i] == now[i]
      invariant DecodeFrom(now, r, w) == Decode(s)
      decreases |s| - r
    {
      if memory[r] == TILDE {
        if memory[r + 1] == ZERO {
          memory[w] := TILDE;
          now := now[w := TILDE];
        } else if memory[r + 1] == ONE {
          memory[w + 1] := SLASH;
          now := now[w + 1 := SLASH];
        } else {
          UpToNulStops(memory[..], |s|);
          assert memory[..][..|s|] == now;
          UpToNulOfCString(now);
          return;
        }
        r := r + 1;
      }
      w, r := w + 1, r + 1;
    }
    memory[w] := 0;
    UpToNulStops(memory[..], w);
    assert memory[..][..w] == now[..w];
    UpToNulOfCString(now[..w]);
  }

  // ----- what it leaves -----

  lemma {:induction false} EncodeSplit(key: CString, n: nat)
    requires n < |key|
    ensures Encode(key) == Encode(key[..n]) + EncodeByte(key[n]) + Encode(key[n + 1..])
  {
    hide EncodeByte;
    if n == 0 {
      assert key[..0] == [];
    } else {
      EncodeSplit(key[1..], n - 1);
      assert key[..n][1..] == key[1..][..n - 1] && key[..n][0] == key[0];
      assert key[1..][n..] == key[n + 1..];
    }
  }

  /** How far the read cursor is after `n` bytes of the key, and what it reads there. */
  lemma ReadsByte(key: CString, n: nat) returns (r: nat, next: nat)
    requires n < |key|
    ensures r == |Encode(key[..n])| && next == |Encode(key[..n + 1])| <= |Encode(key)|
    ensures n <= r && next == r + |EncodeByte(key[n])| && Encode(key)[r..next] == EncodeByte(key[n])
  {
    hide EncodeByte;
    EncodeSplit(key, n);
    EncodeSnoc(key[..n], key[n]);
    assert key[..n] + [key[n]] == key[..n + 1];
    r := |Encode(key[..n])|;
    next := r + |EncodeByte(key[n])|;
  }

  lemma TwoBytes(c: CChar)
    ensures |EncodeByte(c)| == if c == TILDE || c == SLASH then 2 else 1
  {
  }

  /** What decoding leaves at place `i` of a token that starts with the encoding of `key`: a tilde where the key has
      one, a slash one place behind each slash of the key, and else the byte that stood there. */
  function ByteLeft(key: CString, s: CString, i: nat): CChar
    requires i < |s|
  {
    if i < |key| && key[i] == TILDE then TILDE else if 0 < i <= |key| && key[i - 1] == SLASH then SLASH else s[i]
  }

  function Left(key: CString, s: CString): (t: CString)
    ensures |t| == |s|
  {
    seq(|s|, i requires 0 <= i < |s| => ByteLeft(key, s, i))
  }

  /** Nothing, or a tilde that starts no escape. */
  predicate Unescaped(tail: CString) {
    tail == [] || (tail[0] == TILDE && At(tail, 1) != ZERO && At(tail, 1) != ONE)
  }

  /** One turn of the loop, in terms of the byte of the key that was encoded here. */
  lemma DecodeStep(s: CString, r: nat, w: nat, c: CChar)
    requires w <= r && r + |EncodeByte(c)| <= |s| && s[r..r + |EncodeByte(c)|] == EncodeByte(c)
    ensures c == TILDE ==> DecodeFrom(s, r, w) == DecodeFrom(s[w := TILDE], r + |EncodeByte(c)|, w + 1)
    ensures c == SLASH ==> w + 1 < |s| && DecodeFrom(s, r, w) == DecodeFrom(s[w + 1 := SLASH], r + |EncodeByte(c)|, w + 1)
    ensures c != TILDE && c != SLASH ==> DecodeFrom(s, r, w) == DecodeFrom(s, r + |EncodeByte(c)|, w + 1)
  {
    var e := EncodeByte(c);
    assert s[r] == s[r..r + |e|][0];
    if |e| == 2 {
      assert s[r + 1] == s[r..r + |e|][1];
    }
  }

  /** Where the escape of the next byte is, nothing was written before. */
  lemma LeftBehind(key: CString, s: CString)
    requires |Encode(key)| <= |s|
    ensures |key| <= |Encode(key)| && (SLASH in key ==> |key| < |Encode(key)|)
    ensures Left(key, s)[|Encode(key)|..] == s[|Encode(key)|..]
  {
    hide Encode;
    if SLASH in key { SlashLengthens(key); }
  }

  /** One more byte of the key written. */
  lemma LeftStep(key: CString, c: CChar, s: CString)
    requires |key| + |EncodeByte(c)| <= |s|
    ensures Left(key + [c], s) ==
      if c == TILDE then Left(key, s)[|key| := TILDE] else if c == SLASH then Left(key, s)[|key| + 1 := SLASH] else Left(key, s)
  {
    var longer := key + [c];
    TwoBytes(c);
    forall i | 0 <= i < |s| ensures Left(longer, s)[i] ==
      if c == TILDE && i == |key| then TILDE else if c == SLASH && i == |key| + 1 then SLASH else Left(key, s)[i]
    {
      assert i < |key| ==> longer[i] == key[i];
      assert 0 < i <= |key| ==> longer[i - 1] == key[i - 1];
    }
  }

  lemma {:induction false} SlashLengthens(key: CString)
    requires SLASH in key
    ensures |key| < |Encode(key)|
  {
    if key[0] != SLASH {
      SlashLengthens(key[1..]);
    }
  }

  lemma {:induction false} DecodesRest(key: CString, rest: CString, tail: CString, s: CString)
    requires s == Encode(key) + (Encode(rest) + tail) && Unescaped(tail)
    ensures |key| <= |Encode(key)|
    ensures DecodeFrom(Left(key, s), |Encode(key)|, |key|) == if tail == [] then Left(key + rest, s)[..|key + rest|] else Left(key + rest, s)
    decreases |rest|
  {
    hide EncodeByte, Encode, Left, DecodeFrom, Unescaped;
    var r := |Encode(key)|;
    if rest == [] {
      assert key + rest == key && s == Encode(key) + tail by { EncodeOfNothing(); }
      DecodesTail(key, tail, s);
    } else {
      var c, more := rest[0], Encode(rest[1..]) + tail;
      EncodeUnfolds(rest);
      EncodeSnoc(key, c);
      LeftBehind(key, s);
      LeftStep(key, c, s);
      assert s == Encode(key) + (EncodeByte(c) + more);
      assert s[r..] == EncodeByte(c) + more;
      assert Left(key, s)[r..][..|EncodeByte(c)|] == EncodeByte(c);
      assert Left(key, s)[r..r + |EncodeByte(c)|] == Left(key, s)[r..][..|EncodeByte(c)|];
      DecodeStep(Left(key, s), r, |key|, c);
      assert s == Encode(key + [c]) + (Encode(rest[1..]) + tail);
      assert key + [c] + rest[1..] == key + rest;
      DecodesRest(key + [c], rest[1..], tail, s);
    }
  }

  lemma DecodesTail(key: CString, tail: CString, s: CString)
    requires s == Encode(key) + tail && Unescaped(tail)
    ensures |key| <= |Encode(key)|
    ensures DecodeFrom(Left(key, s), |Encode(key)|, |key|) == if tail == [] then Left(key, s)[..|key|] else Left(key, s)
  {
    hide Encode;
    var r := |Encode(key)|;
    if SLASH in key { SlashLengthens(key); }
    if tail != [] {
      assert s[r] == tail[0] && At(s, r + 1) == At(tail, 1);
      assert Left(key, s)[r] == TILDE && At(Left(key, s), r + 1) == At(s, r + 1);
    }
  }

  /** What decoding makes of any token: of the encoding of a key, and of one with a malformed escape behind it. */
  lemma DecodesToken(key: CString, tail: CString)
    requires Unescaped(tail)
    ensures var s := Encode(key) + tail;
      Decode(s) == if tail == [] then Left(key, s)[..|key|] else Left(key, s)
  {
    hide Encode, DecodeFrom, Left, Unescaped;
    var s := Encode(key) + tail;
    EncodeOfNothing();
    assert s == Encode([]) + (Encode(key) + tail) && [] + key == key;
    DecodesRest([], key, tail, s);
    LeftOfNothing(s);
  }

  lemma LeftOfNothing(s: CString)
    ensures Left([], s) == s
  {
  }

  /** Every token is of that kind. */
  lemma {:induction false} SplitsToken(s: CString) returns (key: CString, tail: CString)
    requires SLASH !in s
    ensures s == Encode(key) + tail && Unescaped(tail)
    decreases |s|
  {
    hide Encode;
    EncodeOfNothing();
    if s == [] || (s[0] == TILDE && At(s, 1) != ZERO && At(s, 1) != ONE) {
      key, tail := [], s;
      assert Encode([]) + tail == tail;
    } else {
      var c := if s[0] != TILDE then s[0] else if s[1] == ZERO then TILDE else SLASH;
      var n := |EncodeByte(c)|;
      assert s == EncodeByte(c) + s[n..];
      var rest;
      rest, tail := SplitsToken(s[n..]);
      key := [c] + rest;
      EncodeUnfolds(key);
      assert key[1..] == rest;
      Assoc(EncodeByte(c), Encode(rest), tail);
    }
  }

  // ----- when it undoes the encoding -----

  lemma {:induction false} FirstSlash(key: CString) returns (p: nat)
    requires SLASH in key
    ensures p < |key| && key[p] == SLASH && (p > 0 ==> key[p - 1] != SLASH)
  {
    if key[0] == SLASH {
      p := 0;
    } else {
      p := FirstSlash(key[1..]);
      p := p + 1;
    }
  }

  /** The key has no slash, and no ordinary byte that the escapes before it push to another place. */
  predicate Unshifted(key: CString) {
    SLASH !in key && forall i :: 0 <= i < |key| && key[i] != TILDE ==> Encode(key)[i] == key[i]
  }

  lemma DecodedBytes(key: CString)
    ensures |Decode(Encode(key))| == |key|
    ensures forall i :: 0 <= i < |key| ==> Decode(Encode(key))[i] == ByteLeft(key, Encode(key), i)
  {
    hide Encode, Decode;
    DecodesToken(key, []);
    assert Encode(key) + [] == Encode(key);
  }

  /** Decoding in place undoes the encoding exactly for such keys. */
  lemma DecodesExactly(key: CString)
    ensures Decode(Encode(key)) == key <==> Unshifted(key)
  {
    hide Encode, Decode;
    DecodedBytes(key);
    if SLASH in key {
      var p := FirstSlash(key);
      assert Decode(Encode(key))[p] == Encode(key)[p] != SLASH;
    }
  }

  /** Keys without escapes are of this kind, and so are keys whose tildes all come last. */
  lemma {:induction false} PlainKeys(key: CString, tildes: nat)
    requires SLASH !in key && TILDE !in key
    ensures Unshifted(key) && Encode(key) == key
    ensures Unshifted(key + seq(tildes, _ => TILDE))
  {
    EncodePlain(key);
    var tail: CString := seq(tildes, _ => TILDE);
    EncodeAppend(key, tail);
    assert forall i :: 0 <= i < |key| ==> Encode(key + tail)[i] == key[i] == (key + tail)[i];
  }

  lemma {:induction false} EncodePlain(key: CString)
    requires SLASH !in key && TILDE !in key
    ensures Encode(key) == key
  {
    if key != [] {
      EncodePlain(key[1..]);
      assert key == [key[0]] + key[1..];
    }
  }

  lemma {:induction false} EncodeAppend(a: CString, b: CString)
    ensures Encode(a + b) == Encode(a) + Encode(b)
  {
    hide EncodeByte, Encode;
    if a == [] {
      assert a + b == b;
      EncodeOfNothing();
    } else {
      EncodeAppend(a[1..], b);
      assert (a + b)[1..] == a[1..] + b && (a + b)[0] == a[0];
      EncodeUnfolds(a);
      EncodeUnfolds(a + b);
    }
  }

  lemma EncodeOfNothing()
    ensures Encode([]) == []
  {
  }

  lemma EncodeUnfolds(key: CString)
    requires key != []
    ensures Encode(key) == EncodeByte(key[0]) + Encode(key[1..])
  {
  }
}

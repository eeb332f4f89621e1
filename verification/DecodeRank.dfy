/** Decoding a key's encoding in place never goes round in circles: a key that is changed becomes a key of higher rank,
    also when letter case is ignored. */
module DecodeRank {
  import opened Bytes
  import opened Pointer
  import opened DecodeInPlace

  /** What an operation that ends in `key` takes the key for. */
  function Mistaken(key: CString): CString {
    Decode(Encode(key))
  }

  function SlashFrom(key: CString, i: nat): (p: nat)
    requires i <= |key|
    ensures i <= p <= |key| && forall j :: i <= j < p ==> key[j] != SLASH
    ensures p < |key| ==> key[p] == SLASH
    decreases |key| - i
  {
    if i < |key| && key[i] != SLASH then SlashFrom(key, i + 1) else i
  }

  /** Decoding keeps the byte at `i`. */
  predicate Stays(key: CString, i: nat)
    requires i < |key|
  {
    key[i] == TILDE || Encode(key)[i] == key[i]
  }

  /** How far, from `i` on, decoding keeps the bytes of the key. */
  function SteadyFrom(key: CString, i: nat): (n: nat)
    requires i <= |key|
    ensures i <= n <= |key| && forall j :: i <= j < n ==> Stays(key, j)
    ensures n < |key| ==> !Stays(key, n)
    decreases |key| - i
  {
    if i < |key| && Stays(key, i) then SteadyFrom(key, i + 1) else i
  }

  /** The place of the first slash, or, above all those, how long the key is and how far it is kept. */
  function Rank(key: CString): nat {
    var p := SlashFrom(key, 0);
    if p < |key| then p else |key| + SteadyFrom(key, 0)
  }

  // ----- letter case -----

  lemma {:induction false} DecodeLower(s: CString, r: nat, w: nat)
    requires w <= r <= |s|
    ensures DecodeFrom(LowerAll(s), r, w) == LowerAll(DecodeFrom(s, r, w))
    decreases |s| - r
  {
    if r < |s| {
      LowerEscapes(s[r]);
      if r + 1 < |s| {
        LowerEscapes(s[r + 1]);
      }
      if s[r] != TILDE {
        DecodeLower(s, r + 1, w + 1);
      } else if At(s, r + 1) == ZERO {
        assert LowerAll(s)[w := TILDE] == LowerAll(s[w := TILDE]);
        DecodeLower(s[w := TILDE], r + 2, w + 1);
      } else if At(s, r + 1) == ONE {
        assert LowerAll(s)[w + 1 := SLASH] == LowerAll(s[w + 1 := SLASH]);
        DecodeLower(s[w + 1 := SLASH], r + 2, w + 1);
      }
    }
  }

  lemma MistakenLower(key: CString)
    ensures Mistaken(LowerAll(key)) == LowerAll(Mistaken(key))
  {
    EncodeLower(key);
    DecodeLower(Encode(key), 0, 0);
  }

  lemma MistakenLength(key: CString)
    ensures |Mistaken(key)| == |key|
  {
    DecodedBytes(key);
  }

  // ----- the rank grows -----

  /** As long as nothing has been escaped, a byte is encoded where it stands. */
  lemma UnescapedStays(key: CString, i: nat)
    requires i < |key| && SLASH !in key && |Encode(key[..i])| == i
    ensures Stays(key, i)
  {
    EncodeSplit(key, i);
  }

  /** Which byte of the key a byte of its encoding comes from. */
  lemma {:induction false} ComesFrom(key: CString, n: nat, i: nat) returns (m: nat)
    requires n <= |key| && i < |Encode(key[..n])| && i <= |Encode(key)|
    ensures m < n && |Encode(key[..m])| <= i < |Encode(key[..m])| + |EncodeByte(key[m])|
    decreases n
  {
    EncodeSnoc(key[..n - 1], key[n - 1]);
    assert key[..n - 1] + [key[n - 1]] == key[..n];
    if i < |Encode(key[..n - 1])| {
      m := ComesFrom(key, n - 1, i);
    } else {
      m := n - 1;
    }
  }

  /** Behind the first escape of what is kept, there are only tildes and zeros. */
  lemma {:induction false} ShiftedByte(key: CString, i: nat)
    requires i < |key| && SLASH !in key && i < |Encode(key[..i])| && forall j :: 0 <= j < i ==> Stays(key, j)
    ensures i < |Encode(key)| && (Encode(key)[i] == TILDE || Encode(key)[i] == ZERO)
    decreases i
  {
    hide Encode;
    var m := ComesFrom(key, i, i);
    var r, next := ReadsByte(key, m);
    assert Encode(key)[i] == Encode(key)[r..next][i - r] == EncodeByte(key[m])[i - r];
    if key[m] != TILDE {
      if r > m {
        ShiftedByte(key, m);
      }
      assert Stays(key, m);
    }
  }

  /** The encoding up to a byte depends only on the key up to there. */
  lemma SamePrefix(a: CString, b: CString, n: nat, i: nat)
    requires n <= |a| && n <= |b| && a[..n] == b[..n] && i < |Encode(a[..n])|
    ensures i < |Encode(a)| && i < |Encode(b)| && Encode(a)[i] == Encode(b)[i]
  {
    EncodeAppend(a[..n], a[n..]);
    EncodeAppend(b[..n], b[n..]);
    assert a == a[..n] + a[n..] && b == b[..n] + b[n..];
  }

  lemma MistakenBytes(key: CString)
    requires SLASH !in key
    ensures |Mistaken(key)| == |key|
    ensures forall i :: 0 <= i < |key| ==> Mistaken(key)[i] == if key[i] == TILDE then TILDE else Encode(key)[i]
  {
    hide Encode, Decode;
    DecodedBytes(key);
  }

  /** Without slashes: decoding puts a byte that is kept where it first changes the key. */
  lemma SteadyGrows(key: CString)
    requires SLASH !in key && SteadyFrom(key, 0) < |key|
    ensures SLASH !in Mistaken(key) && SteadyFrom(Mistaken(key), 0) > SteadyFrom(key, 0)
  {
    hide Encode, Mistaken, SteadyFrom;
    var s, d := SteadyFrom(key, 0), Mistaken(key);
    MistakenBytes(key);
    if |Encode(key[..s])| == s {
      UnescapedStays(key, s);
    }
    assert key[..s] == d[..s] by {
      forall j | 0 <= j < s ensures key[j] == d[j] {
        assert Stays(key, j);
      }
    }
    forall j | 0 <= j <= s ensures Stays(d, j) {
      StaysInMistaken(key, s, j);
    }
  }

  lemma StaysInMistaken(key: CString, s: nat, j: nat)
    requires SLASH !in key && j <= s < |key| && s < |Encode(key[..s])| && |Mistaken(key)| == |key| && key[..s] == Mistaken(key)[..s]
    requires forall i :: 0 <= i < s ==> Stays(key, i)
    ensures Stays(Mistaken(key), j)
  {
    hide Encode, Mistaken, Stays;
    var d := Mistaken(key);
    MistakenBytes(key);
    if d[j] != TILDE {
      if j < s {
        assert Stays(key, j) && key[j] == key[..s][j] == d[..s][j];
        assert key[..j + 1] == key[..s][..j + 1] == d[..s][..j + 1] == d[..j + 1];
        SamePrefix(key, d, j + 1, j);
      } else {
        SamePrefix(key, d, s, s);
      }
    }
    StaysIs(key, j);
    StaysIs(d, j);
  }

  lemma StaysIs(key: CString, i: nat)
    requires i < |key|
    ensures Stays(key, i) <==> key[i] == TILDE || Encode(key)[i] == key[i]
  {
  }

  lemma ChangedSomewhere(key: CString)
    requires SLASH !in key && Mistaken(key) != key
    ensures SteadyFrom(key, 0) < |key|
  {
    hide Encode, Mistaken;
    MistakenBytes(key);
    var i :| 0 <= i < |key| && Mistaken(key)[i] != key[i];
    assert !Stays(key, i);
  }

  /** A key that is not kept is not kept in lower case either. */
  lemma UnsteadyLower(key: CString)
    requires SLASH !in key && SteadyFrom(key, 0) < |key|
    ensures SteadyFrom(LowerAll(key), 0) < |key|
  {
    hide Encode, SteadyFrom;
    var s := SteadyFrom(key, 0);
    assert forall j :: 0 <= j < s ==> Stays(key, j);
    if |Encode(key[..s])| == s {
      UnescapedStays(key, s);
    }
    ShiftedByte(key, s);
    EncodeLower(key);
    LowerEscapes(key[s]);
    assert !Stays(LowerAll(key), s);
  }

  /** What an operation mistakes a key for has a higher rank, letter case aside. */
  lemma RankGrows(key: CString)
    requires Mistaken(key) != key
    ensures Rank(LowerAll(Mistaken(key))) > Rank(LowerAll(key))
  {
    hide Encode, Mistaken, SteadyFrom, SlashFrom;
    var low := LowerAll(key);
    MistakenLower(key);
    MistakenLength(low);
    assert forall i :: 0 <= i < |key| ==> (low[i] == SLASH <==> key[i] == SLASH) by {
      forall i | 0 <= i < |key| ensures low[i] == SLASH <==> key[i] == SLASH {
        LowerEscapes(key[i]);
      }
    }
    if SLASH in key {
      SlashMoves(low);
    } else {
      assert SLASH !in low;
      ChangedSomewhere(key);
      UnsteadyLower(key);
      SteadyGrows(low);
    }
  }

  lemma SlashMoves(key: CString)
    requires SLASH in key
    ensures SlashFrom(key, 0) < |key| && SlashFrom(Mistaken(key), 0) > SlashFrom(key, 0)
  {
    hide Encode, Decode;
    var p, d := SlashFrom(key, 0), Mistaken(key);
    DecodedBytes(key);
    var q := SlashFrom(d, 0);
    if q < |d| {
      assert d[q] == ByteLeft(key, Encode(key), q) && Encode(key)[q] != SLASH;
    }
  }

  /** An operation that mistakes a key does not hit a key that agrees with it ignoring case. */
  lemma MistakenLoosely(key: CString)
    ensures LowerAll(Mistaken(key)) == LowerAll(key) <==> Mistaken(key) == key
    ensures Mistaken(key) == key <==> Unshifted(key)
  {
    hide Rank;
    DecodesExactly(key);
    if Mistaken(key) != key {
      RankGrows(key);
    }
  }
}

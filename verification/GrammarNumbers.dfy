/** `parse_number` reads exactly the numbers of the grammar. */
module GrammarNumbers {
  import opened Bytes
  import opened Json
  import opened ParseSpec
  import opened Grammar

  // ----- values -----

  /** Reading digits by their places gives what reading them one after the other gives. */
  lemma {:induction false} NaturalIsValue(t: seq<Byte>)
    requires AllDigits(t)
    ensures Natural(t) == DigitsValue(t)
    decreases |t|
  {
    if t != [] {
      NaturalIsValue(t[1..]);
      ValueOfFirst(t);
    }
  }

  lemma {:induction false} ValueOfFirst(t: seq<Byte>)
    requires t != [] && AllDigits(t)
    ensures DigitsValue(t) == (t[0] - ZERO) * Pow10(|t| - 1) + DigitsValue(t[1..])
    decreases |t|
  {
    var init := t[..|t| - 1];
    if init == [] {
      assert DigitsValue(init) == 0 && t[1..] == [];
    } else {
      ValueOfFirst(init);
      assert t[1..][..|t| - 2] == init[1..];
      assert Pow10(|t| - 1) == 10 * Pow10(|t| - 2);
      Distribute(t[0] - ZERO, Pow10(|t| - 2));
    }
  }

  lemma Distribute(d: int, p: int)
    ensures 10 * (d * p) == d * (10 * p)
  {
  }

  lemma {:induction false} FractionIsScaled(t: seq<Byte>)
    requires AllDigits(t)
    ensures Fraction(t) == Scale(DigitsValue(t) as real, |t|, true)
    decreases |t|
  {
    hide Fraction, DigitsValue, Pow10;
    ScaledDown(DigitsValue(t), |t|);
    if t == [] {
      NoFraction();
    } else {
      FractionStep(t);
      FractionIsScaled(t[1..]);
      ValueOfFirst(t);
      ScaledDown(DigitsValue(t[1..]), |t| - 1);
      TenthOf((t[0] - ZERO) as real, Pow10(|t| - 1) as real, DigitsValue(t[1..]) as real);
      InReals(t[0] - ZERO, Pow10(|t| - 1), DigitsValue(t[1..]));
    }
  }

  lemma NoFraction()
    ensures DigitsValue([]) == 0 && Fraction([]) == 0.0 && Pow10(0) == 1
  {
  }

  lemma FractionStep(t: seq<Byte>)
    requires t != [] && AllDigits(t)
    ensures IsDigit(t[0]) && AllDigits(t[1..])
    ensures Fraction(t) == ((t[0] - ZERO) as real + Fraction(t[1..])) / 10.0
    ensures Pow10(|t|) == 10 * Pow10(|t| - 1)
  {
  }

  lemma ScaledDown(v: nat, k: nat)
    ensures Pow10(k) > 0 && Scale(v as real, k, true) == v as real / Pow10(k) as real
  {
    PowerPositive(k);
  }

  lemma InReals(d: int, p: int, v: int)
    ensures (d * p + v) as real == d as real * p as real + v as real
  {
  }

  lemma TenthOf(d: real, p: real, v: real)
    requires p > 0.0
    ensures (d * p + v) / (10.0 * p) == (d + v / p) / 10.0
  {
    var q := v / p;
    assert v == q * p;
    assert d * p + v == (d + q) * p;
    assert (d + q) * p == (d + q) / 10.0 * (10.0 * p);
    Cancel((d + q) / 10.0, 10.0 * p);
  }

  lemma Cancel(x: real, y: real)
    requires y != 0.0
    ensures x * y / y == x
  {
  }

  lemma KeepsSaturated(x: real, n: Int32)
    ensures Keeps(x, n) <==> n == Saturate(x)
  {
  }

  // ----- extents -----

  /** The parts that `strtod` takes of `s`. */
  function Scanned(s: seq<Byte>): (p: Parts)
    ensures p.whole <= p.wholeEnd <= p.fraction <= p.fractionEnd <= p.exponent <= |s|
  {
    var whole: nat := if |s| > 0 && IsSign(s[0]) then 1 else 0;
    var wholeEnd := DigitsEnd(s, whole);
    var fraction: nat := if wholeEnd < |s| && s[wholeEnd] == DOT then wholeEnd + 1 else wholeEnd;
    var fractionEnd := if fraction > wholeEnd then DigitsEnd(s, fraction) else wholeEnd;
    var exponent: nat :=
      if fractionEnd < |s| && (s[fractionEnd] == LOWER_E || s[fractionEnd] == UPPER_E) then
        if fractionEnd + 1 < |s| && IsSign(s[fractionEnd + 1]) then fractionEnd + 2 else fractionEnd + 1
      else fractionEnd;
    Parts(whole, wholeEnd, fraction, fractionEnd, exponent)
  }

  function ScannedEnd(s: seq<Byte>): (n: nat)
    ensures n <= |s|
  {
    var p := Scanned(s);
    if p.exponent > p.fractionEnd && DigitsEnd(s, p.exponent) > p.exponent then DigitsEnd(s, p.exponent) else p.fractionEnd
  }

  /** The parts of the numeral that is taken: an exponent without digits is not part of it. */
  function Taken(s: seq<Byte>): Parts {
    var p := Scanned(s);
    if ScannedEnd(s) == p.fractionEnd then p.(exponent := p.fractionEnd) else p
  }

  predicate StartsNumber(s: seq<Byte>) { s != [] && (s[0] == MINUS || IsDigit(s[0])) }

  predicate DigitsIn(s: seq<Byte>, i: nat, k: nat)
    requires k <= |s|
  {
    forall x :: i <= x < k ==> IsDigit(s[x])
  }

  /** The first `n` bytes of `s` are a numeral with the parts `q`, said by positions in `s`. */
  predicate HasParts(s: seq<Byte>, n: nat, q: Parts)
    requires n <= |s|
  {
    && q.whole <= q.wholeEnd <= q.fraction <= q.fractionEnd <= q.exponent <= n
    && (q.whole == 0 || (q.whole == 1 && s[0] == MINUS))
    && DigitsIn(s, q.whole, q.wholeEnd)
    && (q.fraction == q.fractionEnd == q.wholeEnd || (q.fraction == q.wholeEnd + 1 && s[q.wholeEnd] == DOT))
    && DigitsIn(s, q.fraction, q.fractionEnd)
    && (q.whole < q.wholeEnd || (q.whole == 1 && q.fraction < q.fractionEnd))
    && DigitsIn(s, q.exponent, n)
    && (q.fractionEnd == q.exponent == n || (q.exponent < n && IsMark(s, q.fractionEnd, q.exponent)))
  }

  predicate IsMark(s: seq<Byte>, i: nat, k: nat)
    requires k <= |s|
  {
    i + 1 <= k <= i + 2 && (s[i] == LOWER_E || s[i] == UPPER_E) && (k == i + 2 ==> IsSign(s[i + 1]))
  }

  lemma DigitsOfSlice(s: seq<Byte>, n: nat, i: nat, k: nat)
    requires i <= k <= n <= |s|
    ensures AllDigits(s[..n][i..k]) <==> DigitsIn(s, i, k)
  {
    var t := s[..n][i..k];
    assert forall x :: i <= x < k ==> t[x - i] == s[x];
    assert forall x :: 0 <= x < |t| ==> t[x] == s[x + i];
  }

  lemma NumeralByPositions(s: seq<Byte>, n: nat, q: Parts)
    requires n <= |s|
    ensures IsNumeral(s[..n], q) <==> HasParts(s, n, q)
  {
    hide AllDigits, DigitsIn;
    var t := s[..n];
    if q.whole <= q.wholeEnd <= q.fraction <= q.fractionEnd <= q.exponent <= n {
      DigitsOfSlice(s, n, q.whole, q.wholeEnd);
      DigitsOfSlice(s, n, q.fraction, q.fractionEnd);
      DigitsOfSlice(s, n, q.exponent, n);
      assert t[q.exponent..] == t[q.exponent..n];
      var mark := t[q.fractionEnd..q.exponent];
      assert |mark| > 0 ==> mark[0] == s[q.fractionEnd];
      assert |mark| > 1 ==> mark[1] == s[q.fractionEnd + 1];
    }
  }

  lemma Consumes(s: seq<Byte>)
    ensures var p := Scanned(s);
      Strtod(s).consumed == if p.wholeEnd == p.whole && p.fractionEnd == p.fraction then 0 else ScannedEnd(s)
  {
    hide Scale, DigitsValue;
  }

  lemma TakenParts(s: seq<Byte>)
    requires StartsNumber(s) && Strtod(s).consumed > 0
    ensures HasParts(s, ScannedEnd(s), Taken(s))
  {
    Consumes(s);
    hide Strtod;
  }

  /** What `strtod` takes is a numeral, if it takes anything. */
  lemma TakesNumeral(s: seq<Byte>)
    requires StartsNumber(s) && Strtod(s).consumed > 0
    ensures Strtod(s).consumed == ScannedEnd(s)
    ensures IsNumeral(s[..ScannedEnd(s)], Taken(s))
  {
    hide Strtod, IsNumeral, Scanned, HasParts;
    Consumes(s);
    TakenParts(s);
    NumeralByPositions(s, ScannedEnd(s), Taken(s));
  }

  /** The digits before the point of any numeral in front of `s`, unless the numeral ends there, are those scanned. */
  lemma TakesWhole(s: seq<Byte>, n: nat, q: Parts)
    requires n <= |s| && HasParts(s, n, q)
    ensures var p := Scanned(s);
      && StartsNumber(s)
      && q.whole == p.whole
      && q.wholeEnd <= p.wholeEnd
      && (q.wholeEnd < n ==> q.wholeEnd == p.wholeEnd)
  {
    assert q.whole == 0 ==> IsDigit(s[q.whole]);
    RunOfDigits(s, q.whole, q.wholeEnd);
  }

  lemma TakesFraction(s: seq<Byte>, n: nat, q: Parts)
    requires n <= |s| && HasParts(s, n, q)
    ensures var p := Scanned(s);
      && q.fractionEnd <= p.fractionEnd
      && (q.fraction > q.wholeEnd ==> q.fraction == p.fraction)
      && (q.fractionEnd < n ==> q.fraction == p.fraction && q.fractionEnd == p.fractionEnd)
  {
    TakesWhole(s, n, q);
    if q.fraction > q.wholeEnd {
      RunOfDigits(s, q.fraction, q.fractionEnd);
    }
  }

  /** No numeral in front of `s` is longer, and the one of that length has no other parts. */
  lemma TakesMost(s: seq<Byte>, n: nat, q: Parts)
    requires n <= |s| && IsNumeral(s[..n], q)
    ensures n <= ScannedEnd(s) && Strtod(s).consumed > 0 && StartsNumber(s)
    ensures n == ScannedEnd(s) ==> q == Taken(s)
  {
    NumeralByPositions(s, n, q);
    hide Strtod, IsNumeral;
    Consumes(s);
    TakesWhole(s, n, q);
    TakesFraction(s, n, q);
    if q.exponent > q.fractionEnd {
      RunOfDigits(s, q.exponent, n);
    }
  }

  lemma RunOfDigits(s: seq<Byte>, i: nat, k: nat)
    requires i <= k <= |s| && DigitsIn(s, i, k)
    ensures k <= DigitsEnd(s, i) && (k < |s| && !IsDigit(s[k]) ==> k == DigitsEnd(s, i))
  {
  }

  function Signed(negative: bool, x: real): real { if negative then -x else x }

  function ValueAt(s: seq<Byte>, i: nat, k: nat): nat
    requires i <= k <= |s| && DigitsIn(s, i, k)
  {
    DigitsValue(s[i..k])
  }

  /** What `strtod` computes of the parts it takes. */
  function Computed(s: seq<Byte>, n: nat, q: Parts): real
    requires n <= |s| && HasParts(s, n, q)
  {
    var mantissa := ValueAt(s, q.whole, q.wholeEnd) as real
      + Scale(ValueAt(s, q.fraction, q.fractionEnd) as real, q.fractionEnd - q.fraction, true);
    var down := q.exponent == q.fractionEnd + 2 && s[q.fractionEnd + 1] == MINUS;
    Signed(q.whole == 1, Scale(mantissa, ValueAt(s, q.exponent, n), down))
  }

  lemma ComputesParts(s: seq<Byte>)
    requires StartsNumber(s) && Strtod(s).consumed > 0
    ensures HasParts(s, ScannedEnd(s), Taken(s))
    ensures Strtod(s).value == Computed(s, ScannedEnd(s), Taken(s))
  {
    TakenParts(s);
    hide Scale, DigitsValue, HasParts, DigitsIn;
    var q := Taken(s);
    assert s[q.exponent..q.exponent] == [];
    forall x, down ensures DigitsValue([]) == 0 && Scale(x, 0, down) == x {
      ScaleByNothing(x, down);
    }
  }

  lemma ScaleByNothing(x: real, down: bool)
    ensures DigitsValue([]) == 0 && Scale(x, 0, down) == x
  {
  }

  lemma DenotesScaled(t: seq<Byte>, q: Parts)
    requires IsNumeral(t, q)
    ensures var mantissa := Natural(t[q.whole..q.wholeEnd]) as real + Fraction(t[q.fraction..q.fractionEnd]);
      Denotes(t, q) == Signed(q.whole == 1, Scale(mantissa, Natural(t[q.exponent..]), q.exponent == q.fractionEnd + 2 && t[q.fractionEnd + 1] == MINUS))
  {
    hide Natural, Fraction, AllDigits, Pow10;
  }

  lemma DenotesComputed(s: seq<Byte>, n: nat, q: Parts)
    requires n <= |s| && IsNumeral(s[..n], q)
    ensures HasParts(s, n, q) && Denotes(s[..n], q) == Computed(s, n, q)
  {
    NumeralByPositions(s, n, q);
    hide DigitsValue, Natural, Fraction, AllDigits, DigitsIn, IsExponentMark, IsMark, Denotes, Scale;
    var t := s[..n];
    DenotesScaled(t, q);
    assert t[q.whole..q.wholeEnd] == s[q.whole..q.wholeEnd] && t[q.fraction..q.fractionEnd] == s[q.fraction..q.fractionEnd];
    assert t[q.exponent..] == s[q.exponent..n];
    NaturalIsValue(t[q.whole..q.wholeEnd]);
    NaturalIsValue(t[q.exponent..]);
    FractionIsScaled(t[q.fraction..q.fractionEnd]);
  }

  /** The number `strtod` computes is the one its numeral denotes. */
  lemma ComputesNumber(s: seq<Byte>)
    requires StartsNumber(s) && Strtod(s).consumed > 0
    ensures IsNumeral(s[..ScannedEnd(s)], Taken(s))
    ensures Strtod(s).value == Denotes(s[..ScannedEnd(s)], Taken(s))
  {
    hide Strtod, IsNumeral, Denotes, ScannedEnd, Taken, Computed, HasParts;
    TakesNumeral(s);
    ComputesParts(s);
    DenotesComputed(s, ScannedEnd(s), Taken(s));
  }

  // ----- numbers in a buffer -----

  /** No numeral reaches beyond the characters that a number may contain. */
  lemma NumeralInside(c: seq<Byte>, i: nat, o: nat, q: Parts)
    requires i <= o <= |c| && IsNumeral(c[i..o], q)
    ensures o <= NumberEnd(c, i)
  {
    hide IsNumeral;
    var s := c[i..o];
    assert s == s[..o - i];
    NumeralByPositions(s, o - i, q);
    forall k | i <= k < o ensures IsNumberChar(c[k]) {
      assert c[k] == s[k - i];
    }
    NumberCharsEnd(c, i, o);
  }

  lemma {:induction false} NumberCharsEnd(c: seq<Byte>, i: nat, o: nat)
    requires i <= o <= |c| && forall k :: i <= k < o ==> IsNumberChar(c[k])
    ensures o <= NumberEnd(c, i)
    decreases o - i
  {
    if i < o { NumberCharsEnd(c, i + 1, o); }
  }

  /** A number is read as far as it goes and for what it denotes, and nothing else is read. */
  lemma NumberIsRead(c: seq<Byte>, i: nat, o: nat, n: Int32)
    requires i < |c| && (c[i] == MINUS || IsDigit(c[i]))
    ensures ParseNumber(c, i) == Done(Number(n), o) <==> IsNumber(c, i, o, n)
  {
    hide Strtod, IsNumeral, Denotes, Taken, ScannedEnd, Keeps, Saturate;
    var last := NumberEnd(c, i);
    var s := c[i..last];
    FirstIsNumberChar(c, i);
    if IsNumber(c, i, o, n) {
      var q :| IsNumeral(c[i..o], q) && Keeps(Denotes(c[i..o], q), n);
      NumeralInside(c, i, o, q);
      assert s[..o - i] == c[i..o];
      TakesMost(s, o - i, q);
      ComputesNumber(s);
      TakesNumeral(s);
      var taken := i + ScannedEnd(s);
      assert s[..ScannedEnd(s)] == c[i..taken];
      assert o == taken;
      KeepsSaturated(Strtod(s).value, n);
    }
    if ParseNumber(c, i) == Done(Number(n), o) {
      TakesNumeral(s);
      ComputesNumber(s);
      assert s[..ScannedEnd(s)] == c[i..o];
      KeepsSaturated(Strtod(s).value, n);
      forall longer, q | o < longer <= |c| ensures !IsNumeral(c[i..longer], q) {
        if IsNumeral(c[i..longer], q) {
          NumeralInside(c, i, longer, q);
          assert s[..longer - i] == c[i..longer];
          TakesMost(s, longer - i, q);
        }
      }
    }
  }

  lemma FirstIsNumberChar(c: seq<Byte>, i: nat)
    requires i < |c| && (c[i] == MINUS || IsDigit(c[i]))
    ensures i < NumberEnd(c, i) && StartsNumber(c[i..NumberEnd(c, i)])
  {
  }

  /** A number starts with a digit or a minus. */
  lemma NumberStarts(c: seq<Byte>, i: nat, o: nat, n: Int32)
    requires IsNumber(c, i, o, n)
    ensures i < o && (c[i] == MINUS || IsDigit(c[i]))
  {
    hide IsNumeral, Denotes, Keeps;
    var q :| IsNumeral(c[i..o], q) && Keeps(Denotes(c[i..o], q), n);
    var s := c[i..o];
    assert s == s[..o - i];
    TakesMost(s, o - i, q);
    assert s[0] == c[i];
  }
}

/** Bytes, C strings and the byte-level helpers every other module uses. */
module Bytes {

  type Byte = b: int | 0 <= b < 0x100

  /** A byte of a C string: anything but the terminating NUL. */
  type CChar = b: int | 0 < b < 0x100 witness 1

  /** The contents of a NUL-terminated string; reading at its length yields the NUL. */
  type CString = seq<CChar>

  const TAB: CChar := 9
  const NEWLINE: CChar := 10
  const SPACE: CChar := 32
  const QUOTE: CChar := 34
  const STAR: CChar := 42
  const PLUS: CChar := 43
  const COMMA: CChar := 44
  const MINUS: CChar := 45
  const DOT: CChar := 46
  const SLASH: CChar := 47
  const ZERO: CChar := 48
  const ONE: CChar := 49
  const NINE: CChar := 57
  const COLON: CChar := 58
  const LBRACKET: CChar := 91
  const BACKSLASH: CChar := 92
  const RBRACKET: CChar := 93
  const LOWER_B: CChar := 98
  const LOWER_E: CChar := 101
  const LOWER_F: CChar := 102
  const LOWER_N: CChar := 110
  const LOWER_R: CChar := 114
  const LOWER_T: CChar := 116
  const LOWER_U: CChar := 117
  const UPPER_E: CChar := 69
  const LBRACE: CChar := 123
  const RBRACE: CChar := 125
  const TILDE: CChar := 126

  /** What a C program reads at index `i` of a NUL-terminated string. */
  function At(s: CString, i: nat): Byte {
    if i < |s| then s[i] else 0
  }

  /** A C string as it lies in memory, with its NUL. */
  function Terminated(s: CString): seq<Byte> {
    var bytes: seq<Byte> := s;
    bytes + [0]
  }

  /** The C string held by a byte buffer: everything before the first NUL. */
  function UpToNul(s: seq<Byte>): CString {
    if s == [] || s[0] == 0 then [] else [s[0]] + UpToNul(s[1..])
  }

  lemma UpToNulOfCString(s: CString)
    ensures UpToNul(s) == s
  {
  }

  lemma {:induction false} UpToNulStops(s: seq<Byte>, n: nat)
    requires n < |s| && s[n] == 0
    ensures UpToNul(s) == UpToNul(s[..n])
  {
    if n > 0 && s[0] != 0 {
      UpToNulStops(s[1..], n - 1);
      assert s[..n][1..] == s[1..][..n - 1];
    }
  }

  lemma Assoc(a: seq<Byte>, b: seq<Byte>, c: seq<Byte>)
    ensures a + b + c == a + (b + c)
  {
  }

  /** `text` occurs in `c` at position `i`. */
  predicate HasAt(c: seq<Byte>, i: nat, text: seq<Byte>) {
    i + |text| <= |c| && c[i..i + |text|] == text
  }

  lemma HasAtSplit(c: seq<Byte>, i: nat, a: seq<Byte>, b: seq<Byte>)
    ensures HasAt(c, i, a + b) <==> HasAt(c, i, a) && HasAt(c, i + |a|, b)
  {
    if i + |a| + |b| <= |c| {
      assert c[i..i + |a + b|] == c[i..i + |a|] + c[i + |a|..i + |a| + |b|];
      assert c[i..i + |a + b|][..|a|] == c[i..i + |a|];
      assert c[i..i + |a + b|][|a|..] == c[i + |a|..i + |a| + |b|];
      assert (a + b)[..|a|] == a && (a + b)[|a|..] == b;
    }
  }

  predicate IsDigit(b: Byte) { ZERO <= b <= NINE }

  // ----- decimal text of integers -----

  /** The end of the run of digits that starts at `i`. */
  function DigitsEnd(s: seq<Byte>, i: nat): (k: nat)
    requires i <= |s|
    ensures i <= k <= |s|
    ensures forall j :: i <= j < k ==> IsDigit(s[j])
    ensures k < |s| ==> !IsDigit(s[k])
    decreases |s| - i
  {
    if i < |s| && IsDigit(s[i]) then DigitsEnd(s, i + 1) else i
  }

  /** The digits of `n` without leading zeros, as Rust's `to_string` writes an unsigned integer. */
  function Digits(n: nat): (s: CString)
    ensures |s| >= 1
    ensures forall i :: 0 <= i < |s| ==> IsDigit(s[i])
    ensures s[0] == ZERO <==> n == 0
    ensures n == 0 ==> |s| == 1
  {
    if n < 10 then [ZERO + n] else Digits(n / 10) + [ZERO + n % 10]
  }

  /** The text of an `i32`, as `format!("{}", n)` writes it. */
  function Decimal(n: int): CString {
    if n < 0 then [MINUS] + Digits(-n) else Digits(n)
  }

  /** The number a string of digits denotes. */
  function DigitsValue(s: seq<Byte>): nat
    requires forall i :: 0 <= i < |s| ==> IsDigit(s[i])
  {
    if s == [] then 0 else
      assert IsDigit(s[|s| - 1]);
      10 * DigitsValue(s[..|s| - 1]) + (s[|s| - 1] - ZERO)
  }

  lemma {:induction false} DigitsRoundTrip(n: nat)
    ensures DigitsValue(Digits(n)) == n
  {
    if n < 10 {
      var s := Digits(n);
      assert s[..|s| - 1] == [];
    } else {
      var s := Digits(n);
      DigitsRoundTrip(n / 10);
      assert s[..|s| - 1] == Digits(n / 10);
    }
  }

  function Pow10(k: nat): nat {
    if k == 0 then 1 else 10 * Pow10(k - 1)
  }

  lemma PowerPositive(k: nat)
    ensures Pow10(k) > 0
  {
  }

  lemma {:induction false} DigitsLength(n: nat, k: nat)
    requires 0 < k && n < Pow10(k)
    ensures |Digits(n)| <= k
  {
    if n >= 10 {
      DigitsLength(n / 10, k - 1);
    }
  }

  // ----- C string comparison -----

  /** `strcmp`: the difference at the first position where the strings differ, 0 if there is none. */
  function StrCmp(a: CString, b: CString): int
    decreases |a|
  {
    if At(a, 0) != At(b, 0) || a == [] then At(a, 0) - At(b, 0) else StrCmp(a[1..], b[1..])
  }

  lemma {:induction false} StrCmpZero(a: CString, b: CString)
    ensures StrCmp(a, b) == 0 <==> a == b
    decreases |a|
  {
    if At(a, 0) != At(b, 0) || a == [] {
    } else {
      StrCmpZero(a[1..], b[1..]);
      assert a == [a[0]] + a[1..] && b == [b[0]] + b[1..];
    }
  }

  lemma {:induction false} StrCmpAntisymmetric(a: CString, b: CString)
    ensures StrCmp(a, b) == -StrCmp(b, a)
    decreases |a|
  {
    if At(a, 0) != At(b, 0) || a == [] {
    } else {
      StrCmpAntisymmetric(a[1..], b[1..]);
    }
  }

  lemma {:induction false} StrCmpTransitive(a: CString, b: CString, c: CString)
    requires StrCmp(a, b) < 0 && StrCmp(b, c) < 0
    ensures StrCmp(a, c) < 0
    decreases |a|
  {
    if a != [] && At(a, 0) == At(b, 0) == At(c, 0) {
      StrCmpTransitive(a[1..], b[1..], c[1..]);
    }
  }

  /** `to_ascii_lowercase`. */
  function Lower(b: Byte): Byte {
    if 65 <= b <= 90 then b + 32 else b
  }

  function LowerAll(s: CString): (t: CString)
    ensures |t| == |s|
    ensures forall i :: 0 <= i < |s| ==> t[i] == Lower(s[i])
  {
    seq(|s|, i requires 0 <= i < |s| => Lower(s[i]))
  }

  /** `compare_strings` and `case_insensitive_strcmp` on two strings. */
  function CompareStrings(a: CString, b: CString, caseSensitive: bool): int {
    if caseSensitive then StrCmp(a, b) else StrCmp(LowerAll(a), LowerAll(b))
  }

  /** The loop of `cstr_cmp`: two cursors that stop at the first difference or at the NUL. */
  method CStrCmp(a: CString, b: CString) returns (diff: int)
    ensures diff == StrCmp(a, b)
  {
    var i := 0;
    while true
      invariant i <= |a| && i <= |b|
      invariant StrCmp(a, b) == StrCmp(a[i..], b[i..])
      decreases |a| - i
    {
      var x: int, y: int := At(a, i), At(b, i);
      if x != y || x == 0 {
        return x - y;
      }
      assert a[i..][1..] == a[i + 1..] && b[i..][1..] == b[i + 1..];
      i := i + 1;
    }
  }

  /** The loop of `compare_strings`, with the case flag tested as the source does. */
  method CCompareStrings(a: CString, b: CString, caseSensitive: bool) returns (diff: int)
    ensures diff == CompareStrings(a, b, caseSensitive)
  {
    if caseSensitive {
      diff := CStrCmp(a, b);
      return;
    }
    ghost var la, lb := LowerAll(a), LowerAll(b);
    var i := 0;
    while true
      invariant i <= |a| && i <= |b|
      invariant StrCmp(la, lb) == StrCmp(la[i..], lb[i..])
      decreases |a| - i
    {
      var x: int, y: int := Lower(At(a, i)), Lower(At(b, i));
      if x != y {
        return x - y;
      }
      if At(a, i) == 0 {
        return 0;
      }
      assert la[i..][1..] == la[i + 1..] && lb[i..][1..] == lb[i + 1..];
      i := i + 1;
    }
  }
}

/** What it is for bytes to be a text of a tree, said without the parser: the language that is read. */
module Grammar {
  import opened Bytes
  import opened Json
  import opened Unicode

  /** White space may stand between any two tokens: every byte up to the space counts, the NUL included. */
  predicate IsGap(c: seq<Byte>, i: nat, o: nat) {
    i <= o <= |c| && forall k :: i <= k < o ==> c[k] <= 32
  }

  /** The bytes from `i` to `o` are the characters of `word`. */
  predicate IsWord(c: seq<Byte>, i: nat, o: nat, word: string) {
    o == i + |word| <= |c| && forall k :: 0 <= k < |word| ==> c[i + k] == word[k] as int
  }

  // ----- numbers -----

  predicate AllDigits(t: seq<Byte>) { forall k :: 0 <= k < |t| ==> IsDigit(t[k]) }

  /** The number that digits denote by their places. */
  function Natural(t: seq<Byte>): nat
    requires AllDigits(t)
  {
    if t == [] then 0 else assert IsDigit(t[0]); (t[0] - ZERO) * Pow10(|t| - 1) + Natural(t[1..])
  }

  /** What digits behind a decimal point denote. */
  function Fraction(t: seq<Byte>): real
    requires AllDigits(t)
  {
    if t == [] then 0.0 else assert IsDigit(t[0]); ((t[0] - ZERO) as real + Fraction(t[1..])) / 10.0
  }

  /** Where the digits before the point start and end, those behind it, and those of the exponent start. */
  datatype Parts = Parts(whole: nat, wholeEnd: nat, fraction: nat, fractionEnd: nat, exponent: nat)

  /** `t` is a numeral with these parts: a minus or none, digits, perhaps a point and more digits, perhaps an
      `e` or `E`, a sign or none, and at least one digit. The digits before the point may start with zeros, and
      behind a minus they may be missing if there are some behind the point; those behind the point may be
      missing otherwise. */
  predicate IsNumeral(t: seq<Byte>, p: Parts) {
    && p.whole <= p.wholeEnd <= p.fraction <= p.fractionEnd <= p.exponent <= |t|
    && (p.whole == 0 || (p.whole == 1 && t[0] == MINUS))
    && AllDigits(t[p.whole..p.wholeEnd])
    && (p.fraction == p.fractionEnd == p.wholeEnd || (p.fraction == p.wholeEnd + 1 && t[p.wholeEnd] == DOT))
    && AllDigits(t[p.fraction..p.fractionEnd])
    && (p.whole < p.wholeEnd || (p.whole == 1 && p.fraction < p.fractionEnd))
    && AllDigits(t[p.exponent..])
    && (p.fractionEnd == p.exponent == |t|
        || (p.exponent < |t| && IsExponentMark(t[p.fractionEnd..p.exponent])))
  }

  predicate IsExponentMark(t: seq<Byte>) {
    1 <= |t| <= 2 && (t[0] == LOWER_E || t[0] == UPPER_E) && (|t| == 2 ==> t[1] == PLUS || t[1] == MINUS)
  }

  /** The number a numeral denotes, exactly. */
  function Denotes(t: seq<Byte>, p: Parts): real
    requires IsNumeral(t, p)
  {
    var mantissa := Natural(t[p.whole..p.wholeEnd]) as real + Fraction(t[p.fraction..p.fractionEnd]);
    var power := Pow10(Natural(t[p.exponent..])) as real;
    PowerPositive(Natural(t[p.exponent..]));
    var magnitude := if p.exponent == p.fractionEnd + 2 && t[p.fractionEnd + 1] == MINUS then mantissa / power else mantissa * power;
    if p.whole == 1 then -magnitude else magnitude
  }

  /** The integer kept of a number: the fraction is cut off, and numbers out of range give the ends of it. */
  predicate Keeps(x: real, n: Int32) {
    if x >= INT32_MAX as real then n == INT32_MAX
    else if x <= INT32_MIN as real then n == INT32_MIN
    else if x >= 0.0 then n as real <= x < n as real + 1.0
    else n as real - 1.0 < x <= n as real
  }

  /** The bytes from `i` to `o` are a numeral for `n`, and no longer stretch from `i` on is a numeral. */
  ghost predicate IsNumber(c: seq<Byte>, i: nat, o: nat, n: Int32) {
    && i <= o <= |c|
    && (exists p :: IsNumeral(c[i..o], p) && Keeps(Denotes(c[i..o], p), n))
    && forall longer, p | o < longer <= |c| :: !IsNumeral(c[i..longer], p)
  }

  // ----- strings -----

  /** How many backslashes stand in a row before `k`, back to `start` at most. */
  function Backslashes(c: seq<Byte>, start: nat, k: nat): (n: nat)
    requires k <= |c|
  {
    if start < k && c[k - 1] == BACKSLASH then 1 + Backslashes(c, start, k - 1) else 0
  }

  /** A quote that does not end the literal which starts at `start`. */
  predicate IsHidden(c: seq<Byte>, start: nat, k: nat)
    requires k <= |c|
  {
    Backslashes(c, start, k) % 2 == 1
  }

  /** The two-character escapes. */
  predicate IsShort(mark: Byte, b: Byte) {
    || (mark == 'b' as int && b == 8)
    || (mark == 't' as int && b == 9)
    || (mark == 'n' as int && b == 10)
    || (mark == 'f' as int && b == 12)
    || (mark == 'r' as int && b == 13)
    || (mark in {QUOTE, BACKSLASH, SLASH} && b == mark)
  }

  /** The `n` bytes from `k` on stand for `b`: a byte that stands for itself, a two-character escape, or one
      or two `\uXXXX` escapes that spell a scalar value in UTF-16, for its UTF-8 bytes. A `\u` without four
      hexadecimal digits stands for a NUL. `end` is where the closing quote is. */
  ghost predicate IsPiece(c: seq<Byte>, k: nat, end: nat, n: nat, b: seq<Byte>)
    requires k < end < |c|
  {
    || (n == 1 && c[k] != BACKSLASH && b == [c[k]])
    || (n == 2 && c[k] == BACKSLASH && |b| == 1 && IsShort(c[k + 1], b[0]))
    || (exists cp: nat :: IsScalar(cp) && n == 6 * |Utf16Units(cp)| && Spells(c, k, end, Utf16Units(cp)) && Carries(b, cp))
    || (n == 6 && k + 6 <= end && c[k] == BACKSLASH && c[k + 1] == LOWER_U && IsBroken(c, k) && b == [0])
  }

  predicate Carries(b: seq<Byte>, cp: nat) { IsUtf8Char(b) && Utf8Value(b) == cp }

  ghost predicate IsBroken(c: seq<Byte>, k: nat)
    requires k + 6 <= |c|
  {
    forall u: nat :: !SpellsUnit(c, k, u)
  }

  /** The bytes from `k` to the closing quote at `end` stand, piece by piece, for `bytes`. Behind a `\u` without
      four digits the last piece may take the closing quote with it. */
  ghost predicate StandsFor(c: seq<Byte>, k: nat, end: nat, bytes: seq<Byte>)
    requires k <= end + 1 && end < |c|
    decreases end + 1 - k
  {
    if k >= end then bytes == []
    else exists n: nat, m: nat ::
      && 0 < n
      && k + n <= end + 1
      && m <= |bytes|
      && IsPiece(c, k, end, n, bytes[..m])
      && StandsFor(c, k + n, end, bytes[m..])
  }

  /** The bytes from `i` to `o` are a literal for `s`: it ends at the first quote that is not hidden, and
      what its pieces stand for is `s` up to the first NUL. */
  ghost predicate IsLiteral(c: seq<Byte>, i: nat, o: nat, s: CString) {
    && i + 2 <= o <= |c|
    && c[i] == QUOTE
    && c[o - 1] == QUOTE
    && !IsHidden(c, i + 1, o - 1)
    && (forall k :: i < k < o - 1 && c[k] == QUOTE ==> IsHidden(c, i + 1, k))
    && exists bytes :: StandsFor(c, i + 1, o - 1, bytes) && IsUpToNul(s, bytes)
  }

  predicate IsUpToNul(s: CString, bytes: seq<Byte>) {
    s <= bytes && (|s| < |bytes| ==> bytes[|s|] == 0)
  }

  // ----- values -----

  /** The bytes from `i` to `o` are a text of `j`, without white space around it. */
  ghost predicate IsText(c: seq<Byte>, i: nat, o: nat, j: Json)
    decreases j, 0
  {
    match j
    case Null => IsWord(c, i, o, "null")
    case False => IsWord(c, i, o, "false")
    case True => IsWord(c, i, o, "true")
    case Number(n) => IsNumber(c, i, o, n)
    case String(s) => IsLiteral(c, i, o, s)
    case Array(items) =>
      && i + 2 <= o <= |c|
      && c[i] == LBRACKET
      && c[o - 1] == RBRACKET
      && if items == [] then IsGap(c, i + 1, o - 1) else AreElements(c, i + 1, o - 1, items)
    case Object(members) =>
      && i + 2 <= o <= |c|
      && c[i] == LBRACE
      && c[o - 1] == RBRACE
      && if members == [] then IsGap(c, i + 1, o - 1) else AreMembers(c, i + 1, o - 1, members)
  }

  /** A text of `j` with white space around it. */
  ghost predicate IsSpaced(c: seq<Byte>, i: nat, o: nat, j: Json)
    decreases j, 1
  {
    exists a, b :: IsGap(c, i, a) && IsText(c, a, b, j) && IsGap(c, b, o)
  }

  ghost predicate IsSpacedLiteral(c: seq<Byte>, i: nat, o: nat, s: CString) {
    exists a, b :: IsGap(c, i, a) && IsLiteral(c, a, b, s) && IsGap(c, b, o)
  }

  /** Texts of the elements, a comma between any two. */
  ghost predicate AreElements(c: seq<Byte>, i: nat, o: nat, items: seq<Json>)
    requires items != []
    decreases items
  {
    if |items| == 1 then IsSpaced(c, i, o, items[0])
    else exists k :: i <= k < o <= |c| && c[k] == COMMA && IsSpaced(c, i, k, items[0]) && AreElements(c, k + 1, o, items[1..])
  }

  ghost predicate IsMember(c: seq<Byte>, i: nat, o: nat, member: Keyed<Json>)
    decreases member, 1
  {
    exists k :: i <= k < o <= |c| && c[k] == COLON && IsSpacedLiteral(c, i, k, member.key) && IsSpaced(c, k + 1, o, member.item)
  }

  ghost predicate AreMembers(c: seq<Byte>, i: nat, o: nat, members: seq<Keyed<Json>>)
    requires members != []
    decreases members
  {
    if |members| == 1 then IsMember(c, i, o, members[0])
    else exists k :: i <= k < o <= |c| && c[k] == COMMA && IsMember(c, i, k, members[0]) && AreMembers(c, k + 1, o, members[1..])
  }

  /** The bytes before `i` are a byte order mark or none, and white space; the mark counts when more than
      one byte stands behind it. */
  predicate IsFront(c: seq<Byte>, i: nat) {
    IsGap(c, 0, i) || (|c| > 4 && c[..3] == [0xEF, 0xBB, 0xBF] && IsGap(c, 3, i))
  }

  /** What may stand from `o` on: anything, or else only white space up to a NUL as the last byte. `end` is the
      position reported. */
  predicate IsTail(c: seq<Byte>, o: nat, requireNull: bool, end: nat) {
    if requireNull then o < |c| && IsGap(c, o, |c|) && c[|c| - 1] == 0 && end == |c| - 1 else end == o
  }

  ghost predicate IsDocument(c: seq<Byte>, requireNull: bool, j: Json, end: nat) {
    exists i, o :: IsFront(c, i) && IsText(c, i, o, j) && IsTail(c, o, requireNull, end)
  }
}

/** Minifying as a machine that reads one byte at a time, and what becomes of comments and white space. */
module MinifyLaws {
  import opened Bytes
  import opened Minify

  /** Where a reader stands between two bytes of a text. */
  datatype Mode =
    | Plain
    | InLiteral
    | Escaping // in a literal, behind a backslash
    | Slashed // behind a slash that may open a comment
    | InLine
    | InBlock
    | Starred // in a block comment, behind a star

  function Next(mode: Mode, b: CChar): Mode {
    match mode
    case Plain => if b == SLASH then Slashed else if b == QUOTE then InLiteral else Plain
    case Slashed =>
      if b == SLASH then InLine else if b == STAR then InBlock else if b == QUOTE then InLiteral else Plain
    case InLiteral => if b == QUOTE then Plain else if b == BACKSLASH then Escaping else InLiteral
    case Escaping => if b == BACKSLASH then Escaping else InLiteral
    case InLine => if b == NEWLINE then Plain else InLine
    case InBlock => if b == STAR then Starred else InBlock
    case Starred => if b == SLASH then Plain else if b == STAR then Starred else InBlock
  }

  /** Whether the byte read in this mode is part of the result: all of a literal, and outside literals and
      comments everything but slashes, spaces, tabs and line ends. */
  predicate Keeps(mode: Mode, b: CChar) {
    match mode
    case Plain => b !in {SLASH, SPACE, TAB, NEWLINE, 13}
    case Slashed => b !in {SLASH, STAR, SPACE, TAB, NEWLINE, 13}
    case InLiteral => true
    case Escaping => true
    case _ => false
  }

  function Kept(mode: Mode, s: CString): CString
    decreases |s|
  {
    if s == [] then [] else (if Keeps(mode, s[0]) then [s[0]] else []) + Kept(Next(mode, s[0]), s[1..])
  }

  function ModeAfter(mode: Mode, s: CString): Mode
    decreases |s|
  {
    if s == [] then mode else ModeAfter(Next(mode, s[0]), s[1..])
  }

  lemma KeptStep(mode: Mode, s: CString)
    requires s != []
    ensures Kept(mode, s) == (if Keeps(mode, s[0]) then [s[0]] else []) + Kept(Next(mode, s[0]), s[1..])
  {
  }

  lemma OneByte(mode: Mode, b: CChar)
    ensures Kept(mode, [b]) == if Keeps(mode, b) then [b] else []
    ensures ModeAfter(mode, [b]) == Next(mode, b)
  {
    assert [b][1..] == [];
    KeptStep(mode, [b]);
  }

  lemma TwoBytes(mode: Mode, b: CChar, c: CChar)
    requires !Keeps(mode, b) && !Keeps(Next(mode, b), c)
    ensures Kept(mode, [b, c]) == [] && ModeAfter(mode, [b, c]) == Next(Next(mode, b), c)
  {
    hide Keeps, Next;
    assert [b, c][1..] == [c];
    OneByte(Next(mode, b), c);
    KeptStep(mode, [b, c]);
  }

  /** `s` ends outside literals and comments, and not in a slash. */
  predicate Outside(s: CString) { ModeAfter(Plain, s) == Plain }

  lemma {:induction false} KeptInParts(mode: Mode, a: CString, b: CString)
    ensures Kept(mode, a + b) == Kept(mode, a) + Kept(ModeAfter(mode, a), b)
    decreases |a|
  {
    hide Keeps, Next, Kept;
    if a == [] {
      assert a + b == b && Kept(mode, a) == [] by { KeptNothing(mode); }
    } else {
      assert (a + b)[1..] == a[1..] + b;
      KeptStep(mode, a);
      KeptStep(mode, a + b);
      KeptInParts(Next(mode, a[0]), a[1..], b);
      Assoc(if Keeps(mode, a[0]) then [a[0]] else [], Kept(Next(mode, a[0]), a[1..]), Kept(ModeAfter(mode, a), b));
    }
  }

  lemma KeptNothing(mode: Mode)
    ensures Kept(mode, []) == []
  {
  }

  /** In a literal, everything up to where `minify_string` stops is kept. */
  lemma {:induction false} KeptLiteral(s: CString)
    ensures Kept(InLiteral, s) == s[..Literal(s)] + Kept(Plain, s[Literal(s)..])
    decreases |s|
  {
    hide Kept, Literal;
    KeptNothing(InLiteral);
    KeptNothing(Plain);
    LiteralOfNothing();
    if s != [] {
      assert s[0..] == s;
      LiteralStep(s, 0);
      KeptStep(InLiteral, s);
      if s[0] == BACKSLASH && At(s, 1) == QUOTE {
        KeptStep(Escaping, s[1..]);
        assert s[1..][1..] == s[2..];
        KeptLiteral(s[2..]);
        LiteralFrom(s, 2);
      } else if s[0] != QUOTE {
        if s[0] == BACKSLASH { EscapesNothing(s[1..]); }
        KeptLiteral(s[1..]);
        LiteralFrom(s, 1);
      }
    }
  }

  lemma EscapesNothing(s: CString)
    requires At(s, 0) != QUOTE
    ensures Kept(Escaping, s) == Kept(InLiteral, s)
  {
    hide Kept;
    if s == [] {
      KeptNothing(Escaping);
      KeptNothing(InLiteral);
    } else {
      KeptStep(Escaping, s);
      KeptStep(InLiteral, s);
    }
  }

  lemma LiteralFrom(s: CString, k: nat)
    requires k <= |s|
    ensures s[..k] + (s[k..][..Literal(s[k..])] + Kept(Plain, s[k..][Literal(s[k..])..]))
         == s[..k + Literal(s[k..])] + Kept(Plain, s[k + Literal(s[k..])..])
  {
    hide Kept, Literal;
    var n := Literal(s[k..]);
    assert s[..k] + s[k..][..n] == s[..k + n] && s[k..][n..] == s[k + n..];
    Assoc(s[..k], s[k..][..n], Kept(Plain, s[k + n..]));
  }

  lemma {:induction false} KeptLine(s: CString)
    ensures Kept(InLine, s) == Kept(Plain, AfterLine(s))
    decreases |s|
  {
    if s != [] && s[0] != NEWLINE {
      KeptLine(s[1..]);
    }
  }

  lemma {:induction false} KeptBlock(s: CString)
    ensures Kept(InBlock, s) == Kept(Plain, AfterBlock(s))
    decreases |s|
  {
    if s != [] {
      KeptBlock(s[1..]);
      if s[0] == STAR && At(s, 1) == SLASH {
        assert s[1..][1..] == s[2..];
        assert Kept(InBlock, s) == Kept(Starred, s[1..]) == Kept(Plain, s[2..]);
      }
    }
  }

  /** The machine gives what `cJSON_Minify` gives, for every text. */
  lemma {:induction false} MinifiedIsKept(s: CString)
    ensures Minified(s) == Kept(Plain, s)
    decreases |s|
  {
    hide Literal, AfterLine, AfterBlock;
    if s == [] {
    } else if IsSpace(s[0]) {
      MinifiedIsKept(s[1..]);
    } else if s[0] == SLASH {
      MinifiedAtSlash(s);
    } else if s[0] == QUOTE {
      var n := 1 + Literal(s[1..]);
      MinifiedIsKept(s[n..]);
      KeptLiteral(s[1..]);
      assert s[..n] == [s[0]] + s[1..][..n - 1] && s[n..] == s[1..][n - 1..];
    } else {
      MinifiedIsKept(s[1..]);
    }
  }

  lemma {:induction false} MinifiedAtSlash(s: CString)
    requires s != [] && s[0] == SLASH
    ensures Minified(s) == Kept(Plain, s)
    decreases |s|, 0
  {
    hide Literal, AfterLine, AfterBlock;
    assert Kept(Plain, s) == Kept(Slashed, s[1..]);
    if At(s, 1) == SLASH {
      MinifiedIsKept(AfterLine(s[2..]));
      KeptLine(s[2..]);
      assert s[1..][1..] == s[2..];
    } else if At(s, 1) == STAR {
      MinifiedIsKept(AfterBlock(s[2..]));
      KeptBlock(s[2..]);
      assert s[1..][1..] == s[2..];
    } else {
      MinifiedIsKept(s[1..]);
    }
  }

  // ----- comments and white space -----

  /** A stretch of text that starts and ends outside literals and comments and of which nothing is kept
      can be left out. */
  lemma LeavesOut(a: CString, comment: CString, b: CString)
    requires Outside(a) && Outside(comment) && Kept(Plain, comment) == []
    ensures Minified(a + comment + b) == Minified(a + b)
  {
    hide Kept, ModeAfter, Minified;
    assert a + comment + b == a + (comment + b);
    MinifiedIsKept(a + comment + b);
    MinifiedIsKept(a + b);
    KeptInParts(Plain, a, comment + b);
    KeptInParts(Plain, comment, b);
    KeptInParts(Plain, a, b);
  }

  const LINE_COMMENT: CString := [SLASH, SLASH]
  const BLOCK_COMMENT: CString := [SLASH, STAR]
  const BLOCK_END: CString := [STAR, SLASH]

  lemma {:induction false} InsideLine(t: CString)
    requires NEWLINE !in t
    ensures ModeAfter(InLine, t) == InLine && Kept(InLine, t) == []
  {
    if t != [] {
      assert t[0] in t;
      InsideLine(t[1..]);
    }
  }

  predicate Closes(t: CString) { exists i :: 0 <= i < |t| - 1 && t[i] == STAR && t[i + 1] == SLASH }

  lemma {:induction false} InsideBlock(t: CString, starred: bool)
    requires !Closes(t) && !(starred && At(t, 0) == SLASH)
    ensures ModeAfter(if starred then Starred else InBlock, t) in {InBlock, Starred}
    ensures Kept(if starred then Starred else InBlock, t) == []
    decreases |t|
  {
    if t != [] {
      forall i | 0 <= i < |t| - 2 ensures !(t[1..][i] == STAR && t[1..][i + 1] == SLASH) {
        assert t[1..][i] == t[i + 1] && t[1..][i + 1] == t[i + 1 + 1];
      }
      assert t[0] == STAR && |t| > 1 ==> t[0 + 1] != SLASH;
      InsideBlock(t[1..], t[0] == STAR);
    }
  }

  lemma ModeAfterParts(mode: Mode, a: CString, b: CString)
    ensures ModeAfter(mode, a + b) == ModeAfter(ModeAfter(mode, a), b)
    decreases |a|
  {
    hide Next;
    if a == [] {
      assert a + b == b;
    } else {
      assert (a + b)[1..] == a[1..] + b;
      ModeAfterParts(Next(mode, a[0]), a[1..], b);
    }
  }

  lemma OpensComment()
    ensures ModeAfter(Plain, LINE_COMMENT) == InLine && Kept(Plain, LINE_COMMENT) == []
    ensures ModeAfter(Plain, BLOCK_COMMENT) == InBlock && Kept(Plain, BLOCK_COMMENT) == []
  {
    hide Kept, ModeAfter;
    TwoBytes(Plain, SLASH, SLASH);
    TwoBytes(Plain, SLASH, STAR);
  }

  /** A `//` comment disappears together with its line end, and nothing behind it does. */
  lemma LineCommentIsDropped(a: CString, t: CString, b: CString)
    requires Outside(a) && NEWLINE !in t
    ensures Minified(a + (LINE_COMMENT + t + [NEWLINE]) + b) == Minified(a + b)
  {
    InsideLine(t);
    hide Kept, ModeAfter, Minified;
    OpensComment();
    OneByte(InLine, NEWLINE);
    KeptInParts(Plain, LINE_COMMENT, t);
    KeptInParts(Plain, LINE_COMMENT + t, [NEWLINE]);
    ModeAfterParts(Plain, LINE_COMMENT, t);
    ModeAfterParts(Plain, LINE_COMMENT + t, [NEWLINE]);
    LeavesOut(a, LINE_COMMENT + t + [NEWLINE], b);
  }

  /** A block comment disappears up to its first end, and nothing behind it does. */
  lemma BlockCommentIsDropped(a: CString, t: CString, b: CString)
    requires Outside(a) && !Closes(t)
    ensures Minified(a + (BLOCK_COMMENT + t + BLOCK_END) + b) == Minified(a + b)
  {
    InsideBlock(t, false);
    hide Kept, ModeAfter, Minified;
    OpensComment();
    TwoBytes(ModeAfter(InBlock, t), STAR, SLASH);
    KeptInParts(Plain, BLOCK_COMMENT, t);
    KeptInParts(Plain, BLOCK_COMMENT + t, BLOCK_END);
    ModeAfterParts(Plain, BLOCK_COMMENT, t);
    ModeAfterParts(Plain, BLOCK_COMMENT + t, BLOCK_END);
    LeavesOut(a, BLOCK_COMMENT + t + BLOCK_END, b);
  }

  /** A comment that is not closed takes the rest of the text with it. */
  lemma OpenCommentIsDropped(a: CString, t: CString)
    requires Outside(a)
    ensures NEWLINE !in t ==> Minified(a + (LINE_COMMENT + t)) == Minified(a)
    ensures !Closes(t) ==> Minified(a + (BLOCK_COMMENT + t)) == Minified(a)
  {
    hide Kept, ModeAfter, Minified;
    OpensComment();
    if NEWLINE !in t { InsideLine(t); }
    if !Closes(t) { InsideBlock(t, false); }
    MinifiedIsKept(a);
    MinifiedIsKept(a + (LINE_COMMENT + t));
    MinifiedIsKept(a + (BLOCK_COMMENT + t));
    KeptInParts(Plain, a, LINE_COMMENT + t);
    KeptInParts(Plain, a, BLOCK_COMMENT + t);
    KeptInParts(Plain, LINE_COMMENT, t);
    KeptInParts(Plain, BLOCK_COMMENT, t);
  }

  /** Outside literals and comments, a space, tab, carriage return or line end disappears, and every other
      byte stays unless it opens a literal or is a slash. */
  lemma ByteIsKept(a: CString, c: CChar, b: CString)
    requires Outside(a)
    ensures c in {SPACE, TAB, NEWLINE, 13} ==> Minified(a + [c] + b) == Minified(a + b)
    ensures c !in {SPACE, TAB, NEWLINE, 13, SLASH, QUOTE} ==> Minified(a + [c] + b) == Minified(a) + [c] + Minified(b)
  {
    hide Kept, ModeAfter, Minified;
    OneByte(Plain, c);
    if c in {SPACE, TAB, NEWLINE, 13} {
      LeavesOut(a, [c], b);
    } else if c !in {SLASH, QUOTE} {
      MinifiedIsKept(a);
      MinifiedIsKept(b);
      MinifiedIsKept(a + [c] + b);
      assert a + [c] + b == a + ([c] + b);
      KeptInParts(Plain, a, [c] + b);
      KeptInParts(Plain, [c], b);
      Assoc(Kept(Plain, a), [c], Kept(Plain, b));
    }
  }

  /** Every quote in `t` has a backslash in front of it; `escaping` says whether one is in front of `t`. */
  predicate QuotesEscaped(t: CString, escaping: bool) {
    (At(t, 0) == QUOTE ==> escaping) && forall i :: 0 <= i < |t| && At(t, i + 1) == QUOTE ==> t[i] == BACKSLASH
  }

  lemma EscapedBehind(t: CString, escaping: bool)
    requires t != [] && QuotesEscaped(t, escaping)
    ensures t[0] == QUOTE ==> escaping
    ensures QuotesEscaped(t[1..], t[0] == BACKSLASH)
  {
    var rest := t[1..];
    assert At(rest, 0) == At(t, 0 + 1);
    forall i | 0 <= i < |rest| && At(rest, i + 1) == QUOTE ensures rest[i] == BACKSLASH {
      assert At(rest, i + 1) == At(t, i + 1 + 1) && rest[i] == t[i + 1];
    }
  }

  lemma ModeAfterStep(mode: Mode, s: CString)
    requires s != []
    ensures ModeAfter(mode, s) == ModeAfter(Next(mode, s[0]), s[1..])
  {
  }

  lemma {:induction false} InsideLiteral(t: CString, escaping: bool)
    requires QuotesEscaped(t, escaping)
    requires QuotesEscaped(t, escaping)
    ensures var mode := if escaping then Escaping else InLiteral;
      && Kept(mode, t) == t
      && ModeAfter(mode, t) == if t == [] then mode else if t[|t| - 1] == BACKSLASH then Escaping else InLiteral
    decreases |t|
  {
    KeptNothing(if escaping then Escaping else InLiteral);
    hide Kept, QuotesEscaped;
    if t != [] {
      var rest, after := t[1..], t[0] == BACKSLASH;
      var mode := if escaping then Escaping else InLiteral;
      EscapedBehind(t, escaping);
      InsideLiteral(rest, after);
      KeptStep(mode, t);
      ModeAfterStep(mode, t);
      assert t == [t[0]] + rest;
    }
  }

  /** A literal stays as it is, whatever stands in it. */
  lemma LiteralIsKept(a: CString, t: CString, b: CString)
    requires Outside(a) && QuotesEscaped(t, false) && (t == [] || t[|t| - 1] != BACKSLASH)
    ensures Minified(a + ([QUOTE] + t + [QUOTE]) + b) == Minified(a) + ([QUOTE] + t + [QUOTE]) + Minified(b)
  {
    InsideLiteral(t, false);
    hide Kept, ModeAfter, Minified, QuotesEscaped;
    var literal := [QUOTE] + t + [QUOTE];
    OneByte(Plain, QUOTE);
    OneByte(InLiteral, QUOTE);
    KeptInParts(Plain, [QUOTE], t);
    KeptInParts(Plain, [QUOTE] + t, [QUOTE]);
    ModeAfterParts(Plain, [QUOTE], t);
    ModeAfterParts(Plain, [QUOTE] + t, [QUOTE]);
    assert Kept(Plain, literal) == literal && Outside(literal);
    assert a + literal + b == a + (literal + b);
    MinifiedIsKept(a);
    MinifiedIsKept(b);
    MinifiedIsKept(a + literal + b);
    KeptInParts(Plain, a, literal + b);
    KeptInParts(Plain, literal, b);
    Assoc(Kept(Plain, a), literal, Kept(Plain, b));
  }
}

/** `cJSON_Minify`: what it makes of a text, the rewriting in place, and what it undoes. */
module Minify {
  import opened Bytes

  predicate IsSpace(b: Byte) { b == SPACE || b == TAB || b == 13 || b == NEWLINE }

  /** What follows a `//` comment, its line end included. */
  function AfterLine(s: CString): (t: CString)
    ensures |t| <= |s|
  {
    if s == [] then [] else if s[0] == NEWLINE then s[1..] else AfterLine(s[1..])
  }

  function AfterBlock(s: CString): (t: CString)
    ensures |t| <= |s|
  {
    if s == [] then [] else if s[0] == STAR && At(s, 1) == SLASH then s[2..] else AfterBlock(s[1..])
  }

  /** How many bytes `minify_string` copies behind the opening quote. */
  function Literal(s: CString): (n: nat)
    ensures n <= |s|
  {
    if s == [] then 0
    else if s[0] == QUOTE then 1
    else if s[0] == BACKSLASH && At(s, 1) == QUOTE then 2 + Literal(s[2..])
    else 1 + Literal(s[1..])
  }

  function Minified(s: CString): (t: CString)
    ensures |t| <= |s|
    decreases |s|
  {
    if s == [] then []
    else if IsSpace(s[0]) then Minified(s[1..])
    else if s[0] == SLASH then
      if At(s, 1) == SLASH then Minified(AfterLine(s[2..]))
      else if At(s, 1) == STAR then Minified(AfterBlock(s[2..]))
      else Minified(s[1..])
    else if s[0] == QUOTE then
      var n := 1 + Literal(s[1..]);
      s[..n] + Minified(s[n..])
    else [s[0]] + Minified(s[1..])
  }

  // ----- in place -----

  /** From `r` on, the memory still holds the text as it was. */
  ghost predicate Intact(memory: array<Byte>, s: CString, r: nat)
    reads memory
  {
    r <= |s| < memory.Length && forall i :: r <= i <= |s| ==> memory[i] == At(s, i)
  }

  method SkipOneLineComment(memory: array<Byte>, start: nat, ghost s: CString) returns (r: nat)
    requires start + 2 <= |s| && Intact(memory, s, start)
    ensures start < r <= |s| && s[r..] == AfterLine(s[start + 2..])
  {
    r := start + 2;
    while memory[r] != 0
      invariant start + 2 <= r <= |s|
      invariant AfterLine(s[r..]) == AfterLine(s[start + 2..])
      decreases |s| - r
    {
      assert s[r..][1..] == s[r + 1..];
      if memory[r] == NEWLINE {
        return r + 1;
      }
      r := r + 1;
    }
  }

  method SkipMultiLineComment(memory: array<Byte>, start: nat, ghost s: CString) returns (r: nat)
    requires start + 2 <= |s| && Intact(memory, s, start)
    ensures start < r <= |s| && s[r..] == AfterBlock(s[start + 2..])
  {
    r := start + 2;
    while memory[r] != 0
      invariant start + 2 <= r <= |s|
      invariant AfterBlock(s[r..]) == AfterBlock(s[start + 2..])
      decreases |s| - r
    {
      assert s[r..][1..] == s[r + 1..];
      if memory[r] == STAR && memory[r + 1] == SLASH {
        assert s[r..][2..] == s[r + 2..];
        return r + 2;
      }
      r := r + 1;
    }
  }

  /** At a slash: a comment, or just the slash, is dropped. */
  method SkipSlash(memory: array<Byte>, start: nat, ghost s: CString) returns (r: nat)
    requires start < |s| && Intact(memory, s, start) && s[start] == SLASH
    ensures start < r <= |s| && Minified(s[r..]) == Minified(s[start..])
  {
    hide Literal, AfterLine, AfterBlock, Minified;
    MinifiedStep(s, start);
    if memory[start + 1] == SLASH {
      r := SkipOneLineComment(memory, start, s);
    } else if memory[start + 1] == STAR {
      r := SkipMultiLineComment(memory, start, s);
    } else {
      r := start + 1;
    }
  }

  /** What `minify_string` does with the byte at `r`. */
  lemma LiteralStep(s: CString, r: nat)
    requires r < |s|
    ensures Literal(s[r..]) ==
      if s[r] == QUOTE then 1
      else if s[r] == BACKSLASH && At(s, r + 1) == QUOTE then 2 + Literal(s[r + 2..])
      else 1 + Literal(s[r + 1..])
  {
    assert s[r..][1..] == s[r + 1..];
    assert |s| - r > 1 ==> s[r..][2..] == s[r + 2..];
  }

  /** Copies a literal from the read cursor down to the write cursor. */
  method MinifyString(memory: array<Byte>, start: nat, to: nat, ghost s: CString) returns (r: nat, w: nat)
    requires to <= start < |s| && Intact(memory, s, start) && s[start] == QUOTE
    modifies memory
    ensures r == start + 1 + Literal(s[start + 1..]) && w - to == r - start && Intact(memory, s, r)
    ensures forall i :: 0 <= i < to ==> memory[i] == old(memory[i])
    ensures forall i :: to <= i < w ==> memory[i] == s[i - to + start]
  {
    hide Literal;
    memory[to] := memory[start];
    r, w := start + 1, to + 1;
    while memory[r] != 0
      invariant start < r <= |s| && w - to == r - start && Intact(memory, s, r)
      invariant r + Literal(s[r..]) == start + 1 + Literal(s[start + 1..])
      invariant forall i :: 0 <= i < to ==> memory[i] == old(memory[i])
      invariant forall i :: to <= i < w ==> memory[i] == s[i - to + start]
      decreases |s| - r
    {
      LiteralStep(s, r);
      memory[w] := memory[r];
      if memory[r] == QUOTE {
        r, w := r + 1, w + 1;
        return;
      } else if memory[r] == BACKSLASH && memory[r + 1] == QUOTE {
        memory[w + 1] := memory[r + 1];
        r, w := r + 1, w + 1;
      }
      r, w := r + 1, w + 1;
    }
    assert s[r..] == [] && Literal([]) == 0 by { LiteralOfNothing(); }
  }

  lemma LiteralOfNothing()
    ensures Literal([]) == 0
  {
  }

  /** What was written and what is still to be read make up the minified text. */
  ghost predicate SoFar(s: CString, r: nat, written: CString)
    requires r <= |s|
  {
    written + Minified(s[r..]) == Minified(s)
  }

  lemma StartsFar(s: CString)
    ensures SoFar(s, 0, [])
  {
    assert s[0..] == s;
  }

  lemma CopiesOn(s: CString, r: nat, n: nat, written: CString)
    requires r <= n <= |s| && SoFar(s, r, written) && Minified(s[r..]) == s[r..n] + Minified(s[n..])
    ensures SoFar(s, n, written + s[r..n])
  {
    hide Minified;
    Assoc(written, s[r..n], Minified(s[n..]));
  }

  lemma SkipsOn(s: CString, r: nat, n: nat, written: CString)
    requires r <= n <= |s| && SoFar(s, r, written) && Minified(s[n..]) == Minified(s[r..])
    ensures SoFar(s, n, written)
  {
  }

  lemma EndsFar(s: CString, written: CString)
    requires SoFar(s, |s|, written)
    ensures written == Minified(s)
  {
    MinifiedOfNothing();
    assert s[|s|..] == [];
  }

  /** The write cursor `w` never passes the read cursor `r`. */
  method Minify(memory: array<Byte>, ghost s: CString)
    requires Intact(memory, s, 0)
    modifies memory
    ensures UpToNul(memory[..]) == Minified(s)
  {
    hide Literal, AfterLine, AfterBlock, Minified, SoFar, IsSpace;
    var r, w := 0, 0;
    ghost var written: CString := [];
    StartsFar(s);
    while memory[r] != 0
      invariant |written| == w <= r && Intact(memory, s, r) && SoFar(s, r, written)
      invariant forall i :: 0 <= i < w ==> memory[i] == written[i]
      decreases |s| - r
    {
      MinifiedStep(s, r);
      ghost var start := r;
      if IsSpace(memory[r]) {
        r := r + 1;
        SkipsOn(s, start, r, written);
      } else if memory[r] == SLASH {
        r := SkipSlash(memory, r, s);
        SkipsOn(s, start, r, written);
      } else if memory[r] == QUOTE {
        r, w := MinifyString(memory, r, w, s);
        CopiesOn(s, start, r, written);
        written := written + s[start..r];
      } else {
        memory[w] := memory[r];
        r, w := r + 1, w + 1;
        assert s[start..r] == [s[start]];
        CopiesOn(s, start, r, written);
        written := written + [s[start]];
      }
    }
    EndsFar(s, written);
    Terminate(memory, w, Minified(s));
  }

  method Terminate(memory: array<Byte>, w: nat, ghost text: CString)
    requires w == |text| < memory.Length && forall i :: 0 <= i < w ==> memory[i] == text[i]
    modifies memory
    ensures UpToNul(memory[..]) == text
  {
    memory[w] := 0;
    UpToNulStops(memory[..], w);
    assert memory[..][..w] == text;
    UpToNulOfCString(text);
  }

  /** One turn of the loop of `cJSON_Minify`. */
  lemma MinifiedStep(s: CString, r: nat)
    requires r < |s|
    ensures Minified(s[r..]) ==
      if IsSpace(s[r]) then Minified(s[r + 1..])
      else if s[r] == SLASH then
        if At(s, r + 1) == SLASH then Minified(AfterLine(s[r + 2..]))
        else if At(s, r + 1) == STAR then Minified(AfterBlock(s[r + 2..]))
        else Minified(s[r + 1..])
      else if s[r] == QUOTE then
        var n := r + 1 + Literal(s[r + 1..]);
        s[r..n] + Minified(s[n..])
      else [s[r]] + Minified(s[r + 1..])
  {
    hide Literal, AfterLine, AfterBlock;
    var t := s[r..];
    assert t[1..] == s[r + 1..] && At(t, 1) == At(s, r + 1);
    assert |t| > 1 ==> t[2..] == s[r + 2..];
    var n := 1 + Literal(t[1..]);
    assert t[..n] == s[r..r + n] && t[n..] == s[r + n..];
  }

  lemma MinifiedOfNothing()
    ensures Minified([]) == []
  {
  }

  // ----- minifying twice -----

  /** A literal that ended is found again in front of anything. */
  lemma {:induction false} LiteralAgain(s: CString, rest: CString)
    requires Literal(s) < |s| || rest == []
    ensures Literal(s[..Literal(s)] + rest) == Literal(s)
    decreases |s|
  {
    hide Literal;
    LiteralOfNothing();
    if s == [] {
      assert s[..0] + rest == [];
    } else {
      var n := Literal(s);
      var t := s[..n] + rest;
      LiteralStep(s, 0);
      assert s[0..] == s && t[0..] == t;
      if |t| > 0 { LiteralStep(t, 0); }
      if s[0] == BACKSLASH && At(s, 1) == QUOTE {
        LiteralAgain(s[2..], rest);
        assert t[2..] == s[2..][..n - 2] + rest;
      } else if s[0] != QUOTE {
        NextStays(s, rest);
        LiteralAgain(s[1..], rest);
        assert t[1..] == s[1..][..n - 1] + rest;
      }
    }
  }

  /** A backslash that does not escape a quote still does not when the literal is cut off where it ended. */
  lemma NextStays(s: CString, rest: CString)
    requires s != [] && s[0] != QUOTE && !(s[0] == BACKSLASH && At(s, 1) == QUOTE)
    requires Literal(s) < |s| || rest == []
    ensures var t := s[..Literal(s)] + rest; t[0] == s[0] && !(t[0] == BACKSLASH && At(t, 1) == QUOTE)
  {
    if |s| > 1 {
      assert Literal(s) == 1 + Literal(s[1..]) >= 2;
    }
  }

  /** A literal in front of a text that is already minified. */
  lemma MinifiedLiteral(s: CString, rest: CString)
    requires Literal(s) < |s| || rest == []
    ensures Minified([QUOTE] + s[..Literal(s)] + rest) == [QUOTE] + s[..Literal(s)] + Minified(rest)
  {
    hide Literal, AfterLine, AfterBlock;
    var n, t := Literal(s), [QUOTE] + s[..Literal(s)] + rest;
    LiteralAgain(s, rest);
    assert t[1..] == s[..n] + rest && t[..n + 1] == [QUOTE] + s[..n] && t[n + 1..] == rest;
  }

  /** Minifying is idempotent on every text. */
  lemma {:induction false} MinifiedTwice(s: CString)
    ensures Minified(Minified(s)) == Minified(s)
    decreases |s|
  {
    hide Literal, AfterLine, AfterBlock, Minified;
    MinifiedOfNothing();
    if s != [] {
      assert s[0..] == s;
      MinifiedStep(s, 0);
      if s[0] == QUOTE && !IsSpace(s[0]) {
        var n := Literal(s[1..]);
        var rest := Minified(s[n + 1..]);
        MinifiedTwice(s[n + 1..]);
        assert s[0..n + 1] == [QUOTE] + s[1..][..n];
        MinifiedLiteral(s[1..], rest);
      } else if s[0] == SLASH || IsSpace(s[0]) {
        MinifiedTwice(if IsSpace(s[0]) then s[1..] else if At(s, 1) == SLASH then AfterLine(s[2..])
                      else if At(s, 1) == STAR then AfterBlock(s[2..]) else s[1..]);
      } else {
        MinifiedTwice(s[1..]);
        var t := Minified(s);
        assert t[0..] == t && t[1..] == Minified(s[1..]);
        MinifiedStep(t, 0);
      }
    }
  }
}

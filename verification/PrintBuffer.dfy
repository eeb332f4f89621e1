/** The printer as the source runs it: a byte buffer that is fixed or grows on demand. */
module PrintBuffer {
  import opened Bytes
  import opened Json
  import opened Text

  class PrintBuffer {
    var buffer: array?<Byte>
    var length: nat
    var offset: nat
    var depth: nat
    const noalloc: bool
    const format: bool
    const canReallocate: bool
    /** Some allocation request has been refused. */
    ghost var refused: bool

    constructor (buffer: array<Byte>, noalloc: bool, format: bool, canReallocate: bool)
      ensures this.buffer == buffer && length == buffer.Length && offset == 0 && depth == 0 && !refused
      ensures this.noalloc == noalloc && this.format == format && this.canReallocate == canReallocate
    {
      this.buffer, length, offset, depth, refused := buffer, buffer.Length, 0, 0, false;
      this.noalloc, this.format, this.canReallocate := noalloc, format, canReallocate;
    }

    /** The buffer is there and is exactly the memory it says it is. A growing buffer that cannot be
        reallocated in place is copied up to and including `offset`, so it must not be empty. */
    ghost predicate Ready()
      reads this
    {
      && buffer != null && buffer.Length == length <= INT32_MAX
      && (length > 0 ==> offset < length) && (length == 0 ==> offset == 0)
      && (noalloc || canReallocate || length > 0)
    }

    /** What has been printed so far. */
    ghost function Written(): seq<Byte>
      requires Ready()
      reads this, buffer
    {
      buffer[..offset]
    }

    /** The buffer holds `text` and its NUL, and `offset` has not moved past it. */
    ghost predicate Holds(text: seq<Byte>)
      reads this, buffer
    {
      && Ready() && offset <= |text| < length && buffer[..|text|] == text && buffer[|text|] == 0
    }

    /** A buffer of `n` bytes is out of reach: too long for a fixed buffer; longer than INT_MAX, or
        refused by the allocator, for a growing one. */
    ghost predicate OutOfReach(n: nat)
      reads this
    {
      if noalloc then n > length else refused || n > INT32_MAX
    }

    /** The buffer that is in place is still the one at entry, or one allocated since. */
    twostate predicate SameOrFresh()
      reads this
    {
      buffer != null && (buffer == old(buffer) || fresh(buffer)) && (noalloc ==> buffer == old(buffer) && length == old(length))
    }

    /** The allocator may refuse; `realloc` keeps the old contents, a plain allocation does not. */
    method Allocate(size: nat) returns (memory: array?<Byte>)
      modifies this`refused
      ensures memory != null ==> fresh(memory) && memory.Length == size && refused == old(refused)
      ensures memory == null ==> refused
    {
      if * {
        refused := true;
        return null;
      }
      memory := new Byte[size];
    }

    method Reallocate(size: nat) returns (larger: array?<Byte>)
      requires buffer != null && buffer.Length <= size
      modifies this`refused
      ensures larger != null ==> fresh(larger) && larger.Length == size && larger[..buffer.Length] == buffer[..] && refused == old(refused)
      ensures larger == null ==> refused
    {
      larger := Allocate(size);
      if larger != null {
        Copy(buffer, larger, buffer.Length);
      }
    }

    static method Copy(source: array<Byte>, target: array<Byte>, n: nat)
      requires source != target && n <= source.Length && n <= target.Length
      modifies target
      ensures target[..n] == source[..n]
    {
      for i := 0 to n
        invariant target[..i] == source[..i]
      {
        target[i] := source[i];
      }
    }

    /** `ensure`: room for `needed` more bytes and one to spare behind the printed prefix. */
    method Ensure(needed: nat) returns (ok: bool)
      requires Ready()
      modifies this`buffer, this`length, this`refused
      ensures ok ==> Ready() && SameOrFresh() && offset + needed + 1 <= length && Written() == old(Written())
      ensures ok ==> refused == old(refused)
      ensures ok && noalloc ==> buffer == old(buffer)
      ensures !ok ==> OutOfReach(offset + needed + 1)
      ensures noalloc ==> length == old(length)
    {
      if length > 0 && offset >= length {
        return false;
      }
      if needed > INT32_MAX {
        return false;
      }
      var total := needed + offset + 1;
      if total <= length {
        return true;
      }
      if noalloc {
        return false;
      }
      var size: nat;
      if total > INT32_MAX / 2 {
        if total <= INT32_MAX {
          size := INT32_MAX;
        } else {
          return false;
        }
      } else {
        size := total * 2;
      }
      var larger: array?<Byte>;
      if canReallocate {
        larger := Reallocate(size);
        if larger == null {
          length, buffer := 0, null;
          return false;
        }
        assert larger[..offset] == larger[..buffer.Length][..offset];
        assert buffer[..offset] == buffer[..][..offset];
      } else {
        larger := Allocate(size);
        if larger == null {
          length, buffer := 0, null;
          return false;
        }
        Copy(buffer, larger, offset + 1);
        assert larger[..offset] == larger[..offset + 1][..offset];
        assert buffer[..offset] == buffer[..offset + 1][..offset];
      }
      length, buffer := size, larger;
      ok := true;
    }

    /** Copies `text` into the buffer at `at`. */
    method Put(at: nat, text: seq<Byte>)
      requires buffer != null && at + |text| <= buffer.Length
      modifies buffer
      ensures buffer[..at + |text|] == old(buffer[..at]) + text
    {
      for i := 0 to |text|
        invariant buffer[..at + i] == old(buffer[..at]) + text[..i]
      {
        buffer[at + i] := text[i];
      }
    }

    /** `update_offset`: advance to the NUL. */
    method UpdateOffset(ghost text: seq<Byte>)
      requires Holds(text) && forall i :: offset <= i < |text| ==> text[i] != 0
      modifies this`offset
      ensures Ready() && Written() == text
    {
      assert forall i :: 0 <= i < |text| ==> buffer[i] == buffer[..|text|][i];
      while buffer[offset] != 0
        invariant offset <= |text|
        decreases |text| - offset
      {
        offset := offset + 1;
      }
    }

    /** What a print method promises: on success the text stands behind what was printed before, with its
        NUL, and (for a fixed buffer) there is one byte to spare; it fails only where it must. */
    twostate predicate Prints(text: CString, nesting: nat, ok: bool)
      requires old(Ready())
      reads this, buffer
    {
      && (ok ==>
            && SameOrFresh() && Holds(old(Written()) + text) && old(offset) <= offset
            && depth == old(depth) && refused == old(refused)
            && old(depth) + nesting <= NESTING_LIMIT && old(offset) + |text| + 2 <= length)
      && (!ok ==> old(depth) + nesting > NESTING_LIMIT || OutOfReach(old(offset) + |text| + 2))
      && (noalloc ==> length == old(length))
    }

    /** The same for a part of a larger text: `offset` has moved behind it. */
    twostate predicate Appends(text: CString, nesting: nat, ok: bool)
      requires old(Ready())
      reads this, buffer
    {
      && (ok ==>
            && Ready() && SameOrFresh() && Written() == old(Written()) + text
            && depth == old(depth) && refused == old(refused) && old(depth) + nesting <= NESTING_LIMIT)
      && (!ok ==> old(depth) + nesting > NESTING_LIMIT || OutOfReach(old(offset) + |text| + 2))
      && (noalloc ==> length == old(length))
    }

    /** `ensure` for `text` and `spare` more bytes, copy it, and move on. */
    method Append(text: CString, spare: nat) returns (ok: bool)
      requires Ready() && depth <= NESTING_LIMIT && spare <= 1
      modifies this`buffer, this`length, this`refused, this`offset, buffer
      ensures Appends(text, 0, ok)
    {
      ok := Ensure(|text| + spare);
      if ok {
        Put(offset, text);
        offset := offset + |text|;
      }
    }

    /** `ensure` for `text` and its NUL, and copy both; `offset` stays in front. */
    method Finish(text: CString) returns (ok: bool)
      requires Ready() && depth <= NESTING_LIMIT
      modifies this`buffer, this`length, this`refused, buffer
      ensures Prints(text, 0, ok)
    {
      ok := Ensure(|text| + 1);
      if ok {
        Put(offset, text);
        buffer[offset + |text|] := 0;
      }
    }

    method PrintNumber(n: Int32) returns (ok: bool)
      requires Ready() && depth <= NESTING_LIMIT
      modifies this, buffer
      ensures Prints(Decimal(n), 0, ok)
    {
      var text := Decimal(n);
      ok := Finish(text);
      if ok {
        offset := offset + |text|;
      }
    }

    /** How many bytes the escapes of a string add to it. */
    static method CountEscapes(s: CString) returns (escapes: nat)
      ensures |EscapeAll(s)| == |s| + escapes
    {
      escapes := 0;
      var i := 0;
      while i < |s|
        invariant i <= |s|
        invariant |EscapeAll(s[..i])| == i + escapes
      {
        var c: int := s[i];
        if c == QUOTE || c == BACKSLASH || c == 8 || c == 12 || c == 10 || c == 13 || c == 9 {
          escapes := escapes + 1;
        } else if c < 32 {
          escapes := escapes + 5;
        }
        EscapeAllSnoc(s[..i], s[i]);
        assert s[..i] + [s[i]] == s[..i + 1];
        i := i + 1;
      }
      assert s[..i] == s;
    }

    /** The second pass of `print_string_ptr`: every character, escaped where it must be. */
    method PutEscaped(at: nat, s: CString)
      requires buffer != null && at + |EscapeAll(s)| <= buffer.Length
      modifies buffer
      ensures buffer[..at + |EscapeAll(s)|] == old(buffer[..at]) + EscapeAll(s)
    {
      hide Escape;
      var i, to := 0, at;
      while i < |s|
        invariant i <= |s| && at <= to
        invariant to + |EscapeAll(s[i..])| == at + |EscapeAll(s)|
        invariant buffer[..to] == old(buffer[..at]) + EscapeAll(s[..i])
      {
        assert EscapeAll(s[i..]) == Escape(s[i]) + EscapeAll(s[i..][1..]) && s[i..][1..] == s[i + 1..];
        EscapeAllSnoc(s[..i], s[i]);
        assert s[..i] + [s[i]] == s[..i + 1];
        Put(to, Escape(s[i]));
        to := to + |Escape(s[i])|;
        i := i + 1;
      }
      assert s[..i] == s;
    }

    /** The quoted literal and its NUL, where there is room for them. */
    method PutQuoted(s: CString, escapes: nat)
      requires Ready() && |EscapeAll(s)| == |s| + escapes && offset + |Quoted(s)| < length
      modifies buffer
      ensures Holds(old(Written()) + Quoted(s))
    {
      hide EscapeAll;
      var outputLength := |s| + escapes;
      ghost var before := Written();
      Assoc(before, [QUOTE], EscapeAll(s));
      Assoc(before, [QUOTE] + EscapeAll(s), [QUOTE]);
      Put(offset, [QUOTE]);
      if escapes == 0 {
        NothingEscaped(s);
        Put(offset + 1, s);
      } else {
        PutEscaped(offset + 1, s);
      }
      Put(offset + 1 + outputLength, [QUOTE]);
      buffer[offset + outputLength + 2] := 0;
    }

    /** `print_string_ptr`: one pass to size the literal, one to write it. */
    method PrintString(s: CString) returns (ok: bool)
      requires Ready() && depth <= NESTING_LIMIT
      modifies this`buffer, this`length, this`refused, buffer
      ensures Prints(Quoted(s), 0, ok)
    {
      var escapes := CountEscapes(s);
      var outputLength := |s| + escapes;
      ok := Ensure(outputLength + 3);
      if ok {
        PutQuoted(s, escapes);
      }
    }

    method PrintValue(item: Json) returns (ok: bool)
      requires Ready() && depth <= NESTING_LIMIT
      modifies this, buffer
      ensures Prints(TextOf(item, format, old(depth)), Nesting(item), ok)
      decreases item, 1
    {
      match item {
        case Null => ok := Finish(NULL_TEXT);
        case False => ok := Finish(FALSE_TEXT);
        case True => ok := Finish(TRUE_TEXT);
        case Number(n) => ok := PrintNumber(n);
        case String(s) => ok := PrintString(s);
        case Array(items) => ok := PrintArray(items);
        case Object(members) => ok := PrintObject(members);
      }
    }

    /** One turn of `print_array`'s loop. */
    method PrintItem(item: Json, last: bool) returns (ok: bool)
      requires Ready() && depth <= NESTING_LIMIT
      modifies this, buffer
      ensures Appends(TextOf(item, format, old(depth)) + ItemSeparator(format, last), Nesting(item), ok)
      decreases item, 2
    {
      hide TextOf, Nesting;
      ok := PrintValue(item);
      if !ok {
        return;
      }
      UpdateOffset(old(Written()) + TextOf(item, format, depth));
      if !last {
        ok := Append(ItemSeparator(format, false), 1);
      }
    }

    /** The loop of `print_array`. */
    method PrintItems(items: seq<Json>) returns (ok: bool)
      requires Ready() && depth <= NESTING_LIMIT
      modifies this, buffer
      ensures Appends(ItemsText(items, format, old(depth), |items|), ItemsNesting(items), ok)
      decreases items, 2
    {
      hide TextOf, Nesting, ItemSeparator, ItemsText, ItemsNesting;
      ok := true;
      ghost var before := Written();
      EmptyText(items, [], format, depth);
      assert before + [] == before && items[..0] == [];
      for i := 0 to |items|
        invariant Ready() && SameOrFresh() && depth == old(depth) && refused == old(refused)
        invariant Written() == before + ItemsText(items, format, depth, i)
        invariant depth + ItemsNesting(items[..i]) <= NESTING_LIMIT && ok
      {
        ItemNesting(items, i);
        ItemsTextStep(items, format, depth, i);
        Assoc(before, ItemsText(items, format, depth, i), TextOf(items[i], format, depth) + ItemSeparator(format, i + 1 == |items|));
        ItemsNestingSnoc(items[..i], items[i]);
        assert items[..i] + [items[i]] == items[..i + 1];
        ok := PrintItem(items[i], i + 1 == |items|);
        if !ok {
          return;
        }
      }
      assert items[..|items|] == items;
    }

    /** `print_array` up to the closing bracket, one level deeper. */
    method OpenArray(items: seq<Json>) returns (ok: bool)
      requires Ready() && depth < NESTING_LIMIT
      modifies this, buffer
      ensures ok ==> Ready() && SameOrFresh() && depth == old(depth) + 1 && refused == old(refused)
      ensures ok ==> depth + ItemsNesting(items) <= NESTING_LIMIT
      ensures ok ==> Written() == old(Written()) + ([LBRACKET] + ItemsText(items, format, old(depth) + 1, |items|))
      ensures ok || old(depth) + 1 + ItemsNesting(items) > NESTING_LIMIT
        || OutOfReach(old(offset) + 1 + |ItemsText(items, format, old(depth) + 1, |items|)| + 2)
      ensures noalloc ==> length == old(length)
      decreases items, 3
    {
      hide ItemsText, ItemsNesting;
      Assoc(Written(), [LBRACKET], ItemsText(items, format, depth + 1, |items|));
      ok := Append([LBRACKET], 0);
      if !ok {
        return;
      }
      depth := depth + 1;
      ok := PrintItems(items);
    }

    method PrintArray(items: seq<Json>) returns (ok: bool)
      requires Ready() && depth <= NESTING_LIMIT
      modifies this, buffer
      ensures Prints(TextOf(Array(items), format, old(depth)), Nesting(Array(items)), ok)
      decreases Array(items), 0
    {
      hide ItemsText, ItemsNesting, TextOf, Nesting;
      ArrayParts(items, format, depth);
      if depth >= NESTING_LIMIT {
        return false;
      }
      ghost var front := [LBRACKET] + ItemsText(items, format, depth + 1, |items|);
      Assoc(Written(), front, [RBRACKET]);
      ok := OpenArray(items);
      if !ok {
        return;
      }
      ok := Finish([RBRACKET]);
      depth := depth - 1;
    }

    /** The first half of a turn of `print_object`'s loop: indentation, key, colon. */
    method PrintKey(key: CString) returns (ok: bool)
      requires Ready() && depth <= NESTING_LIMIT
      modifies this`buffer, this`length, this`refused, this`offset, buffer
      ensures Appends(MemberStart(key, format, depth), 0, ok)
    {
      hide Quoted;
      ghost var before := Written();
      ok := Append(Indent(format, depth), 0);
      if !ok {
        return;
      }
      ok := PrintString(key);
      if !ok {
        return;
      }
      UpdateOffset(before + Indent(format, depth) + Quoted(key));
      Assoc(before, Indent(format, depth), Quoted(key));
      Assoc(before, Indent(format, depth) + Quoted(key), Colon(format));
      ok := Append(Colon(format), 0);
    }

    /** One turn of `print_object`'s loop. */
    method PrintMember(member: Keyed<Json>, last: bool) returns (ok: bool)
      requires Ready() && depth <= NESTING_LIMIT
      modifies this, buffer
      ensures Appends(MemberText(member, format, old(depth), last), Nesting(member.item), ok)
      decreases member, 1
    {
      hide TextOf, Nesting, MemberStart, MemberEnd;
      ghost var before := Written();
      ghost var start, text := MemberStart(member.key, format, depth), TextOf(member.item, format, depth);
      Assoc(before, start, text);
      Assoc(before, start + text, MemberEnd(format, last));
      ok := PrintKey(member.key);
      if !ok {
        return;
      }
      ok := PrintValue(member.item);
      if !ok {
        return;
      }
      UpdateOffset(before + start + text);
      ok := Append(MemberEnd(format, last), 1);
    }

    /** The loop of `print_object`. */
    method PrintMembers(members: seq<Keyed<Json>>) returns (ok: bool)
      requires Ready() && depth <= NESTING_LIMIT
      modifies this, buffer
      ensures Appends(MembersText(members, format, old(depth), |members|), MembersNesting(members), ok)
      decreases members, 2
    {
      hide TextOf, Nesting, MemberText, MembersText, MembersNesting;
      ok := true;
      ghost var before := Written();
      EmptyText([], members, format, depth);
      assert before + [] == before && members[..0] == [];
      for i := 0 to |members|
        invariant Ready() && SameOrFresh() && depth == old(depth) && refused == old(refused)
        invariant Written() == before + MembersText(members, format, depth, i)
        invariant depth + MembersNesting(members[..i]) <= NESTING_LIMIT && ok
      {
        MemberNesting(members, i);
        MembersTextStep(members, format, depth, i);
        Assoc(before, MembersText(members, format, depth, i), MemberText(members[i], format, depth, i + 1 == |members|));
        MembersNestingSnoc(members[..i], members[i]);
        assert members[..i] + [members[i]] == members[..i + 1];
        ok := PrintMember(members[i], i + 1 == |members|);
        if !ok {
          return;
        }
      }
      assert members[..|members|] == members;
    }

    /** `print_object` up to the closing brace, one level deeper. */
    method OpenObject(members: seq<Keyed<Json>>) returns (ok: bool)
      requires Ready() && depth < NESTING_LIMIT
      modifies this, buffer
      ensures ok ==> Ready() && SameOrFresh() && depth == old(depth) + 1 && refused == old(refused)
      ensures ok ==> depth + MembersNesting(members) <= NESTING_LIMIT
      ensures ok ==> Written() == old(Written()) + (Open(format) + MembersText(members, format, old(depth) + 1, |members|))
      ensures ok || old(depth) + 1 + MembersNesting(members) > NESTING_LIMIT
        || OutOfReach(old(offset) + |Open(format)| + |MembersText(members, format, old(depth) + 1, |members|)| + 2)
      ensures noalloc ==> length == old(length)
      decreases members, 3
    {
      hide MembersText, MembersNesting, Open;
      Assoc(Written(), Open(format), MembersText(members, format, depth + 1, |members|));
      ok := Append(Open(format), 1);
      if !ok {
        return;
      }
      depth := depth + 1;
      ok := PrintMembers(members);
    }

    method PrintObject(members: seq<Keyed<Json>>) returns (ok: bool)
      requires Ready() && depth <= NESTING_LIMIT
      modifies this, buffer
      ensures Prints(TextOf(Object(members), format, old(depth)), Nesting(Object(members)), ok)
      decreases Object(members), 0
    {
      hide MembersText, MembersNesting, Open, Close, TextOf, Nesting;
      ObjectParts(members, format, depth);
      if depth >= NESTING_LIMIT {
        return false;
      }
      ghost var front := Open(format) + MembersText(members, format, depth + 1, |members|);
      Assoc(Written(), front, Close(format, depth));
      ok := OpenObject(members);
      if !ok {
        return;
      }
      ok := Finish(Close(format, depth - 1));
      depth := depth - 1;
    }
  }

  /** `cJSON_PrintPreallocated` into the caller's `buffer`, whose whole length is offered: it succeeds exactly
      when there are two bytes more than the text has, and then the text and its NUL are in the buffer. */
  method PrintPreallocated(item: Json, buffer: array<Byte>, format: bool) returns (ok: bool)
    requires buffer.Length <= INT32_MAX
    modifies buffer
    ensures ok <==> Nesting(item) <= NESTING_LIMIT && |TextOf(item, format, 0)| + 2 <= buffer.Length
    ensures ok ==> HasAt(buffer[..], 0, Terminated(TextOf(item, format, 0)))
  {
    var p := new PrintBuffer(buffer, true, format, true);
    ok := p.PrintValue(item);
    if ok {
      HoldsTerminated(buffer[..], TextOf(item, format, 0));
    }
  }

  /** `cJSON_PrintBuffered` with an initial size. It reads no memory it does not own, whether buffers grow in
      place or by copying; a size of 0 is possible only where they grow in place. */
  method PrintBuffered(item: Json, prebuffer: Int32, format: bool, canReallocate: bool) returns (printed: array?<Byte>, ghost refused: bool)
    requires canReallocate || prebuffer != 0
    ensures prebuffer < 0 ==> printed == null
    ensures printed != null ==> Nesting(item) <= NESTING_LIMIT && HasAt(printed[..], 0, Terminated(TextOf(item, format, 0)))
    ensures printed == null ==>
      prebuffer < 0 || refused || Nesting(item) > NESTING_LIMIT || |TextOf(item, format, 0)| + 2 > INT32_MAX
  {
    if prebuffer < 0 {
      return null, false;
    }
    var buffer := new Byte[prebuffer];
    var p := new PrintBuffer(buffer, false, format, canReallocate);
    var ok := p.PrintValue(item);
    refused := p.refused;
    if !ok {
      return null, refused;
    }
    HoldsTerminated(p.buffer[..], TextOf(item, format, 0));
    return p.buffer, refused;
  }

  /** `print_impl`: grow from 256 bytes, then trim to the text and its NUL. */
  method Print(item: Json, format: bool, canReallocate: bool) returns (printed: array?<Byte>, ghost refused: bool)
    ensures printed != null ==> Nesting(item) <= NESTING_LIMIT && printed[..] == Terminated(TextOf(item, format, 0))
    ensures printed == null ==> refused || Nesting(item) > NESTING_LIMIT || |TextOf(item, format, 0)| + 2 > INT32_MAX
  {
    var buffer := new Byte[256];
    var p := new PrintBuffer(buffer, false, format, canReallocate);
    var ok := p.PrintValue(item);
    refused := p.refused;
    if !ok {
      return null, refused;
    }
    p.UpdateOffset(TextOf(item, format, 0));
    printed := p.Allocate(p.offset + 1);
    refused := p.refused;
    if printed == null {
      return;
    }
    PrintBuffer.Copy(p.buffer, printed, p.offset);
    printed[p.offset] := 0;
    assert printed[..] == printed[..p.offset] + [0];
  }

  lemma HoldsTerminated(memory: seq<Byte>, text: CString)
    requires |text| < |memory| && memory[..|text|] == text && memory[|text|] == 0
    ensures HasAt(memory, 0, Terminated(text))
  {
    assert memory[0..|text| + 1] == memory[..|text|] + [memory[|text|]];
  }

  lemma EmptyText(items: seq<Json>, members: seq<Keyed<Json>>, format: bool, depth: nat)
    ensures ItemsText(items, format, depth, 0) == [] && MembersText(members, format, depth, 0) == []
    ensures ItemsNesting([]) == 0 && MembersNesting([]) == 0
  {
  }

  lemma {:induction false} NothingEscaped(s: CString)
    requires |EscapeAll(s)| == |s|
    ensures EscapeAll(s) == s
  {
    if s != [] {
      EscapesGrow(s[1..]);
      NothingEscaped(s[1..]);
      assert Escape(s[0]) == [s[0]];
    }
  }

  lemma {:induction false} EscapesGrow(s: CString)
    ensures |EscapeAll(s)| >= |s|
  {
    if s != [] {
      EscapesGrow(s[1..]);
    }
  }
}

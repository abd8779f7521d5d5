/** The print buffer of cJSON.c: memory that grows before every write, and an offset that the value
    writers leave behind and update_offset moves up by strlen. It holds the texts of JsonTree. */
module JsonPrinter {
  import opened Texts
  import opened Numerals
  import opened Wrappers
  import opened JsonBytes
  import JsonString
  import opened JsonQuote
  import T = JsonTree

  lemma MemberThenRest(a: Bytes, q: Bytes, c: Bytes, t: Bytes, x: Bytes, n: Bytes, r: Bytes)
    ensures a + (q + (c + (t + (x + (n + r))))) == (a + q + c + t + (x + n)) + r
  {
  }

  // ----- Texts of numbers -----

  // print_number's local array is large enough.
  lemma NumberIsShort(lib: T.Libc, d: real)
    ensures |T.NumberText(lib, d)| <= 25 && 0 !in T.NumberText(lib, d)
  {
    var n := T.ValueInt(d);
    assert Pow10(10) == 10_000_000_000 by { PowJoin(5, 5); }
    NumeralLength(if n < 0 then -n else n, T.DigitByte, 10);
    hide Numeral, Pow10;
  }

  lemma QuoteLength(s: CBytes)
    ensures |Quote(s)| == |Escapes(s)| + 2
  {
  }

  class PrintBuffer {
    const lib: T.Libc
    const format: bool
    var buf: array<Byte>
    var offset: nat
    var depth: nat
    ghost var text: Bytes        // all that was printed, also behind the offset

    ghost predicate Valid()
      reads this`buf, this`offset, this`text, buf
    {
      offset <= |text| < buf.Length && buf[..|text|] == text
    }

    // The offset is behind all that was printed.
    ghost predicate Settled()
      reads this`offset, this`text
    {
      offset == |text|
    }

    /** A NUL stands behind all that was printed, and there is none from the offset to there: strlen at
        the offset finds that end. */
    ghost predicate Ended()
      reads this`buf, this`offset, this`text, buf
      requires Valid()
    {
      buf[|text|] == 0 && 0 !in text[offset..]
    }

    constructor (lib: T.Libc, format: bool)
      ensures this.lib == lib && this.format == format && Valid() && Settled() && fresh(buf) && text == [] && depth == 0
    {
      this.lib, this.format, offset, depth, text := lib, format, 0, 0, [];
      buf := new Byte[256](_ => 0);
    }

    // Makes room for `needed` bytes and one more, as ensure does when memory can be had.
    method Ensure(needed: nat) returns (ok: bool)
      requires Valid() && Settled()
      modifies this`buf
      ensures Valid() && (buf == old(buf) || fresh(buf))
      ensures ok ==> offset + needed < buf.Length
      ensures !ok ==> offset + needed >= T.INT_MAX
    {
      if needed > T.INT_MAX { return false; }
      var total := needed + offset + 1;
      if total <= buf.Length { return true; }
      var newsize := total * 2;
      if total > T.INT_MAX / 2 {
        if total > T.INT_MAX { return false; }
        newsize := T.INT_MAX;
      }
      var newbuffer := new Byte[newsize](_ => 0);
      forall i | 0 <= i <= offset {
        newbuffer[i] := buf[i];
      }
      assert newbuffer[..offset] == buf[..offset];
      buf := newbuffer;
      return true;
    }

    // Bytes, perhaps a NUL, and the offset moved over the bytes.
    method Emit(needed: nat, s: Bytes, nul: bool) returns (ok: bool)
      requires Valid() && Settled() && |s| + (if nul then 1 else 0) <= needed
      modifies this`buf, this`offset, this`text, buf
      ensures Valid() && Settled() && (buf == old(buf) || fresh(buf))
      ensures text == old(text) + (if ok then s else [])
      ensures !ok ==> |text| + needed >= T.INT_MAX
    {
      ok := Ensure(needed);
      if ok {
        JsonString.Write(buf, offset, if nul then s + [0] else s);
        ghost var all := text + s;
        assert buf[..|all|] == all;
        offset := offset + |s|;
        text := all;
      }
    }

    // A text and its NUL, behind which the offset has still to be moved.
    method EmitText(needed: nat, s: Bytes) returns (ok: bool)
      requires Valid() && Settled() && |s| < needed && 0 !in s
      modifies this`buf, this`text, buf
      ensures Valid() && (buf == old(buf) || fresh(buf))
      ensures ok ==> Ended() && text == old(text) + s
      ensures !ok ==> |old(text)| + needed >= T.INT_MAX
    {
      ok := Ensure(needed);
      if ok {
        JsonString.Write(buf, offset, s + [0]);
        ghost var all := text + s;
        assert text + (s + [0]) == all + [0];
        assert buf[..|all|] == all && buf[|all|] == 0;
        assert all[offset..] == s;
        text := all;
      }
    }

    /** update_offset: strlen takes it exactly behind what was printed. */
    method UpdateOffset()
      requires Valid() && Ended()
      modifies this`offset
      ensures Valid() && Settled()
    {
      ghost var start, rest := offset, text[offset..];
      assert forall i | 0 <= i < |rest| :: buf[start + i] == rest[i] && rest[i] != 0;
      while buf[offset] != 0
        invariant start <= offset <= |text| && Valid()
        decreases |text| - offset
      {
        offset := offset + 1;
      }
      assert forall i | start <= i < |text| :: buf[i] == rest[i - start];
    }

    // Printed exactly the text, or there is no text, or it does not fit into INT_MAX bytes.
    ghost predicate Wrote(t: Option<Bytes>, before: Bytes, d: nat, ok: bool)
      reads this
    {
      if ok then t.Some? && text == before + t.value && depth == d
      else t.Some? ==> |before| + |t.value| + 4 > T.INT_MAX
    }

    /** Prints a value behind what was printed before: its text and a NUL, which strlen finds from
        wherever the offset was left. */
    method PrintValue(v: T.Json) returns (ok: bool)
      requires Valid() && Settled()
      modifies this, buf
      ensures Valid() && (buf == old(buf) || fresh(buf)) && (ok ==> Ended())
      ensures Wrote(T.PrintValue(lib, v, format, old(depth)), old(text), old(depth), ok)
      decreases v, 3
    {
      match v {
        case Null => ok := EmitText(5, T.NULL_TEXT);
        case False => ok := EmitText(6, T.FALSE_TEXT);
        case True => ok := EmitText(5, T.TRUE_TEXT);
        case Number(d) => ok := PrintNumber(d);
        case Str(s) => ok := PrintString(T.CString(s));
        case Array(items) => ok := PrintArray(items);
        case Object(members) => ok := PrintObject(members);
      }
    }

    // The one writer of a value that moves the offset itself.
    method PrintNumber(d: real) returns (ok: bool)
      requires Valid() && Settled()
      modifies this`buf, this`offset, this`text, buf
      ensures Valid() && (buf == old(buf) || fresh(buf)) && (ok ==> Ended())
      ensures Wrote(Some(T.NumberText(lib, d)), old(text), depth, ok)
    {
      hide T.NumberText;
      NumberIsShort(lib, d);
      var t := T.NumberText(lib, d);
      if |t| > 25 { return false; }
      ok := EmitText(|t| + 1, t);
      if ok {
        offset := offset + |t|;
        assert text[offset..] == [];
      }
    }

    method PrintString(s: CBytes) returns (ok: bool)
      requires Valid() && Settled()
      modifies this`buf, this`text, buf
      ensures Valid() && (buf == old(buf) || fresh(buf)) && (ok ==> Ended())
      ensures Wrote(Some(Quote(s)), old(text), depth, ok)
    {
      hide Quote, Escapes;
      var extra := CountExtra(s);
      ok := Ensure(|s| + extra + 3);
      QuoteNoNul(s);
      QuoteLength(s);
      if ok {
        PrintStringPtr(buf, offset, s, extra);
        ghost var all := text + Quote(s);
        assert buf[..|all|] == all && buf[|all|] == 0;
        assert all[offset..] == Quote(s);
        text := all;
      }
    }

    method PrintArray(items: seq<T.Json>) returns (ok: bool)
      requires Valid() && Settled()
      modifies this, buf
      ensures Valid() && (buf == old(buf) || fresh(buf)) && (ok ==> Ended())
      ensures Wrote(T.PrintValue(lib, T.Array(items), format, old(depth)), old(text), old(depth), ok)
      decreases items, 2
    {
      hide T.PrintItems, T.PrintValue, Valid, Ended, Settled;
      ArrayTextIs(items, depth);
      if depth >= T.NESTING_LIMIT { return false; }
      ghost var before, all := text, T.PrintItems(lib, items, format, depth + 1);
      ok := Emit(1, [91], false);
      if !ok { return; }
      depth := depth + 1;
      ok := PrintItems(items);
      if !ok { return; }
      ok := EmitText(2, [93]);
      if !ok { return; }
      assert before + [91] + all.value + [93] == before + ([91] + (all.value + [93]));
      depth := depth - 1;
    }

    lemma ArrayTextIs(items: seq<T.Json>, d: nat)
      ensures var all := T.PrintItems(lib, items, format, d + 1);
              T.PrintValue(lib, T.Array(items), format, d)
              == if d >= T.NESTING_LIMIT || all.None? then None else Some([91] + (all.value + [93]))
    {
      hide T.PrintItems;
    }

    lemma ObjectTextIs(members: seq<T.Member>, d: nat)
      ensures var all := T.PrintMembers(lib, members, format, d + 1);
              T.PrintValue(lib, T.Object(members), format, d)
              == if d >= T.NESTING_LIMIT || all.None? then None
                 else Some([123] + (T.Newline(format) + (all.value + (T.Tabs(format, d) + [125]))))
    {
      hide T.PrintMembers, T.Tabs, T.Newline;
    }

    lemma FormatIs(d: nat)
      ensures |T.Tabs(format, d)| == (if format then d else 0) && 0 !in T.Tabs(format, d)
      ensures |T.Newline(format)| <= 1 && |T.Colon(format)| <= 2
    {
    }

    // The loop of print_array.
    method PrintItems(items: seq<T.Json>) returns (ok: bool)
      requires Valid() && Settled()
      modifies this, buf
      ensures Valid() && (buf == old(buf) || fresh(buf)) && (ok ==> Settled())
      ensures Wrote(T.PrintItems(lib, items, format, old(depth)), old(text), old(depth), ok)
      decreases items, 1
    {
      hide T.PrintValue, T.PrintItems, JsonString.Before, ItemText, Joined, Valid, Ended, Settled;
      ghost var before, all := text, T.PrintItems(lib, items, format, depth);
      ghost var done: Bytes := [];
      var k := 0;
      NoItems(all);
      assert items[0..] == items;
      ok := true;
      while k < |items|
        invariant ok && 0 <= k <= |items| && Valid() && Settled() && depth == old(depth)
        invariant (buf == old(buf) || fresh(buf)) && text == before + done
        invariant all == JsonString.Before(done, T.PrintItems(lib, items[k..], format, depth))
        decreases |items| - k
      {
        ghost var t := ItemText(items, k, depth);
        ghost var rest := T.PrintItems(lib, items[k + 1..], format, depth);
        ItemsText(items[k..], depth, t, rest);
        assert items[k..][0] == items[k] && items[k..][1..] == items[k + 1..];
        ItemTextOfRest(items, k, depth);
        TextAfter(all, done, t, rest);
        ok := PrintItem(items, k);
        if !ok { return; }
        assert (before + done) + t.value == before + (done + t.value);
        done := done + t.value;
        k := k + 1;
      }
      assert items[k..] == [];
      AllDone(all, done);
    }

    lemma NoItems(all: Option<Bytes>)
      ensures all == JsonString.Before([], all)
    {
      JsonString.BeforeNothing(all);
    }

    lemma AllDone(all: Option<Bytes>, done: Bytes)
      ensures all == JsonString.Before(done, T.PrintItems(lib, [], format, depth)) ==> all == Some(done)
      ensures all == JsonString.Before(done, T.PrintMembers(lib, [], format, depth)) ==> all == Some(done)
    {
      assert done + [] == done;
    }

    // One turn of the loop of print_array.
    ghost function ItemText(items: seq<T.Json>, k: nat, d: nat): Option<Bytes>
      requires k < |items|
    {
      var t :- T.PrintValue(lib, items[k], format, d);
      Some(t + T.Separator(format, k + 1 < |items|))
    }

    lemma ItemTextOfRest(items: seq<T.Json>, k: nat, d: nat)
      requires k < |items|
      ensures ItemText(items[k..], 0, d) == ItemText(items, k, d)
    {
    }

    lemma ItemsText(items: seq<T.Json>, d: nat, text: Option<Bytes>, rest: Option<Bytes>)
      requires items != []
      ensures text == ItemText(items, 0, d) && rest == T.PrintItems(lib, items[1..], format, d) ==>
        T.PrintItems(lib, items, format, d) == Joined(text, rest)
    {
      if ItemText(items, 0, d).Some? && T.PrintItems(lib, items[1..], format, d).Some? {
        var t := T.PrintValue(lib, items[0], format, d).value;
        var s, r := T.Separator(format, |items| > 1), T.PrintItems(lib, items[1..], format, d).value;
        assert t + (s + r) == (t + s) + r;
      }
    }

    ghost function Joined(text: Option<Bytes>, rest: Option<Bytes>): Option<Bytes> {
      if text.None? || rest.None? then None else Some(text.value + rest.value)
    }

    // The whole text goes on after one more piece, if there is a whole text.
    lemma TextAfter(all: Option<Bytes>, done: Bytes, text: Option<Bytes>, rest: Option<Bytes>)
      requires all == JsonString.Before(done, Joined(text, rest))
      ensures text.Some? ==> all == JsonString.Before(done + text.value, rest)
      ensures all.Some? ==> text.Some? && |all.value| >= |done| + |text.value|
    {
      if text.Some? && rest.Some? {
        assert done + (text.value + rest.value) == (done + text.value) + rest.value;
      }
    }

    method PrintItem(items: seq<T.Json>, k: nat) returns (ok: bool)
      requires Valid() && Settled() && k < |items|
      modifies this, buf
      ensures Valid() && (buf == old(buf) || fresh(buf)) && (ok ==> Settled())
      ensures Wrote(ItemText(items, k, old(depth)), old(text), old(depth), ok)
      decreases items, 0
    {
      hide T.PrintValue;
      ok := PrintValue(items[k]);
      if !ok { return; }
      UpdateOffset();
      if k + 1 < |items| {
        ok := Emit(|T.Separator(format, true)| + 1, T.Separator(format, true), true);
      }
    }

    method PrintObject(members: seq<T.Member>) returns (ok: bool)
      requires Valid() && Settled()
      modifies this, buf
      ensures Valid() && (buf == old(buf) || fresh(buf)) && (ok ==> Ended())
      ensures Wrote(T.PrintValue(lib, T.Object(members), format, old(depth)), old(text), old(depth), ok)
      decreases members, 2
    {
      hide T.PrintMembers, T.PrintValue, T.Tabs, T.Newline, Valid, Ended, Settled;
      ObjectTextIs(members, depth);
      if depth >= T.NESTING_LIMIT { return false; }
      ghost var before, all := text, T.PrintMembers(lib, members, format, depth + 1);
      ok := OpenObject();
      if !ok { return; }
      depth := depth + 1;
      ok := PrintMembers(members);
      if !ok { return; }
      ok := CloseObject();
      if !ok { return; }
      ObjectPieces(before, T.Newline(format), all.value, T.Tabs(format, depth - 1) + [125]);
      depth := depth - 1;
    }

    lemma ObjectPieces(before: Bytes, nl: Bytes, body: Bytes, tail: Bytes)
      ensures before + ([123] + nl) + body + tail == before + ([123] + (nl + (body + tail)))
      ensures |before + ([123] + nl) + body + tail| == |before| + 1 + |nl| + |body| + |tail|
    {
    }

    method OpenObject() returns (ok: bool)
      requires Valid() && Settled()
      modifies this`buf, this`offset, this`text, buf
      ensures Valid() && Settled() && (buf == old(buf) || fresh(buf))
      ensures text == old(text) + (if ok then [123] + T.Newline(format) else [])
      ensures !ok ==> |text| + |T.Newline(format)| + 2 >= T.INT_MAX
    {
      ok := Emit(|T.Newline(format)| + 2, [123] + T.Newline(format), false);
    }

    method CloseObject() returns (ok: bool)
      requires Valid() && Settled() && depth > 0
      modifies this`buf, this`text, buf
      ensures Valid() && (buf == old(buf) || fresh(buf))
      ensures ok ==> Ended() && text == old(text) + (T.Tabs(format, depth - 1) + [125])
      ensures !ok ==> |old(text)| + |T.Tabs(format, depth - 1)| + 2 >= T.INT_MAX
    {
      hide Valid, Ended, Settled;
      ok := EmitText(if format then depth + 1 else 2, T.Tabs(format, depth - 1) + [125]);
    }

    // The loop of print_object.
    method PrintMembers(members: seq<T.Member>) returns (ok: bool)
      requires Valid() && Settled()
      modifies this, buf
      ensures Valid() && (buf == old(buf) || fresh(buf)) && (ok ==> Settled())
      ensures Wrote(T.PrintMembers(lib, members, format, old(depth)), old(text), old(depth), ok)
      decreases members, 1
    {
      hide T.PrintValue, T.PrintMembers, JsonString.Before, MemberText, Joined, Valid, Ended, Settled;
      ghost var before, all := text, T.PrintMembers(lib, members, format, depth);
      ghost var done: Bytes := [];
      var k := 0;
      NoItems(all);
      assert members[0..] == members;
      ok := true;
      while k < |members|
        invariant ok && 0 <= k <= |members| && Valid() && Settled() && depth == old(depth)
        invariant (buf == old(buf) || fresh(buf)) && text == before + done
        invariant all == JsonString.Before(done, T.PrintMembers(lib, members[k..], format, depth))
        decreases |members| - k
      {
        ghost var t := MemberText(members, k, depth);
        ghost var rest := T.PrintMembers(lib, members[k + 1..], format, depth);
        MembersText(members[k..], depth, t, rest);
        assert members[k..][0] == members[k] && members[k..][1..] == members[k + 1..];
        MemberTextOfRest(members, k, depth);
        TextAfter(all, done, t, rest);
        ok := PrintMember(members, k);
        if !ok { return; }
        assert (before + done) + t.value == before + (done + t.value);
        done := done + t.value;
        k := k + 1;
      }
      assert members[k..] == [];
      AllDone(all, done);
    }

    // One turn of the loop of print_object.
    ghost function MemberText(members: seq<T.Member>, k: nat, d: nat): Option<Bytes>
      requires k < |members|
    {
      var t :- T.PrintValue(lib, members[k].value, format, d);
      Some(T.Tabs(format, d) + Quote(T.CString(members[k].key)) + T.Colon(format) + t
           + (T.Comma(k + 1 < |members|) + T.Newline(format)))
    }

    lemma MemberTextOfRest(members: seq<T.Member>, k: nat, d: nat)
      requires k < |members|
      ensures MemberText(members[k..], 0, d) == MemberText(members, k, d)
    {
      hide Quote, T.Tabs, T.CString, T.PrintValue;
    }

    lemma MembersText(ms: seq<T.Member>, d: nat, text: Option<Bytes>, rest: Option<Bytes>)
      requires ms != []
      ensures text == MemberText(ms, 0, d) && rest == T.PrintMembers(lib, ms[1..], format, d) ==>
        T.PrintMembers(lib, ms, format, d) == Joined(text, rest)
    {
      hide Quote, T.Tabs, T.CString, T.PrintValue, T.Colon, T.Comma, T.Newline;
      if T.PrintValue(lib, ms[0].value, format, d).Some? && T.PrintMembers(lib, ms[1..], format, d).Some? {
        MemberThenRest(T.Tabs(format, d), Quote(T.CString(ms[0].key)), T.Colon(format),
                T.PrintValue(lib, ms[0].value, format, d).value, T.Comma(|ms| > 1), T.Newline(format),
                T.PrintMembers(lib, ms[1..], format, d).value);
      }
    }

    method PrintMember(members: seq<T.Member>, k: nat) returns (ok: bool)
      requires Valid() && Settled() && k < |members|
      modifies this, buf
      ensures Valid() && (buf == old(buf) || fresh(buf)) && (ok ==> Settled())
      ensures Wrote(MemberText(members, k, old(depth)), old(text), old(depth), ok)
      decreases members, 0
    {
      hide T.PrintValue, Quote, T.CString, T.Tabs, T.Colon, T.Comma, T.Newline, Valid, Ended, Settled;
      var m := members[k];
      var end := T.Comma(k + 1 < |members|) + T.Newline(format);
      ghost var value := T.PrintValue(lib, m.value, format, depth);
      ghost var before, name := text, T.Tabs(format, depth) + Quote(T.CString(m.key)) + T.Colon(format);
      ok := PrintName(m.key);
      if !ok { return; }
      ok := PrintValue(m.value);
      if !ok { return; }
      UpdateOffset();
      ok := Emit(|end| + 1, end, true);
      assert before + name + value.value + end == before + (name + value.value + end);
      CommaIsShort(k + 1 < |members|);
    }

    lemma CommaIsShort(more: bool)
      ensures |T.Comma(more) + T.Newline(format)| <= 2
    {
    }

    // The key of a member, up to its value.
    method PrintName(key: Bytes) returns (ok: bool)
      requires Valid() && Settled()
      modifies this, buf
      ensures Valid() && (buf == old(buf) || fresh(buf)) && (ok ==> Settled()) && depth == old(depth)
      ensures Wrote(Some(T.Tabs(format, depth) + Quote(T.CString(key)) + T.Colon(format)), old(text), depth, ok)
    {
      hide Quote, T.CString, T.Tabs, T.Colon, Valid, Ended, Settled;
      FormatIs(depth);
      ghost var before, tabs, name := text, T.Tabs(format, depth), Quote(T.CString(key));
      if format {
        ok := Emit(depth, T.Tabs(format, depth), false);
        if !ok { return; }
      }
      assert text == before + tabs;
      ok := PrintString(T.CString(key));
      if !ok { return; }
      UpdateOffset();
      ok := Emit(|T.Colon(format)|, T.Colon(format), false);
      assert before + tabs + name + T.Colon(format) == before + (tabs + name + T.Colon(format));
    }
  }

  /** cJSON_Print and cJSON_PrintUnformatted: the text of the tree, up to the NUL behind it, unless it
      is nested too deeply or does not fit into INT_MAX bytes. */
  method Print(lib: T.Libc, v: T.Json, format: bool) returns (r: Option<Bytes>)
    ensures r.Some? ==> r == T.PrintValue(lib, v, format, 0)
    ensures r.None? ==> var text := T.PrintValue(lib, v, format, 0); text.Some? ==> |text.value| + 4 > T.INT_MAX
  {
    var buffer := new PrintBuffer(lib, format);
    ghost var text := T.PrintValue(lib, v, format, 0);
    var ok := buffer.PrintValue(v);
    if !ok { return None; }
    assert [] + text.value == text.value;
    buffer.UpdateOffset();
    return Some(buffer.buf[..buffer.offset]);
  }
}

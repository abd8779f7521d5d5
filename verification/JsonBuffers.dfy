/** The parse buffer of cJSON.c, whose offset and depth move; it computes the functions of JsonTree. */
module JsonBuffers {
  import opened Texts
  import opened Wrappers
  import opened JsonBytes
  import JsonString
  import opened JsonQuote
  import T = JsonTree

  class ParseBuffer {
    const lib: T.Libc
    const content: Bytes
    var offset: nat
    var depth: nat

    constructor (lib: T.Libc, content: Bytes)
      ensures this.lib == lib && this.content == content && offset == 0 && depth == 0
    {
      this.lib, this.content, offset, depth := lib, content, 0, 0;
    }

    predicate Sees(b: Byte)
      reads this
    {
      offset < |content| && content[offset] == b
    }

    method SkipWhitespace()
      requires offset <= |content|
      modifies this`offset
      ensures offset == T.SkipWhite(content, old(offset))
    {
      if offset == |content| { return; }
      while offset < |content| && content[offset] <= 32
        invariant old(offset) <= offset <= |content|
        invariant T.WhiteEnd(content, offset) == T.WhiteEnd(content, old(offset))
      {
        offset := offset + 1;
      }
      if offset == |content| { offset := offset - 1; }
    }

    // The buffer reached the end of what the function parsed, or parsing failed in both.
    ghost predicate Reached<V>(expected: Option<(V, nat)>, r: Option<V>, d: nat)
      reads this
    {
      if expected.None? then r.None?
      else r == Some(expected.value.0) && offset == expected.value.1 && depth == d
    }

    method ParseValue() returns (r: Option<T.Json>)
      requires offset <= |content|
      modifies this
      ensures Reached(T.ParseValue(lib, content, old(offset), old(depth)), r, old(depth))
      decreases |content| - offset, 2
    {
      if T.Starts(content, offset, T.NULL_TEXT) {
        offset := offset + 4;
        return Some(T.Null);
      }
      if T.Starts(content, offset, T.FALSE_TEXT) {
        offset := offset + 5;
        return Some(T.False);
      }
      if T.Starts(content, offset, T.TRUE_TEXT) {
        offset := offset + 4;
        return Some(T.True);
      }
      if Sees(QUOTE) {
        var s :- ParseString();
        return Some(T.Str(s));
      }
      if offset < |content| && (content[offset] == 45 || 48 <= content[offset] <= 57) {
        r := ParseNumber();
        return;
      }
      if Sees(91) {
        r := ParseArray();
        return;
      }
      if Sees(123) {
        r := ParseObject();
        return;
      }
      return None;
    }

    method ParseString() returns (r: Option<Bytes>)
      requires offset < |content|
      modifies this`offset
      ensures Reached(JsonString.ParseStringAt(content, old(offset)), r, old(depth))
    {
      var parsed := JsonString.ParseString(content, offset);
      if parsed.None? { return None; }
      offset := parsed.value.1;
      return Some(parsed.value.0);
    }

    method ParseNumber() returns (r: Option<T.Json>)
      requires offset <= |content|
      modifies this`offset
      ensures Reached(T.ParseNumberAt(lib, content, old(offset)), r, old(depth))
    {
      var i := offset;
      while i < |content| && T.IsNumberByte(content[i])
        invariant offset <= i <= |content| && T.NumberEnd(content, i) == T.NumberEnd(content, offset)
      {
        i := i + 1;
      }
      var text := content[offset..i];
      var (n, d) := lib.strtod(text);
      if n == 0 || text == [] { return None; }
      offset := offset + if n <= |text| then n else |text|;
      return Some(T.Number(d));
    }

    method ParseArray() returns (r: Option<T.Json>)
      requires offset < |content|
      modifies this
      ensures Reached(T.ParseArray(lib, content, old(offset), old(depth)), r, old(depth))
      decreases |content| - offset, 1
    {
      if depth >= T.NESTING_LIMIT { return None; }
      depth := depth + 1;
      offset := offset + 1;
      SkipWhitespace();
      if Sees(93) {
        depth, offset := depth - 1, offset + 1;
        return Some(T.Array([]));
      }
      if offset == |content| { return None; }
      offset := offset - 1;
      var items := ParseItems();
      if items.None? || !Sees(93) { return None; }
      depth, offset := depth - 1, offset + 1;
      return Some(T.Array(items.value));
    }

    // The do-while loop of parse_array.
    method ParseItems() returns (r: Option<seq<T.Json>>)
      requires offset < |content|
      modifies this
      ensures Reached(T.ParseItems(lib, content, old(offset), old(depth), []), r, old(depth))
      decreases |content| - offset, 0
    {
      var items, more := [], true;
      while more
        invariant old(offset) <= offset <= |content| && depth == old(depth)
        invariant more ==> offset < |content| && T.ParseItems(lib, content, offset, depth, items)
                                              == T.ParseItems(lib, content, old(offset), old(depth), [])
        invariant !more ==> T.ParseItems(lib, content, old(offset), old(depth), []) == Some((items, offset))
        decreases |content| - offset, more
      {
        offset := offset + 1;
        SkipWhitespace();
        var v :- ParseValue();
        items := items + [v];
        SkipWhitespace();
        more := Sees(44);
      }
      return Some(items);
    }

    method ParseObject() returns (r: Option<T.Json>)
      requires offset < |content|
      modifies this
      ensures Reached(T.ParseObject(lib, content, old(offset), old(depth)), r, old(depth))
      decreases |content| - offset, 1
    {
      if depth >= T.NESTING_LIMIT { return None; }
      depth := depth + 1;
      offset := offset + 1;
      SkipWhitespace();
      if Sees(125) {
        depth, offset := depth - 1, offset + 1;
        return Some(T.Object([]));
      }
      if offset == |content| { return None; }
      offset := offset - 1;
      var members := ParseMembers();
      if members.None? || !Sees(125) { return None; }
      depth, offset := depth - 1, offset + 1;
      return Some(T.Object(members.value));
    }

    method ParseName() returns (r: Option<Bytes>)
      requires offset < |content|
      modifies this`offset
      ensures Reached(T.ParseName(content, old(offset)), r, old(depth))
    {
      if offset + 1 >= |content| { return None; }
      offset := offset + 1;
      SkipWhitespace();
      var key :- ParseString();
      SkipWhitespace();
      if !Sees(58) { return None; }
      offset := offset + 1;
      SkipWhitespace();
      return Some(key);
    }

    // The do-while loop of parse_object.
    method ParseMembers() returns (r: Option<seq<T.Member>>)
      requires offset < |content|
      modifies this
      ensures Reached(T.ParseMembers(lib, content, old(offset), old(depth), []), r, old(depth))
      decreases |content| - offset, 0
    {
      var members, more := [], true;
      while more
        invariant old(offset) <= offset <= |content| && depth == old(depth)
        invariant more ==> offset < |content| && T.ParseMembers(lib, content, offset, depth, members)
                                              == T.ParseMembers(lib, content, old(offset), old(depth), [])
        invariant !more ==> T.ParseMembers(lib, content, old(offset), old(depth), []) == Some((members, offset))
        decreases |content| - offset, more
      {
        var key :- ParseName();
        var v :- ParseValue();
        members := members + [T.Member(key, v)];
        SkipWhitespace();
        more := Sees(44);
      }
      return Some(members);
    }
  }

  // cJSON_ParseWithOpts.
  method ParseText(lib: T.Libc, text: CBytes, requireEnd: bool) returns (r: Option<T.Json>)
    ensures r == T.Parse(lib, text, requireEnd)
  {
    var buffer := new ParseBuffer(lib, text + [0]);
    if |buffer.content| > 4 && T.Starts(buffer.content, 0, T.BOM) {
      buffer.offset := 3;
    }
    buffer.SkipWhitespace();
    r := buffer.ParseValue();
    if r.Some? && requireEnd {
      buffer.SkipWhitespace();
      if !buffer.Sees(0) { return None; }
    }
  }
}

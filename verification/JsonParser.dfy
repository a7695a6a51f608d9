/** The recursive part of cJSON's parser: a parse buffer whose offset and depth the functions advance. */
module JsonParser {
  import opened Common
  import opened JsonString
  import opened Json
  import opened JsonReader

  class ParseBuffer {
    const content: seq<byte>
    var offset: nat
    var depth: nat

    /** The parser stands on a byte of a terminated text. */
    ghost predicate Valid()
      reads this
    {
      Terminated(content) && offset < |content|
    }

    constructor (text: seq<byte>)
      ensures content == text + [0] && offset == 0 && depth == 0 && Valid()
    {
      content := text + [0];
      offset := 0;
      depth := 0;
    }

    /** buffer_skip_whitespace */
    method SkipWhitespace()
      requires Valid()
      modifies this`offset
      ensures Valid() && Skipped(content, old(offset), offset)
    {
      offset := SkipWhite(content, offset);
    }

    /** skip_utf8_bom */
    method SkipMark()
      requires Valid() && offset == 0
      modifies this`offset
      ensures Valid() && content[offset..] == SkipBom(content)
    {
      if 4 < |content| && content[0] == 0xef && content[1] == 0xbb && content[2] == 0xbf {
        offset := 3;
      }
    }

    /** parse_string */
    method ReadText() returns (r: Option<seq<byte>>)
      requires Valid()
      modifies this`offset
      ensures StringRead(content, old(offset), r, offset)
    {
      r, offset := ReadString(content, offset);
    }

    /** parse_value: the item that ParseValue gives, the offset behind it and the depth as before; a failure leaves
        the offset inside the text or just behind it. */
    method ReadValue() returns (r: Option<Json>)
      requires Valid()
      modifies this
      ensures ValueRead(content, old(offset), old(depth), r, offset)
      ensures r.Some? ==> depth == old(depth)
      decreases |content| - offset, 1
    {
      hide ValueRead, StringRead, ParseValue, LostValue;
      ScalarUnfold(content, offset, depth);
      var t := content[offset..];
      if NULL_TEXT <= t {
        offset := offset + 4;
        return Some(Null);
      }
      if FALSE_TEXT <= t {
        offset := offset + 5;
        return Some(False);
      }
      if TRUE_TEXT <= t {
        offset := offset + 4;
        return Some(True);
      }
      var b := content[offset];
      if b == QUOTE {
        var text := ReadText();
        TextUnfold(content, old(offset), depth, text, offset);
        return if text.None? then None else Some(Text(text.value));
      }
      if b == MINUS || Digit(b) {
        r, offset := ReadNumber(content, offset, depth);
        return;
      }
      if b == OPEN_ARRAY {
        r := ReadArray();
        return;
      }
      if b == OPEN_OBJECT {
        r := ReadObject();
        return;
      }
      OtherUnfold(content, offset, depth);
      NothingRead(content, offset, depth, offset);
      r := None;
    }

    /** parse_array */
    method ReadArray() returns (r: Option<Json>)
      requires Valid() && content[offset] == OPEN_ARRAY
      modifies this
      ensures ValueRead(content, old(offset), old(depth), r, offset)
      ensures r.Some? ==> depth == old(depth)
      decreases |content| - offset, 0
    {
      hide ValueRead, ItemsRead, ParseValue, ParseItems, LostValue, LostItems;
      if depth >= NESTING_LIMIT {
        TooDeep(content, offset, depth);
        NothingRead(content, offset, depth, offset);
        return None;
      }
      depth := depth + 1;
      offset := offset + 1;
      SkipWhitespace();
      ArrayUnfold(content, old(offset), old(depth), offset);
      if content[offset] == CLOSE_ARRAY {
        depth := depth - 1;
        offset := offset + 1;
        return Some(Array(End));
      }
      ghost var first := offset;
      offset := offset - 1;
      var kids := ReadElements();
      ArrayDone(content, old(offset), old(depth), first, kids, offset);
      if kids.None? {
        return None;
      }
      depth := depth - 1;
      r := Some(Array(kids.value));
    }

    /** The loop of parse_array, with the offset just before the first element. */
    method ReadElements() returns (r: Option<Kids>)
      requires Terminated(content) && offset + 1 < |content|
      modifies this
      ensures ItemsRead(content, old(offset) + 1, old(depth), r, offset)
      ensures r.Some? ==> depth == old(depth)
      decreases |content| - offset - 1, 2
    {
      hide ValueRead, ItemsRead, ItemsPass, ParseValue, ParseItems, Skipped, LostItems;
      ghost var p := offset + 1;
      var list := End;
      PassStarts(content, p, depth);
      while true
        invariant old(offset) <= offset && offset + 1 < |content| && depth == old(depth)
        invariant ItemsPass(content, p, depth, list, offset + 1)
        decreases |content| - offset
      {
        offset := offset + 1;
        ghost var at := offset;
        SkipWhitespace();
        SkippedFacts(content, at, offset);
        ghost var w := offset;
        var v := ReadValue();
        ReadFacts(content, w, old(depth), v, offset);
        if v.None? {
          ItemFails(content, p, old(depth), list, at, w, offset);
          return None;
        }
        ghost var n := offset;
        SkipWhitespace();
        ItemTurn(content, p, depth, list, at, w, v.value, n, offset);
        list := Append(list, [], v.value);
        if content[offset] != COMMA {
          break;
        }
      }
      if content[offset] != CLOSE_ARRAY {
        return None;
      }
      offset := offset + 1;
      r := Some(list);
    }
  
    /** parse_object */
    method ReadObject() returns (r: Option<Json>)
      requires Valid() && content[offset] == OPEN_OBJECT
      modifies this
      ensures ValueRead(content, old(offset), old(depth), r, offset)
      ensures r.Some? ==> depth == old(depth)
      decreases |content| - offset, 0
    {
      hide ValueRead, MembersRead, ParseValue, ParseMembers, LostValue, LostMembers;
      if depth >= NESTING_LIMIT {
        TooDeep(content, offset, depth);
        NothingRead(content, offset, depth, offset);
        return None;
      }
      depth := depth + 1;
      offset := offset + 1;
      SkipWhitespace();
      ObjectUnfold(content, old(offset), old(depth), offset);
      if content[offset] == CLOSE_OBJECT {
        depth := depth - 1;
        offset := offset + 1;
        return Some(Object(End));
      }
      ghost var first := offset;
      offset := offset - 1;
      var kids := ReadMembers();
      ObjectDone(content, old(offset), old(depth), first, kids, offset);
      if kids.None? {
        return None;
      }
      depth := depth - 1;
      r := Some(Object(kids.value));
    }

    /** The loop of parse_object, with the offset just before the first member. */
    method ReadMembers() returns (r: Option<Kids>)
      requires Terminated(content) && offset + 1 < |content|
      modifies this
      ensures MembersRead(content, old(offset) + 1, old(depth), r, offset)
      ensures r.Some? ==> depth == old(depth)
      decreases |content| - offset - 1, 2
    {
      hide ValueRead, MembersRead, MembersPass, ParseValue, ParseMembers, Skipped, FromValue, LostMembers, LostMember;
      ghost var p := offset + 1;
      var list := End;
      PassStarts(content, p, depth);
      while true
        invariant old(offset) <= offset && offset + 1 < |content| && depth == old(depth)
        invariant MembersPass(content, p, depth, list, offset + 1)
        decreases |content| - offset
      {
        offset := offset + 1;
        ghost var at := offset;
        var key := ReadKey();
        if key.None? {
          MembersFail(content, p, depth, list, at, offset);
          return None;
        }
        ghost var w := offset;
        var v := ReadValue();
        ReadFacts(content, w, old(depth), v, offset);
        if v.None? {
          ValueFails(content, old(depth), key.value, w, offset);
          MembersFail(content, p, old(depth), list, at, offset);
          return None;
        }
        ghost var n := offset;
        SkipWhitespace();
        MemberTurn(content, p, depth, list, at, key.value, w, v.value, n, offset);
        list := Append(list, key.value, v.value);
        if content[offset] != COMMA {
          break;
        }
      }
      if content[offset] != CLOSE_OBJECT {
        return None;
      }
      offset := offset + 1;
      r := Some(list);
    }

    /** The key of a member, its colon and the blanks around them. */
    method ReadKey() returns (r: Option<seq<byte>>)
      requires Valid()
      modifies this`offset
      ensures offset <= |content|
      ensures r.None? ==>
        ParseMembers(content[old(offset)..], depth) == None
        && content[offset..] == LostMembers(content[old(offset)..], depth)
      ensures r.Some? ==> Valid() && old(offset) < offset
      ensures r.Some? ==> LostMembers(content[old(offset)..], depth) == LostMember(content[offset..], depth)
      ensures r.Some? ==> ParseMembers(content[old(offset)..], depth) == FromValue(content[offset..], r.value, depth)
    {
      hide StringRead, ParseMembers, FromValue, SkipWs, LostMembers, LostMember;
      ghost var at := offset;
      SkipWhitespace();
      ghost var w := offset;
      r := ReadText();
      StringFacts(content, w, r, offset);
      if r.None? {
        KeyFails(content, at, depth, w, offset);
        return;
      }
      ghost var k := offset;
      SkipWhitespace();
      KeyUnfold(content, at, depth, w, r.value, k, offset);
      if content[offset] != COLON {
        return None;
      }
      offset := offset + 1;
      SkipWhitespace();
    }
  }

  /** What is left of the text, its terminator included, at the position of the error. */
  function ErrorAt(text: seq<byte>): seq<byte> {
    var s := SkipWs(SkipBom(text + [0]));
    var r := ParseValue(s, 0);
    if r.Some? then SkipWs(r.value.rest)
    else if LostValue(s, 0) == [] then [0]
    else LostValue(s, 0)
  }

  /** cJSON_ParseWithOpts: the tree and the offset behind it, or the position of the error: where the reader of the
      value stopped, but inside the text, or where something stands behind the value. */
  method ParseWithOpts(text: seq<byte>, whole: bool) returns (r: Option<Json>, end: nat)
    ensures end <= |text|
    ensures match Parse(text, whole)
      case None => r == None && (text + [0])[end..] == ErrorAt(text)
      case Some(x) => r == Some(x.value) && (text + [0])[end..] == if whole then SkipWs(x.rest) else x.rest
  {
    hide ParseValue, SkipWs, LostValue;
    var buffer := new ParseBuffer(text);
    buffer.SkipMark();
    ghost var a := buffer.offset;
    buffer.SkipWhitespace();
    ghost var b := buffer.offset;
    r := buffer.ReadValue();
    ReadFacts(buffer.content, b, 0, r, buffer.offset);
    if r.Some? && whole {
      ghost var n := buffer.offset;
      buffer.SkipWhitespace();
      if buffer.content[buffer.offset] != 0 {
        r := None;
      }
    }
    end := if buffer.offset < |buffer.content| then buffer.offset else |buffer.content| - 1;
  }

  /** Where a key is missing the position of the error is one byte behind the byte that is no quote: in a brace and a
      one, at the terminator. */
  lemma MissingKey()
    ensures ErrorAt([OPEN_OBJECT, 49]) == [0]
  {
    var s: seq<byte> := [OPEN_OBJECT, 49, 0];
    assert [OPEN_OBJECT, 49] + [0] == s && SkipBom(s) == s && SkipWs(s) == s;
    assert s[1..] == [49, 0] && SkipWs(s[1..]) == s[1..];
    assert ParseString(s[1..]) == None;
    assert ParseMembers(s[1..], 1) == None;
    assert LostString(s[1..]) == [0];
    assert LostMembers(s[1..], 1) == [0];
  }
}

/** The character source with one pushback, the recursive-descent parser over it in its two contexts,
    and the serializer writing through an output iterator. Each is proved equal to the function of
    module Json that states what it reads or writes. */
module JsonInput {
  import opened Common
  import opened Json

  /** default_parse_context stores what it reads; null_parse_context only checks it. */
  datatype Context = Build | Discard

  const END := -1

  class Input {
    const text: string
    var cur: nat
    var lastCh: int
    var ungot: bool

    ghost predicate Valid()
      reads this
    {
      && cur <= |text|
      && (lastCh == END ==> !ungot)
      && (lastCh != END ==> 0 < cur && lastCh == text[cur - 1] as int)
    }

    /** What the next reads will return. */
    ghost function Rest(): string
      requires Valid()
      reads this
    {
      text[if ungot then cur - 1 else cur..]
    }

    /** What the next reads will return once the last character is pushed back. */
    ghost function Before(): string
      requires Valid() && !ungot
      reads this
    {
      text[if lastCh == END then cur else cur - 1..]
    }

    constructor (text: string)
      ensures Valid() && Rest() == text && this.text == text
    {
      this.text := text;
      cur := 0;
      lastCh := END;
      ungot := false;
    }

    method Getc() returns (ch: int)
      requires Valid()
      modifies this
      ensures Valid() && !ungot && ch == lastCh
      ensures if old(Rest()) == "" then ch == END else ch == old(Rest())[0] as int
      ensures Before() == old(Rest())
      ensures Rest() == if ch == END then "" else old(Rest())[1..]
    {
      if ungot {
        ungot := false;
        return lastCh;
      }
      if cur == |text| {
        lastCh := END;
        return END;
      }
      lastCh := text[cur] as int;
      cur := cur + 1;
      return lastCh;
    }

    /** The precondition is the source's own assertion. */
    method Ungetc()
      requires Valid()
      requires lastCh != END ==> !ungot
      modifies this
      ensures Valid() && Rest() == old(Before())
    {
      if lastCh != END {
        ungot := true;
      }
    }

    method SkipWs()
      requires Valid()
      modifies this
      ensures Valid() && Rest() == Json.SkipWs(old(Rest()))
    {
      while true
        invariant Valid() && Json.SkipWs(Rest()) == Json.SkipWs(old(Rest()))
        decreases |Rest()|
      {
        var ch := Getc();
        if !(ch == ' ' as int || ch == '\t' as int || ch == '\n' as int || ch == '\r' as int) {
          Ungetc();
          break;
        }
      }
    }

    method Expect(expected: char) returns (ok: bool)
      requires Valid()
      modifies this
      ensures Valid()
      ensures var r := Json.Expect(old(Rest()), expected); ok == r.ok && Rest() == r.rest
    {
      SkipWs();
      var ch := Getc();
      if ch != expected as int {
        Ungetc();
        return false;
      }
      return true;
    }

    method Match(pattern: string) returns (ok: bool)
      requires Valid()
      modifies this
      ensures Valid()
      ensures var r := MatchText(old(Rest()), pattern); ok == r.ok && Rest() == r.rest
    {
      var i := 0;
      while i < |pattern|
        invariant Valid() && i <= |pattern|
        invariant MatchText(Rest(), pattern[i..]) == MatchText(old(Rest()), pattern)
      {
        var ch := Getc();
        if ch != pattern[i] as int {
          Ungetc();
          return false;
        }
        assert pattern[i..][1..] == pattern[i + 1..];
        i := i + 1;
      }
      return true;
    }

    method QuadHex() returns (value: int)
      requires Valid()
      modifies this
      ensures Valid()
      ensures var r := Json.QuadHex(old(Rest()), 4, 0); value == r.val && Rest() == r.rest
    {
      value := 0;
      var i := 0;
      while i < 4
        invariant Valid() && 0 <= i <= 4 && 0 <= value
        invariant Json.QuadHex(Rest(), 4 - i, value) == Json.QuadHex(old(Rest()), 4, 0)
      {
        var hex := Getc();
        if hex == END {
          return END;
        }
        if '0' as int <= hex <= '9' as int {
          hex := hex - '0' as int;
        } else if 'A' as int <= hex <= 'F' as int {
          hex := hex - ('A' as int - 10);
        } else if 'a' as int <= hex <= 'f' as int {
          hex := hex - ('a' as int - 10);
        } else {
          Ungetc();
          return -1;
        }
        value := value * 16 + hex;
        i := i + 1;
      }
    }

    method ParseCodePoint() returns (ok: bool, bytes: string)
      requires Valid()
      modifies this
      ensures Valid()
      ensures var r := CodePoint(old(Rest())); ok == r.ok && bytes == r.val && Rest() == r.rest
    {
      UnitBound(Rest());
      var unit := QuadHex();
      if unit == -1 {
        return false, "";
      }
      if 0xd800 <= unit <= 0xdfff {
        if 0xdc00 <= unit {
          return false, "";
        }
        ok, bytes := ParseLowSurrogate(unit);
        return;
      }
      return true, Utf8(unit);
    }

    method ParseLowSurrogate(high: nat) returns (ok: bool, bytes: string)
      requires Valid() && 0xd800 <= high < 0xdc00
      modifies this
      ensures Valid()
      ensures var r := LowSurrogate(old(Rest()), high); ok == r.ok && bytes == r.val && Rest() == r.rest
    {
      var ch := Getc();
      if ch == '\\' as int {
        ch := Getc();
        if ch == 'u' as int {
          UnitBound(Rest());
          var low := QuadHex();
          if !(0xdc00 <= low <= 0xdfff) {
            return false, "";
          }
          return true, Utf8((high - 0xd800) * 1024 + (low - 0xdc00) + 0x10000);
        }
      }
      Ungetc();
      return false, "";
    }

    method ParseEscape() returns (ok: bool, bytes: string)
      requires Valid()
      modifies this
      ensures Valid()
      ensures var r := EscapeSequence(old(Rest())); ok == r.ok && bytes == r.val && Rest() == r.rest
    {
      var ch := Getc();
      if ch == END {
        return false, "";
      }
      if ch == 'u' as int {
        ok, bytes := ParseCodePoint();
        return;
      }
      var c := Unescaped(ch as char);
      ok := c.Some?;
      bytes := if c.Some? then [c.value] else "";
    }

    /** The rest of a string literal; the discarding context keeps no bytes. */
    method ParseString(ctx: Context) returns (ok: bool, s: string)
      requires Valid()
      modifies this
      ensures Valid()
      ensures var r := StringTail(old(Rest()), ""); ok == r.ok && Rest() == r.rest && (ctx.Build? ==> s == r.val)
    {
      s := "";
      ghost var goal, acc := StringTail(Rest(), ""), "";
      while true
        invariant Valid() && (ctx.Build? ==> s == acc) && StringTail(Rest(), acc) == goal
        decreases |Rest()|
      {
        var ch := Getc();
        if ch < ' ' as int {
          Ungetc();
          return false, s;
        } else if ch == '"' as int {
          return true, s;
        } else if ch == '\\' as int {
          var good, bytes := ParseEscape();
          if !good {
            return false, s;
          }
          s := if ctx.Build? then s + bytes else s;
          acc := acc + bytes;
        } else {
          s := if ctx.Build? then s + [ch as char] else s;
          acc := acc + [ch as char];
        }
      }
    }

    method ParseNumber() returns (lit: string)
      requires Valid()
      modifies this
      ensures Valid()
      ensures var r := NumberTail(old(Rest()), ""); lit == r.val && Rest() == r.rest
    {
      lit := "";
      while true
        invariant Valid() && NumberTail(Rest(), lit) == NumberTail(old(Rest()), "")
        decreases |Rest()|
      {
        var ch := Getc();
        if ch != END && IsNumberChar(ch as char) {
          lit := lit + [ch as char];
        } else {
          Ungetc();
          break;
        }
      }
    }

    method ParseLiteral(text: string, w: Value) returns (ok: bool, v: Value)
      requires Valid()
      modifies this
      ensures Valid()
      ensures var r := Json.ParseLiteral(old(Rest()), text, w); ok == r.ok && Rest() == r.rest && v == r.val
    {
      ok := Match(text);
      v := w;
    }

    method ParseStringValue(ctx: Context) returns (ok: bool, v: Value)
      requires Valid()
      modifies this
      ensures Valid()
      ensures var r := Json.ParseString(old(Rest())); ok == r.ok && Rest() == r.rest && (ctx.Build? ==> v == r.val)
    {
      var s;
      ok, s := ParseString(ctx);
      v := Str(s);
    }

    /** The character just read starts the literal: an int64 when the whole literal is one in range,
        otherwise a double when strtod takes it all. */
    method ParseNumberValue() returns (ok: bool, v: Value)
      requires Valid() && !ungot
      modifies this
      ensures Valid()
      ensures var r := Json.ParseNumber(old(Before())); ok == r.ok && Rest() == r.rest && (ok ==> v == r.val)
    {
      Ungetc();
      var lit := ParseNumber();
      var n := NumberValue(lit);
      ok := n.Some?;
      v := if n.Some? then n.value else Null;
    }

    /** After an opening bracket. */
    method ParseArray(ctx: Context) returns (ok: bool, v: Value)
      requires Valid()
      modifies this
      ensures Valid()
      ensures var r := Json.ParseArray(old(Rest())); ok == r.ok && Rest() == r.rest && (ok && ctx.Build? ==> v == r.val)
      decreases |Rest()|, 2
    {
      var items: seq<Value> := [];
      var stop := Expect(']');
      if stop {
        return true, Arr(items);
      }
      ghost var goal, acc := ParseItems(Rest(), []), items;
      var more := true;
      while more
        invariant Valid() && (ctx.Build? ==> items == acc) && |Rest()| <= |old(Rest())|
        invariant more ==> goal == ParseItems(Rest(), acc)
        invariant !more ==> (var close := Json.Expect(Rest(), ']'); goal == Result(close.ok, Arr(acc), close.rest))
        decreases |Rest()|, more
      {
        acc := acc + [ParseValue(Rest()).val];
        var good, item := Parse(ctx);
        if !good {
          return false, Null;
        }
        items := if ctx.Build? then items + [item] else items;
        more := Expect(',');
      }
      ok := Expect(']');
      v := Arr(items);
    }

    /** After an opening brace. */
    method ParseObject(ctx: Context) returns (ok: bool, v: Value)
      requires Valid()
      modifies this
      ensures Valid()
      ensures var r := Json.ParseObject(old(Rest()));
              ok == r.ok && Rest() == r.rest && (ok && ctx.Build? ==> v == r.val)
      decreases |Rest()|, 2
    {
      var members: seq<Member> := [];
      var stop := Expect('}');
      if stop {
        return true, Obj(members);
      }
      ghost var goal, acc := ParseMembers(Rest(), []), members;
      var more := true;
      while more
        invariant Valid() && (ctx.Build? ==> members == acc) && |Rest()| <= |old(Rest())|
        invariant more ==> goal == ParseMembers(Rest(), acc)
        invariant !more ==> (var close := Json.Expect(Rest(), '}'); goal == Result(close.ok, Obj(acc), close.rest))
        decreases |Rest()|, more
      {
        var quote := Expect('"');
        if !quote {
          return false, Null;
        }
        var read, key := ParseString(Build);
        if !read {
          return false, Null;
        }
        var colon := Expect(':');
        if !colon {
          return false, Null;
        }
        acc := Put(acc, key, ParseValue(Rest()).val);
        var good, item := Parse(ctx);
        if !good {
          return false, Null;
        }
        members := if ctx.Build? then Put(members, key, item) else members;
        more := Expect(',');
      }
      ok := Expect('}');
      v := Obj(members);
    }

    /** Both contexts accept the same texts and stop at the same place; building yields the value. */
    method Parse(ctx: Context) returns (ok: bool, v: Value)
      requires Valid()
      modifies this
      ensures Valid()
      ensures var r := ParseValue(old(Rest())); ok == r.ok && Rest() == r.rest && (ok && ctx.Build? ==> v == r.val)
      decreases |Rest()|, 1
    {
      SkipWs();
      ok, v := ParseToken(ctx);
    }

    method ParseToken(ctx: Context) returns (ok: bool, v: Value)
      requires Valid()
      modifies this
      ensures Valid()
      ensures var r := Json.ParseToken(old(Rest())); ok == r.ok && Rest() == r.rest && (ok && ctx.Build? ==> v == r.val)
      decreases |Rest()|, 0, 1
    {
      ghost var t := Rest();
      var ch := Getc();
      if ch == 'n' as int {
        ok, v := ParseLiteral("ull", Null);
      } else if ch == 'f' as int {
        ok, v := ParseLiteral("alse", Bool(false));
      } else if ch == 't' as int {
        ok, v := ParseLiteral("rue", Bool(true));
      } else {
        ok, v := ParseOther(ctx, ch, t);
      }
    }

    /** The cases behind the literals; the character has just been read. */
    method ParseOther(ctx: Context, ch: int, ghost t: string) returns (ok: bool, v: Value)
      requires Valid() && !ungot && Before() == t
      requires if t == "" then ch == END && Rest() == "" else ch == t[0] as int && Rest() == t[1..]
      requires t != "" ==> t[0] != 'n' && t[0] != 'f' && t[0] != 't'
      modifies this
      ensures Valid()
      ensures var r := Json.ParseToken(t); ok == r.ok && Rest() == r.rest && (ok && ctx.Build? ==> v == r.val)
      decreases |t|, 0, 0
    {
      if ch == '"' as int {
        ok, v := ParseStringValue(ctx);
      } else if ch == '[' as int {
        ok, v := ParseArray(ctx);
      } else if ch == '{' as int {
        ok, v := ParseObject(ctx);
      } else if '0' as int <= ch <= '9' as int || ch == '-' as int {
        NumberCase(t);
        ok, v := ParseNumberValue();
      } else {
        Ungetc();
        ok, v := false, Null;
      }
    }
  }

  lemma NumberCase(t: string)
    requires t != "" && (IsDigit(t[0]) || t[0] == '-')
    ensures Json.ParseToken(t) == Json.ParseNumber(t)
  {
  }

  /** The output iterator. */
  class Sink {
    var out: string

    constructor ()
      ensures out == ""
    {
      out := "";
    }

    method Copy(s: string)
      modifies this
      ensures out == old(out) + s
    {
      out := out + s;
    }

    method SerializeStr(s: string)
      modifies this
      ensures out == old(out) + Quoted(s)
    {
      Copy("\"");
      var i := 0;
      while i < |s|
        invariant i <= |s|
        invariant out + Escape(s[i..]) == old(out) + "\"" + Escape(s)
      {
        assert s[i..][1..] == s[i + 1..];
        Assoc(out, EscapeChar(s[i]), Escape(s[i + 1..]));
        Copy(EscapeChar(s[i]));
        i := i + 1;
      }
      assert s[i..] == "" && out + "" == out;
      Copy("\"");
      Closed(old(out), old(out) + "\"" + Escape(s), out, "\"", Escape(s), "", "\"");
    }

    method Indent(indent: nat)
      modifies this
      ensures out == old(out) + Break(indent)
    {
      Copy("\n");
      var i := 0;
      while i < indent * INDENT_WIDTH
        invariant 0 <= i <= indent * INDENT_WIDTH
        invariant out + Spaces(indent * INDENT_WIDTH - i) == old(out) + "\n" + Spaces(indent * INDENT_WIDTH)
      {
        Assoc(out, " ", Spaces(indent * INDENT_WIDTH - i - 1));
        Copy(" ");
        i := i + 1;
      }
      Assoc(old(out), "\n", Spaces(indent * INDENT_WIDTH));
      assert out + "" == out;
    }

    /** The comma and line break before the item or member at `i`. */
    method Separate(i: nat, indent: int)
      requires indent == -1 || indent > 0
      modifies this
      ensures out == old(out) + (if i == 0 then "" else ",") + Break(indent)
    {
      if i != 0 {
        Copy(",");
      }
      if indent != -1 {
        Indent(indent);
      }
    }

    method Close(empty: bool, indent: int, bracket: string)
      requires indent >= -1
      modifies this
      ensures out == old(out) + Break(if empty then -1 else indent) + bracket
    {
      if indent != -1 && !empty {
        Indent(indent);
      }
      Copy(bracket);
    }

    method SerializeArray(v: Value, indent: int)
      requires v.Arr? && indent >= -1
      modifies this
      ensures out == old(out) + Body(v, indent)
      decreases v, 0
    {
      Copy("[");
      var inner := Deeper(indent);
      ghost var goal := out + Items(v, 0, inner);
      for i := 0 to |v.items|
        invariant out + Items(v, i, inner) == goal
      {
        ghost var before := out;
        Separate(i, inner);
        Serialize(v.items[i], inner);
        Piece(before, out, if i == 0 then "" else ",", Break(inner), Body(v.items[i], inner), Items(v, i + 1, inner));
      }
      ghost var before := out;
      assert before + "" == before;
      Close(v.items == [], indent, "]");
      Closed(old(out), before, out, "[", Items(v, 0, inner), Break(if v.items == [] then -1 else indent), "]");
    }

    method SerializeMember(m: Member, indent: int)
      requires indent == -1 || indent > 0
      modifies this
      ensures out == old(out) + MemberText(m, indent)
      decreases m, 0
    {
      SerializeStr(m.key);
      Copy(":");
      if indent != -1 {
        Copy(" ");
      }
      Serialize(m.value, indent);
      MemberPiece(old(out), out, Quoted(m.key), if indent == -1 then "" else " ", Body(m.value, indent));
    }

    method SerializeObject(v: Value, indent: int)
      requires v.Obj? && indent >= -1
      modifies this
      ensures out == old(out) + Body(v, indent)
      decreases v, 0
    {
      Copy("{");
      var inner := Deeper(indent);
      ghost var goal := out + Members(v, 0, inner);
      for i := 0 to |v.members|
        invariant out + Members(v, i, inner) == goal
      {
        ghost var before := out;
        Separate(i, inner);
        SerializeMember(v.members[i], inner);
        Piece(before, out, if i == 0 then "" else ",", Break(inner), MemberText(v.members[i], inner),
              Members(v, i + 1, inner));
      }
      ghost var before := out;
      assert before + "" == before;
      Close(v.members == [], indent, "}");
      Closed(old(out), before, out, "{", Members(v, 0, inner), Break(if v.members == [] then -1 else indent), "}");
    }

    method Serialize(v: Value, indent: int)
      requires indent >= -1
      modifies this
      ensures out == old(out) + Serialized(v, indent)
      decreases v, 1
    {
      match v {
        case Str(s) => SerializeStr(s);
        case Arr(_) => SerializeArray(v, indent);
        case Obj(_) => SerializeObject(v, indent);
        case _ => Copy(Body(v, indent));
      }
      if indent == 0 {
        Assoc(old(out), Body(v, indent), "\n");
        Copy("\n");
      } else {
        assert Body(v, indent) + "" == Body(v, indent);
      }
    }
  }

  lemma Piece(before: string, out: string, comma: string, line: string, body: string, tail: string)
    requires out == before + comma + line + body
    ensures out + tail == before + (comma + (line + (body + tail)))
  {
  }

  lemma MemberPiece(before: string, out: string, key: string, gap: string, body: string)
    requires out == before + key + ":" + gap + body
    ensures out == before + (key + (":" + (gap + body)))
  {
  }

  lemma Closed(start: string, before: string, out: string, open: string, inner: string, line: string, close: string)
    requires before == start + open + inner && out == before + line + close
    ensures out == start + (open + (inner + (line + close)))
  {
  }
}

/** Parsing undoes printing: for every value without doubles, in compact and in pretty layout, over
    all strings; and the parser only builds values the printer can print. */
module JsonRoundTrip {
  import opened Common
  import opened Json

  // ----- Strings -----

  lemma QuadHexOfByte(c: char, rest: string)
    requires c as int < 0x80
    ensures QuadHex("00" + [HexDigit(c as int / 16), HexDigit(c as int % 16)] + rest, 4, 0)
            == Result(true, c as int, rest)
  {
    var h, l := HexDigit(c as int / 16), HexDigit(c as int % 16);
    var s := "00" + [h, l] + rest;
    assert HexValue(h) == c as int / 16 && HexValue(l) == c as int % 16;
    assert s[1..] == "0" + [h, l] + rest && s[1..][1..] == [h, l] + rest;
    assert s[1..][1..][1..] == [l] + rest && s[1..][1..][1..][1..] == rest;
    assert QuadHex([l] + rest, 1, c as int / 16) == Result(true, c as int, rest);
    assert QuadHex([h, l] + rest, 2, 0) == Result(true, c as int, rest);
    assert QuadHex("0" + [h, l] + rest, 3, 0) == Result(true, c as int, rest);
  }

  lemma EscapeSequenceReads(c: char, rest: string)
    requires |EscapeChar(c)| > 1
    ensures EscapeSequence(EscapeChar(c)[1..] + rest) == Result(true, [c], rest)
  {
    var t := EscapeChar(c)[1..] + rest;
    if |EscapeChar(c)| == 2 {
      assert t[1..] == rest;
    } else {
      var hex := "00" + [HexDigit(c as int / 16), HexDigit(c as int % 16)];
      assert t[1..] == hex + rest;
      QuadHexOfByte(c, rest);
      assert Utf8(c as int) == [c];
    }
  }

  /** One printed character is read back as that character. */
  lemma EscapeCharReads(c: char, rest: string, acc: string)
    ensures StringTail(EscapeChar(c) + rest, acc) == StringTail(rest, acc + [c])
  {
    var e := EscapeChar(c);
    var s := e + rest;
    if |e| == 1 {
      assert s[1..] == rest;
    } else {
      assert s[1..] == e[1..] + rest;
      EscapeSequenceReads(c, rest);
    }
  }

  lemma {:induction false} StringReads(str: string, rest: string, acc: string)
    ensures StringTail(Escape(str) + (['"'] + rest), acc) == Result(true, acc + str, rest)
    decreases |str|
  {
    var quote := ['"'] + rest;
    if str == "" {
      assert Escape(str) + quote == quote && quote[1..] == rest && acc + str == acc;
    } else {
      Assoc(EscapeChar(str[0]), Escape(str[1..]), quote);
      EscapeCharReads(str[0], Escape(str[1..]) + quote, acc);
      StringReads(str[1..], rest, acc + [str[0]]);
      SplitFirst(acc, str);
    }
  }

  lemma QuotedText(e: string, rest: string)
    ensures "\"" + e + "\"" + rest == ['"'] + (e + (['"'] + rest))
    ensures ("\"" + e + "\"" + rest)[1..] == e + (['"'] + rest)
  {
  }

  // ----- Numbers -----

  lemma {:induction false} DigitsAreDigits(n: nat)
    ensures Digits(n) != "" && DigitRun(Digits(n)) == |Digits(n)|
  {
    if n >= 10 {
      DigitsAreDigits(n / 10);
      DigitRunAppend(Digits(n / 10), ('0' as int + n % 10) as char);
    } else {
      assert Digits(n)[1..] == "";
    }
  }

  lemma {:induction false} DigitRunAppend(s: string, c: char)
    requires DigitRun(s) == |s| && IsDigit(c)
    ensures DigitRun(s + [c]) == |s| + 1
  {
    if s == "" {
      assert (s + [c])[1..] == "";
    } else {
      assert (s + [c])[1..] == s[1..] + [c];
      DigitRunAppend(s[1..], c);
    }
  }

  lemma {:induction false} DigitsValueAppend(s: string, c: char, acc: nat)
    requires DigitRun(s) == |s| && IsDigit(c)
    ensures DigitRun(s + [c]) == |s + [c]|
    ensures DigitsValue(s + [c], acc) == DigitsValue(s, acc) * 10 + (c as int - '0' as int)
    decreases |s|
  {
    DigitRunAppend(s, c);
    if s == "" {
      assert (s + [c])[1..] == "";
    } else {
      assert (s + [c])[1..] == s[1..] + [c];
      DigitsValueAppend(s[1..], c, acc * 10 + (s[0] as int - '0' as int));
    }
  }

  lemma {:induction false} DigitsRead(n: nat)
    ensures DigitRun(Digits(n)) == |Digits(n)|
    ensures DigitsValue(Digits(n), 0) == n
  {
    DigitsAreDigits(n);
    if n >= 10 {
      DigitsRead(n / 10);
      DigitsValueAppend(Digits(n / 10), ('0' as int + n % 10) as char, 0);
    } else {
      assert Digits(n)[1..] == "";
    }
  }

  lemma IntReads(n: int)
    requires INT64_MIN <= n <= INT64_MAX
    ensures Int64Of(IntText(n)) == Some(n)
    ensures IntText(n) != "" && (IsDigit(IntText(n)[0]) || IntText(n)[0] == '-')
    ensures forall c | c in IntText(n) :: IsNumberChar(c)
  {
    var m: nat := if n < 0 then -n else n;
    DigitsRead(m);
    DigitsAreDigits(m);
    AllDigits(Digits(m));
    if n < 0 {
      assert IntText(n)[1..] == Digits(m);
    } else {
      assert IsDigit(Digits(m)[0]);
    }
  }

  lemma {:induction false} AllDigits(s: string)
    requires DigitRun(s) == |s|
    ensures forall c | c in s :: IsDigit(c)
  {
    if s != "" {
      AllDigits(s[1..]);
    }
  }

  ghost predicate EndsNumber(rest: string) {
    rest != "" ==> !IsNumberChar(rest[0])
  }

  lemma {:induction false} NumberReads(lit: string, rest: string, acc: string)
    requires (forall c | c in lit :: IsNumberChar(c)) && EndsNumber(rest)
    ensures NumberTail(lit + rest, acc) == Result(true, acc + lit, rest)
    decreases |lit|
  {
    if lit == "" {
      assert lit + rest == rest && acc + lit == acc;
    } else {
      assert (lit + rest)[1..] == lit[1..] + rest;
      NumberReads(lit[1..], rest, acc + [lit[0]]);
      SplitFirst(acc, lit);
    }
  }

  // ----- Layout -----

  lemma {:induction false} SkipSpaces(n: nat, s: string)
    ensures SkipWs(Spaces(n) + s) == SkipWs(s)
  {
    if n == 0 {
      assert Spaces(0) + s == s;
    } else {
      assert (Spaces(n) + s)[1..] == Spaces(n - 1) + s;
      SkipSpaces(n - 1, s);
    }
  }

  lemma SkipBreak(indent: int, s: string)
    requires indent >= -1
    ensures SkipWs(Break(indent) + s) == SkipWs(s)
  {
    if indent == -1 {
      assert Break(indent) + s == s;
    } else {
      assert (Break(indent) + s)[1..] == Spaces(indent * INDENT_WIDTH) + s;
      SkipSpaces(indent * INDENT_WIDTH, s);
    }
  }

  lemma {:induction false} SkipIsIdempotent(s: string)
    ensures SkipWs(SkipWs(s)) == SkipWs(s)
  {
    if s != "" && IsWs(s[0]) {
      SkipIsIdempotent(s[1..]);
    }
  }

  /** Only the text after leading white space matters to the parser. */
  lemma ParseSkips(s: string, t: string)
    requires SkipWs(s) == SkipWs(t)
    ensures ParseValue(s) == ParseValue(t)
    ensures forall c :: Expect(s, c) == Expect(t, c)
  {
  }

  /** How a printed value starts: neither white space nor a closing bracket. */
  lemma BodyStart(v: Value, indent: int)
    requires indent >= -1 && Printable(v)
    ensures Body(v, indent) != ""
    ensures !IsWs(Body(v, indent)[0]) && Body(v, indent)[0] != ']' && Body(v, indent)[0] != '}'
  {
    if v.Int? {
      IntReads(v.n);
    }
  }

  // ----- Object members stay in map order -----

  lemma {:induction false} LessIrreflexive(a: string)
    ensures !Less(a, a)
  {
    if a != "" {
      LessIrreflexive(a[1..]);
    }
  }

  lemma {:induction false} LessAsymmetric(a: string, b: string)
    requires Less(a, b)
    ensures !Less(b, a) && a != b
  {
    LessIrreflexive(a);
    if a != "" && a[0] == b[0] {
      LessAsymmetric(a[1..], b[1..]);
    }
  }

  lemma {:induction false} LessTransitive(a: string, b: string, c: string)
    requires Less(a, b) && Less(b, c)
    ensures Less(a, c)
  {
    if a != "" && a[0] == b[0] && b[0] == c[0] {
      LessTransitive(a[1..], b[1..], c[1..]);
    }
  }

  lemma {:induction false} LessTotal(a: string, b: string)
    ensures Less(a, b) || a == b || Less(b, a)
  {
    if a != "" && b != "" && a[0] == b[0] {
      LessTotal(a[1..], b[1..]);
      assert a[1..] == b[1..] ==> a == [a[0]] + a[1..] == [b[0]] + b[1..] == b;
    }
  }

  /** A key above all others goes to the end. */
  lemma {:induction false} PutLast(ms: seq<Member>, key: string, v: Value)
    requires forall i | 0 <= i < |ms| :: Less(ms[i].key, key)
    ensures Put(ms, key, v) == ms + [Member(key, v)]
  {
    if ms != [] {
      LessAsymmetric(ms[0].key, key);
      PutLast(ms[1..], key, v);
    }
  }

  lemma ConsSorted(m: Member, ms: seq<Member>)
    requires Sorted(ms) && (ms == [] || Less(m.key, ms[0].key))
    ensures Sorted([m] + ms)
  {
    forall j | 0 <= j < |ms| ensures Less(m.key, ms[j].key) {
      if j > 0 {
        LessTransitive(m.key, ms[0].key, ms[j].key);
      }
    }
  }

  /** Assignment keeps the order and adds nothing but the assigned member. */
  lemma {:induction false} PutSorted(ms: seq<Member>, key: string, v: Value)
    requires Sorted(ms)
    ensures Sorted(Put(ms, key, v)) && Put(ms, key, v) != []
    ensures Put(ms, key, v)[0].key == key || (ms != [] && Put(ms, key, v)[0].key == ms[0].key)
    ensures forall i | 0 <= i < |Put(ms, key, v)| :: Put(ms, key, v)[i] in ms || Put(ms, key, v)[i] == Member(key, v)
  {
    if ms == [] || Less(key, ms[0].key) {
      ConsSorted(Member(key, v), ms);
    } else if ms[0].key == key {
      assert ms[1..] != [] ==> Less(key, ms[1..][0].key);
      ConsSorted(Member(key, v), ms[1..]);
    } else {
      PutSorted(ms[1..], key, v);
      LessTotal(key, ms[0].key);
      assert ms[1..] != [] ==> Less(ms[0].key, ms[1..][0].key);
      ConsSorted(ms[0], Put(ms[1..], key, v));
    }
  }

  lemma {:induction false} GetPut(ms: seq<Member>, key: string, v: Value, other: string)
    requires Sorted(ms)
    ensures Get(Put(ms, key, v), other) == if other == key then v else Get(ms, other)
  {
    if ms == [] || Less(key, ms[0].key) {
      if other == key {
      } else {
        assert ([Member(key, v)] + ms)[1..] == ms;
      }
    } else if ms[0].key == key {
      assert ([Member(key, v)] + ms[1..])[1..] == ms[1..];
    } else {
      GetPut(ms[1..], key, v, other);
      assert ([ms[0]] + Put(ms[1..], key, v))[1..] == Put(ms[1..], key, v);
    }
  }

  // ----- One step of the parser -----

  lemma ValueStep(s: string)
    requires s != "" && (s[0] == '[' || s[0] == '{')
    ensures ParseValue(s) == if s[0] == '[' then ParseArray(s[1..]) else ParseObject(s[1..])
  {
    assert SkipWs(s) == s;
  }

  lemma ExpectHit(c: char, rest: string)
    requires !IsWs(c)
    ensures Expect([c] + rest, c) == Result(true, (), rest)
  {
    assert ([c] + rest)[1..] == rest;
  }

  lemma SkipInItems(indent: int, s: string, acc: seq<Value>)
    requires indent >= -1
    ensures ParseItems(Break(indent) + s, acc) == ParseItems(s, acc)
  {
    SkipBreak(indent, s);
    ParseSkips(Break(indent) + s, s);
  }

  lemma SkipInMembers(indent: int, s: string, acc: seq<Member>)
    requires indent >= -1
    ensures ParseMembers(Break(indent) + s, acc) == ParseMembers(s, acc)
  {
    SkipBreak(indent, s);
    ParseSkips(Break(indent) + s, s);
  }

  lemma LastItem(s: string, v: Value, after: string, acc: seq<Value>, close: string, rest: string)
    requires ParseValue(s) == Result(true, v, after)
    requires Expect(after, ',') == Result(false, (), close) && Expect(close, ']') == Result(true, (), rest)
    ensures ParseItems(s, acc) == Result(true, Arr(acc + [v]), rest)
  {
  }

  lemma NextItem(s: string, v: Value, after: string, acc: seq<Value>, d: int, next: string)
    requires d >= -1 && ParseValue(s) == Result(true, v, after) && after == "," + (Break(d) + next)
    ensures ParseItems(s, acc) == ParseItems(next, acc + [v])
  {
    ExpectHit(',', Break(d) + next);
    assert ParseItems(s, acc) == ParseItems(Break(d) + next, acc + [v]);
    SkipInItems(d, next, acc + [v]);
  }

  lemma MembersStep(s: string, key: string, afterKey: string, body: string, v: Value, after: string, acc: seq<Member>)
    requires Expect(s, '"').ok && StringTail(Expect(s, '"').rest, "") == Result(true, key, afterKey)
    requires Expect(afterKey, ':') == Result(true, (), body)
    requires ParseValue(body) == Result(true, v, after)
    ensures ParseMembers(s, acc) ==
            var comma := Expect(after, ',');
            if comma.ok then ParseMembers(comma.rest, Put(acc, key, v))
            else var close := Expect(comma.rest, '}'); Result(close.ok, Obj(Put(acc, key, v)), close.rest)
  {
  }

  // ----- Round trip -----

  /** What follows the items or members of a container, possibly on its own line. */
  function Closing(v: Value, indent: int): string
    requires indent >= -1 && (v.Arr? || v.Obj?)
  {
    Break(if (v.Arr? && v.items == []) || (v.Obj? && v.members == []) then -1 else indent)
    + [if v.Arr? then ']' else '}']
  }

  lemma BracketReads(line: int, bracket: char, rest: string)
    requires line >= -1 && (bracket == ']' || bracket == '}')
    ensures var s := Break(line) + ([bracket] + rest);
            && EndsNumber(s) && Expect(s, ',') == Result(false, (), [bracket] + rest)
            && Expect([bracket] + rest, bracket) == Result(true, (), rest)
            && Expect(s, bracket) == Result(true, (), rest)
  {
    SkipBreak(line, [bracket] + rest);
    ExpectHit(bracket, rest);
    if line == -1 {
      assert Break(line) + ([bracket] + rest) == [bracket] + rest;
    }
  }

  lemma ClosingReads(v: Value, indent: int, rest: string)
    requires indent >= -1 && (v.Arr? || v.Obj?)
    ensures var bracket := if v.Arr? then ']' else '}';
            var s := Closing(v, indent) + rest;
            && EndsNumber(s) && Expect(s, ',') == Result(false, (), [bracket] + rest)
            && Expect([bracket] + rest, bracket) == Result(true, (), rest)
            && Expect(s, bracket) == Result(true, (), rest)
  {
    var bracket := if v.Arr? then ']' else '}';
    var line := if (v.Arr? && v.items == []) || (v.Obj? && v.members == []) then -1 else indent;
    Assoc(Break(line), [bracket], rest);
    BracketReads(line, bracket, rest);
  }

  lemma {:induction false} BodyReads(v: Value, indent: int, rest: string)
    requires Printable(v) && indent >= -1 && (v.Int? ==> EndsNumber(rest))
    ensures ParseValue(Body(v, indent) + rest) == Result(true, v, rest)
    decreases v, 1, 0
  {
    match v
    case Arr(items) => ArrayReads(v, indent, rest);
    case Obj(ms) => ObjectReads(v, indent, rest);
    case _ => ScalarReads(v, indent, rest);
  }

  lemma ScalarReads(v: Value, indent: int, rest: string)
    requires Printable(v) && indent >= -1 && (v.Int? ==> EndsNumber(rest)) && !v.Arr? && !v.Obj?
    ensures ParseValue(Body(v, indent) + rest) == Result(true, v, rest)
  {
    match v
    case Null => NullReads(rest);
    case Bool(b) => BoolReads(b, rest);
    case Int(n) => IntValueReads(n, rest);
    case Str(str) => StrReads(str, rest);
  }

  lemma NullReads(rest: string)
    ensures ParseValue("null" + rest) == Result(true, Null, rest)
  {
    var s := "null" + rest;
    LiteralReads("ull", rest);
    assert SkipWs(s) == s && s[1..] == "ull" + rest;
  }

  lemma BoolReads(b: bool, rest: string)
    ensures ParseValue((if b then "true" else "false") + rest) == Result(true, Bool(b), rest)
  {
    var tail := if b then "rue" else "alse";
    var s := (if b then "true" else "false") + rest;
    LiteralReads(tail, rest);
    assert SkipWs(s) == s && s[1..] == tail + rest;
  }

  lemma NumberStep(s: string, n: int, lit: string, rest: string)
    requires s != "" && (IsDigit(s[0]) || s[0] == '-')
    requires NumberTail(s, "") == Result(true, lit, rest) && Int64Of(lit) == Some(n)
    ensures ParseValue(s) == Result(true, Int(n), rest)
  {
    assert SkipWs(s) == s;
  }

  lemma IntValueReads(n: int, rest: string)
    requires INT64_MIN <= n <= INT64_MAX && EndsNumber(rest)
    ensures ParseValue(IntText(n) + rest) == Result(true, Int(n), rest)
  {
    IntReads(n);
    NumberReads(IntText(n), rest, "");
    assert "" + IntText(n) == IntText(n);
    NumberStep(IntText(n) + rest, n, IntText(n), rest);
  }

  lemma StrReads(str: string, rest: string)
    ensures ParseValue(Quoted(str) + rest) == Result(true, Str(str), rest)
  {
    QuotedText(Escape(str), rest);
    StringReads(str, rest, "");
    assert "" + str == str;
    StrStep(Quoted(str) + rest, str, rest);
  }

  lemma StrStep(s: string, str: string, rest: string)
    requires s != "" && s[0] == '"' && StringTail(s[1..], "") == Result(true, str, rest)
    ensures ParseValue(s) == Result(true, Str(str), rest)
  {
    assert SkipWs(s) == s;
  }

  lemma {:induction false} LiteralReads(text: string, rest: string)
    ensures MatchText(text + rest, text) == Result(true, (), rest)
  {
    if text == "" {
      assert text + rest == rest;
    } else {
      assert (text + rest)[1..] == text[1..] + rest;
      LiteralReads(text[1..], rest);
    }
  }

  lemma ItemsUnfold(v: Value, k: nat, d: int, tail: string)
    requires v.Arr? && d >= -1 && k < |v.items|
    ensures Items(v, k, d) + tail ==
            (if k == 0 then "" else ",") + (Break(d) + (Body(v.items[k], d) + (Items(v, k + 1, d) + tail)))
  {
    Assoc(if k == 0 then "" else ",", Break(d) + (Body(v.items[k], d) + Items(v, k + 1, d)), tail);
    Assoc(Break(d), Body(v.items[k], d) + Items(v, k + 1, d), tail);
    Assoc(Body(v.items[k], d), Items(v, k + 1, d), tail);
  }

  lemma ContainerText(v: Value, indent: int, rest: string)
    requires indent >= -1 && (v.Arr? || v.Obj?)
    ensures var inner := if v.Arr? then Items(v, 0, Deeper(indent)) else Members(v, 0, Deeper(indent));
            Body(v, indent) + rest == [if v.Arr? then '[' else '{'] + (inner + (Closing(v, indent) + rest))
  {
    var inner := if v.Arr? then Items(v, 0, Deeper(indent)) else Members(v, 0, Deeper(indent));
    Assoc([if v.Arr? then '[' else '{'], inner + Closing(v, indent), rest);
    Assoc(inner, Closing(v, indent), rest);
  }

  lemma ArrayOpens(v: Value, indent: int, rest: string, inner: string)
    requires v.Arr? && indent >= -1 && inner != "" && !IsWs(inner[0]) && inner[0] != ']'
    requires Items(v, 0, Deeper(indent)) + (Closing(v, indent) + rest) == Break(Deeper(indent)) + inner
    ensures ParseValue(Body(v, indent) + rest) == ParseItems(inner, [])
  {
    var s := Body(v, indent) + rest;
    ContainerText(v, indent, rest);
    assert s[0] == '[' && s[1..] == Break(Deeper(indent)) + inner;
    ValueStep(s);
    ExpectMiss(Deeper(indent), inner, ']');
  }

  lemma EmptyArrayReads(v: Value, indent: int, rest: string)
    requires v.Arr? && v.items == [] && indent >= -1
    ensures ParseValue(Body(v, indent) + rest) == Result(true, v, rest)
  {
    var s := Body(v, indent) + rest;
    ContainerText(v, indent, rest);
    assert s[0] == '[' && s[1..] == Closing(v, indent) + rest;
    ValueStep(s);
    ClosingReads(v, indent, rest);
  }

  lemma {:induction false} ArrayReads(v: Value, indent: int, rest: string)
    requires v.Arr? && Printable(v) && indent >= -1
    ensures ParseValue(Body(v, indent) + rest) == Result(true, v, rest)
    decreases v, 0, |v.items| + 1
  {
    if v.items == [] {
      EmptyArrayReads(v, indent, rest);
    } else {
      var d := Deeper(indent);
      ItemsUnfold(v, 0, d, Closing(v, indent) + rest);
      BodyStart(v.items[0], d);
      ArrayOpens(v, indent, rest, Body(v.items[0], d) + ItemsText(v, 1, indent, rest));
      ItemsRead(v, 0, indent, rest);
      Nothing(v.items);
    }
  }

  lemma ExpectMiss(d: int, inner: string, c: char)
    requires d >= -1 && inner != "" && !IsWs(inner[0]) && inner[0] != c
    ensures Expect(Break(d) + inner, c) == Result(false, (), inner)
  {
    SkipBreak(d, inner);
  }

  lemma TakeNext<T>(s: seq<T>, k: nat)
    requires k < |s|
    ensures s[..k] + [s[k]] == s[..k + 1]
    ensures k + 1 == |s| ==> s[..k + 1] == s
  {
  }

  /** The text of the items from `k` on and of everything after them. */
  function ItemsText(v: Value, k: nat, indent: int, rest: string): string
    requires v.Arr? && indent >= -1 && k <= |v.items|
  {
    Items(v, k, Deeper(indent)) + (Closing(v, indent) + rest)
  }

  lemma LastItemReads(v: Value, k: nat, indent: int, rest: string)
    requires v.Arr? && indent >= -1 && k + 1 == |v.items|
    requires var s := Body(v.items[k], Deeper(indent)) + ItemsText(v, k + 1, indent, rest);
             ParseValue(s) == Result(true, v.items[k], ItemsText(v, k + 1, indent, rest))
    ensures ParseItems(Body(v.items[k], Deeper(indent)) + ItemsText(v, k + 1, indent, rest), v.items[..k])
            == Result(true, v, rest)
  {
    var s := Body(v.items[k], Deeper(indent)) + ItemsText(v, k + 1, indent, rest);
    NoItemsText(v, indent, rest);
    ClosingReads(v, indent, rest);
    LastItem(s, v.items[k], Closing(v, indent) + rest, v.items[..k], [']'] + rest, rest);
    TakeNext(v.items, k);
  }

  lemma NoItemsText(v: Value, indent: int, rest: string)
    requires v.Arr? && indent >= -1
    ensures ItemsText(v, |v.items|, indent, rest) == Closing(v, indent) + rest
  {
    assert Items(v, |v.items|, Deeper(indent)) == "";
  }

  lemma NextItemReads(v: Value, k: nat, indent: int, rest: string)
    requires v.Arr? && indent >= -1 && k + 1 < |v.items|
    requires var s := Body(v.items[k], Deeper(indent)) + ItemsText(v, k + 1, indent, rest);
             ParseValue(s) == Result(true, v.items[k], ItemsText(v, k + 1, indent, rest))
    ensures ParseItems(Body(v.items[k], Deeper(indent)) + ItemsText(v, k + 1, indent, rest), v.items[..k])
            == ParseItems(Body(v.items[k + 1], Deeper(indent)) + ItemsText(v, k + 2, indent, rest), v.items[..k + 1])
  {
    var d, after := Deeper(indent), ItemsText(v, k + 1, indent, rest);
    var next := Body(v.items[k + 1], d) + ItemsText(v, k + 2, indent, rest);
    ItemsUnfold(v, k + 1, d, Closing(v, indent) + rest);
    NextItem(Body(v.items[k], d) + after, v.items[k], after, v.items[..k], d, next);
    TakeNext(v.items, k);
  }

  lemma ItemsTextEndsNumber(v: Value, k: nat, indent: int, rest: string)
    requires v.Arr? && indent >= -1 && 0 < k <= |v.items|
    ensures EndsNumber(ItemsText(v, k, indent, rest))
  {
    if k == |v.items| {
      ClosingReads(v, indent, rest);
      assert ItemsText(v, k, indent, rest) == Closing(v, indent) + rest;
    } else {
      ItemsUnfold(v, k, Deeper(indent), Closing(v, indent) + rest);
    }
  }

  lemma {:induction false} ItemsRead(v: Value, k: nat, indent: int, rest: string)
    requires v.Arr? && Printable(v) && indent >= -1 && k < |v.items|
    ensures ParseItems(Body(v.items[k], Deeper(indent)) + ItemsText(v, k + 1, indent, rest), v.items[..k])
            == Result(true, v, rest)
    decreases v, 0, |v.items| - k
  {
    ItemsTextEndsNumber(v, k + 1, indent, rest);
    BodyReads(v.items[k], Deeper(indent), ItemsText(v, k + 1, indent, rest));
    if k + 1 == |v.items| {
      LastItemReads(v, k, indent, rest);
    } else {
      NextItemReads(v, k, indent, rest);
      ItemsRead(v, k + 1, indent, rest);
    }
  }

  lemma MembersUnfold(v: Value, k: nat, d: int, tail: string)
    requires v.Obj? && d >= -1 && k < |v.members|
    ensures Members(v, k, d) + tail ==
            (if k == 0 then "" else ",") + (Break(d) + (MemberText(v.members[k], d) + (Members(v, k + 1, d) + tail)))
  {
    Assoc(if k == 0 then "" else ",", Break(d) + (MemberText(v.members[k], d) + Members(v, k + 1, d)), tail);
    Assoc(Break(d), MemberText(v.members[k], d) + Members(v, k + 1, d), tail);
    Assoc(MemberText(v.members[k], d), Members(v, k + 1, d), tail);
  }

  lemma ObjectOpens(v: Value, indent: int, rest: string, inner: string)
    requires v.Obj? && indent >= -1 && inner != "" && inner[0] == '"'
    requires Members(v, 0, Deeper(indent)) + (Closing(v, indent) + rest) == Break(Deeper(indent)) + inner
    ensures ParseValue(Body(v, indent) + rest) == ParseMembers(inner, [])
  {
    var s := Body(v, indent) + rest;
    ContainerText(v, indent, rest);
    assert s[0] == '{' && s[1..] == Break(Deeper(indent)) + inner;
    ValueStep(s);
    ExpectMiss(Deeper(indent), inner, '}');
  }

  lemma EmptyObjectReads(v: Value, indent: int, rest: string)
    requires v.Obj? && v.members == [] && indent >= -1
    ensures ParseValue(Body(v, indent) + rest) == Result(true, v, rest)
  {
    var s := Body(v, indent) + rest;
    ContainerText(v, indent, rest);
    assert s[0] == '{' && s[1..] == Closing(v, indent) + rest;
    ValueStep(s);
    ClosingReads(v, indent, rest);
  }

  lemma ObjectStarts(v: Value, indent: int, rest: string)
    requires v.Obj? && v.members != [] && indent >= -1
    ensures ParseValue(Body(v, indent) + rest)
            == ParseMembers(MemberText(v.members[0], Deeper(indent)) + MembersText(v, 1, indent, rest), [])
  {
    var d := Deeper(indent);
    var inner := MemberText(v.members[0], d) + MembersText(v, 1, indent, rest);
    MembersUnfold(v, 0, d, Closing(v, indent) + rest);
    assert "" + (Break(d) + inner) == Break(d) + inner;
    MemberBegins(v.members[0], d, MembersText(v, 1, indent, rest));
    ObjectOpens(v, indent, rest, inner);
  }

  lemma MemberBegins(m: Member, d: int, after: string)
    requires d >= -1
    ensures var text := MemberText(m, d) + after; text != "" && text[0] == '"'
  {
    assert Quoted(m.key)[0] == '"';
    assert MemberText(m, d)[0] == Quoted(m.key)[0];
  }

  lemma {:induction false} ObjectReads(v: Value, indent: int, rest: string)
    requires v.Obj? && Printable(v) && indent >= -1
    ensures ParseValue(Body(v, indent) + rest) == Result(true, v, rest)
    decreases v, 0, |v.members| + 1
  {
    if v.members == [] {
      EmptyObjectReads(v, indent, rest);
    } else {
      ObjectStarts(v, indent, rest);
      MembersRead(v, 0, indent, rest);
      Nothing(v.members);
    }
  }

  lemma Nothing<T>(s: seq<T>)
    ensures s[..0] == []
  {
  }

  lemma MemberUnfold(v: Value, k: nat, d: int, after: string)
    requires v.Obj? && d >= -1 && k < |v.members|
    ensures MemberText(v.members[k], d) + after ==
            ['"'] + (Escape(v.members[k].key)
                     + (['"'] + ([':'] + ((if d == -1 then "" else " ") + (Body(v.members[k].value, d) + after)))))
  {
    var key, gap, body := v.members[k].key, if d == -1 then "" else " ", Body(v.members[k].value, d);
    Assoc(Quoted(key), ":" + (gap + body), after);
    Assoc(":", gap + body, after);
    Assoc(gap, body, after);
    QuotedText(Escape(key), ":" + (gap + (body + after)));
  }

  /** Key, colon and value of one member, up to the text after it. */
  lemma MemberReads(v: Value, k: nat, d: int, after: string, acc: seq<Member>)
    requires v.Obj? && d >= -1 && k < |v.members|
    requires ParseValue(Body(v.members[k].value, d) + after) == Result(true, v.members[k].value, after)
    ensures ParseMembers(MemberText(v.members[k], d) + after, acc) ==
            var comma := Expect(after, ',');
            var now := Put(acc, v.members[k].key, v.members[k].value);
            if comma.ok then ParseMembers(comma.rest, now)
            else var close := Expect(comma.rest, '}'); Result(close.ok, Obj(now), close.rest)
  {
    var key, gap, body := v.members[k].key, if d == -1 then "" else " ", Body(v.members[k].value, d) + after;
    MemberUnfold(v, k, d, after);
    ExpectHit('"', Escape(key) + (['"'] + ([':'] + (gap + body))));
    StringReads(key, [':'] + (gap + body), "");
    assert "" + key == key;
    ExpectHit(':', gap + body);
    GapSkips(gap, body);
    ParseSkips(gap + body, body);
    MembersStep(MemberText(v.members[k], d) + after, key, [':'] + (gap + body), gap + body, v.members[k].value,
                after, acc);
  }

  /** The text of the members from `k` on and of everything after them. */
  function MembersText(v: Value, k: nat, indent: int, rest: string): string
    requires v.Obj? && indent >= -1 && k <= |v.members|
  {
    Members(v, k, Deeper(indent)) + (Closing(v, indent) + rest)
  }

  lemma LastMemberReads(v: Value, k: nat, indent: int, rest: string)
    requires v.Obj? && indent >= -1 && k + 1 == |v.members| && Sorted(v.members)
    requires var s := Body(v.members[k].value, Deeper(indent)) + MembersText(v, k + 1, indent, rest);
             ParseValue(s) == Result(true, v.members[k].value, MembersText(v, k + 1, indent, rest))
    ensures ParseMembers(MemberText(v.members[k], Deeper(indent)) + MembersText(v, k + 1, indent, rest), v.members[..k])
            == Result(true, v, rest)
  {
    var after := MembersText(v, k + 1, indent, rest);
    assert after == Closing(v, indent) + rest;
    ClosingReads(v, indent, rest);
    MemberReads(v, k, Deeper(indent), after, v.members[..k]);
    PutLast(v.members[..k], v.members[k].key, v.members[k].value);
    TakeNext(v.members, k);
  }

  lemma NextMember(after: string, d: int, next: string, acc: seq<Member>)
    requires d >= -1 && after == "," + (Break(d) + next)
    ensures Expect(after, ',').ok && ParseMembers(Expect(after, ',').rest, acc) == ParseMembers(next, acc)
  {
    ExpectHit(',', Break(d) + next);
    SkipInMembers(d, next, acc);
  }

  lemma NextMemberReads(v: Value, k: nat, indent: int, rest: string)
    requires v.Obj? && indent >= -1 && k + 1 < |v.members| && Sorted(v.members)
    requires var s := Body(v.members[k].value, Deeper(indent)) + MembersText(v, k + 1, indent, rest);
             ParseValue(s) == Result(true, v.members[k].value, MembersText(v, k + 1, indent, rest))
    ensures ParseMembers(MemberText(v.members[k], Deeper(indent)) + MembersText(v, k + 1, indent, rest), v.members[..k])
            == ParseMembers(MemberText(v.members[k + 1], Deeper(indent))
                            + MembersText(v, k + 2, indent, rest), v.members[..k + 1])
  {
    var d, after := Deeper(indent), MembersText(v, k + 1, indent, rest);
    var next := MemberText(v.members[k + 1], d) + MembersText(v, k + 2, indent, rest);
    MembersUnfold(v, k + 1, d, Closing(v, indent) + rest);
    MemberReads(v, k, d, after, v.members[..k]);
    NextMember(after, d, next, v.members[..k + 1]);
    PutLast(v.members[..k], v.members[k].key, v.members[k].value);
    TakeNext(v.members, k);
  }

  lemma MembersTextEndsNumber(v: Value, k: nat, indent: int, rest: string)
    requires v.Obj? && indent >= -1 && 0 < k <= |v.members|
    ensures EndsNumber(MembersText(v, k, indent, rest))
  {
    if k == |v.members| {
      ClosingReads(v, indent, rest);
      assert MembersText(v, k, indent, rest) == Closing(v, indent) + rest;
    } else {
      MembersUnfold(v, k, Deeper(indent), Closing(v, indent) + rest);
    }
  }

  lemma {:induction false} MembersRead(v: Value, k: nat, indent: int, rest: string)
    requires v.Obj? && Printable(v) && indent >= -1 && k < |v.members|
    ensures ParseMembers(MemberText(v.members[k], Deeper(indent)) + MembersText(v, k + 1, indent, rest), v.members[..k])
            == Result(true, v, rest)
    decreases v, 0, |v.members| - k
  {
    MembersTextEndsNumber(v, k + 1, indent, rest);
    BodyReads(v.members[k].value, Deeper(indent), MembersText(v, k + 1, indent, rest));
    if k + 1 == |v.members| {
      LastMemberReads(v, k, indent, rest);
    } else {
      NextMemberReads(v, k, indent, rest);
      MembersRead(v, k + 1, indent, rest);
    }
  }

  lemma GapSkips(gap: string, body: string)
    requires gap == "" || gap == " "
    ensures SkipWs(gap + body) == SkipWs(body)
  {
    if gap == "" {
      assert gap + body == body;
    } else {
      assert (gap + body)[1..] == body;
    }
  }

  /** The round trip: compact or pretty text, followed by anything that cannot extend a number,
      parses to the printed value and leaves exactly what followed, after the newline that ends
      pretty text. */
  lemma RoundTrip(v: Value, pretty: bool, rest: string)
    requires Printable(v) && (v.Int? && !pretty ==> EndsNumber(rest))
    ensures ParseValue(Serialized(v, if pretty then 0 else -1) + rest)
            == Result(true, v, (if pretty then "\n" else "") + rest)
  {
    var after := (if pretty then "\n" else "") + rest;
    BodyReads(v, if pretty then 0 else -1, after);
    assert Serialized(v, if pretty then 0 else -1) + rest == Body(v, if pretty then 0 else -1) + after;
  }

  // ----- Parsed values are printable -----

  /** Values whose numbers may be doubles, with everything else as the printer needs it. */
  ghost predicate WellFormed(v: Value) {
    match v
    case Int(n) => INT64_MIN <= n <= INT64_MAX
    case Arr(items) => forall i | 0 <= i < |items| :: WellFormed(items[i])
    case Obj(ms) => Sorted(ms) && forall i | 0 <= i < |ms| :: WellFormed(ms[i].value)
    case _ => true
  }

  ghost predicate NoDoubles(v: Value) {
    match v
    case Num(_) => false
    case Arr(items) => forall i | 0 <= i < |items| :: NoDoubles(items[i])
    case Obj(ms) => forall i | 0 <= i < |ms| :: NoDoubles(ms[i].value)
    case _ => true
  }

  lemma {:induction false} PrintableIff(v: Value)
    ensures Printable(v) <==> WellFormed(v) && NoDoubles(v)
  {
    match v
    case Arr(items) =>
      forall i | 0 <= i < |items| ensures Printable(items[i]) <==> WellFormed(items[i]) && NoDoubles(items[i]) {
        PrintableIff(items[i]);
      }
    case Obj(ms) =>
      forall i | 0 <= i < |ms| ensures Printable(ms[i].value) <==> WellFormed(ms[i].value) && NoDoubles(ms[i].value) {
        PrintableIff(ms[i].value);
      }
    case _ =>
  }

  lemma ScalarIsWellFormed(s: string)
    ensures var t, r := SkipWs(s), ParseValue(s);
            t != "" && t[0] != '[' && t[0] != '{' && r.ok ==> !r.val.Arr? && !r.val.Obj? && WellFormed(r.val)
    ensures SkipWs(s) == "" ==> !ParseValue(s).ok
  {
  }

  lemma {:induction false} ParsedIsWellFormed(s: string)
    ensures ParseValue(s).ok ==> WellFormed(ParseValue(s).val)
    decreases |s|, 0
  {
    var t := SkipWs(s);
    SkipIsIdempotent(s);
    ParseSkips(s, t);
    ScalarIsWellFormed(s);
    if t != "" && (t[0] == '[' || t[0] == '{') {
      ValueStep(t);
      if t[0] == '[' {
        ItemsAreWellFormed(Expect(t[1..], ']').rest, []);
      } else {
        MembersAreWellFormed(Expect(t[1..], '}').rest, []);
      }
    }
  }

  lemma {:induction false} ItemsAreWellFormed(s: string, acc: seq<Value>)
    requires forall i | 0 <= i < |acc| :: WellFormed(acc[i])
    ensures ParseItems(s, acc).ok ==> WellFormed(ParseItems(s, acc).val)
    decreases |s|, 1
  {
    ParsedIsWellFormed(s);
    var p := ParseValue(s);
    if p.ok && Expect(p.rest, ',').ok {
      ItemsAreWellFormed(Expect(p.rest, ',').rest, acc + [p.val]);
    }
  }

  lemma {:induction false} MembersAreWellFormed(s: string, acc: seq<Member>)
    requires Sorted(acc) && forall i | 0 <= i < |acc| :: WellFormed(acc[i].value)
    ensures ParseMembers(s, acc).ok ==> WellFormed(ParseMembers(s, acc).val)
    decreases |s|, 1
  {
    var quote := Expect(s, '"');
    if quote.ok {
      var key := StringTail(quote.rest, "");
      if key.ok && Expect(key.rest, ':').ok {
        var colon := Expect(key.rest, ':');
        ParsedIsWellFormed(colon.rest);
        var p := ParseValue(colon.rest);
        if p.ok {
          var now := Put(acc, key.val, p.val);
          PutSorted(acc, key.val, p.val);
          forall i | 0 <= i < |now| ensures WellFormed(now[i].value) {
            assert now[i] in acc ==> exists j | 0 <= j < |acc| :: acc[j] == now[i];
          }
          if Expect(p.rest, ',').ok {
            MembersAreWellFormed(Expect(p.rest, ',').rest, now);
          }
        }
      }
    }
  }

  /** Printing what was parsed and parsing that again changes nothing, for every text. */
  lemma Canonical(s: string, pretty: bool)
    requires ParseValue(s).ok && NoDoubles(ParseValue(s).val)
    ensures ParseValue(Serialized(ParseValue(s).val, if pretty then 0 else -1)).ok
    ensures ParseValue(Serialized(ParseValue(s).val, if pretty then 0 else -1)).val == ParseValue(s).val
  {
    var v := ParseValue(s).val;
    ParsedIsWellFormed(s);
    PrintableIff(v);
    RoundTrip(v, pretty, "");
    assert Serialized(v, if pretty then 0 else -1) + "" == Serialized(v, if pretty then 0 else -1);
  }
}

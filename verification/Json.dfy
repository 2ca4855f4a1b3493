/** JSON values as picojson stores them, the text its serializer writes and the value its parser
    reads, as functions. Every char of a text stands for one byte. */
module Json {
  import opened Common

  /** An int64 number carries its value; any other number carries the literal it was read from.
      The members of an object stand in the order of its std::map. */
  datatype Value =
    | Null
    | Bool(b: bool)
    | Int(n: int)
    | Num(lit: string)
    | Str(s: string)
    | Arr(items: seq<Value>)
    | Obj(members: seq<Member>)

  datatype Member = Member(key: string, value: Value)

  const INT64_MIN: int := -0x8000_0000_0000_0000
  const INT64_MAX: int := 0x7fff_ffff_ffff_ffff
  const INDENT_WIDTH := 2

  // ----- std::map<string, value> -----

  predicate Less(a: string, b: string) {
    if b == "" then false
    else if a == "" then true
    else a[0] < b[0] || (a[0] == b[0] && Less(a[1..], b[1..]))
  }

  ghost predicate Sorted(ms: seq<Member>) {
    forall i, j | 0 <= i < j < |ms| :: Less(ms[i].key, ms[j].key)
  }

  /** map[key] = value */
  function Put(ms: seq<Member>, key: string, v: Value): seq<Member> {
    if ms == [] || Less(key, ms[0].key) then [Member(key, v)] + ms
    else if ms[0].key == key then [Member(key, v)] + ms[1..]
    else [ms[0]] + Put(ms[1..], key, v)
  }

  /** map[key] read through operator[]: an absent key reads as null. */
  function Get(ms: seq<Member>, key: string): Value {
    if ms == [] then Null
    else if ms[0].key == key then ms[0].value
    else Get(ms[1..], key)
  }

  /** What the serializer can print without a double: int64 numbers in range, keys in map order. */
  ghost predicate Printable(v: Value) {
    match v
    case Int(n) => INT64_MIN <= n <= INT64_MAX
    case Num(_) => false
    case Arr(items) => forall i | 0 <= i < |items| :: Printable(items[i])
    case Obj(ms) => Sorted(ms) && forall i | 0 <= i < |ms| :: Printable(ms[i].value)
    case _ => true
  }

  // ----- Serializer -----

  function HexDigit(n: nat): char
    requires n < 16
  {
    if n < 10 then ('0' as int + n) as char else ('a' as int + n - 10) as char
  }

  /** One byte of a string literal. */
  function EscapeChar(c: char): string {
    if c == '"' then "\\\""
    else if c == '\\' then "\\\\"
    else if c == '/' then "\\/"
    else if c as int == 8 then "\\b"
    else if c as int == 12 then "\\f"
    else if c as int == 10 then "\\n"
    else if c as int == 13 then "\\r"
    else if c as int == 9 then "\\t"
    else if c as int < 0x20 || c as int == 0x7f then "\\u00" + [HexDigit(c as int / 16), HexDigit(c as int % 16)]
    else [c]
  }

  function Escape(s: string): string {
    if s == "" then "" else EscapeChar(s[0]) + Escape(s[1..])
  }

  function Quoted(s: string): string {
    "\"" + Escape(s) + "\""
  }

  function Digits(n: nat): string {
    if n < 10 then [('0' as int + n) as char] else Digits(n / 10) + [('0' as int + n % 10) as char]
  }

  function IntText(n: int): string {
    if n < 0 then "-" + Digits(-n) else Digits(n)
  }

  function Spaces(n: nat): string {
    if n == 0 then "" else " " + Spaces(n - 1)
  }

  /** A line break and the indentation of the next line; nothing in compact mode. */
  function Break(indent: int): string
    requires indent >= -1
  {
    if indent == -1 then "" else "\n" + Spaces(indent * INDENT_WIDTH)
  }

  function Deeper(indent: int): int {
    if indent == -1 then -1 else indent + 1
  }

  /** A value's text without the newline that ends a whole pretty-printed document. */
  function Body(v: Value, indent: int): string
    requires indent >= -1
    decreases v
  {
    match v
    case Null => "null"
    case Bool(b) => if b then "true" else "false"
    case Int(n) => IntText(n)
    case Num(lit) => lit
    case Str(s) => Quoted(s)
    case Arr(items) =>
      "[" + (Items(v, 0, Deeper(indent)) + (Break(if items == [] then -1 else indent) + "]"))
    case Obj(ms) =>
      "{" + (Members(v, 0, Deeper(indent)) + (Break(if ms == [] then -1 else indent) + "}"))
  }

  function Items(v: Value, k: nat, indent: int): string
    requires indent >= -1 && v.Arr? && k <= |v.items|
    decreases v, |v.items| - k
  {
    if k == |v.items| then ""
    else (if k == 0 then "" else ",") + (Break(indent) + (Body(v.items[k], indent) + Items(v, k + 1, indent)))
  }

  function MemberText(m: Member, indent: int): string
    requires indent >= -1
    decreases m, 0
  {
    Quoted(m.key) + (":" + ((if indent == -1 then "" else " ") + Body(m.value, indent)))
  }

  function Members(v: Value, k: nat, indent: int): string
    requires indent >= -1 && v.Obj? && k <= |v.members|
    decreases v, |v.members| - k
  {
    if k == |v.members| then ""
    else (if k == 0 then "" else ",") + (Break(indent) + (MemberText(v.members[k], indent) + Members(v, k + 1, indent)))
  }

  /** _serialize: at indentation 0 the text ends with a newline. */
  function Serialized(v: Value, indent: int): string
    requires indent >= -1
  {
    Body(v, indent) + (if indent == 0 then "\n" else "")
  }

  // ----- Parser -----

  /** What a parse step answers and what it leaves unread. */
  datatype Result<T> = Result(ok: bool, val: T, rest: string)

  predicate IsWs(c: char) {
    c == ' ' || c == '\t' || c == '\n' || c == '\r'
  }

  function SkipWs(s: string): (r: string)
    ensures |r| <= |s|
  {
    if s != "" && IsWs(s[0]) then SkipWs(s[1..]) else s
  }

  function Expect(s: string, c: char): (r: Result<()>)
    ensures |r.rest| <= |s| && (r.ok ==> |r.rest| < |s|)
  {
    var t := SkipWs(s);
    if t != "" && t[0] == c then Result(true, (), t[1..]) else Result(false, (), t)
  }

  function MatchText(s: string, pattern: string): (r: Result<()>)
    ensures |r.rest| <= |s|
    decreases |s|
  {
    if pattern == "" then Result(true, (), s)
    else if s != "" && s[0] == pattern[0] then MatchText(s[1..], pattern[1..])
    else Result(false, (), s)
  }

  function HexValue(c: char): (h: int)
    ensures -1 <= h < 16
  {
    if '0' <= c <= '9' then c as int - '0' as int
    else if 'A' <= c <= 'F' then c as int - 'A' as int + 10
    else if 'a' <= c <= 'f' then c as int - 'a' as int + 10
    else -1
  }

  /** The remaining `n` hexadecimal digits after `acc`; -1 when one is missing. */
  function QuadHex(s: string, n: nat, acc: nat): (r: Result<int>)
    ensures |r.rest| <= |s|
    ensures r.ok <==> r.val != -1
    ensures r.ok ==> r.val >= 0
    decreases |s|
  {
    if n == 0 then Result(true, acc, s)
    else if s == "" || HexValue(s[0]) == -1 then Result(false, -1, s)
    else QuadHex(s[1..], n - 1, acc * 16 + HexValue(s[0]))
  }

  lemma {:induction false} QuadHexBound(s: string, n: nat, acc: nat, bound: nat)
    requires acc < bound
    requires n <= 4
    ensures QuadHex(s, n, acc).val
            < bound * (if n == 0 then 1 else if n == 1 then 16 else if n == 2 then 256
                       else if n == 3 then 4096 else 65536)
    decreases n
  {
    if n > 0 && s != "" && HexValue(s[0]) != -1 {
      QuadHexBound(s[1..], n - 1, acc * 16 + HexValue(s[0]), bound * 16);
    }
  }

  function Byte(n: int): char
    requires 0 <= n < 256
  {
    n as char
  }

  function Utf8(u: nat): string
    requires u < 0x110000
  {
    if u < 0x80 then [Byte(u)]
    else if u < 0x800 then [Byte(0xc0 + u / 64), Byte(0x80 + u % 64)]
    else if u < 0x10000 then [Byte(0xe0 + u / 4096), Byte(0x80 + u / 64 % 64), Byte(0x80 + u % 64)]
    else [Byte(0xf0 + u / 262144), Byte(0x80 + u / 4096 % 64), Byte(0x80 + u / 64 % 64), Byte(0x80 + u % 64)]
  }

  lemma UnitBound(s: string)
    ensures QuadHex(s, 4, 0).val < 0x10000
  {
    QuadHexBound(s, 4, 0, 1);
  }

  /** The bytes of a \u escape: one unit, or a surrogate pair. */
  function CodePoint(s: string): (r: Result<string>)
    ensures |r.rest| <= |s|
  {
    var unit := QuadHex(s, 4, 0);
    UnitBound(s);
    if !unit.ok then Result(false, "", unit.rest)
    else if !(0xd800 <= unit.val <= 0xdfff) then Result(true, Utf8(unit.val), unit.rest)
    else if 0xdc00 <= unit.val then Result(false, "", unit.rest)
    else LowSurrogate(unit.rest, unit.val)
  }

  /** The second unit of a pair. */
  function LowSurrogate(s: string, high: nat): (r: Result<string>)
    requires 0xd800 <= high < 0xdc00
    ensures |r.rest| <= |s|
  {
    if s == "" || s[0] != '\\' then Result(false, "", s)
    else
      var t := s[1..];
      if t == "" || t[0] != 'u' then Result(false, "", t)
      else
        var low := QuadHex(t[1..], 4, 0);
        UnitBound(t[1..]);
        if !(0xdc00 <= low.val <= 0xdfff) then Result(false, "", low.rest)
        else Result(true, Utf8((high - 0xd800) * 1024 + (low.val - 0xdc00) + 0x10000), low.rest)
  }

  function Unescaped(c: char): Option<char> {
    if c == '"' || c == '\\' || c == '/' then Some(c)
    else if c == 'b' then Some(8 as char)
    else if c == 'f' then Some(12 as char)
    else if c == 'n' then Some(10 as char)
    else if c == 'r' then Some(13 as char)
    else if c == 't' then Some(9 as char)
    else None
  }

  /** The bytes an escape stands for, after its backslash. */
  function EscapeSequence(s: string): (r: Result<string>)
    ensures |r.rest| <= |s|
  {
    if s == "" then Result(false, "", "")
    else if s[0] == 'u' then CodePoint(s[1..])
    else
      match Unescaped(s[0])
      case Some(c) => Result(true, [c], s[1..])
      case None => Result(false, "", s[1..])
  }

  /** The rest of a string literal, after its opening quote and the bytes `acc` already read. */
  function StringTail(s: string, acc: string): (r: Result<string>)
    ensures |r.rest| <= |s| && (r.ok ==> |r.rest| < |s|)
    decreases |s|
  {
    if s == "" || s[0] < ' ' then Result(false, acc, s)
    else if s[0] == '"' then Result(true, acc, s[1..])
    else if s[0] != '\\' then StringTail(s[1..], acc + [s[0]])
    else
      var e := EscapeSequence(s[1..]);
      if e.ok then StringTail(e.rest, acc + e.val) else Result(false, acc, e.rest)
  }

  predicate IsDigit(c: char) {
    '0' <= c <= '9'
  }

  predicate IsNumberChar(c: char) {
    IsDigit(c) || c == '+' || c == '-' || c == 'e' || c == 'E' || c == '.'
  }

  function NumberTail(s: string, acc: string): (r: Result<string>)
    ensures |r.rest| + |r.val| == |s| + |acc|
  {
    if s != "" && IsNumberChar(s[0]) then NumberTail(s[1..], acc + [s[0]]) else Result(true, acc, s)
  }

  function DigitRun(s: string): (n: nat)
    ensures n <= |s|
  {
    if s != "" && IsDigit(s[0]) then 1 + DigitRun(s[1..]) else 0
  }

  function DigitsValue(s: string, acc: nat): nat
    requires DigitRun(s) == |s|
  {
    if s == "" then acc else DigitsValue(s[1..], acc * 10 + (s[0] as int - '0' as int))
  }

  function Unsigned(lit: string): string {
    if lit != "" && (lit[0] == '-' || lit[0] == '+') then lit[1..] else lit
  }

  /** strtoimax over the whole literal, without a range error for int64. */
  function Int64Of(lit: string): Option<int> {
    var digits := Unsigned(lit);
    if digits == "" || DigitRun(digits) != |digits| then None
    else
      var n := DigitsValue(digits, 0);
      var i := if lit[0] == '-' then 0 - n else n as int;
      if INT64_MIN <= i <= INT64_MAX then Some(i) else None
  }

  /** strtod would consume the whole literal: digits with an optional point, optional exponent. */
  predicate IsDoubleLiteral(lit: string) {
    var s := Unsigned(lit);
    var whole := DigitRun(s);
    var afterWhole := s[whole..];
    var frac := if afterWhole != "" && afterWhole[0] == '.' then DigitRun(afterWhole[1..]) else 0;
    var afterFrac := if afterWhole != "" && afterWhole[0] == '.' then afterWhole[1 + frac..] else afterWhole;
    whole + frac > 0 && (afterFrac == "" || IsExponent(afterFrac))
  }

  predicate IsExponent(s: string) {
    s != "" && (s[0] == 'e' || s[0] == 'E') && Unsigned(s[1..]) != ""
      && DigitRun(Unsigned(s[1..])) == |Unsigned(s[1..])|
  }

  function NumberValue(lit: string): Option<Value> {
    match Int64Of(lit)
    case Some(n) => Some(Int(n))
    case None => if IsDoubleLiteral(lit) then Some(Num(lit)) else None
  }

  function ParseLiteral(s: string, text: string, v: Value): (r: Result<Value>)
    ensures |r.rest| <= |s|
  {
    var m := MatchText(s, text);
    Result(m.ok, v, m.rest)
  }

  function ParseString(s: string): (r: Result<Value>)
    ensures |r.rest| <= |s|
  {
    var p := StringTail(s, "");
    Result(p.ok, Str(p.val), p.rest)
  }

  function ParseNumber(s: string): (r: Result<Value>)
    ensures |r.rest| <= |s|
    ensures r.ok ==> |r.rest| < |s|
  {
    var num := NumberTail(s, "");
    match NumberValue(num.val)
    case Some(v) => Result(true, v, num.rest)
    case None => Result(false, Null, num.rest)
  }

  /** _parse */
  function ParseValue(s: string): (r: Result<Value>)
    ensures |r.rest| <= |s| && (r.ok ==> |r.rest| < |s|)
    decreases |s|, 1
  {
    ParseToken(SkipWs(s))
  }

  /** _parse once white space is skipped. */
  function ParseToken(t: string): (r: Result<Value>)
    ensures |r.rest| <= |t| && (r.ok ==> |r.rest| < |t|)
    decreases |t|, 0
  {
    if t == "" then Result(false, Null, "")
    else if t[0] == 'n' then ParseLiteral(t[1..], "ull", Null)
    else if t[0] == 'f' then ParseLiteral(t[1..], "alse", Bool(false))
    else if t[0] == 't' then ParseLiteral(t[1..], "rue", Bool(true))
    else if t[0] == '"' then ParseString(t[1..])
    else if t[0] == '[' then ParseArray(t[1..])
    else if t[0] == '{' then ParseObject(t[1..])
    else if IsDigit(t[0]) || t[0] == '-' then ParseNumber(t)
    else Result(false, Null, t)
  }

  /** After an opening bracket. */
  function ParseArray(s: string): (r: Result<Value>)
    ensures |r.rest| <= |s|
    decreases |s|, 3
  {
    var e := Expect(s, ']');
    if e.ok then Result(true, Arr([]), e.rest) else ParseItems(e.rest, [])
  }

  /** After an opening brace. */
  function ParseObject(s: string): (r: Result<Value>)
    ensures |r.rest| <= |s|
    decreases |s|, 3
  {
    var e := Expect(s, '}');
    if e.ok then Result(true, Obj([]), e.rest) else ParseMembers(e.rest, [])
  }

  /** The items of a non-empty array, after those in `acc`. */
  function ParseItems(s: string, acc: seq<Value>): (r: Result<Value>)
    ensures |r.rest| <= |s| && (r.ok ==> |r.rest| < |s|)
    decreases |s|, 2
  {
    var p := ParseValue(s);
    if !p.ok then Result(false, Null, p.rest)
    else
      var comma := Expect(p.rest, ',');
      if comma.ok then ParseItems(comma.rest, acc + [p.val])
      else
        var close := Expect(comma.rest, ']');
        Result(close.ok, Arr(acc + [p.val]), close.rest)
  }

  /** The members of a non-empty object, after those in `acc`. */
  function ParseMembers(s: string, acc: seq<Member>): (r: Result<Value>)
    ensures |r.rest| <= |s| && (r.ok ==> |r.rest| < |s|)
    decreases |s|, 2
  {
    var quote := Expect(s, '"');
    if !quote.ok then Result(false, Null, quote.rest)
    else
      var key := StringTail(quote.rest, "");
      if !key.ok then Result(false, Null, key.rest)
      else
        var colon := Expect(key.rest, ':');
        if !colon.ok then Result(false, Null, colon.rest)
        else
          var p := ParseValue(colon.rest);
          if !p.ok then Result(false, Null, p.rest)
          else
            var comma := Expect(p.rest, ',');
            if comma.ok then ParseMembers(comma.rest, Put(acc, key.val, p.val))
            else
              var close := Expect(comma.rest, '}');
              Result(close.ok, Obj(Put(acc, key.val, p.val)), close.rest)
  }
}

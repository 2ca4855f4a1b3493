/** The language of JSON texts the parser accepts, as syntax trees: every tree's text is parsed to the
    tree's value, and every text that is parsed is a tree's text. */
module JsonGrammar {
  import opened Common
  import opened Json
  import opened JsonLexical
  import R = JsonRoundTrip

  datatype Tree =
    | NullWord
    | BoolWord(b: bool)
    | Number(n: Numeral)
    | Text(ps: seq<Piece>)
    | Array(slots: seq<Slot>, gap: string)
    | Object(fields: seq<Field>, gap: string)

  /** A value between two gaps. */
  datatype Slot = Slot(before: string, tree: Tree, after: string)

  /** A member: a gap, its key, a gap before the colon, and its value. */
  datatype Field = Field(before: string, key: seq<Piece>, between: string, slot: Slot)

  /** White space: space, tab, line feed and carriage return. */
  predicate IsGap(s: string) {
    forall i | 0 <= i < |s| :: s[i] as int in {0x09, 0x0a, 0x0d, 0x20}
  }

  /** The gap of an array or object is what it holds when it has no items. */
  ghost predicate Good(t: Tree) {
    match t
    case NullWord => true
    case BoolWord(_) => true
    case Number(n) => GoodNumeral(n)
    case Text(ps) => GoodPieces(ps)
    case Array(slots, gap) => IsGap(gap) && forall i | 0 <= i < |slots| :: GoodSlot(slots[i])
    case Object(fields, gap) => IsGap(gap) && forall i | 0 <= i < |fields| :: GoodField(fields[i])
  }

  ghost predicate GoodSlot(s: Slot) {
    IsGap(s.before) && Good(s.tree) && IsGap(s.after)
  }

  ghost predicate GoodField(f: Field) {
    IsGap(f.before) && GoodPieces(f.key) && IsGap(f.between) && GoodSlot(f.slot)
  }

  // ----- Texts and values -----

  function Written(t: Tree): string
    decreases t
  {
    match t
    case NullWord => "null"
    case BoolWord(b) => if b then "true" else "false"
    case Number(n) => NumeralText(n)
    case Text(ps) => ['"'] + (PiecesText(ps) + ['"'])
    case Array(slots, gap) => ['['] + ((if slots == [] then gap else Slots(slots)) + [']'])
    case Object(fields, gap) => ['{'] + ((if fields == [] then gap else Fields(fields)) + ['}'])
  }

  function WrittenSlot(s: Slot): string
    decreases s
  {
    s.before + (Written(s.tree) + s.after)
  }

  function Slots(slots: seq<Slot>): string
    requires slots != []
    decreases slots
  {
    WrittenSlot(slots[0]) + if |slots| == 1 then "" else [','] + Slots(slots[1..])
  }

  function WrittenField(f: Field): string
    decreases f
  {
    f.before + (['"'] + (PiecesText(f.key) + (['"'] + (f.between + ([':'] + WrittenSlot(f.slot))))))
  }

  function Fields(fields: seq<Field>): string
    requires fields != []
    decreases fields
  {
    WrittenField(fields[0]) + if |fields| == 1 then "" else [','] + Fields(fields[1..])
  }

  ghost function Means(t: Tree): Value
    requires Good(t)
    decreases t
  {
    match t
    case NullWord => Null
    case BoolWord(b) => Bool(b)
    case Number(n) => NumeralValue(n)
    case Text(ps) => Str(PiecesBytes(ps))
    case Array(slots, _) => Arr(Values(slots))
    case Object(fields, _) => Obj(Assigned(fields, []))
  }

  ghost function Values(slots: seq<Slot>): seq<Value>
    requires forall i | 0 <= i < |slots| :: GoodSlot(slots[i])
    decreases slots
  {
    if slots == [] then []
    else
      assert GoodSlot(slots[0]);
      [Means(slots[0].tree)] + Values(slots[1..])
  }

  /** The members are assigned in turn: a repeated key keeps its last value. */
  ghost function Assigned(fields: seq<Field>, acc: seq<Member>): seq<Member>
    requires forall i | 0 <= i < |fields| :: GoodField(fields[i])
    decreases fields
  {
    if fields == [] then acc
    else
      assert GoodField(fields[0]);
      Assigned(fields[1..], Assigning(fields[0], acc))
  }

  ghost function Assigning(f: Field, acc: seq<Member>): seq<Member>
    requires GoodField(f)
    decreases f
  {
    assert GoodSlot(f.slot);
    Put(acc, PiecesBytes(f.key), Means(f.slot.tree))
  }

  // ----- Gaps -----

  lemma GapCode(c: char)
    ensures IsWs(c) <==> c as int in {0x09, 0x0a, 0x0d, 0x20}
  {
    assert ' ' as int == 0x20 && '\t' as int == 9 && '\n' as int == 10 && '\r' as int == 13;
  }

  lemma {:induction false} GapIsSkipped(gap: string, s: string)
    requires IsGap(gap)
    ensures SkipWs(gap + s) == SkipWs(s)
  {
    if gap == "" {
      assert gap + s == s;
    } else {
      GapCode(gap[0]);
      assert (gap + s)[1..] == gap[1..] + s;
      GapIsSkipped(gap[1..], s);
    }
  }

  /** What is skipped is a gap, and all of it. */
  lemma {:induction false} SkippedIsGap(s: string) returns (gap: string)
    ensures IsGap(gap) && s == gap + SkipWs(s)
    ensures SkipWs(s) != "" ==> !IsWs(SkipWs(s)[0])
  {
    if s != "" && IsWs(s[0]) {
      GapCode(s[0]);
      var others := SkippedIsGap(s[1..]);
      gap := [s[0]] + others;
      assert s == [s[0]] + s[1..];
    } else {
      gap := "";
      assert s == "" + s;
    }
  }

  lemma Parenthesize(a: string, b: string, c: string, d: string)
    ensures (a + (b + c)) + d == a + (b + (c + d))
  {
  }

  lemma Visible(c: char)
    requires c in {'"', '[', ']', '{', '}', ',', ':'}
    ensures !IsWs(c) && !IsNumberChar(c)
  {
    GapCode(c);
    DigitCode(c);
    Marks();
    assert '"' as int == 0x22 && '[' as int == 0x5b && ']' as int == 0x5d && '{' as int == 0x7b && '}' as int == 0x7d;
    assert ',' as int == 0x2c && ':' as int == 0x3a;
  }

  lemma Expected(gap: string, c: char, rest: string)
    requires IsGap(gap) && c in {'"', '[', ']', '{', '}', ',', ':'}
    ensures Expect(gap + ([c] + rest), c) == Result(true, (), rest)
    ensures forall d | d != c :: Expect(gap + ([c] + rest), d) == Result(false, (), [c] + rest)
    ensures R.EndsNumber(gap + ([c] + rest))
  {
    Visible(c);
    GapIsSkipped(gap, [c] + rest);
    Cons(c, rest);
    assert SkipWs([c] + rest) == [c] + rest;
    if gap == "" {
      assert gap + ([c] + rest) == [c] + rest;
    } else {
      GapIsNoNumber(gap[0]);
    }
  }

  lemma GapIsNoNumber(c: char)
    requires c as int in {0x09, 0x0a, 0x0d, 0x20}
    ensures !IsNumberChar(c)
  {
    DigitCode(c);
    Marks();
  }

  // ----- Every tree's text is parsed -----

  lemma {:induction false} DigitsAreNumberChars(s: string)
    requires AreDigits(s)
    ensures forall c | c in s :: IsNumberChar(c)
  {
    if s != "" {
      DigitCode(s[0]);
      DigitsAreNumberChars(s[1..]);
    }
  }

  lemma NumeralChars(n: Numeral)
    requires GoodNumeral(n)
    ensures forall c | c in NumeralText(n) :: IsNumberChar(c)
    ensures NumeralText(n) != "" && (IsDigit(NumeralText(n)[0]) || NumeralText(n)[0] == '-')
  {
    Marks();
    DigitsAreNumberChars(n.whole);
    DigitsAreNumberChars(n.frac);
    if n.exponent.Exponent? {
      DigitsAreNumberChars(n.exponent.digits);
      assert forall c | c in n.exponent.sign :: IsNumberChar(c);
    }
    if !n.minus {
      DigitCode(n.whole[0]);
      assert NumeralText(n)[0] == n.whole[0];
    }
  }

  lemma NumberIsRead(n: Numeral, rest: string)
    requires GoodNumeral(n) && R.EndsNumber(rest)
    ensures ParseToken(NumeralText(n) + rest) == Result(true, NumeralValue(n), rest)
  {
    var lit := NumeralText(n);
    NumeralChars(n);
    R.NumberReads(lit, rest, "");
    assert "" + lit == lit;
    NumeralReads(n);
    assert (lit + rest)[0] == lit[0];
    DigitCode(lit[0]);
    Starts(lit[0]);
  }

  lemma Starts(c: char)
    requires 0x30 <= c as int <= 0x39 || c == '-'
    ensures c !in {'n', 'f', 't', '"', '[', '{'} && !IsWs(c) && c !in {']', '}', ','}
  {
    Marks();
    GapCode(c);
    assert 'n' as int == 0x6e && 'f' as int == 0x66 && 't' as int == 0x74 && '"' as int == 0x22;
    assert '[' as int == 0x5b && '{' as int == 0x7b && ']' as int == 0x5d && '}' as int == 0x7d && ',' as int == 0x2c;
  }

  lemma {:induction false} PatternMatches(pattern: string, rest: string)
    ensures MatchText(pattern + rest, pattern) == Result(true, (), rest)
  {
    if pattern == "" {
      assert pattern + rest == rest;
    } else {
      assert (pattern + rest)[1..] == pattern[1..] + rest;
      PatternMatches(pattern[1..], rest);
    }
  }

  lemma WordIsRead(t: Tree, rest: string)
    requires t.NullWord? || t.BoolWord?
    ensures ParseToken(Written(t) + rest) == Result(true, Means(t), rest)
  {
    var others := if t.NullWord? then "ull" else if t.b then "rue" else "alse";
    PatternMatches(others, rest);
    assert (Written(t) + rest)[1..] == others + rest;
  }

  lemma TextIsRead(ps: seq<Piece>, rest: string)
    requires GoodPieces(ps)
    ensures ParseToken(Written(Text(ps)) + rest) == Result(true, Str(PiecesBytes(ps)), rest)
  {
    var inner := PiecesText(ps) + (['"'] + rest);
    Parenthesize(['"'], PiecesText(ps), ['"'], rest);
    Cons('"', inner);
    PiecesRead(ps, rest, "");
    assert "" + PiecesBytes(ps) == PiecesBytes(ps);
  }

  lemma TreeStart(t: Tree)
    requires Good(t)
    ensures Written(t) != "" && !IsWs(Written(t)[0]) && Written(t)[0] !in {']', '}', ','}
  {
    match t {
      case Number(n) =>
        NumeralChars(n);
        DigitCode(NumeralText(n)[0]);
        Starts(NumeralText(n)[0]);
      case Text(ps) => Visible('"');
      case Array(slots, gap) => Visible('[');
      case Object(fields, gap) => Visible('{');
      case NullWord =>
      case BoolWord(b) =>
    }
  }

  /** Up to the gap behind it. */
  lemma SlotSkips(s: Slot, tail: string)
    requires GoodSlot(s)
    ensures SkipWs(WrittenSlot(s) + tail) == Written(s.tree) + (s.after + tail)
  {
    var text := Written(s.tree) + (s.after + tail);
    Parenthesize(s.before, Written(s.tree), s.after, tail);
    GapIsSkipped(s.before, text);
    TreeStart(s.tree);
  }

  lemma TokenAfterSkip(s: string, t: string)
    requires SkipWs(s) == t
    ensures ParseValue(s) == ParseToken(t)
  {
  }

  /** What follows a value inside an array or an object. */
  ghost predicate Follows(tail: string) {
    tail != "" && tail[0] in {',', ']', '}'}
  }

  lemma TailEndsNumber(gap: string, tail: string)
    requires IsGap(gap) && Follows(tail)
    ensures R.EndsNumber(gap + tail)
  {
    assert tail == [tail[0]] + tail[1..];
    Expected(gap, tail[0], tail[1..]);
  }

  lemma {:induction false} TreeReads(t: Tree, rest: string)
    requires Good(t) && (t.Number? ==> R.EndsNumber(rest))
    ensures ParseToken(Written(t) + rest) == Result(true, Means(t), rest)
    decreases t, 1
  {
    if t.Array? {
      ArrayReads(t, rest);
    } else if t.Object? {
      ObjectReads(t, rest);
    } else if t.Number? {
      NumberIsRead(t.n, rest);
    } else if t.Text? {
      TextIsRead(t.ps, rest);
    } else {
      WordIsRead(t, rest);
    }
  }

  lemma {:induction false} SlotReads(s: Slot, tail: string)
    requires GoodSlot(s) && Follows(tail)
    ensures ParseValue(WrittenSlot(s) + tail) == Result(true, Means(s.tree), s.after + tail)
    decreases s
  {
    TailEndsNumber(s.after, tail);
    SlotSkips(s, tail);
    TokenAfterSkip(WrittenSlot(s) + tail, Written(s.tree) + (s.after + tail));
    TreeReads(s.tree, s.after + tail);
  }

  lemma ContainerText(open: char, inner: string, close: char, rest: string)
    ensures var s := ([open] + (inner + [close])) + rest; s[0] == open && s[1..] == inner + ([close] + rest)
  {
  }

  /** An array that does not close at once reads its items. */
  lemma ItemsBegin(s: string)
    requires SkipWs(s) != "" && SkipWs(s)[0] != ']'
    ensures ParseArray(s) == ParseItems(s, [])
  {
    SkipFirst(s);
  }

  lemma SkipFirst(s: string)
    ensures ParseItems(SkipWs(s), []) == ParseItems(s, [])
    ensures ParseMembers(SkipWs(s), []) == ParseMembers(s, [])
  {
    R.SkipIsIdempotent(s);
    R.ParseSkips(s, SkipWs(s));
  }

  lemma {:induction false} ArrayReads(t: Tree, rest: string)
    requires t.Array? && Good(t)
    ensures ParseToken(Written(t) + rest) == Result(true, Means(t), rest)
    decreases t, 0
  {
    var inner := if t.slots == [] then t.gap else Slots(t.slots);
    ContainerText('[', inner, ']', rest);
    if t.slots == [] {
      Expected(t.gap, ']', rest);
    } else {
      SlotsStart(t.slots, [']'] + rest);
      ItemsBegin(inner + ([']'] + rest));
      SlotsRead(t.slots, rest, []);
      assert [] + Values(t.slots) == Values(t.slots);
    }
  }

  lemma SlotsStart(slots: seq<Slot>, tail: string)
    requires slots != [] && GoodSlot(slots[0])
    ensures var s := SkipWs(Slots(slots) + tail); s != "" && s[0] !in {']', '}', ','}
  {
    var more := if |slots| == 1 then "" else [','] + Slots(slots[1..]);
    Assoc(WrittenSlot(slots[0]), more, tail);
    SlotSkips(slots[0], more + tail);
    TreeStart(slots[0].tree);
  }

  lemma LastSlot(s: string, v: Value, gap: string, rest: string, acc: seq<Value>)
    requires IsGap(gap) && ParseValue(s) == Result(true, v, gap + ([']'] + rest))
    ensures ParseItems(s, acc) == Result(true, Arr(acc + [v]), rest)
  {
    Expected(gap, ']', rest);
    Expected("", ']', rest);
    assert "" + ([']'] + rest) == [']'] + rest;
  }

  lemma NextSlot(s: string, v: Value, gap: string, next: string, acc: seq<Value>)
    requires IsGap(gap) && ParseValue(s) == Result(true, v, gap + ([','] + next))
    ensures ParseItems(s, acc) == ParseItems(next, acc + [v])
  {
    Expected(gap, ',', next);
  }

  lemma {:induction false} SlotsRead(slots: seq<Slot>, rest: string, acc: seq<Value>)
    requires slots != [] && forall i | 0 <= i < |slots| :: GoodSlot(slots[i])
    ensures ParseItems(Slots(slots) + ([']'] + rest), acc) == Result(true, Arr(acc + Values(slots)), rest)
    decreases slots
  {
    var first, others := slots[0], slots[1..];
    var more := if |slots| == 1 then "" else [','] + Slots(others);
    var tail := more + ([']'] + rest);
    Assoc(WrittenSlot(first), more, [']'] + rest);
    if |slots| == 1 {
      assert tail == [']'] + rest;
      SlotReads(first, tail);
      LastSlot(WrittenSlot(first) + tail, Means(first.tree), first.after, rest, acc);
      assert Values(slots) == [Means(first.tree)];
    } else {
      Assoc([','], Slots(others), [']'] + rest);
      SlotReads(first, tail);
      NextSlot(WrittenSlot(first) + tail, Means(first.tree), first.after, Slots(others) + ([']'] + rest), acc);
      SlotsRead(others, rest, acc + [Means(first.tree)]);
      Assoc(acc, [Means(first.tree)], Values(others));
    }
  }

  lemma {:induction false} ObjectReads(t: Tree, rest: string)
    requires t.Object? && Good(t)
    ensures ParseToken(Written(t) + rest) == Result(true, Means(t), rest)
    decreases t, 0
  {
    var inner := if t.fields == [] then t.gap else Fields(t.fields);
    ContainerText('{', inner, '}', rest);
    if t.fields == [] {
      Expected(t.gap, '}', rest);
    } else {
      FieldsStart(t.fields, ['}'] + rest);
      MembersBegin(inner + (['}'] + rest));
      FieldsRead(t.fields, rest, []);
    }
  }

  lemma MembersBegin(s: string)
    requires SkipWs(s) != "" && SkipWs(s)[0] != '}'
    ensures ParseObject(s) == ParseMembers(s, [])
  {
    SkipFirst(s);
  }

  /** An array that is read either closes at once or reads its items. */
  lemma ArraySteps(s: string)
    requires s != "" && s[0] == '['
    ensures var e := Expect(s[1..], ']');
            ParseToken(s) == if e.ok then Result(true, Arr([]), e.rest) else ParseItems(s[1..], [])
  {
    SkipFirst(s[1..]);
  }

  lemma ObjectSteps(s: string)
    requires s != "" && s[0] == '{'
    ensures var e := Expect(s[1..], '}');
            ParseToken(s) == if e.ok then Result(true, Obj([]), e.rest) else ParseMembers(s[1..], [])
  {
    SkipFirst(s[1..]);
  }

  /** What follows the opening quote of a member's key, up to the tail. */
  function AfterQuote(f: Field, tail: string): string {
    PiecesText(f.key) + (['"'] + (f.between + ([':'] + (WrittenSlot(f.slot) + tail))))
  }

  lemma FieldText(f: Field, tail: string)
    ensures WrittenField(f) + tail == f.before + (['"'] + AfterQuote(f, tail))
  {
    var value := WrittenSlot(f.slot);
    Assoc([':'], value, tail);
    Assoc(f.between, [':'] + value, tail);
    Assoc(['"'], f.between + ([':'] + value), tail);
    Assoc(PiecesText(f.key), ['"'] + (f.between + ([':'] + value)), tail);
    Assoc(['"'], PiecesText(f.key) + (['"'] + (f.between + ([':'] + value))), tail);
    Assoc(f.before, ['"'] + (PiecesText(f.key) + (['"'] + (f.between + ([':'] + value)))), tail);
  }

  lemma FieldsStart(fields: seq<Field>, tail: string)
    requires fields != [] && GoodField(fields[0])
    ensures var s := SkipWs(Fields(fields) + tail); s != "" && s[0] == '"'
  {
    var more := if |fields| == 1 then "" else [','] + Fields(fields[1..]);
    Assoc(WrittenField(fields[0]), more, tail);
    FieldText(fields[0], more + tail);
    GapIsSkipped(fields[0].before, ['"'] + AfterQuote(fields[0], more + tail));
    Visible('"');
  }

  /** A member up to its value. */
  lemma {:induction false} FieldReads(f: Field, tail: string, acc: seq<Member>)
    requires GoodField(f) && Follows(tail)
    ensures var now := Assigning(f, acc);
            var comma := Expect(f.slot.after + tail, ',');
            ParseMembers(WrittenField(f) + tail, acc)
            == if comma.ok then ParseMembers(comma.rest, now)
               else var close := Expect(comma.rest, '}'); Result(close.ok, Obj(now), close.rest)
    decreases f
  {
    var body := WrittenSlot(f.slot) + tail;
    var afterKey := f.between + ([':'] + body);
    FieldText(f, tail);
    Expected(f.before, '"', AfterQuote(f, tail));
    PiecesRead(f.key, afterKey, "");
    assert "" + PiecesBytes(f.key) == PiecesBytes(f.key);
    Expected(f.between, ':', body);
    SlotReads(f.slot, tail);
    R.MembersStep(WrittenField(f) + tail, PiecesBytes(f.key), afterKey, body, Means(f.slot.tree), f.slot.after + tail,
                  acc);
  }

  lemma {:induction false} FieldsRead(fields: seq<Field>, rest: string, acc: seq<Member>)
    requires fields != [] && forall i | 0 <= i < |fields| :: GoodField(fields[i])
    ensures ParseMembers(Fields(fields) + (['}'] + rest), acc) == Result(true, Obj(Assigned(fields, acc)), rest)
    decreases fields
  {
    var first, others := fields[0], fields[1..];
    var more := if |fields| == 1 then "" else [','] + Fields(others);
    var tail := more + (['}'] + rest);
    var now := Assigning(first, acc);
    assert GoodField(first) && GoodSlot(first.slot);
    Assoc(WrittenField(first), more, ['}'] + rest);
    if |fields| == 1 {
      assert tail == ['}'] + rest;
      FieldReads(first, tail, acc);
      Expected(first.slot.after, '}', rest);
      Expected("", '}', rest);
      assert "" + (['}'] + rest) == ['}'] + rest;
      assert others == [] && Assigned(others, now) == now;
    } else {
      Assoc([','], Fields(others), ['}'] + rest);
      FieldReads(first, tail, acc);
      Expected(first.slot.after, ',', Fields(others) + (['}'] + rest));
      FieldsRead(others, rest, now);
    }
  }

  // ----- Every parsed text is a tree's -----

  lemma {:induction false} NumberSplit(s: string, acc: string)
    ensures var r := NumberTail(s, acc);
            && r.val + r.rest == acc + s && R.EndsNumber(r.rest) && |r.val| >= |acc| && r.val[..|acc|] == acc
            && (s != "" && IsNumberChar(s[0]) ==> |r.val| > |acc| && r.val[|acc|] == s[0])
    decreases |s|
  {
    if s != "" && IsNumberChar(s[0]) {
      NumberSplit(s[1..], acc + [s[0]]);
      assert acc + [s[0]] + s[1..] == acc + s;
      var r := NumberTail(s, acc);
      assert r.val[..|acc| + 1][..|acc|] == acc && r.val[..|acc| + 1][|acc|] == s[0];
    }
  }

  lemma NumberTree(s: string) returns (t: Tree)
    requires s != "" && (IsDigit(s[0]) || s[0] == '-') && ParseNumber(s).ok
    ensures t.Number? && Good(t) && s == Written(t) + ParseNumber(s).rest
    ensures Means(t) == ParseNumber(s).val && R.EndsNumber(ParseNumber(s).rest)
  {
    NumberSplit(s, "");
    assert "" + s == s;
    var lit := NumberTail(s, "").val;
    var n := AcceptedNumeral(lit);
    NumeralReads(n);
    t := Number(n);
  }

  lemma {:induction false} MatchIsPattern(s: string, pattern: string)
    requires MatchText(s, pattern).ok
    ensures s == pattern + MatchText(s, pattern).rest
    decreases |s|
  {
    if pattern == "" {
      assert s == "" + s;
    } else {
      MatchIsPattern(s[1..], pattern[1..]);
      assert s == [s[0]] + s[1..] && pattern == [pattern[0]] + pattern[1..];
    }
  }

  lemma WordTree(s: string) returns (t: Tree)
    requires s != "" && s[0] in {'n', 'f', 't'} && ParseToken(s).ok
    ensures (t.NullWord? || t.BoolWord?) && s == Written(t) + ParseToken(s).rest && Means(t) == ParseToken(s).val
  {
    var others := if s[0] == 'n' then "ull" else if s[0] == 't' then "rue" else "alse";
    MatchIsPattern(s[1..], others);
    t := if s[0] == 'n' then NullWord else BoolWord(s[0] == 't');
    assert s == [s[0]] + s[1..];
    assert Written(t) == [s[0]] + others;
  }

  lemma TextTree(s: string) returns (t: Tree)
    requires s != "" && s[0] == '"' && ParseToken(s).ok
    ensures t.Text? && Good(t) && s == Written(t) + ParseToken(s).rest && Means(t) == ParseToken(s).val
  {
    var ps := AcceptedString(s[1..], "");
    t := Text(ps);
    assert "" + PiecesBytes(ps) == PiecesBytes(ps);
    Parenthesize(['"'], PiecesText(ps), ['"'], ParseToken(s).rest);
    assert s == [s[0]] + s[1..];
  }

  lemma ExpectedGap(s: string, c: char) returns (gap: string)
    ensures IsGap(gap) && s == gap + SkipWs(s)
    ensures Expect(s, c).ok ==> s == gap + ([c] + Expect(s, c).rest)
    ensures !Expect(s, c).ok ==> Expect(s, c).rest == SkipWs(s)
  {
    gap := SkippedIsGap(s);
    if Expect(s, c).ok {
      assert SkipWs(s) == [c] + SkipWs(s)[1..];
    }
  }

  lemma {:induction false} TokenTree(s: string) returns (t: Tree)
    requires ParseToken(s).ok
    ensures Good(t) && s == Written(t) + ParseToken(s).rest && Means(t) == ParseToken(s).val
    ensures t.Number? ==> R.EndsNumber(ParseToken(s).rest)
    decreases |s|, 1
  {
    if s[0] in {'n', 'f', 't'} {
      t := WordTree(s);
    } else if s[0] == '"' {
      t := TextTree(s);
    } else if s[0] == '[' {
      t := ArrayTree(s);
    } else if s[0] == '{' {
      t := ObjectTree(s);
    } else {
      t := NumberTree(s);
    }
  }

  lemma {:induction false} ValueTree(s: string) returns (before: string, t: Tree)
    requires ParseValue(s).ok
    ensures IsGap(before) && Good(t) && s == before + (Written(t) + ParseValue(s).rest)
    ensures Means(t) == ParseValue(s).val && (t.Number? ==> R.EndsNumber(ParseValue(s).rest))
    decreases |s|, 2
  {
    before := SkippedIsGap(s);
    t := TokenTree(SkipWs(s));
  }

  lemma ContainerIs(s: string, inner: string, close: char, rest: string)
    requires s != "" && s[1..] == inner + ([close] + rest)
    ensures s == ([s[0]] + (inner + [close])) + rest
  {
    assert s == [s[0]] + s[1..];
  }

  lemma {:induction false} ArrayTree(s: string) returns (t: Tree)
    requires s != "" && s[0] == '[' && ParseToken(s).ok
    ensures t.Array? && Good(t) && s == Written(t) + ParseToken(s).rest && Means(t) == ParseToken(s).val
    decreases |s|, 0
  {
    var rest := ParseToken(s).rest;
    var inner := s[1..];
    var gap := ExpectedGap(inner, ']');
    ArraySteps(s);
    if Expect(inner, ']').ok {
      t := Array([], gap);
      ContainerIs(s, gap, ']', rest);
    } else {
      var slots := ItemTrees(inner, []);
      t := Array(slots, "");
      ContainerIs(s, Slots(slots), ']', rest);
      assert [] + Values(slots) == Values(slots);
    }
  }

  lemma SlotOf(s: string, before: string, t: Tree, after: string, tail: string)
    requires s == before + (Written(t) + (after + tail))
    ensures s == WrittenSlot(Slot(before, t, after)) + tail
  {
    Parenthesize(before, Written(t), after, tail);
  }

  lemma OneSlot(s: Slot)
    requires GoodSlot(s)
    ensures Slots([s]) == WrittenSlot(s) && Values([s]) == [Means(s.tree)]
  {
    assert [s][1..] == [];
    assert WrittenSlot(s) + "" == WrittenSlot(s);
  }

  lemma MoreSlots(s: Slot, others: seq<Slot>)
    requires others != [] && GoodSlot(s) && forall i | 0 <= i < |others| :: GoodSlot(others[i])
    ensures forall i | 0 <= i < |[s] + others| :: GoodSlot(([s] + others)[i])
    ensures Slots([s] + others) == WrittenSlot(s) + ([','] + Slots(others))
    ensures Values([s] + others) == [Means(s.tree)] + Values(others)
  {
    assert ([s] + others)[1..] == others;
  }

  lemma {:induction false} ItemTrees(s: string, acc: seq<Value>) returns (slots: seq<Slot>)
    requires ParseItems(s, acc).ok
    ensures slots != [] && forall i | 0 <= i < |slots| :: GoodSlot(slots[i])
    ensures s == Slots(slots) + ([']'] + ParseItems(s, acc).rest)
    ensures ParseItems(s, acc).val == Arr(acc + Values(slots))
    decreases |s|, 3
  {
    var p, rest := ParseValue(s), ParseItems(s, acc).rest;
    var before, t := ValueTree(s);
    var after := ExpectedGap(p.rest, ',');
    var slot := Slot(before, t, after);
    var comma := Expect(p.rest, ',');
    if comma.ok {
      SlotOf(s, before, t, after, [','] + comma.rest);
      var others := ItemTrees(comma.rest, acc + [p.val]);
      slots := [slot] + others;
      MoreSlots(slot, others);
      Parenthesize(WrittenSlot(slot), [','], Slots(others), [']'] + rest);
      Assoc(acc, [p.val], Values(others));
    } else {
      ClosedBy(p.rest, ']', rest);
      SlotOf(s, before, t, after, [']'] + rest);
      slots := [slot];
      OneSlot(slot);
    }
  }

  /** Without a comma, the closing bracket is what the gap leaves. */
  lemma ClosedBy(s: string, c: char, rest: string)
    requires Expect(SkipWs(s), c).ok && Expect(SkipWs(s), c).rest == rest
    ensures SkipWs(s) == [c] + rest
  {
    R.SkipIsIdempotent(s);
    assert SkipWs(s) == [c] + SkipWs(s)[1..];
  }

  lemma {:induction false} ObjectTree(s: string) returns (t: Tree)
    requires s != "" && s[0] == '{' && ParseToken(s).ok
    ensures t.Object? && Good(t) && s == Written(t) + ParseToken(s).rest && Means(t) == ParseToken(s).val
    decreases |s|, 0
  {
    var rest := ParseToken(s).rest;
    var inner := s[1..];
    var gap := ExpectedGap(inner, '}');
    ObjectSteps(s);
    if Expect(inner, '}').ok {
      t := Object([], gap);
      ContainerIs(s, gap, '}', rest);
    } else {
      var fields := FieldTrees(inner, []);
      t := Object(fields, "");
      ContainerIs(s, Fields(fields), '}', rest);
    }
  }

  /** A member up to its value, as the parser found it. */
  lemma {:induction false} FieldTree(s: string, acc: seq<Member>) returns (f: Field, tail: string)
    requires ParseMembers(s, acc).ok
    ensures GoodField(f) && s == WrittenField(f) + tail && |tail| < |s|
    ensures var now := Assigning(f, acc);
            if tail != "" && tail[0] == ',' then ParseMembers(s, acc) == ParseMembers(tail[1..], now)
            else tail == ['}'] + ParseMembers(s, acc).rest && ParseMembers(s, acc).val == Obj(now)
    decreases |s|, 3
  {
    var quote := Expect(s, '"');
    var gap := ExpectedGap(s, '"');
    var ps := AcceptedString(quote.rest, "");
    assert "" + PiecesBytes(ps) == PiecesBytes(ps);
    var key := StringTail(quote.rest, "");
    var between := ExpectedGap(key.rest, ':');
    var colon := Expect(key.rest, ':');
    var before, t := ValueTree(colon.rest);
    var p := ParseValue(colon.rest);
    var after := ExpectedGap(p.rest, ',');
    f := Field(gap, ps, between, Slot(before, t, after));
    var comma := Expect(p.rest, ',');
    if comma.ok {
      tail := [','] + comma.rest;
    } else {
      ClosedBy(p.rest, '}', ParseMembers(s, acc).rest);
      tail := ['}'] + ParseMembers(s, acc).rest;
    }
    SlotOf(colon.rest, before, t, after, tail);
    FieldText(f, tail);
  }

  lemma OneField(f: Field, acc: seq<Member>)
    requires GoodField(f)
    ensures Fields([f]) == WrittenField(f) && Assigned([f], acc) == Assigning(f, acc)
  {
    assert [f][1..] == [];
    assert WrittenField(f) + "" == WrittenField(f);
  }

  lemma MoreFields(f: Field, others: seq<Field>, acc: seq<Member>)
    requires others != [] && GoodField(f) && forall i | 0 <= i < |others| :: GoodField(others[i])
    ensures forall i | 0 <= i < |[f] + others| :: GoodField(([f] + others)[i])
    ensures Fields([f] + others) == WrittenField(f) + ([','] + Fields(others))
    ensures Assigned([f] + others, acc) == Assigned(others, Assigning(f, acc))
  {
    assert ([f] + others)[1..] == others;
  }

  lemma {:induction false} FieldTrees(s: string, acc: seq<Member>) returns (fields: seq<Field>)
    requires ParseMembers(s, acc).ok
    ensures fields != [] && forall i | 0 <= i < |fields| :: GoodField(fields[i])
    ensures s == Fields(fields) + (['}'] + ParseMembers(s, acc).rest)
    ensures ParseMembers(s, acc).val == Obj(Assigned(fields, acc))
    decreases |s|, 4
  {
    var f, tail := FieldTree(s, acc);
    if tail != "" && tail[0] == ',' {
      var now := Assigning(f, acc);
      var others := FieldTrees(tail[1..], now);
      fields := [f] + others;
      MoreFields(f, others, acc);
      assert tail == [','] + tail[1..];
      Parenthesize(WrittenField(f), [','], Fields(others), ['}'] + ParseMembers(s, acc).rest);
    } else {
      fields := [f];
      OneField(f, acc);
    }
  }

  // ----- The language -----

  /** The text starts with a value the grammar knows, up to `rest`. */
  ghost predicate Begins(s: string, v: Value, rest: string) {
    exists before, t :: IsText(s, before, t, v, rest)
  }

  ghost predicate IsText(s: string, before: string, t: Tree, v: Value, rest: string) {
    && IsGap(before) && Good(t) && Means(t) == v && s == before + (Written(t) + rest)
    && (t.Number? ==> R.EndsNumber(rest))
  }

  /** The parser accepts exactly the texts of the grammar, with their values, and leaves what follows; so
      it refuses every text that does not start with one, such as one with an array left open. */
  lemma AcceptsIff(s: string, v: Value, rest: string)
    ensures ParseValue(s) == Result(true, v, rest) <==> Begins(s, v, rest)
  {
    if ParseValue(s) == Result(true, v, rest) {
      var before, t := ValueTree(s);
      assert IsText(s, before, t, v, rest);
    }
    if before, t :| IsText(s, before, t, v, rest) {
      TreeStart(t);
      GapIsSkipped(before, Written(t) + rest);
      TokenAfterSkip(s, Written(t) + rest);
      TreeReads(t, rest);
    }
  }

  /** In particular what is accepted closes the bracket, the brace or the quote it begins with. */
  lemma AcceptedIsClosed(s: string)
    requires s != "" && s[0] in {'[', '{', '"'} && ParseToken(s).ok
    ensures (if s[0] == '[' then ']' else if s[0] == '{' then '}' else '"') in s[1..|s| - |ParseToken(s).rest|]
  {
    var n := |s| - |ParseToken(s).rest|;
    var t := TokenTree(s);
    assert Written(t) == s[..n];
    TreeOpens(t);
    assert s[1..n][n - 2] == s[..n][n - 1];
  }

  /** What a tree's text begins with tells what it ends with. */
  lemma TreeOpens(t: Tree)
    requires Good(t) && Written(t) != "" && Written(t)[0] in {'[', '{', '"'}
    ensures var text := Written(t);
            && |text| >= 2
            && text[|text| - 1] == if text[0] == '[' then ']' else if text[0] == '{' then '}' else '"'
  {
    if t.Number? {
      NumeralStart(t.n);
    }
  }

  lemma NumeralStart(n: Numeral)
    requires GoodNumeral(n)
    ensures NumeralText(n) != "" && NumeralText(n)[0] !in {'[', '{', '"'}
  {
    NumeralChars(n);
    DigitCode(NumeralText(n)[0]);
    Starts(NumeralText(n)[0]);
  }
}

/** What each line of a property file means, in terms of the codes of its characters: the spellings of keys
    and values, the separators between them, and the lines that assign nothing. */
module PropertyLines {
  import opened Common
  import opened Properties

  /** A piece of a key's or a value's text: a character as it is, a character after a backslash, or a backslash
      that goes over to the next line and that line's leading blanks. */
  datatype Piece = Plain(c: char) | Escaped(c: char) | Broken(line: Break, blanks: string)

  function PieceText(p: Piece): string {
    match p
    case Plain(c) => [c]
    case Escaped(c) => ['\\'] + [c]
    case Broken(line, blanks) => ['\\'] + (BreakText(line) + blanks)
  }

  function Text(pieces: seq<Piece>): string {
    if pieces == [] then "" else PieceText(pieces[0]) + Text(pieces[1..])
  }

  /** What the pieces stand for. */
  function Meant(p: Piece): string {
    if p.Broken? then "" else [p.c]
  }

  function Meaning(pieces: seq<Piece>): string {
    if pieces == [] then "" else Meant(pieces[0]) + Meaning(pieces[1..])
  }

  predicate BlankCodes(s: string) {
    forall i | 0 <= i < |s| :: s[i] as int in {8, 32}
  }

  predicate IsSeparatorCode(c: char) {
    c as int in {8, 32, 58, 61}
  }

  predicate IsEndCode(c: char) {
    c as int in {10, 13}
  }

  /** In a key a separator or a backslash needs a backslash before it, and nothing else may have one. */
  predicate KeyPiece(p: Piece) {
    match p
    case Plain(c) => !IsSeparatorCode(c) && !IsEndCode(c) && c as int != 92
    case Escaped(c) => IsSeparatorCode(c) || c as int == 92
    case Broken(_, blanks) => BlankCodes(blanks)
  }

  /** In a value only the backslash needs one, and every character but a line end may have one. A value is
      not continued over CR LF. */
  predicate ValuePiece(p: Piece) {
    match p
    case Plain(c) => !IsEndCode(c) && c as int != 92
    case Escaped(c) => !IsEndCode(c)
    case Broken(line, blanks) => BlankCodes(blanks) && !line.CrLf?
  }

  /** The blanks of a continued line are all of them, and its line break is too. */
  predicate GoesOn(p: Piece, after: string) {
    p.Broken? ==>
      after != "" && after[0] as int !in {8, 32} && (p.line.Cr? && p.blanks == "" ==> after[0] as int != 10)
  }

  predicate Joined(pieces: seq<Piece>, after: string) {
    pieces == [] || (GoesOn(pieces[0], Text(pieces[1..]) + after) && Joined(pieces[1..], after))
  }

  ghost predicate KeySpelling(pieces: seq<Piece>, after: string) {
    (forall i | 0 <= i < |pieces| :: KeyPiece(pieces[i])) && Joined(pieces, after)
  }

  ghost predicate ValueSpelling(pieces: seq<Piece>, after: string) {
    (forall i | 0 <= i < |pieces| :: ValuePiece(pieces[i])) && Joined(pieces, after)
  }

  // ----- Codes and characters -----

  lemma Codes(c: char)
    ensures Blank(c) <==> c as int in {8, 32}
    ensures Separator(c) <==> IsSeparatorCode(c)
    ensures LineEnd(c) <==> IsEndCode(c)
    ensures c == '\\' <==> c as int == 92
    ensures (c == '#' || c == '!') <==> c as int in {33, 35}
  {
    assert '#' as int == 35 && '!' as int == 33 && '=' as int == 61 && ' ' as int == 32 && ':' as int == 58;
    assert '\\' as int == 92;
  }

  lemma Cons2(c: char, s: string, rest: string)
    ensures (([c] + s) + rest)[0] == c && (([c] + s) + rest)[1..] == s + rest
  {
  }

  // ----- Pieces -----

  lemma {:induction false} KeyBlanksPass(blanks: string, key: string, props: map<string, string>, after: string)
    requires BlankCodes(blanks) && after != "" && after[0] as int !in {8, 32}
    ensures Run(Config(KeyContinue, key, "", props, blanks + after)) == Run(Config(Key, key, "", props, after))
    decreases |blanks|
  {
    if blanks == "" {
      assert blanks + after == after;
      Codes(after[0]);
      OneRound(Config(KeyContinue, key, "", props, after), Config(Key, key, "", props, after));
    } else {
      Codes(blanks[0]);
      TextAppends(blanks, after);
      OneRound(Config(KeyContinue, key, "", props, blanks + after),
               Config(KeyContinue, key, "", props, blanks[1..] + after));
      KeyBlanksPass(blanks[1..], key, props, after);
    }
  }

  lemma KeyBreakPasses(line: Break, key: string, props: map<string, string>, text: string)
    requires line.Cr? && text != "" ==> text[0] as int != 10
    requires text != ""
    ensures Run(Config(Key, key, "", props, ['\\'] + (BreakText(line) + text)))
            == Run(Config(KeyContinue, key, "", props, text))
  {
    var broken := BreakText(line) + text;
    Cons('\\', broken);
    OneRound(Config(Key, key, "", props, ['\\'] + broken), Config(KeyEscape, key, "", props, broken));
    match line {
      case Lf =>
        Cons(LF, text);
        OneRound(Config(KeyEscape, key, "", props, broken), Config(KeyContinue, key, "", props, text));
      case Cr =>
        Cons(CR, text);
        OneRound(Config(KeyEscape, key, "", props, broken), Config(KeyContinue2, key, "", props, text));
        OneRound(Config(KeyContinue2, key, "", props, text), Config(KeyContinue, key, "", props, text));
      case CrLf =>
        Cons2(CR, [LF], text);
        Cons(LF, text);
        OneRound(Config(KeyEscape, key, "", props, broken), Config(KeyContinue2, key, "", props, [LF] + text));
        OneRound(Config(KeyContinue2, key, "", props, [LF] + text), Config(KeyContinue, key, "", props, text));
    }
  }

  lemma BrokenText(line: Break, blanks: string, after: string)
    ensures PieceText(Broken(line, blanks)) + after == ['\\'] + (BreakText(line) + (blanks + after))
  {
  }

  lemma KeyPieceReads(p: Piece, key: string, props: map<string, string>, after: string)
    requires KeyPiece(p) && GoesOn(p, after)
    ensures Run(Config(Key, key, "", props, PieceText(p) + after)) == Run(Config(Key, key + Meant(p), "", props, after))
  {
    if p.Broken? {
      BrokenText(p.line, p.blanks, after);
      assert p.blanks + after != "";
      KeyBreakPasses(p.line, key, props, p.blanks + after);
      KeyBlanksPass(p.blanks, key, props, after);
      assert key + "" == key;
    } else {
      Codes(p.c);
      if p.Plain? {
        Cons(p.c, after);
        OneRound(Config(Key, key, "", props, [p.c] + after), Config(Key, key + [p.c], "", props, after));
      } else {
        Cons2('\\', [p.c], after);
        Cons(p.c, after);
        OneRound(Config(Key, key, "", props, PieceText(p) + after), Config(KeyEscape, key, "", props, [p.c] + after));
        OneRound(Config(KeyEscape, key, "", props, [p.c] + after), Config(Key, key + [p.c], "", props, after));
      }
    }
  }

  lemma {:induction false} KeyTextIsRead(pieces: seq<Piece>, key: string, props: map<string, string>, after: string)
    requires KeySpelling(pieces, after)
    ensures Run(Config(Key, key, "", props, Text(pieces) + after))
            == Run(Config(Key, key + Meaning(pieces), "", props, after))
    decreases |pieces|
  {
    if pieces == [] {
      assert Text(pieces) + after == after && key + Meaning(pieces) == key;
    } else {
      var first, others := pieces[0], pieces[1..];
      Assoc(PieceText(first), Text(others), after);
      KeyPieceReads(first, key, props, Text(others) + after);
      KeyTextIsRead(others, key + Meant(first), props, after);
      Assoc(key, Meant(first), Meaning(others));
    }
  }

  lemma {:induction false} ValueBlanksPass(blanks: string, key: string, element: string, props: map<string, string>,
                                           after: string)
    requires BlankCodes(blanks) && after != "" && after[0] as int !in {8, 32}
    ensures Run(Config(ElementContinue, key, element, props, blanks + after))
            == Run(Config(Element, key, element, props, after))
    decreases |blanks|
  {
    if blanks == "" {
      assert blanks + after == after;
      Codes(after[0]);
      OneRound(Config(ElementContinue, key, element, props, after), Config(Element, key, element, props, after));
    } else {
      Codes(blanks[0]);
      TextAppends(blanks, after);
      OneRound(Config(ElementContinue, key, element, props, blanks + after),
               Config(ElementContinue, key, element, props, blanks[1..] + after));
      ValueBlanksPass(blanks[1..], key, element, props, after);
    }
  }

  /** After a CR the parser goes over to the blanks with or without a character read. */
  lemma CrIsPassed(blanks: string, key: string, element: string, props: map<string, string>, after: string)
    requires BlankCodes(blanks) && after != "" && after[0] as int !in {8, 32}
    ensures Run(Config(ElementContinue2, key, element, props, blanks + after))
            == Run(Config(Element, key, element, props, after))
  {
    var text := blanks + after;
    if blanks != "" && blanks[0] == ' ' {
      TextAppends(blanks, after);
      OneRound(Config(ElementContinue2, key, element, props, text),
               Config(ElementContinue, key, element, props, blanks[1..] + after));
      ValueBlanksPass(blanks[1..], key, element, props, after);
    } else {
      Codes(after[0]);
      assert text[0] == if blanks == "" then after[0] else blanks[0];
      OneRound(Config(ElementContinue2, key, element, props, text), Config(ElementContinue, key, element, props, text));
      ValueBlanksPass(blanks, key, element, props, after);
    }
  }

  lemma ValueBreakReads(p: Piece, key: string, element: string, props: map<string, string>, after: string)
    requires p.Broken? && ValuePiece(p) && GoesOn(p, after)
    ensures Run(Config(Element, key, element, props, PieceText(p) + after))
            == Run(Config(Element, key, element, props, after))
  {
    var text := p.blanks + after;
    var broken := BreakText(p.line) + text;
    BrokenText(p.line, p.blanks, after);
    Cons('\\', broken);
    OneRound(Config(Element, key, element, props, ['\\'] + broken), Config(ElementEscape, key, element, props, broken));
    if p.line.Lf? {
      Cons(LF, text);
      OneRound(Config(ElementEscape, key, element, props, broken), Config(ElementContinue, key, element, props, text));
      ValueBlanksPass(p.blanks, key, element, props, after);
    } else {
      Cons(CR, text);
      OneRound(Config(ElementEscape, key, element, props, broken), Config(ElementContinue2, key, element, props, text));
      CrIsPassed(p.blanks, key, element, props, after);
    }
  }

  lemma ValuePieceReads(p: Piece, key: string, element: string, props: map<string, string>, after: string)
    requires ValuePiece(p) && GoesOn(p, after)
    ensures Run(Config(Element, key, element, props, PieceText(p) + after))
            == Run(Config(Element, key, element + Meant(p), props, after))
  {
    if p.Broken? {
      ValueBreakReads(p, key, element, props, after);
      assert element + "" == element;
    } else {
      Codes(p.c);
      var read := Config(Element, key, element + [p.c], props, after);
      if p.Plain? {
        Cons(p.c, after);
        OneRound(Config(Element, key, element, props, [p.c] + after), read);
      } else {
        Cons2('\\', [p.c], after);
        Cons(p.c, after);
        OneRound(Config(Element, key, element, props, PieceText(p) + after),
                 Config(ElementEscape, key, element, props, [p.c] + after));
        OneRound(Config(ElementEscape, key, element, props, [p.c] + after), read);
      }
    }
  }

  lemma {:induction false} ValueTextIsRead(pieces: seq<Piece>, key: string, element: string,
                                           props: map<string, string>, after: string)
    requires ValueSpelling(pieces, after)
    ensures Run(Config(Element, key, element, props, Text(pieces) + after))
            == Run(Config(Element, key, element + Meaning(pieces), props, after))
    decreases |pieces|
  {
    if pieces == [] {
      assert Text(pieces) + after == after && element + Meaning(pieces) == element;
    } else {
      var first, others := pieces[0], pieces[1..];
      Assoc(PieceText(first), Text(others), after);
      ValuePieceReads(first, key, element, props, Text(others) + after);
      ValueTextIsRead(others, key, element + Meant(first), props, after);
      Assoc(element, Meant(first), Meaning(others));
    }
  }

  // ----- Lines -----

  /** Blanks and line ends before a line are dropped. */
  lemma {:induction false} PadIsDropped(pad: string, text: string, props: map<string, string>)
    requires forall i | 0 <= i < |pad| :: pad[i] as int in {8, 10, 13, 32}
    ensures Run(Start(pad + text, props)) == Run(Start(text, props))
    decreases |pad|
  {
    if pad == "" {
      assert pad + text == text;
    } else {
      Codes(pad[0]);
      TextAppends(pad, text);
      OneRound(Start(pad + text, props), Start(pad[1..] + text, props));
      PadIsDropped(pad[1..], text, props);
    }
  }

  /** All the separators between a key and its value are dropped, however many there are. */
  lemma {:induction false} SeparatorsAreDropped(seps: string, key: string, props: map<string, string>, after: string)
    requires forall i | 0 <= i < |seps| :: IsSeparatorCode(seps[i])
    requires after != "" && !IsSeparatorCode(after[0])
    ensures Run(Config(Delimiter, key, "", props, seps + after)) == Run(Config(Element, key, "", props, after))
    decreases |seps|
  {
    if seps == "" {
      assert seps + after == after;
      Codes(after[0]);
      OneRound(Config(Delimiter, key, "", props, after), Config(Element, key, "", props, after));
    } else {
      Codes(seps[0]);
      TextAppends(seps, after);
      OneRound(Config(Delimiter, key, "", props, seps + after), Config(Delimiter, key, "", props, seps[1..] + after));
      SeparatorsAreDropped(seps[1..], key, props, after);
    }
  }

  lemma PieceHead(pieces: seq<Piece>, after: string)
    requires pieces != []
    ensures var text := Text(pieces) + after; text != "" && text[0] == if pieces[0].Plain? then pieces[0].c else '\\'
  {
    assert PieceText(pieces[0])[0] == if pieces[0].Plain? then pieces[0].c else '\\';
  }

  /** A line that starts with neither a blank nor a comment mark starts a key. */
  lemma KeyBegins(text: string, props: map<string, string>)
    requires text != "" && text[0] as int !in {8, 10, 13, 32, 33, 35}
    ensures Run(Start(text, props)) == Run(Config(Key, "", "", props, text))
  {
    Codes(text[0]);
    OneRound(Start(text, props), Config(Key, "", "", props, text));
  }

  lemma KeyIsRead(key: seq<Piece>, after: string, props: map<string, string>)
    requires KeySpelling(key, after) && after != ""
    requires if key == [] then after[0] as int in {58, 61} else key[0].Plain? ==> key[0].c as int !in {33, 35}
    ensures Run(Start(Text(key) + after, props)) == Run(Config(Key, Meaning(key), "", props, after))
  {
    var text := Text(key) + after;
    if key == [] {
      assert text == after;
    } else {
      PieceHead(key, after);
      Codes('\\');
    }
    KeyBegins(text, props);
    KeyTextIsRead(key, "", props, after);
    assert "" + Meaning(key) == Meaning(key);
  }

  lemma FirstSeparatorEndsKey(seps: string, key: string, props: map<string, string>, after: string)
    requires seps != "" && forall i | 0 <= i < |seps| :: IsSeparatorCode(seps[i])
    requires after != "" && !IsSeparatorCode(after[0])
    ensures Run(Config(Key, key, "", props, seps + after)) == Run(Config(Element, key, "", props, after))
  {
    Codes(seps[0]);
    TextAppends(seps, after);
    OneRound(Config(Key, key, "", props, seps + after), Config(Delimiter, key, "", props, seps[1..] + after));
    SeparatorsAreDropped(seps[1..], key, props, after);
  }

  /** A value that starts with a separator has a backslash before it. */
  predicate StartsAValue(value: seq<Piece>) {
    value != [] && value[0].Plain? ==> !IsSeparatorCode(value[0].c)
  }

  lemma ValueIsRead(key: string, seps: string, value: seq<Piece>, end: char, rest: string, props: map<string, string>)
    requires seps != "" && forall i | 0 <= i < |seps| :: IsSeparatorCode(seps[i])
    requires ValueSpelling(value, [end] + rest) && StartsAValue(value) && IsEndCode(end)
    ensures Run(Config(Key, key, "", props, seps + (Text(value) + ([end] + rest))))
            == Run(Start(rest, props[key := Meaning(value)]))
  {
    var after := [end] + rest;
    var text := Text(value) + after;
    if value == [] {
      assert text == after;
    } else {
      PieceHead(value, after);
      Codes('\\');
    }
    FirstSeparatorEndsKey(seps, key, props, text);
    ValueTextIsRead(value, key, "", props, after);
    assert "" + Meaning(value) == Meaning(value);
    Codes(end);
    Cons(end, rest);
    OneRound(Config(Element, key, Meaning(value), props, after), Start(rest, props[key := Meaning(value)]));
  }

  /** An assignment: a key in any spelling, any number of separators, a value in any spelling, a line end.
      What follows is parsed as if it stood alone, with the key assigned. */
  lemma AssignmentIsRead(pad: string, key: seq<Piece>, seps: string, value: seq<Piece>, end: char, rest: string,
                         props: map<string, string>)
    requires forall i | 0 <= i < |pad| :: pad[i] as int in {8, 10, 13, 32}
    requires seps != "" && forall i | 0 <= i < |seps| :: IsSeparatorCode(seps[i])
    requires KeySpelling(key, seps + (Text(value) + ([end] + rest)))
    requires if key == [] then seps[0] as int in {58, 61} else key[0].Plain? ==> key[0].c as int !in {33, 35}
    requires ValueSpelling(value, [end] + rest) && StartsAValue(value) && IsEndCode(end)
    ensures var text := pad + (Text(key) + (seps + (Text(value) + ([end] + rest))));
            var then' := props[Meaning(key) := Meaning(value)];
            Parsed(text, props) == Parsed(rest, then') && (Ends(text, props) <==> Ends(rest, then'))
  {
    var line := seps + (Text(value) + ([end] + rest));
    assert line[0] == seps[0];
    PadIsDropped(pad, Text(key) + line, props);
    KeyIsRead(key, line, props);
    ValueIsRead(Meaning(key), seps, value, end, rest, props);
  }

  /** A key alone on its line gets the empty value. */
  lemma KeyAloneIsRead(pad: string, key: seq<Piece>, end: char, rest: string, props: map<string, string>)
    requires forall i | 0 <= i < |pad| :: pad[i] as int in {8, 10, 13, 32}
    requires key != [] && KeySpelling(key, [end] + rest) && IsEndCode(end)
    requires key[0].Plain? ==> key[0].c as int !in {33, 35}
    ensures var text := pad + (Text(key) + ([end] + rest));
            var then' := props[Meaning(key) := ""];
            Parsed(text, props) == Parsed(rest, then') && (Ends(text, props) <==> Ends(rest, then'))
  {
    var after := [end] + rest;
    PadIsDropped(pad, Text(key) + after, props);
    KeyIsRead(key, after, props);
    Codes(end);
    Cons(end, rest);
    OneRound(Config(Key, Meaning(key), "", props, after), Start(rest, props[Meaning(key) := ""]));
  }

  lemma {:induction false} CommentTextPasses(text: string, end: char, rest: string, props: map<string, string>)
    requires forall i | 0 <= i < |text| :: !IsEndCode(text[i])
    requires IsEndCode(end)
    ensures Run(Config(Comment, "", "", props, text + ([end] + rest))) == Run(Start(rest, props))
    decreases |text|
  {
    var after := [end] + rest;
    if text == "" {
      assert text + after == after;
      Codes(end);
      Cons(end, rest);
      OneRound(Config(Comment, "", "", props, after), Start(rest, props));
    } else {
      Codes(text[0]);
      TextAppends(text, after);
      OneRound(Config(Comment, "", "", props, text + after), Config(Comment, "", "", props, text[1..] + after));
      CommentTextPasses(text[1..], end, rest, props);
    }
  }

  /** A comment is dropped up to its line end, whatever it holds; a backslash does not continue it. */
  lemma CommentIsDropped(pad: string, mark: char, text: string, end: char, rest: string, props: map<string, string>)
    requires forall i | 0 <= i < |pad| :: pad[i] as int in {8, 10, 13, 32}
    requires mark as int in {33, 35} && IsEndCode(end)
    requires forall i | 0 <= i < |text| :: !IsEndCode(text[i])
    ensures var whole := pad + ([mark] + (text + ([end] + rest)));
            Parsed(whole, props) == Parsed(rest, props) && (Ends(whole, props) <==> Ends(rest, props))
  {
    var line := text + ([end] + rest);
    PadIsDropped(pad, [mark] + line, props);
    Codes(mark);
    Cons(mark, line);
    OneRound(Start([mark] + line, props), Config(Comment, "", "", props, line));
    CommentTextPasses(text, end, rest, props);
  }

  /** In a key a backslash before any other character stops the parser for ever. */
  lemma OtherEscapeHangs(pad: string, key: seq<Piece>, c: char, rest: string, props: map<string, string>)
    requires forall i | 0 <= i < |pad| :: pad[i] as int in {8, 10, 13, 32}
    requires KeySpelling(key, ['\\'] + ([c] + rest))
    requires key != [] && key[0].Plain? ==> key[0].c as int !in {33, 35}
    requires c as int !in {8, 10, 13, 32, 58, 61, 92}
    ensures !Ends(pad + (Text(key) + (['\\'] + ([c] + rest))), props)
  {
    var after := ['\\'] + ([c] + rest);
    PadIsDropped(pad, Text(key) + after, props);
    Codes('\\');
    Cons('\\', [c] + rest);
    if key == [] {
      assert Text(key) + after == after;
      KeyBegins(after, props);
    } else {
      KeyIsRead(key, after, props);
    }
    var named := Config(Key, if key == [] then "" else Meaning(key), "", props, after);
    OneRound(named, Config(KeyEscape, named.key, "", props, [c] + rest));
    Codes(c);
    assert Stuck(Config(KeyEscape, named.key, "", props, [c] + rest));
  }

  /** Without separators, escapes and continued lines: a plain key, some separators and a plain value. */
  function Plainly(s: string): seq<Piece> {
    if s == "" then [] else [Plain(s[0])] + Plainly(s[1..])
  }

  lemma {:induction false} PlainlyMeans(s: string, after: string)
    ensures Text(Plainly(s)) == s && Meaning(Plainly(s)) == s && Joined(Plainly(s), after)
    ensures |Plainly(s)| == |s| && forall i | 0 <= i < |s| :: Plainly(s)[i] == Plain(s[i])
  {
    if s != "" {
      PlainlyMeans(s[1..], after);
      assert Plainly(s)[1..] == Plainly(s[1..]);
      assert s == [s[0]] + s[1..];
    }
  }

  lemma PlainAssignment(key: string, seps: string, value: string, end: char, rest: string, props: map<string, string>)
    requires key != "" && key[0] as int !in {33, 35}
    requires forall i | 0 <= i < |key| :: key[i] as int !in {8, 10, 13, 32, 58, 61, 92}
    requires seps != "" && forall i | 0 <= i < |seps| :: seps[i] as int in {8, 32, 58, 61}
    requires forall i | 0 <= i < |value| :: value[i] as int !in {10, 13, 92}
    requires value != "" ==> value[0] as int !in {8, 32, 58, 61}
    requires end as int in {10, 13}
    ensures Parsed(key + (seps + (value + ([end] + rest))), props) == Parsed(rest, props[key := value])
  {
    PlainlyMeans(key, seps + (value + ([end] + rest)));
    PlainlyMeans(value, [end] + rest);
    var line := key + (seps + (value + ([end] + rest)));
    AssignmentIsRead("", Plainly(key), seps, Plainly(value), end, rest, props);
    assert "" + line == line;
  }

  /** The last line may lack its line end; without a key it is dropped then. */
  lemma LastLine(key: string, seps: string, value: string, props: map<string, string>)
    requires key != "" ==> key[0] as int !in {33, 35}
    requires forall i | 0 <= i < |key| :: key[i] as int !in {8, 10, 13, 32, 58, 61, 92}
    requires seps != "" && forall i | 0 <= i < |seps| :: seps[i] as int in {8, 32, 58, 61}
    requires key == "" ==> seps[0] as int in {58, 61}
    requires forall i | 0 <= i < |value| :: value[i] as int !in {10, 13, 92}
    requires value != "" && value[0] as int !in {8, 32, 58, 61}
    ensures Parsed(key + (seps + value), props) == if key == "" then props else props[key := value]
  {
    PlainlyMeans(key, seps + value);
    PlainlyMeans(value, "");
    assert (seps + value)[0] == seps[0];
    KeyIsRead(Plainly(key), seps + value, props);
    FirstSeparatorEndsKey(seps, key, props, value);
    ValueTextIsRead(Plainly(value), key, "", props, "");
    assert value + "" == value && "" + value == value;
  }
}

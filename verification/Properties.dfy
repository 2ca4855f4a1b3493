/** The property file parser: a state machine that looks at one character at a time and does not always
    consume it. Every char of a text stands for one byte. */
module Properties {
  import opened Common

  datatype Lexem =
    | Begin | Key | KeyEscape | KeyContinue | KeyContinue2 | Delimiter
    | Element | ElementEscape | ElementContinue | ElementContinue2 | Comment

  /** The parser between two rounds of its loop. The text starts with the current character; nothing
      is left once get has failed. */
  datatype Config = Config(lexem: Lexem, key: string, element: string, props: map<string, string>, text: string)

  /** What the source calls a tab is the backspace character. */
  const TAB := 8 as char
  const LF := 10 as char
  const CR := 13 as char

  predicate Blank(c: char) {
    c == ' ' || c == TAB
  }

  predicate LineEnd(c: char) {
    c == LF || c == CR
  }

  predicate Separator(c: char) {
    Blank(c) || c == ':' || c == '='
  }

  /** The characters a backslash in a key may be followed by. */
  predicate Listed(c: char) {
    Separator(c) || c == '\\' || LineEnd(c)
  }

  /** The switch over the escaped character has no case for it: the loop goes round without change. */
  predicate Stuck(cfg: Config) {
    cfg.lexem.KeyEscape? && cfg.text != "" && !Listed(cfg.text[0])
  }

  /** One round of the loop. */
  function Step(cfg: Config): Config
    requires cfg.text != ""
  {
    var c, rest := cfg.text[0], cfg.text[1..];
    match cfg.lexem
    case Begin =>
      if Blank(c) || LineEnd(c) then cfg.(text := rest)
      else if c == '#' || c == '!' then cfg.(lexem := Comment, text := rest)
      else cfg.(lexem := Key)
    case Key =>
      if c == '\\' then cfg.(lexem := KeyEscape, text := rest)
      else if Separator(c) then cfg.(lexem := Delimiter, text := rest)
      else if LineEnd(c) then cfg.(lexem := Begin, props := cfg.props[cfg.key := ""], key := "", text := rest)
      else cfg.(key := cfg.key + [c], text := rest)
    case KeyEscape =>
      if Separator(c) || c == '\\' then cfg.(lexem := Key, key := cfg.key + [c], text := rest)
      else if c == LF then cfg.(lexem := KeyContinue, text := rest)
      else if c == CR then cfg.(lexem := KeyContinue2, text := rest)
      else cfg
    case KeyContinue => if Blank(c) then cfg.(text := rest) else cfg.(lexem := Key)
    case KeyContinue2 => if c == LF then cfg.(lexem := KeyContinue, text := rest) else cfg.(lexem := KeyContinue)
    case Delimiter => if Separator(c) then cfg.(text := rest) else cfg.(lexem := Element)
    case Element =>
      if c == '\\' then cfg.(lexem := ElementEscape, text := rest)
      else if LineEnd(c) then
        cfg.(lexem := Begin, props := cfg.props[cfg.key := cfg.element], key := "", element := "", text := rest)
      else cfg.(element := cfg.element + [c], text := rest)
    case ElementEscape =>
      if c == LF then cfg.(lexem := ElementContinue, text := rest)
      else if c == CR then cfg.(lexem := ElementContinue2, text := rest)
      else cfg.(lexem := Element, element := cfg.element + [c], text := rest)
    case ElementContinue => if Blank(c) then cfg.(text := rest) else cfg.(lexem := Element)
    case ElementContinue2 =>
      if c == ' ' then cfg.(lexem := ElementContinue, text := rest) else cfg.(lexem := ElementContinue)
    case Comment => if LineEnd(c) then cfg.(lexem := Begin, text := rest) else cfg.(text := rest)
  }

  /** How many rounds may pass before a character is consumed. */
  function Rank(lexem: Lexem): nat {
    match lexem
    case KeyContinue2 => 2
    case ElementContinue2 => 2
    case Begin => 1
    case KeyContinue => 1
    case Delimiter => 1
    case ElementContinue => 1
    case _ => 0
  }

  /** The loop, up to its end or to the round it repeats for ever. */
  function Run(cfg: Config): (r: Config)
    ensures r.text == "" || Stuck(r)
    decreases |cfg.text|, Rank(cfg.lexem)
  {
    if cfg.text == "" || Stuck(cfg) then cfg else Run(Step(cfg))
  }

  function Start(text: string, props: map<string, string>): Config {
    Config(Begin, "", "", props, text)
  }

  /** The loop reaches the end of the text. */
  predicate Ends(text: string, props: map<string, string>) {
    !Stuck(Run(Start(text, props)))
  }

  /** The last line may lack its line end; an empty key is dropped then. */
  function Result(cfg: Config): map<string, string> {
    if cfg.key != "" then cfg.props[cfg.key := cfg.element] else cfg.props
  }

  function Parsed(text: string, props: map<string, string>): map<string, string> {
    Result(Run(Start(text, props)))
  }

  // ----- Which texts the loop reads to the end -----

  /** What a reader of the text needs to know about where he is. */
  datatype Place = LineStart | InKey | InValue | InComment

  function SkipBlanks(text: string): (r: string)
    ensures |r| <= |text|
  {
    if text != "" && Blank(text[0]) then SkipBlanks(text[1..]) else text
  }

  /** What is left of a key's text after a backslash and the character that follows it: a key broken by
      a line end goes on after the next line's blanks. */
  function AfterEscaped(c: char, rest: string): (r: string)
    ensures |r| <= |rest|
  {
    if c == LF then SkipBlanks(rest)
    else if c == CR then SkipBlanks(if rest != "" && rest[0] == LF then rest[1..] else rest)
    else rest
  }

  /** In a key every backslash is followed by a listed character. A key ends at its first separator or
      line end that no backslash precedes, a value at its first line end that no backslash precedes,
      a comment at its first line end. */
  predicate Readable(place: Place, text: string)
    decreases |text|, if place.LineStart? then 1 else 0
  {
    text == "" ||
    match place
    case LineStart =>
      if Blank(text[0]) || LineEnd(text[0]) then Readable(LineStart, text[1..])
      else if text[0] == '#' || text[0] == '!' then Readable(InComment, text[1..])
      else Readable(InKey, text)
    case InKey =>
      if text[0] == '\\' then |text| == 1 || (Listed(text[1]) && Readable(InKey, AfterEscaped(text[1], text[2..])))
      else Readable(if Separator(text[0]) then InValue else if LineEnd(text[0]) then LineStart else InKey, text[1..])
    case InValue =>
      if text[0] == '\\' then |text| == 1 || Readable(InValue, text[2..])
      else Readable(if LineEnd(text[0]) then LineStart else InValue, text[1..])
    case InComment => Readable(if LineEnd(text[0]) then LineStart else InComment, text[1..])
  }

  // ----- The loop -----

  method Get(text: string) returns (ok: bool, c: char, rest: string)
    ensures ok <==> text != ""
    ensures ok ==> text == [c] + rest
    ensures !ok ==> rest == ""
  {
    if text == "" {
      return false, 0 as char, "";
    }
    return true, text[0], text[1..];
  }

  /** What the current character and the unread input are together. */
  function Remaining(finished: bool, c: char, input: string): string {
    if finished then "" else [c] + input
  }

  /** Ends on every text on which the loop does not repeat a round for ever. */
  method Parse(text: string, properties: map<string, string>) returns (props: map<string, string>)
    requires Readable(LineStart, text)
    ensures props == Parsed(text, properties)
  {
    ReadsIff(Start(text, properties));
    var key, element, lexem := "", "", Begin;
    props := properties;
    var ok, c, input := Get(text);
    if !ok {
      return;
    }
    var finished := false;
    ghost var goal := Run(Start(text, properties));
    while !finished
      invariant Run(Config(lexem, key, element, props, Remaining(finished, c, input))) == goal
      decreases |Remaining(finished, c, input)|, Rank(lexem)
    {
      ghost var cfg := Config(lexem, key, element, props, Remaining(finished, c, input));
      assert cfg.text[0] == c && cfg.text[1..] == input && !Stuck(cfg);
      var consume := true;
      match lexem {
        case Begin =>
          if Blank(c) || LineEnd(c) {
          } else if c == '#' || c == '!' {
            lexem := Comment;
          } else {
            lexem := Key;
            consume := false;
          }
        case Key =>
          if c == '\\' {
            lexem := KeyEscape;
          } else if Separator(c) {
            lexem := Delimiter;
          } else if LineEnd(c) {
            props := props[key := ""];
            key := "";
            lexem := Begin;
          } else {
            key := key + [c];
          }
        case KeyEscape =>
          if Separator(c) || c == '\\' {
            key := key + [c];
            lexem := Key;
          } else if c == LF {
            lexem := KeyContinue;
          } else if c == CR {
            lexem := KeyContinue2;
          } else {
            consume := false;
          }
        case KeyContinue =>
          if !Blank(c) {
            lexem := Key;
            consume := false;
          }
        case KeyContinue2 =>
          consume := c == LF;
          lexem := KeyContinue;
        case Delimiter =>
          if !Separator(c) {
            lexem := Element;
            consume := false;
          }
        case Element =>
          if c == '\\' {
            lexem := ElementEscape;
          } else if LineEnd(c) {
            props := props[key := element];
            key := "";
            element := "";
            lexem := Begin;
          } else {
            element := element + [c];
          }
        case ElementEscape =>
          if c == LF {
            lexem := ElementContinue;
          } else if c == CR {
            lexem := ElementContinue2;
          } else {
            element := element + [c];
            lexem := Element;
          }
        case ElementContinue =>
          if !Blank(c) {
            lexem := Element;
            consume := false;
          }
        case ElementContinue2 =>
          consume := c == ' ';
          lexem := ElementContinue;
        case Comment =>
          if LineEnd(c) {
            lexem := Begin;
          }
      }
      if consume {
        ok, c, input := Get(input);
        finished := !ok;
      }
      assert Config(lexem, key, element, props, Remaining(finished, c, input)) == Step(cfg);
    }
    if key != "" {
      props := props[key := element];
    }
  }

  // ----- Termination -----

  function Rounds(cfg: Config, n: nat): Config
    decreases n
  {
    if n == 0 then cfg
    else if cfg.text == "" then cfg
    else Rounds(Step(cfg), n - 1)
  }

  lemma {:induction false} StuckForEver(cfg: Config, n: nat)
    requires Stuck(cfg)
    ensures Rounds(cfg, n) == cfg
  {
    if n > 0 {
      StuckForEver(Step(cfg), n - 1);
    }
  }

  lemma {:induction false} RunIsRounds(cfg: Config) returns (n: nat)
    ensures Rounds(cfg, n) == Run(cfg)
    decreases |cfg.text|, Rank(cfg.lexem)
  {
    if cfg.text == "" || Stuck(cfg) {
      n := 0;
    } else {
      var m := RunIsRounds(Step(cfg));
      n := m + 1;
    }
  }

  lemma {:induction false} RoundsRun(cfg: Config, n: nat)
    requires Rounds(cfg, n).text == ""
    ensures Run(cfg) == Rounds(cfg, n)
    decreases n
  {
    if n > 0 && cfg.text != "" {
      if Stuck(cfg) {
        StuckForEver(cfg, n);
      } else {
        RoundsRun(Step(cfg), n - 1);
      }
    }
  }

  /** The same from any state of the parser. */
  predicate Reads(lexem: Lexem, text: string) {
    match lexem
    case Begin => Readable(LineStart, text)
    case Key => Readable(InKey, text)
    case KeyEscape => text == "" || (Listed(text[0]) && Readable(InKey, AfterEscaped(text[0], text[1..])))
    case KeyContinue => Readable(InKey, SkipBlanks(text))
    case KeyContinue2 => Readable(InKey, AfterEscaped(CR, text))
    case ElementEscape => text == "" || Readable(InValue, text[1..])
    case Comment => Readable(InComment, text)
    case _ => Readable(InValue, text)
  }

  lemma KeyStepReads(cfg: Config)
    requires cfg.text != "" && !Stuck(cfg)
    requires cfg.lexem.Key? || cfg.lexem.KeyEscape? || cfg.lexem.KeyContinue? || cfg.lexem.KeyContinue2?
    ensures Reads(cfg.lexem, cfg.text) == Reads(Step(cfg).lexem, Step(cfg).text)
  {
    assert |cfg.text| > 1 ==> cfg.text[1..][0] == cfg.text[1] && cfg.text[1..][1..] == cfg.text[2..];
  }

  lemma StepReads(cfg: Config)
    requires cfg.text != "" && !Stuck(cfg)
    ensures Reads(cfg.lexem, cfg.text) == Reads(Step(cfg).lexem, Step(cfg).text)
  {
    if cfg.lexem.Key? || cfg.lexem.KeyEscape? || cfg.lexem.KeyContinue? || cfg.lexem.KeyContinue2? {
      KeyStepReads(cfg);
    } else {
      assert |cfg.text| > 1 ==> cfg.text[1..][0] == cfg.text[1] && cfg.text[1..][1..] == cfg.text[2..];
    }
  }

  lemma {:induction false} ReadsIff(cfg: Config)
    ensures !Stuck(Run(cfg)) <==> Reads(cfg.lexem, cfg.text)
    decreases |cfg.text|, Rank(cfg.lexem)
  {
    if cfg.text != "" && !Stuck(cfg) {
      StepReads(cfg);
      ReadsIff(Step(cfg));
    }
  }

  /** The loop ends after some number of rounds exactly on the readable texts, whatever the properties
      were before. */
  lemma EndsIff(text: string, props: map<string, string>)
    ensures Readable(LineStart, text) <==> exists n: nat :: Rounds(Start(text, props), n).text == ""
    ensures Readable(LineStart, text) <==> Ends(text, props)
  {
    var cfg := Start(text, props);
    ReadsIff(cfg);
    if Ends(text, props) {
      var n := RunIsRounds(cfg);
      assert Rounds(cfg, n).text == "";
    }
    if n: nat :| Rounds(cfg, n).text == "" {
      RoundsRun(cfg, n);
    }
  }

  /** In terms of the text alone: listed characters after every backslash are enough. */
  ghost predicate BackslashesListed(text: string) {
    forall i | 0 <= i < |text| - 1 && text[i] == '\\' :: Listed(text[i + 1])
  }

  lemma TailListed(text: string)
    requires BackslashesListed(text) && text != ""
    ensures BackslashesListed(text[1..])
  {
    forall i | 0 <= i < |text[1..]| - 1 && text[1..][i] == '\\' ensures Listed(text[1..][i + 1]) {
      assert text[i + 1] == '\\';
    }
  }

  lemma {:induction false} NeverStuck(cfg: Config)
    requires BackslashesListed(cfg.text) && (cfg.lexem.KeyEscape? && cfg.text != "" ==> Listed(cfg.text[0]))
    ensures !Stuck(Run(cfg))
    decreases |cfg.text|, Rank(cfg.lexem)
  {
    if cfg.text != "" {
      var next := Step(cfg);
      assert next.text == cfg.text || next.text == cfg.text[1..];
      TailListed(cfg.text);
      NeverStuck(next);
    }
  }

  lemma ListedBackslashesEnd(text: string, props: map<string, string>)
    requires BackslashesListed(text)
    ensures Ends(text, props)
  {
    NeverStuck(Start(text, props));
  }

  // ----- Line by line -----

  /** Between lines nothing is remembered; an element is only collected after a delimiter. */
  predicate Tidy(cfg: Config) {
    match cfg.lexem
    case Begin => cfg.key == "" && cfg.element == ""
    case Comment => cfg.key == "" && cfg.element == ""
    case Element => true
    case ElementEscape => true
    case ElementContinue => true
    case ElementContinue2 => true
    case _ => cfg.element == ""
  }

  lemma {:induction false} RunIsTidy(cfg: Config)
    requires Tidy(cfg)
    ensures Tidy(Run(cfg))
    decreases |cfg.text|, Rank(cfg.lexem)
  {
    if cfg.text != "" && !Stuck(cfg) {
      RunIsTidy(Step(cfg));
    }
  }

  lemma StepAppends(cfg: Config, later: string)
    requires cfg.text != ""
    ensures Step(cfg.(text := cfg.text + later)) == Step(cfg).(text := Step(cfg).text + later)
  {
    if InElement(cfg.lexem) {
      ElementStepAppends(cfg, later);
    } else {
      KeyStepAppends(cfg, later);
    }
  }

  predicate InElement(lexem: Lexem) {
    lexem.Element? || lexem.ElementEscape? || lexem.ElementContinue? || lexem.ElementContinue2? || lexem.Comment?
  }

  lemma TextAppends(text: string, later: string)
    requires text != ""
    ensures (text + later)[0] == text[0] && (text + later)[1..] == text[1..] + later
  {
  }

  lemma ElementStepAppends(cfg: Config, later: string)
    requires cfg.text != "" && InElement(cfg.lexem)
    ensures Step(cfg.(text := cfg.text + later)) == Step(cfg).(text := Step(cfg).text + later)
  {
    TextAppends(cfg.text, later);
  }

  lemma KeyStepAppends(cfg: Config, later: string)
    requires cfg.text != "" && !InElement(cfg.lexem)
    ensures Step(cfg.(text := cfg.text + later)) == Step(cfg).(text := Step(cfg).text + later)
  {
    TextAppends(cfg.text, later);
  }

  /** More text only continues the run. */
  lemma {:induction false} RunAppends(cfg: Config, later: string)
    requires !Stuck(Run(cfg))
    ensures Run(cfg.(text := cfg.text + later)) == Run(Run(cfg).(text := later))
    decreases |cfg.text|, Rank(cfg.lexem)
  {
    if cfg.text == "" {
      assert cfg.text + later == later;
    } else {
      StepAppends(cfg, later);
      RunAppends(Step(cfg), later);
    }
  }

  /** Lines are independent: when a text ends back at the beginning of a line, what follows is parsed
      into its result as if it stood alone. */
  lemma Locality(a: string, b: string, props: map<string, string>)
    requires Ends(a, props) && Run(Start(a, props)).lexem.Begin?
    ensures Parsed(a + b, props) == Parsed(b, Parsed(a, props))
    ensures Ends(a + b, props) <==> Ends(b, Parsed(a, props))
  {
    RunIsTidy(Start(a, props));
    RunAppends(Start(a, props), b);
  }

  // ----- Round trip -----

  function EscapeChar(c: char): string {
    if Separator(c) || c == '\\' then ['\\', c] else [c]
  }

  function Escape(s: string): string {
    if s == "" then "" else EscapeChar(s[0]) + Escape(s[1..])
  }

  datatype Pair = Pair(key: string, value: string)

  /** A key that looks like a comment is written after a broken line. */
  function KeyText(key: string): string {
    (if key != "" && (key[0] == '#' || key[0] == '!') then ['\\', LF] else []) + Escape(key)
  }

  function Line(p: Pair): string {
    KeyText(p.key) + ("=" + (Escape(p.value) + [LF]))
  }

  function Lines(pairs: seq<Pair>): string {
    if pairs == [] then "" else Line(pairs[0]) + Lines(pairs[1..])
  }

  /** Assigning the pairs in turn. */
  function Assigned(props: map<string, string>, pairs: seq<Pair>): map<string, string>
    decreases |pairs|
  {
    if pairs == [] then props else Assigned(props[pairs[0].key := pairs[0].value], pairs[1..])
  }

  ghost predicate NoLineEnds(s: string) {
    forall i | 0 <= i < |s| :: !LineEnd(s[i])
  }

  ghost predicate Storable(p: Pair) {
    NoLineEnds(p.key) && NoLineEnds(p.value)
  }

  lemma OneRound(cfg: Config, next: Config)
    requires cfg.text != "" && !Stuck(cfg) && Step(cfg) == next
    ensures Run(cfg) == Run(next)
  {
  }

  lemma Cons(c: char, rest: string)
    ensures ([c] + rest)[0] == c && ([c] + rest)[1..] == rest
  {
  }

  /** One escaped character, in a key or in an element. */
  lemma CharacterReads(c: char, later: string, key: string, element: string, props: map<string, string>)
    requires !LineEnd(c)
    ensures Run(Config(Key, key, "", props, EscapeChar(c) + later)) == Run(Config(Key, key + [c], "", props, later))
    ensures Run(Config(Element, key, element, props, EscapeChar(c) + later))
            == Run(Config(Element, key, element + [c], props, later))
  {
    var text := EscapeChar(c) + later;
    if |EscapeChar(c)| == 2 {
      assert text[1..] == [c] + later && text[1..][1..] == later;
      assert Step(Config(Key, key, "", props, text)) == Config(KeyEscape, key, "", props, [c] + later);
      assert Step(Config(Element, key, element, props, text))
             == Config(ElementEscape, key, element, props, [c] + later);
    } else {
      assert text[1..] == later;
    }
  }

  lemma {:induction false} KeyReads(s: string, key: string, props: map<string, string>, rest: string)
    requires NoLineEnds(s)
    ensures Run(Config(Key, key, "", props, Escape(s) + rest)) == Run(Config(Key, key + s, "", props, rest))
    decreases |s|
  {
    if s == "" {
      assert Escape(s) + rest == rest && key + s == key;
    } else {
      Assoc(EscapeChar(s[0]), Escape(s[1..]), rest);
      CharacterReads(s[0], Escape(s[1..]) + rest, key, "", props);
      KeyReads(s[1..], key + [s[0]], props, rest);
      SplitFirst(key, s);
    }
  }

  lemma {:induction false} ElementReads(s: string, key: string, element: string, props: map<string, string>,
                                        rest: string)
    requires NoLineEnds(s)
    ensures Run(Config(Element, key, element, props, Escape(s) + rest))
            == Run(Config(Element, key, element + s, props, rest))
    decreases |s|
  {
    if s == "" {
      assert Escape(s) + rest == rest && element + s == element;
    } else {
      Assoc(EscapeChar(s[0]), Escape(s[1..]), rest);
      CharacterReads(s[0], Escape(s[1..]) + rest, key, element, props);
      ElementReads(s[1..], key, element + [s[0]], props, rest);
      SplitFirst(element, s);
    }
  }

  /** The delimiter state passes on at once: no value starts with a bare separator. */
  lemma DelimiterPasses(key: string, value: string, props: map<string, string>, rest: string)
    ensures var text := Escape(value) + ([LF] + rest);
            Run(Config(Delimiter, key, "", props, text)) == Run(Config(Element, key, "", props, text))
  {
    var text := Escape(value) + ([LF] + rest);
    if value == "" {
      assert text == [LF] + rest;
    } else {
      Assoc(EscapeChar(value[0]), Escape(value[1..]), [LF] + rest);
    }
    assert text != "" && !Separator(text[0]);
    OneRound(Config(Delimiter, key, "", props, text), Config(Element, key, "", props, text));
  }

  lemma ValueReads(key: string, value: string, props: map<string, string>, rest: string)
    requires NoLineEnds(value)
    ensures Run(Config(Key, key, "", props, "=" + (Escape(value) + ([LF] + rest))))
            == Run(Start(rest, props[key := value]))
  {
    var text := Escape(value) + ([LF] + rest);
    Cons('=', text);
    OneRound(Config(Key, key, "", props, "=" + text), Config(Delimiter, key, "", props, text));
    DelimiterPasses(key, value, props, rest);
    ElementReads(value, key, "", props, [LF] + rest);
    assert "" + value == value;
    Cons(LF, rest);
    OneRound(Config(Element, key, value, props, [LF] + rest), Start(rest, props[key := value]));
  }

  /** From the beginning of a line to the end of a key. */
  lemma KeyTextReads(key: string, props: map<string, string>, rest: string)
    requires NoLineEnds(key)
    ensures Run(Start(KeyText(key) + ("=" + rest), props)) == Run(Config(Key, key, "", props, "=" + rest))
  {
    var tail := "=" + rest;
    var text := Escape(key) + tail;
    assert "" + key == key;
    KeyReads(key, "", props, tail);
    if key != "" && (key[0] == '#' || key[0] == '!') {
      Assoc(['\\', LF], Escape(key), tail);
      MarkedKeyBegins(key, tail);
      BrokenKeyReads(text, props);
    } else {
      assert [] + Escape(key) == Escape(key);
      PlainKeyBegins(key, tail);
      OneRound(Start(text, props), Config(Key, "", "", props, text));
    }
  }

  lemma MarksAreOrdinary(c: char)
    requires c == '#' || c == '!' || c == '='
    ensures !Blank(c) && !LineEnd(c) && c != '\\' && (c != '=' ==> !Separator(c))
    ensures c == '=' ==> c != '#' && c != '!'
  {
    assert '#' as int == 35 && '!' as int == 33 && '=' as int == 61 && ' ' as int == 32 && ':' as int == 58;
  }

  lemma MarkedKeyBegins(key: string, tail: string)
    requires key != "" && (key[0] == '#' || key[0] == '!')
    ensures var text := Escape(key) + tail; text != "" && text[0] == key[0] && !Blank(text[0])
  {
    MarksAreOrdinary(key[0]);
    assert EscapeChar(key[0]) == [key[0]];
    assert (Escape(key) + tail)[0] == EscapeChar(key[0])[0];
  }

  /** A key that does not look like a comment begins neither with a blank nor with a mark. */
  lemma PlainKeyBegins(key: string, tail: string)
    requires NoLineEnds(key) && tail != "" && tail[0] == '='
    requires key != "" ==> key[0] != '#' && key[0] != '!'
    ensures var text := Escape(key) + tail;
            text != "" && !Blank(text[0]) && !LineEnd(text[0]) && text[0] != '#' && text[0] != '!'
  {
    MarksAreOrdinary('=');
    if key == "" {
      assert Escape(key) + tail == tail;
    } else {
      assert (Escape(key) + tail)[0] == EscapeChar(key[0])[0];
    }
  }

  lemma BrokenKeyReads(text: string, props: map<string, string>)
    requires text != "" && !Blank(text[0])
    ensures Run(Start(['\\', LF] + text, props)) == Run(Config(Key, "", "", props, text))
  {
    var whole := ['\\', LF] + text;
    assert whole[1..] == [LF] + text && ([LF] + text)[1..] == text;
    OneRound(Start(whole, props), Config(Key, "", "", props, whole));
    OneRound(Config(Key, "", "", props, whole), Config(KeyEscape, "", "", props, [LF] + text));
    OneRound(Config(KeyEscape, "", "", props, [LF] + text), Config(KeyContinue, "", "", props, text));
    OneRound(Config(KeyContinue, "", "", props, text), Config(Key, "", "", props, text));
  }

  lemma LineReads(p: Pair, props: map<string, string>, rest: string)
    requires Storable(p)
    ensures Run(Start(Line(p) + rest, props)) == Run(Start(rest, props[p.key := p.value]))
  {
    LineText(KeyText(p.key), Escape(p.value), rest);
    KeyTextReads(p.key, props, Escape(p.value) + ([LF] + rest));
    ValueReads(p.key, p.value, props, rest);
  }

  lemma LineText(key: string, value: string, rest: string)
    ensures key + ("=" + (value + [LF])) + rest == key + ("=" + (value + ([LF] + rest)))
  {
  }

  /** Writing pairs and parsing the text assigns exactly those pairs, in turn; the parser always
      reaches the end of such a text. */
  lemma {:induction false} RoundTrip(pairs: seq<Pair>, props: map<string, string>)
    requires forall i | 0 <= i < |pairs| :: Storable(pairs[i])
    ensures Ends(Lines(pairs), props) && Parsed(Lines(pairs), props) == Assigned(props, pairs)
    decreases |pairs|
  {
    if pairs != [] {
      LineReads(pairs[0], props, Lines(pairs[1..]));
      RoundTrip(pairs[1..], props[pairs[0].key := pairs[0].value]);
    }
  }

  lemma {:induction false} AssignedAll(pairs: seq<Pair>, props: map<string, string>, m: map<string, string>)
    requires forall i | 0 <= i < |pairs| :: pairs[i].key in m && m[pairs[i].key] == pairs[i].value
    requires forall k | k in props :: k in m && m[k] == props[k]
    requires forall k | k in m :: k in props || exists i | 0 <= i < |pairs| :: pairs[i].key == k
    ensures Assigned(props, pairs) == m
    decreases |pairs|
  {
    if pairs == [] {
      assert props == m;
    } else {
      var next := props[pairs[0].key := pairs[0].value];
      forall k | k in m && k !in next ensures exists i | 0 <= i < |pairs[1..]| :: pairs[1..][i].key == k {
        var i :| 0 <= i < |pairs| && pairs[i].key == k;
        assert pairs[1..][i - 1].key == k;
      }
      AssignedAll(pairs[1..], next, m);
    }
  }

  /** The round trip for a map: its pairs, written in any order, parse to exactly that map. */
  lemma MapRoundTrip(m: map<string, string>, pairs: seq<Pair>)
    requires forall i | 0 <= i < |pairs| :: Storable(pairs[i]) && pairs[i].key in m && m[pairs[i].key] == pairs[i].value
    requires forall k | k in m :: exists i | 0 <= i < |pairs| :: pairs[i].key == k
    ensures Ends(Lines(pairs), map[]) && Parsed(Lines(pairs), map[]) == m
  {
    RoundTrip(pairs, map[]);
    AssignedAll(pairs, map[], m);
  }

  // ----- What the format can hold -----

  ghost predicate Clean(props: map<string, string>) {
    forall k | k in props :: NoLineEnds(k) && NoLineEnds(props[k])
  }

  lemma CleanStep(cfg: Config)
    requires cfg.text != "" && NoLineEnds(cfg.key) && NoLineEnds(cfg.element) && Clean(cfg.props)
    ensures var next := Step(cfg); NoLineEnds(next.key) && NoLineEnds(next.element) && Clean(next.props)
  {
  }

  /** Whatever the text, no line end comes into a key or a value. */
  lemma {:induction false} RunIsClean(cfg: Config)
    requires NoLineEnds(cfg.key) && NoLineEnds(cfg.element) && Clean(cfg.props)
    ensures var end := Run(cfg); NoLineEnds(end.key) && NoLineEnds(end.element) && Clean(end.props)
    decreases |cfg.text|, Rank(cfg.lexem)
  {
    if cfg.text != "" && !Stuck(cfg) {
      CleanStep(cfg);
      RunIsClean(Step(cfg));
    }
  }

  /** The pairs of a map in some order. */
  lemma {:induction false} PairsOf(m: map<string, string>) returns (pairs: seq<Pair>)
    ensures forall i | 0 <= i < |pairs| :: pairs[i].key in m && m[pairs[i].key] == pairs[i].value
    ensures forall k | k in m :: exists i | 0 <= i < |pairs| :: pairs[i].key == k
    decreases |m|
  {
    if m == map[] {
      pairs := [];
    } else {
      var k :| k in m;
      var rest := PairsOf(m - {k});
      pairs := [Pair(k, m[k])] + rest;
      assert pairs[0].key == k;
      forall x | x in m && x != k ensures exists i | 0 <= i < |pairs| :: pairs[i].key == x {
        assert x in m - {k};
        var i :| 0 <= i < |rest| && rest[i].key == x;
        assert pairs[i + 1].key == x;
      }
    }
  }

  ghost predicate Holds(m: map<string, string>) {
    exists text :: Readable(LineStart, text) && Parsed(text, map[]) == m
  }

  /** Exactly the maps that some text parses to: those without line ends in keys and values. */
  lemma HoldsIff(m: map<string, string>)
    ensures Holds(m) <==> Clean(m)
  {
    if Clean(m) {
      var pairs := PairsOf(m);
      MapRoundTrip(m, pairs);
      EndsIff(Lines(pairs), map[]);
    }
    if text :| Readable(LineStart, text) && Parsed(text, map[]) == m {
      RunIsClean(Start(text, map[]));
    }
  }

  // ----- Keys that look like comments -----

  /** Why a key that starts with a comment mark needs the broken line: with the bare mark the line is
      dropped, and with the mark escaped it is where the parser stays for ever. */
  lemma DirectSpellingsFail(mark: char, rest: string, props: map<string, string>)
    requires mark == '#' || mark == '!'
    ensures Run(Start([mark] + rest, props)) == Run(Config(Comment, "", "", props, rest))
    ensures !Ends(['\\'] + ([mark] + rest), props)
  {
    Cons(mark, rest);
    OneRound(Start([mark] + rest, props), Config(Comment, "", "", props, rest));
    var escaped := ['\\'] + ([mark] + rest);
    Cons('\\', [mark] + rest);
    OneRound(Start(escaped, props), Config(Key, "", "", props, escaped));
    OneRound(Config(Key, "", "", props, escaped), Config(KeyEscape, "", "", props, [mark] + rest));
    assert Stuck(Config(KeyEscape, "", "", props, [mark] + rest));
  }

  // ----- Values over several lines -----

  /** Blanks at the beginning of a continuation line are dropped. The two runs may end in different
      states, but with the same properties. */
  lemma {:induction false} BlanksAreSkipped(key: string, element: string, props: map<string, string>, rest: string)
    ensures Result(Run(Config(ElementContinue, key, element, props, rest)))
            == Result(Run(Config(Element, key, element, props, SkipBlanks(rest))))
    decreases |rest|
  {
    if rest != "" {
      if Blank(rest[0]) {
        OneRound(Config(ElementContinue, key, element, props, rest),
                 Config(ElementContinue, key, element, props, rest[1..]));
        BlanksAreSkipped(key, element, props, rest[1..]);
      } else {
        OneRound(Config(ElementContinue, key, element, props, rest), Config(Element, key, element, props, rest));
      }
    }
  }

  lemma LfContinues(key: string, element: string, props: map<string, string>, rest: string)
    ensures Run(Config(Element, key, element, props, ['\\'] + ([LF] + rest)))
            == Run(Config(ElementContinue, key, element, props, rest))
  {
    Cons('\\', [LF] + rest);
    Cons(LF, rest);
    OneRound(Config(Element, key, element, props, ['\\'] + ([LF] + rest)),
             Config(ElementEscape, key, element, props, [LF] + rest));
    OneRound(Config(ElementEscape, key, element, props, [LF] + rest),
             Config(ElementContinue, key, element, props, rest));
  }

  lemma CrContinues(key: string, element: string, props: map<string, string>, rest: string)
    requires rest != "" ==> rest[0] != LF
    ensures Result(Run(Config(Element, key, element, props, ['\\'] + ([CR] + rest))))
            == Result(Run(Config(ElementContinue, key, element, props, rest)))
  {
    Cons('\\', [CR] + rest);
    Cons(CR, rest);
    OneRound(Config(Element, key, element, props, ['\\'] + ([CR] + rest)),
             Config(ElementEscape, key, element, props, [CR] + rest));
    OneRound(Config(ElementEscape, key, element, props, [CR] + rest),
             Config(ElementContinue2, key, element, props, rest));
    if rest != "" && rest[0] == ' ' {
      OneRound(Config(ElementContinue2, key, element, props, rest),
               Config(ElementContinue, key, element, props, rest[1..]));
      OneRound(Config(ElementContinue, key, element, props, rest),
               Config(ElementContinue, key, element, props, rest[1..]));
    } else if rest != "" {
      OneRound(Config(ElementContinue2, key, element, props, rest), Config(ElementContinue, key, element, props, rest));
    }
  }

  /** Continued with CR LF it ends there: the state after the CR waits for a space, not for LF. */
  lemma CrLfEndsTheValue(key: string, element: string, props: map<string, string>, rest: string)
    ensures Run(Config(Element, key, element, props, ['\\'] + ([CR] + ([LF] + rest))))
            == Run(Start(rest, props[key := element]))
  {
    var lf := [LF] + rest;
    Cons('\\', [CR] + lf);
    Cons(CR, lf);
    Cons(LF, rest);
    OneRound(Config(Element, key, element, props, ['\\'] + ([CR] + lf)),
             Config(ElementEscape, key, element, props, [CR] + lf));
    OneRound(Config(ElementEscape, key, element, props, [CR] + lf), Config(ElementContinue2, key, element, props, lf));
    OneRound(Config(ElementContinue2, key, element, props, lf), Config(ElementContinue, key, element, props, lf));
    OneRound(Config(ElementContinue, key, element, props, lf), Config(Element, key, element, props, lf));
    OneRound(Config(Element, key, element, props, lf), Start(rest, props[key := element]));
  }

  datatype Break = Lf | Cr | CrLf

  /** The text of a line break, and whether the break is all of it. */
  function BreakText(b: Break): string {
    match b
    case Lf => [LF]
    case Cr => [CR]
    case CrLf => [CR] + [LF]
  }

  predicate Complete(b: Break, rest: string) {
    b.Cr? && rest != "" ==> rest[0] != LF
  }

  /** After a backslash and this break a value goes on with what follows the next line's blanks. */
  ghost predicate Continues(b: Break) {
    forall key, element, props, rest | Complete(b, rest) ::
      Result(Run(Config(Element, key, element, props, ['\\'] + (BreakText(b) + rest))))
      == Result(Run(Config(Element, key, element, props, SkipBlanks(rest))))
  }

  /** The exact condition: every line break but CR LF. */
  lemma ContinuesIff(b: Break)
    ensures Continues(b) <==> !b.CrLf?
  {
    if b.CrLf? {
      var c := 'x';
      assert c as int == 120 && Ordinary(c);
      OneLetterLost(['k'], c);
      assert Complete(b, [c]);
    } else {
      forall key, element, props, rest | Complete(b, rest)
        ensures Result(Run(Config(Element, key, element, props, ['\\'] + (BreakText(b) + rest))))
                == Result(Run(Config(Element, key, element, props, SkipBlanks(rest))))
      {
        if b.Lf? {
          LfContinues(key, element, props, rest);
        } else {
          CrContinues(key, element, props, rest);
        }
        BlanksAreSkipped(key, element, props, rest);
      }
    }
  }

  /** A character without a meaning of its own. */
  predicate Ordinary(c: char) {
    !Separator(c) && !LineEnd(c) && c != '\\' && c != '#' && c != '!'
  }

  /** With CR LF a key keeps the value read so far, here none, instead of getting the letter on the next
      line. */
  lemma OneLetterLost(key: string, c: char)
    requires key != "" && key != [c] && Ordinary(c)
    ensures Result(Run(Config(Element, key, "", map[], ['\\'] + (BreakText(CrLf) + [c]))))
            != Result(Run(Config(Element, key, "", map[], SkipBlanks([c]))))
  {
    var none: map<string, string> := map[];
    var props := none[key := ""];
    assert BreakText(CrLf) + [c] == [CR] + ([LF] + [c]);
    CrLfEndsTheValue(key, "", none, [c]);
    LetterReads(c, props, none, key);
    assert Result(Config(Key, [c], "", props, ""))[key] == "";
    assert Result(Config(Element, key, [c], none, ""))[key] == [c];
  }

  lemma LetterReads(c: char, props: map<string, string>, none: map<string, string>, key: string)
    requires Ordinary(c)
    ensures Run(Start([c], props)) == Config(Key, [c], "", props, "")
    ensures Run(Config(Element, key, "", none, SkipBlanks([c]))) == Config(Element, key, [c], none, "")
  {
    assert [c][1..] == "" && "" + [c] == [c];
    OneRound(Start([c], props), Config(Key, "", "", props, [c]));
    OneRound(Config(Key, "", "", props, [c]), Config(Key, [c], "", props, ""));
    OneRound(Config(Element, key, "", none, [c]), Config(Element, key, [c], none, ""));
  }
}

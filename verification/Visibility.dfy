/** The grammar, the evaluator and the entry point of visibility evaluation, and the proof that
    the pipeline of textual replacement, backtracking parse and evaluation means "the marking is
    among the authorisations". */
module Visibility {
  import opened Common
  import opened VisibilityText

  // ----- The grammar over characters -----

  datatype Expr = Var(name: string) | Not(e: Expr) | And(l: Expr, r: Expr) | Or(l: Expr, r: Expr)

  /** A rule matches, does not match (the caller may backtrack), or runs into a failed expectation
      point, which is thrown through every enclosing rule. */
  datatype Parsed<E, S> = Match(e: E, rest: S) | NoMatch | Thrown

  /** The space skipper. */
  function Skip(s: string): (r: string)
    ensures |r| <= |s|
    ensures NoSpaces(s) ==> r == s
  {
    if s != "" && IsSpace(s[0]) then Skip(s[1..]) else s
  }

  predicate Ahead(c: char, s: string) {
    Skip(s) != "" && Skip(s)[0] == c
  }

  function After(s: string): string
    requires Skip(s) != ""
    ensures |After(s)| < |s|
  {
    Skip(s)[1..]
  }

  function WordLength(s: string): (n: nat)
    ensures n <= |s|
  {
    if s == "" || !IsAlnum(s[0]) then 0 else 1 + WordLength(s[1..])
  }

  /** or_ = and_ >> '|' >> or_ | and_ */
  function ParseOr(s: string): (p: Parsed<Expr, string>)
    ensures p.Match? ==> |p.rest| < |s|
    decreases |s|, 3
  {
    match ParseAnd(s)
    case Thrown => Thrown
    case NoMatch => ParseAnd(s)
    case Match(l, rest) =>
      if Ahead('|', rest) then
        match ParseOr(After(rest))
        case Match(r, rest') => Match(Or(l, r), rest')
        case NoMatch => ParseAnd(s)
        case Thrown => Thrown
      else ParseAnd(s)
  }

  /** and_ = not_ >> '&' >> and_ | not_ */
  function ParseAnd(s: string): (p: Parsed<Expr, string>)
    ensures p.Match? ==> |p.rest| < |s|
    decreases |s|, 2
  {
    match ParseNot(s)
    case Thrown => Thrown
    case NoMatch => ParseNot(s)
    case Match(l, rest) =>
      if Ahead('&', rest) then
        match ParseAnd(After(rest))
        case Match(r, rest') => Match(And(l, r), rest')
        case NoMatch => ParseNot(s)
        case Thrown => Thrown
      else ParseNot(s)
  }

  /** not_ = '!' > simple_ | simple_ */
  function ParseNot(s: string): (p: Parsed<Expr, string>)
    ensures p.Match? ==> |p.rest| < |s|
    decreases |s|, 1
  {
    if Ahead('!', s) then
      match ParseSimple(After(s))
      case Match(e, rest) => Match(Not(e), rest)
      case _ => Thrown
    else ParseSimple(s)
  }

  /** simple_ = '(' > expr_ > ')' | var_, where var_ is a lexeme of letters and digits */
  function ParseSimple(s: string): (p: Parsed<Expr, string>)
    ensures p.Match? ==> |p.rest| < |s|
    decreases |s|, 0
  {
    if Ahead('(', s) then
      match ParseOr(After(s))
      case Match(e, rest) => if Ahead(')', rest) then Match(e, After(rest)) else Thrown
      case _ => Thrown
    else
      var t := Skip(s);
      var n := WordLength(t);
      if n > 0 then Match(Var(t[..n]), t[n..]) else NoMatch
  }

  // ----- Evaluation -----

  datatype Outcome = Value(b: bool) | CouldNotParse | ExpectationFailure | BadCast

  /** lexical_cast<bool> of letters and digits: zeros and then one 0 or 1. */
  function LexicalCast(v: string): Outcome {
    if v == "0" then Value(false)
    else if v == "1" then Value(true)
    else if |v| > 1 && v[0] == '0' then LexicalCast(v[1..])
    else BadCast
  }

  function EvalWord(v: string): Outcome {
    if v == TRUE_REPLACE then Value(true)
    else if v == FALSE_REPLACE then Value(false)
    else LexicalCast(v)
  }

  function Eval(e: Expr): Outcome {
    match e
    case Var(v) => EvalWord(v)
    case Not(x) => var o := Eval(x); if o.Value? then Value(!o.b) else o
    case And(l, r) => var o := Eval(l); if o == Value(true) then Eval(r) else o
    case Or(l, r) => var o := Eval(l); if o == Value(false) then Eval(r) else o
  }

  /** phrase_parse of `p > ';'`, then evaluation. */
  function EvaluateParsable(parsable: string): Outcome {
    match ParseOr(parsable)
    case NoMatch => CouldNotParse
    case Thrown => ExpectationFailure
    case Match(e, rest) => if Ahead(';', rest) then Eval(e) else ExpectationFailure
  }

  // ----- Concrete syntax: what an expression text may look like -----

  datatype Tree = Leaf(name: string) | Neg(t: Tree) | Conj(l: Tree, r: Tree) | Disj(l: Tree, r: Tree) | Group(t: Tree)

  /** Negation binds only to a marking or a group; both binary operators nest to the right. */
  ghost predicate IsSimple(t: Tree)
    decreases t, 0
  {
    match t
    case Leaf(m) => IsMarking(m)
    case Group(x) => IsOr(x)
    case _ => false
  }

  ghost predicate IsNot(t: Tree)
    decreases t, 1
  {
    if t.Neg? then IsSimple(t.t) else IsSimple(t)
  }

  ghost predicate IsAnd(t: Tree)
    decreases t, 2
  {
    if t.Conj? then IsNot(t.l) && IsAnd(t.r) else IsNot(t)
  }

  ghost predicate IsOr(t: Tree)
    decreases t, 3
  {
    if t.Disj? then IsAnd(t.l) && IsOr(t.r) else IsAnd(t)
  }

  function Tokens(t: Tree): seq<Token> {
    match t
    case Leaf(m) => [Mark(m)]
    case Neg(x) => [Op('!')] + Tokens(x)
    case Conj(l, r) => Tokens(l) + [Op('&')] + Tokens(r)
    case Disj(l, r) => Tokens(l) + [Op('|')] + Tokens(r)
    case Group(x) => [Op('(')] + Tokens(x) + [Op(')')]
  }

  function Text(t: Tree): string {
    Render(Tokens(t))
  }

  function Meaning(t: Tree, auths: set<string>): bool {
    match t
    case Leaf(m) => m in auths
    case Neg(x) => !Meaning(x, auths)
    case Conj(l, r) => Meaning(l, auths) && Meaning(r, auths)
    case Disj(l, r) => Meaning(l, auths) || Meaning(r, auths)
    case Group(x) => Meaning(x, auths)
  }

  /** Forgets groups and relabels the leaves. */
  function Abstract(f: string -> string, t: Tree): Expr {
    match t
    case Leaf(m) => Var(f(m))
    case Neg(x) => Not(Abstract(f, x))
    case Conj(l, r) => And(Abstract(f, l), Abstract(f, r))
    case Disj(l, r) => Or(Abstract(f, l), Abstract(f, r))
    case Group(x) => Abstract(f, x)
  }

  // ----- The same grammar over tokens, as a stepping stone -----

  predicate Next(c: char, toks: seq<Token>) {
    toks != [] && toks[0] == Op(c)
  }

  function OrT(s: seq<Token>): (p: Parsed<Tree, seq<Token>>)
    ensures p.Match? ==> |p.rest| < |s|
    decreases |s|, 3
  {
    match AndT(s)
    case Thrown => Thrown
    case NoMatch => NoMatch
    case Match(l, rest) =>
      if Next('|', rest) then
        match OrT(rest[1..])
        case Match(r, rest') => Match(Disj(l, r), rest')
        case NoMatch => Match(l, rest)
        case Thrown => Thrown
      else Match(l, rest)
  }

  function AndT(s: seq<Token>): (p: Parsed<Tree, seq<Token>>)
    ensures p.Match? ==> |p.rest| < |s|
    decreases |s|, 2
  {
    match NotT(s)
    case Thrown => Thrown
    case NoMatch => NoMatch
    case Match(l, rest) =>
      if Next('&', rest) then
        match AndT(rest[1..])
        case Match(r, rest') => Match(Conj(l, r), rest')
        case NoMatch => Match(l, rest)
        case Thrown => Thrown
      else Match(l, rest)
  }

  function NotT(s: seq<Token>): (p: Parsed<Tree, seq<Token>>)
    ensures p.Match? ==> |p.rest| < |s|
    decreases |s|, 1
  {
    if Next('!', s) then
      match SimpleT(s[1..])
      case Match(t, rest) => Match(Neg(t), rest)
      case _ => Thrown
    else SimpleT(s)
  }

  function SimpleT(s: seq<Token>): (p: Parsed<Tree, seq<Token>>)
    ensures p.Match? ==> |p.rest| < |s|
    decreases |s|, 0
  {
    if Next('(', s) then
      match OrT(s[1..])
      case Match(t, rest) => if Next(')', rest) then Match(Group(t), rest[1..]) else Thrown
      case _ => Thrown
    else if s != [] && s[0].Mark? then Match(Leaf(s[0].name), s[1..])
    else NoMatch
  }

  // Soundness: what the grammar accepts is the rendering of a tree of that level.

  lemma Splice(s: seq<Token>, l: seq<Token>, rest: seq<Token>, c: char)
    requires l + rest == s && Next(c, rest)
    ensures forall t | t in rest[1..] :: t in s
    ensures forall r, rest' | r + rest' == rest[1..] :: l + [Op(c)] + r + rest' == s
  {
    assert rest == [Op(c)] + rest[1..];
    assert forall i | 0 <= i < |rest| - 1 :: rest[1..][i] == s[|l| + 1 + i];
    forall r, rest' | r + rest' == rest[1..] ensures l + [Op(c)] + r + rest' == s {
      assert l + [Op(c)] + r + rest' == l + ([Op(c)] + (r + rest'));
    }
  }

  lemma LevelsAreOrdered(t: Tree)
    ensures IsSimple(t) ==> IsNot(t)
    ensures IsNot(t) ==> IsAnd(t)
    ensures IsAnd(t) ==> IsOr(t)
  {
    assert t.Neg? || t.Conj? || t.Disj? ==> !IsSimple(t);
    assert t.Conj? || t.Disj? ==> !IsNot(t);
    assert t.Disj? ==> !IsAnd(t);
  }

  lemma {:induction false} OrSound(s: seq<Token>)
    requires forall t | t in s :: TokenOk(t)
    ensures OrT(s).Match? ==> IsOr(OrT(s).e) && Tokens(OrT(s).e) + OrT(s).rest == s
    decreases |s|, 3
  {
    AndSound(s);
    if AndT(s).Match? {
      LevelsAreOrdered(AndT(s).e);
    }
    if AndT(s).Match? && Next('|', AndT(s).rest) {
      var rest := AndT(s).rest;
      Splice(s, Tokens(AndT(s).e), rest, '|');
      OrSound(rest[1..]);
    }
  }

  lemma {:induction false} AndSound(s: seq<Token>)
    requires forall t | t in s :: TokenOk(t)
    ensures AndT(s).Match? ==> IsAnd(AndT(s).e) && Tokens(AndT(s).e) + AndT(s).rest == s
    decreases |s|, 2
  {
    NotSound(s);
    if NotT(s).Match? && Next('&', NotT(s).rest) {
      var rest := NotT(s).rest;
      Splice(s, Tokens(NotT(s).e), rest, '&');
      AndSound(rest[1..]);
    }
  }

  lemma {:induction false} NotSound(s: seq<Token>)
    requires forall t | t in s :: TokenOk(t)
    ensures NotT(s).Match? ==> IsNot(NotT(s).e) && Tokens(NotT(s).e) + NotT(s).rest == s
    decreases |s|, 1
  {
    if Next('!', s) {
      SimpleSound(s[1..]);
      if SimpleT(s[1..]).Match? {
        var t, rest := SimpleT(s[1..]).e, SimpleT(s[1..]).rest;
        assert s == [Op('!')] + s[1..];
        assert Tokens(Neg(t)) + rest == [Op('!')] + (Tokens(t) + rest);
      }
    } else {
      SimpleSound(s);
    }
  }

  lemma {:induction false} SimpleSound(s: seq<Token>)
    requires forall t | t in s :: TokenOk(t)
    ensures SimpleT(s).Match? ==> IsSimple(SimpleT(s).e) && Tokens(SimpleT(s).e) + SimpleT(s).rest == s
    decreases |s|, 0
  {
    if Next('(', s) {
      OrSound(s[1..]);
      if SimpleT(s).Match? {
        var t, rest := OrT(s[1..]).e, OrT(s[1..]).rest;
        assert s == [Op('(')] + s[1..] && rest == [Op(')')] + rest[1..];
        assert Tokens(Group(t)) + rest[1..] == [Op('(')] + (Tokens(t) + ([Op(')')] + rest[1..]));
      }
    } else if s != [] && s[0].Mark? {
      assert TokenOk(s[0]);
    }
  }

  // Completeness: every rendering is accepted, and read back as the tree it renders.

  lemma {:induction false} OrComplete(t: Tree, rest: seq<Token>)
    requires IsOr(t) && !Next('|', rest) && !Next('&', rest)
    ensures OrT(Tokens(t) + rest) == Match(t, rest)
    decreases t, 3
  {
    if t.Disj? {
      var after := [Op('|')] + (Tokens(t.r) + rest);
      assert Tokens(t) + rest == Tokens(t.l) + after && after[1..] == Tokens(t.r) + rest;
      AndComplete(t.l, after);
      OrComplete(t.r, rest);
    } else {
      AndComplete(t, rest);
    }
  }

  lemma {:induction false} AndComplete(t: Tree, rest: seq<Token>)
    requires IsAnd(t) && !Next('&', rest)
    ensures AndT(Tokens(t) + rest) == Match(t, rest)
    decreases t, 2
  {
    if t.Conj? {
      var after := [Op('&')] + (Tokens(t.r) + rest);
      assert Tokens(t) + rest == Tokens(t.l) + after && after[1..] == Tokens(t.r) + rest;
      NotComplete(t.l, after);
      AndComplete(t.r, rest);
    } else {
      NotComplete(t, rest);
    }
  }

  lemma {:induction false} NotComplete(t: Tree, rest: seq<Token>)
    requires IsNot(t)
    ensures NotT(Tokens(t) + rest) == Match(t, rest)
    decreases t, 1
  {
    if t.Neg? {
      assert (Tokens(t) + rest)[1..] == Tokens(t.t) + rest;
      SimpleComplete(t.t, rest);
    } else {
      SimpleComplete(t, rest);
    }
  }

  lemma {:induction false} SimpleComplete(t: Tree, rest: seq<Token>)
    requires IsSimple(t)
    ensures SimpleT(Tokens(t) + rest) == Match(t, rest)
    ensures !Next('!', Tokens(t) + rest)
    decreases t, 0
  {
    match t
    case Leaf(m) =>
      assert (Tokens(t) + rest)[1..] == rest;
    case Group(x) =>
      var after := [Op(')')] + rest;
      assert (Tokens(t) + rest)[1..] == Tokens(x) + after;
      OrComplete(x, after);
      assert after[1..] == rest;
  }

  // ----- The character grammar follows the token grammar -----

  /** Every relabelled marking is a word the grammar's var_ accepts. */
  ghost predicate Words(f: string -> string, toks: seq<Token>) {
    forall t | t in toks && t.Mark? :: IsWord(f(t.name))
  }

  /** The answers of the two grammars agree. */
  ghost predicate Agree(f: string -> string, p: Parsed<Expr, string>, q: Parsed<Tree, seq<Token>>) {
    match q
    case Match(t, rest) => p == Match(Abstract(f, t), RenderWith(f, rest))
    case NoMatch => p == NoMatch
    case Thrown => p == Thrown
  }

  lemma {:induction false} WordLengthAt(w: string, rest: string)
    requires forall c | c in w :: IsAlnum(c)
    requires rest != "" ==> !IsAlnum(rest[0])
    ensures WordLength(w + rest) == |w|
  {
    if w == "" {
      assert w + rest == rest;
    } else {
      assert (w + rest)[1..] == w[1..] + rest;
      WordLengthAt(w[1..], rest);
    }
  }

  /** The first character of a rendering shows its first token. */
  lemma FirstCharacter(f: string -> string, toks: seq<Token>)
    requires Separated(toks) && Words(f, toks)
    ensures var s := RenderWith(f, toks);
            && (toks == [] <==> s == "")
            && (s != "" ==> Skip(s) == s)
            && (toks != [] && toks[0].Op? ==> s == [toks[0].c] + RenderWith(f, toks[1..]) && !IsAlnum(s[0]))
            && (toks != [] && toks[0].Mark? ==> s == f(toks[0].name) + RenderWith(f, toks[1..]) && IsAlnum(s[0]))
            && forall c | IsSeparator(c) :: Ahead(c, s) <==> Next(c, toks)
  {
    if toks != [] {
      var s, rest := RenderWith(f, toks), RenderWith(f, toks[1..]);
      assert TokenOk(toks[0]);
      if toks[0].Op? {
        assert s == [toks[0].c] + rest && s[0] == toks[0].c;
      } else {
        var w := f(toks[0].name);
        assert IsWord(w) && w[0] in w;
        assert s == w + rest && s[0] == w[0];
      }
      assert Skip(s) == s;
    }
  }

  lemma {:induction false} OrFollows(f: string -> string, toks: seq<Token>)
    requires Separated(toks) && Words(f, toks)
    ensures Agree(f, ParseOr(RenderWith(f, toks)), OrT(toks))
    decreases |toks|, 3
  {
    AndFollows(f, toks);
    if AndT(toks).Match? {
      var rest := AndT(toks).rest;
      AndSound(toks);
      assert toks[|toks| - |rest|..] == rest;
      FirstCharacter(f, rest);
      if Next('|', rest) {
        OrFollows(f, rest[1..]);
      }
    }
  }

  lemma {:induction false} AndFollows(f: string -> string, toks: seq<Token>)
    requires Separated(toks) && Words(f, toks)
    ensures Agree(f, ParseAnd(RenderWith(f, toks)), AndT(toks))
    decreases |toks|, 2
  {
    NotFollows(f, toks);
    if NotT(toks).Match? {
      var rest := NotT(toks).rest;
      NotSound(toks);
      assert toks[|toks| - |rest|..] == rest;
      FirstCharacter(f, rest);
      if Next('&', rest) {
        AndFollows(f, rest[1..]);
      }
    }
  }

  lemma {:induction false} NotFollows(f: string -> string, toks: seq<Token>)
    requires Separated(toks) && Words(f, toks)
    ensures Agree(f, ParseNot(RenderWith(f, toks)), NotT(toks))
    decreases |toks|, 1
  {
    FirstCharacter(f, toks);
    if Next('!', toks) {
      SimpleFollows(f, toks[1..]);
    } else {
      SimpleFollows(f, toks);
    }
  }

  lemma {:induction false} SimpleFollows(f: string -> string, toks: seq<Token>)
    requires Separated(toks) && Words(f, toks)
    ensures Agree(f, ParseSimple(RenderWith(f, toks)), SimpleT(toks))
    decreases |toks|, 0
  {
    FirstCharacter(f, toks);
    if Next('(', toks) {
      OrFollows(f, toks[1..]);
      if OrT(toks[1..]).Match? {
        var rest := OrT(toks[1..]).rest;
        OrSound(toks[1..]);
        assert toks[|toks| - |rest|..] == rest;
        FirstCharacter(f, rest);
      }
    } else if toks != [] && toks[0].Mark? {
      if |toks| > 1 {
        assert toks[0].Op? || toks[1].Op?;
      }
      FirstCharacter(f, toks[1..]);
      assert IsWord(f(toks[0].name));
      WordLengthAt(f(toks[0].name), RenderWith(f, toks[1..]));
    }
  }

  // ----- From texts to trees -----

  lemma SeparatedBy(a: seq<Token>, c: char, b: seq<Token>)
    requires Separated(a) && Separated(b) && IsSeparator(c) && c != ';'
    requires Op(';') !in a && Op(';') !in b
    ensures Separated(a + [Op(c)] + b) && Op(';') !in a + [Op(c)] + b
  {
    var s := a + [Op(c)] + b;
    assert forall t | t in s :: t in a || t in b || t == Op(c);
    forall i | 0 <= i < |s| - 1 ensures s[i].Op? || s[i + 1].Op? {
      if i < |a| - 1 {
        assert a[i].Op? || a[i + 1].Op?;
      } else if i > |a| {
        assert b[i - |a| - 1].Op? || b[i - |a|].Op?;
      }
    }
  }

  lemma PartsAreTrees(t: Tree)
    requires IsOr(t)
    ensures t.Leaf? ==> IsMarking(t.name)
    ensures t.Neg? || t.Group? ==> IsOr(t.t)
    ensures t.Conj? || t.Disj? ==> IsOr(t.l) && IsOr(t.r)
  {
    if t.Disj? {
      LevelsAreOrdered(t.l);
    } else {
      assert IsAnd(t);
      if t.Conj? {
        LevelsAreOrdered(t.l);
        LevelsAreOrdered(t.r);
      } else {
        assert IsNot(t);
        if t.Neg? {
          LevelsAreOrdered(t.t);
        } else {
          assert IsSimple(t);
        }
      }
    }
  }

  lemma Prefixed(c: char, a: seq<Token>)
    requires Separated(a) && IsSeparator(c) && c != ';' && Op(';') !in a
    ensures Separated([Op(c)] + a) && Op(';') !in [Op(c)] + a
  {
    SeparatedBy([], c, a);
    assert [] + [Op(c)] + a == [Op(c)] + a;
  }

  lemma {:induction false} TokensSeparated(t: Tree)
    requires IsOr(t)
    ensures Separated(Tokens(t)) && Op(';') !in Tokens(t)
  {
    PartsAreTrees(t);
    match t
    case Leaf(m) =>
    case Neg(x) =>
      TokensSeparated(x);
      Prefixed('!', Tokens(x));
    case Conj(l, r) =>
      TokensSeparated(l);
      TokensSeparated(r);
      SeparatedBy(Tokens(l), '&', Tokens(r));
    case Disj(l, r) =>
      TokensSeparated(l);
      TokensSeparated(r);
      SeparatedBy(Tokens(l), '|', Tokens(r));
    case Group(x) =>
      TokensSeparated(x);
      Prefixed('(', Tokens(x));
      SeparatedBy([Op('(')] + Tokens(x), ')', []);
      assert Tokens(t) + [] == Tokens(t);
  }

  /** Parsing the terminated token list decides whether a token list renders a tree. */
  lemma ParseDecides(toks: seq<Token>)
    requires Separated(toks) && Op(';') !in toks
    ensures forall t | IsOr(t) && Tokens(t) == toks :: OrT(toks + [Op(';')]) == Match(t, [Op(';')])
    ensures var p := OrT(toks + [Op(';')]);
            p.Match? && Next(';', p.rest) ==> IsOr(p.e) && Tokens(p.e) == toks
  {
    var all := toks + [Op(';')];
    forall t | IsOr(t) && Tokens(t) == toks ensures OrT(all) == Match(t, [Op(';')]) {
      OrComplete(t, [Op(';')]);
    }
    OrSound(all);
    var p := OrT(all);
    if p.Match? && Next(';', p.rest) {
      var n := |Tokens(p.e)|;
      assert all[n] == p.rest[0] == Op(';');
      assert forall i | 0 <= i < |toks| :: all[i] in toks;
      assert all[..n] == Tokens(p.e) && all[..|toks|] == toks;
    }
  }

  lemma {:induction false} NoSemicolon(f: string -> string, toks: seq<Token>)
    requires Separated(toks) && Words(f, toks) && Op(';') !in toks
    ensures ';' !in RenderWith(f, toks)
    ensures RenderWith(f, toks + [Op(';')]) == RenderWith(f, toks) + ";"
  {
    if toks == [] {
    } else {
      NoSemicolon(f, toks[1..]);
      assert (toks + [Op(';')])[1..] == toks[1..] + [Op(';')];
      assert toks[0] != Op(';');
      assert toks[0].Mark? ==> IsWord(f(toks[0].name));
    }
  }

  /** What the pipeline computes for any text without spaces and `;`, whatever its markings: the
      value of the tree it renders with each marking read as its rewritten form, and an error when
      it renders none. */
  lemma PipelineEvaluates(auths: set<string>, expr: string, ms: seq<string>)
    requires NoSpaces(expr) && ';' !in expr && MarkingOrder(ms, MarkingSet(expr))
    ensures var r := EvaluateParsable(Terminated(RewriteAll(auths, expr, ms)));
            && (forall t | IsOr(t) && Text(t) == expr :: r == Eval(Abstract(x => RewriteAll(auths, x, ms), t)))
            && ((forall t | IsOr(t) :: Text(t) != expr) ==> r.CouldNotParse? || r.ExpectationFailure?)
  {
    var f := x => RewriteAll(auths, x, ms);
    var toks := Tokenize(expr);
    var all := toks + [Op(';')];
    TokenizeIsSeparated(expr);
    OrderHasMarkings(expr, ms);
    RewriteIsTokenwise(auths, toks, ms);
    MarkingsBecomeWords(auths, expr, ms);
    SemicolonStaysOut(toks);
    NoSemicolon(f, toks);
    TerminatedFollows(f, toks);
    ParseDecides(toks);
    var p := OrT(all);
    forall t | IsOr(t) && Text(t) == expr
      ensures p == Match(t, [Op(';')])
    {
      TokensSeparated(t);
      TokenizeRender(Tokens(t));
    }
  }

  lemma MarkingsBecomeWords(auths: set<string>, expr: string, ms: seq<string>)
    requires MarkingOrder(ms, MarkingSet(expr)) && AllMarkings(ms)
    ensures Words(x => RewriteAll(auths, x, ms), Tokenize(expr))
  {
    forall t | t in Tokenize(expr) && t.Mark? ensures IsWord(RewriteAll(auths, t.name, ms)) {
      assert t.name in MarkingSet(expr);
      var k :| 0 <= k < |ms| && ms[k] == t.name;
      RewriteOfMarking(auths, ms, k);
    }
  }

  /** Both grammars on a terminated text, and what they leave unread. */
  lemma TerminatedFollows(f: string -> string, toks: seq<Token>)
    requires Separated(toks) && Words(f, toks)
    ensures var all := toks + [Op(';')];
            && Agree(f, ParseOr(RenderWith(f, all)), OrT(all))
            && (OrT(all).Match? ==>
                  (Ahead(';', RenderWith(f, OrT(all).rest)) <==> Next(';', OrT(all).rest)))
  {
    var all := toks + [Op(';')];
    OrFollows(f, all);
    var p := OrT(all);
    if p.Match? {
      OrSound(all);
      assert all[|all| - |p.rest|..] == p.rest;
      FirstCharacter(f, p.rest);
    }
  }

  lemma {:induction false} SemicolonStaysOut(toks: seq<Token>)
    requires ';' !in Render(toks)
    ensures Op(';') !in toks
  {
    if toks != [] {
      SemicolonStaysOut(toks[1..]);
    }
  }

  lemma OrderHasMarkings(expr: string, ms: seq<string>)
    requires MarkingOrder(ms, MarkingSet(expr))
    ensures AllMarkings(ms)
  {
    MarkingsAreMarkings(expr);
    assert forall i | 0 <= i < |ms| :: ms[i] in ms;
  }

  // ----- The law, on its documented domain -----

  function Leaves(t: Tree): set<string> {
    match t
    case Leaf(m) => {m}
    case Neg(x) => Leaves(x)
    case Conj(l, r) => Leaves(l) + Leaves(r)
    case Disj(l, r) => Leaves(l) + Leaves(r)
    case Group(x) => Leaves(x)
  }

  lemma {:induction false} LeavesAreMarks(t: Tree)
    ensures forall m | m in Leaves(t) :: Mark(m) in Tokens(t)
  {
    match t
    case Leaf(m) =>
    case Neg(x) => LeavesAreMarks(x);
    case Conj(l, r) => LeavesAreMarks(l); LeavesAreMarks(r);
    case Disj(l, r) => LeavesAreMarks(l); LeavesAreMarks(r);
    case Group(x) => LeavesAreMarks(x);
  }

  lemma {:induction false} TokenMarksAreLeaves(t: Tree)
    ensures forall k | k in Tokens(t) && k.Mark? :: k.name in Leaves(t)
  {
    match t
    case Leaf(m) =>
    case Neg(x) => TokenMarksAreLeaves(x);
    case Conj(l, r) => TokenMarksAreLeaves(l); TokenMarksAreLeaves(r);
    case Disj(l, r) => TokenMarksAreLeaves(l); TokenMarksAreLeaves(r);
    case Group(x) => TokenMarksAreLeaves(x);
  }

  lemma {:induction false} RenderedCharacters(toks: seq<Token>)
    requires forall k | k in toks :: TokenOk(k) && k != Op(';') && (k.Mark? ==> NoSpaces(k.name))
    ensures NoSpaces(Render(toks)) && ';' !in Render(toks)
  {
    if toks != [] {
      RenderedCharacters(toks[1..]);
      assert toks[0] in toks;
    }
  }

  lemma {:induction false} NoTerminator(t: Tree)
    ensures Op(';') !in Tokens(t)
  {
    match t
    case Leaf(m) =>
    case Neg(x) => NoTerminator(x);
    case Conj(l, r) => NoTerminator(l); NoTerminator(r);
    case Disj(l, r) => NoTerminator(l); NoTerminator(r);
    case Group(x) => NoTerminator(x);
  }

  /** The text of a tree mentions exactly its leaves. */
  lemma TreeText(t: Tree)
    requires IsOr(t)
    ensures MarkingSet(Text(t)) == Leaves(t)
    ensures (forall m | m in Leaves(t) :: NoSpaces(m)) ==> NoSpaces(Text(t)) && ';' !in Text(t)
  {
    TokensSeparated(t);
    TokenizeRender(Tokens(t));
    LeavesAreMarks(t);
    TokenMarksAreLeaves(t);
    NoTerminator(t);
    if forall m | m in Leaves(t) :: NoSpaces(m) {
      RenderedCharacters(Tokens(t));
    }
  }

  lemma {:induction false} EvalIsMeaning(auths: set<string>, f: string -> string, t: Tree)
    requires forall m | m in Leaves(t) :: EvalWord(f(m)) == Value(m in auths)
    ensures Eval(Abstract(f, t)) == Value(Meaning(t, auths))
  {
    match t
    case Leaf(m) =>
    case Neg(x) => EvalIsMeaning(auths, f, x);
    case Conj(l, r) => EvalIsMeaning(auths, f, l); EvalIsMeaning(auths, f, r);
    case Disj(l, r) => EvalIsMeaning(auths, f, l); EvalIsMeaning(auths, f, r);
    case Group(x) => EvalIsMeaning(auths, f, x);
  }

  /** No spaces, no statement terminator, and no marking inside a truth literal. */
  ghost predicate InDomain(expr: string) {
    NoSpaces(expr) && ';' !in expr && ClearOfLiterals(MarkingSet(expr))
  }

  /** When no later marking occurs in a literal, the rewritten tree has its meaning. */
  lemma ClearTreeMeans(auths: set<string>, ms: seq<string>, t: Tree)
    requires IsOr(t) && LongestFirst(ms) && Distinct(ms) && AllMarkings(ms) && RestClear(ms)
    requires forall m | m in MarkingSet(Text(t)) :: m in ms
    ensures Eval(Abstract(x => RewriteAll(auths, x, ms), t)) == Value(Meaning(t, auths))
  {
    TreeText(t);
    forall m | m in Leaves(t) ensures EvalWord(RewriteAll(auths, m, ms)) == Value(m in auths) {
      RewriteOfClearMarking(auths, ms, m);
      assert TRUE_REPLACE[3] != FALSE_REPLACE[3];
    }
    EvalIsMeaning(auths, x => RewriteAll(auths, x, ms), t);
  }

  /** When no marking but the first one processed occurs inside a truth literal, the pipeline means "the
      marking is among the authorisations", for every expression text and every admissible order. */
  lemma PipelineMeaning(auths: set<string>, expr: string, ms: seq<string>, t: Tree)
    requires NoSpaces(expr) && ';' !in expr && MarkingOrder(ms, MarkingSet(expr)) && RestClear(ms)
    requires IsOr(t) && Text(t) == expr
    ensures EvaluateParsable(Terminated(RewriteAll(auths, expr, ms))) == Value(Meaning(t, auths))
  {
    PipelineEvaluates(auths, expr, ms);
    OrderHasMarkings(expr, ms);
    ClearTreeMeans(auths, ms, t);
  }

  /** What a text evaluates to when its markings are rewritten in the order `ms`. */
  ghost predicate EvaluatesTo(auths: set<string>, expr: string, ms: seq<string>, r: Outcome) {
    && (forall t | IsOr(t) && Text(t) == expr :: r == Eval(Abstract(x => RewriteAll(auths, x, ms), t)))
    && (RestClear(ms) ==> forall t | IsOr(t) && Text(t) == expr :: r == Value(Meaning(t, auths)))
    && ((forall t | IsOr(t) :: Text(t) != expr) ==> r.CouldNotParse? || r.ExpectationFailure?)
  }

  /** The order is the program's choice among the admissible ones. */
  ghost predicate InSomeOrder(auths: set<string>, expr: string, r: Outcome) {
    exists ms | MarkingOrder(ms, MarkingSet(expr)) :: EvaluatesTo(auths, expr, ms, r)
  }

  lemma PipelineOutcome(auths: set<string>, expr: string, ms: seq<string>)
    requires NoSpaces(expr) && ';' !in expr && MarkingOrder(ms, MarkingSet(expr))
    ensures EvaluatesTo(auths, expr, ms, EvaluateParsable(Terminated(RewriteAll(auths, expr, ms))))
  {
    PipelineEvaluates(auths, expr, ms);
    if RestClear(ms) {
      forall t | IsOr(t) && Text(t) == expr
        ensures EvaluateParsable(Terminated(RewriteAll(auths, expr, ms))) == Value(Meaning(t, auths))
      {
        PipelineMeaning(auths, expr, ms, t);
      }
    }
  }

  // ----- Texts with a semicolon of their own -----

  lemma Contiguous(a: seq<Token>, c: char, b: seq<Token>)
    requires Separated(a) && Separated(b) && IsSeparator(c)
    ensures Separated(a + ([Op(c)] + b))
  {
    var s := a + ([Op(c)] + b);
    assert forall t | t in s :: t in a || t in b || t == Op(c);
    forall i | 0 <= i < |s| - 1 ensures s[i].Op? || s[i + 1].Op? {
      if i < |a| - 1 {
        assert a[i].Op? || a[i + 1].Op?;
      } else if i > |a| {
        assert b[i - |a| - 1].Op? || b[i - |a|].Op?;
      }
    }
  }

  lemma RenderWithConcat(f: string -> string, a: seq<Token>, b: seq<Token>)
    ensures RenderWith(f, a + b) == RenderWith(f, a) + RenderWith(f, b)
  {
    if a == [] {
      assert a + b == b;
    } else {
      assert (a + b)[1..] == a[1..] + b;
      RenderWithConcat(f, a[1..], b);
    }
  }

  lemma TokenizeAround(head: string, tail: string)
    ensures Tokenize(head + ([';'] + tail)) == Tokenize(head) + ([Op(';')] + Tokenize(tail))
  {
    var a, b := Tokenize(head), Tokenize(tail);
    TokenizeIsSeparated(head);
    TokenizeIsSeparated(tail);
    Contiguous(a, ';', b);
    RenderConcat(a, [Op(';')] + b);
    RenderConcat([Op(';')], b);
    assert Render([Op(';')]) == [';'] + Render([]) == [';'];
    TokenizeRender(a + ([Op(';')] + b));
  }

  /** The tokens behind the first semicolon, with the one the program adds when the text does not end
      in one. */
  lemma BehindSemicolon(f: string -> string, tail: string) returns (b: seq<Token>)
    requires Words(f, Tokenize(tail))
    ensures Separated(b) && Words(f, b)
    ensures var text := [';'] + RenderWith(f, Tokenize(tail)); Terminated(text) == [';'] + RenderWith(f, b)
  {
    var toks, text := Tokenize(tail), [';'] + RenderWith(f, Tokenize(tail));
    TokenizeIsSeparated(tail);
    if text[|text| - 1] == ';' {
      b := toks;
    } else {
      b := toks + ([Op(';')] + []);
      Contiguous(toks, ';', []);
      RenderWithConcat(f, toks, [Op(';')] + []);
      assert [Op(';')] + [] == [Op(';')];
      assert RenderWith(f, [Op(';')]) == [';'] + RenderWith(f, []) == [';'];
      assert text + ";" == [';'] + (RenderWith(f, toks) + [';']);
    }
  }

  lemma TerminatedTail(a: string, b: string)
    requires b != ""
    ensures Terminated(a + b) == a + Terminated(b)
  {
    assert (a + b)[|a + b| - 1] == b[|b| - 1];
    assert a + b + ";" == a + (b + ";");
  }

  /** Two ways to cut the same tokens before their first semicolon are the same cut. */
  lemma FirstSemicolon(a: seq<Token>, x: seq<Token>, b: seq<Token>, y: seq<Token>)
    requires a + x == b + y && Op(';') !in a && Op(';') !in b && Next(';', x) && Next(';', y)
    ensures a == b && x == y
  {
    var all := a + x;
    assert all[|a|] == x[0] && (b + y)[|b|] == y[0];
    assert forall i | 0 <= i < |a| :: all[i] == a[i] && all[i] in a;
    assert forall i | 0 <= i < |b| :: all[i] == b[i] && all[i] in b;
    assert |a| == |b|;
    assert all[..|a|] == a && all[..|b|] == b && all[|a|..] == x && all[|b|..] == y;
  }

  lemma ParseBefore(toks: seq<Token>, rest: seq<Token>)
    requires Separated(toks + rest) && Op(';') !in toks && Next(';', rest)
    ensures forall t | IsOr(t) && Tokens(t) == toks :: OrT(toks + rest) == Match(t, rest)
    ensures var p := OrT(toks + rest);
            p.Match? && Next(';', p.rest) ==> IsOr(p.e) && Tokens(p.e) == toks
  {
    forall t | IsOr(t) && Tokens(t) == toks ensures OrT(toks + rest) == Match(t, rest) {
      OrComplete(t, rest);
    }
    OrSound(toks + rest);
    var p := OrT(toks + rest);
    if p.Match? && Next(';', p.rest) {
      NoTerminator(p.e);
      FirstSemicolon(Tokens(p.e), p.rest, toks, rest);
    }
  }

  /** Both grammars on the rewritten text. */
  lemma FollowsBefore(f: string -> string, toks: seq<Token>, rest: seq<Token>)
    requires Separated(toks + rest) && Words(f, toks + rest)
    ensures var all := toks + rest;
            && Agree(f, ParseOr(RenderWith(f, all)), OrT(all))
            && (OrT(all).Match? ==> (Ahead(';', RenderWith(f, OrT(all).rest)) <==> Next(';', OrT(all).rest)))
  {
    var all := toks + rest;
    OrFollows(f, all);
    var p := OrT(all);
    if p.Match? {
      OrSound(all);
      assert all[|all| - |p.rest|..] == p.rest;
      FirstCharacter(f, p.rest);
    }
  }

  /** What a text of tokens with a semicolon behind them evaluates to. */
  lemma BeforeEvaluates(auths: set<string>, head: string, rest: seq<Token>, ms: seq<string>)
    requires ';' !in head && Next(';', rest) && Separated(Tokenize(head) + rest)
    requires Words(x => RewriteAll(auths, x, ms), Tokenize(head) + rest)
    ensures var r := EvaluateParsable(RenderWith(x => RewriteAll(auths, x, ms), Tokenize(head) + rest));
            && (forall t | IsOr(t) && Text(t) == head :: r == Eval(Abstract(x => RewriteAll(auths, x, ms), t)))
            && ((forall t | IsOr(t) :: Text(t) != head) ==> r.CouldNotParse? || r.ExpectationFailure?)
  {
    var f := x => RewriteAll(auths, x, ms);
    var toks := Tokenize(head);
    TokenizeIsSeparated(head);
    SemicolonStaysOut(toks);
    FollowsBefore(f, toks, rest);
    ParseBefore(toks, rest);
    forall t | IsOr(t) && Text(t) == head ensures OrT(toks + rest) == Match(t, rest) {
      TokensSeparated(t);
      TokenizeRender(Tokens(t));
    }
  }

  /** Rewriting and termination act on the tokens before and behind the first semicolon. */
  lemma StatementText(auths: set<string>, head: string, tail: string, ms: seq<string>) returns (rest: seq<Token>)
    requires MarkingOrder(ms, MarkingSet(head + ([';'] + tail)))
    ensures Next(';', rest) && Separated(Tokenize(head) + rest)
    ensures Words(x => RewriteAll(auths, x, ms), Tokenize(head) + rest)
    ensures Terminated(RewriteAll(auths, head + ([';'] + tail), ms))
            == RenderWith(x => RewriteAll(auths, x, ms), Tokenize(head) + rest)
  {
    var f, expr := x => RewriteAll(auths, x, ms), head + ([';'] + tail);
    var a, b := Tokenize(head), Tokenize(tail);
    TokenizeAround(head, tail);
    TokenizeIsSeparated(expr);
    TokenizeIsSeparated(head);
    OrderHasMarkings(expr, ms);
    RewriteIsTokenwise(auths, Tokenize(expr), ms);
    MarkingsBecomeWords(auths, expr, ms);
    assert forall t | t in a || t in b :: t in Tokenize(expr);
    var c := BehindSemicolon(f, tail);
    rest := [Op(';')] + c;
    Contiguous(a, ';', c);
    RenderWithConcat(f, a, [Op(';')] + b);
    RenderWithConcat(f, a, rest);
    assert RenderWith(f, [Op(';')] + b) == [';'] + RenderWith(f, b) by {
      assert ([Op(';')] + b)[1..] == b;
    }
    assert RenderWith(f, rest) == [';'] + RenderWith(f, c) by {
      assert rest[1..] == c;
    }
    TerminatedTail(RenderWith(f, a), [';'] + RenderWith(f, b));
    assert forall t | t in a + rest :: t in a || t in c || t == Op(';');
  }

  lemma HeadMarkings(head: string, tail: string)
    ensures MarkingSet(head) <= MarkingSet(head + ([';'] + tail))
  {
    TokenizeAround(head, tail);
  }

  /** Only what stands before the first semicolon is evaluated, but with every marking of the whole text
      rewritten. */
  lemma StatementOutcome(auths: set<string>, head: string, tail: string, ms: seq<string>)
    requires ';' !in head && MarkingOrder(ms, MarkingSet(head + ([';'] + tail)))
    ensures var expr := head + ([';'] + tail);
            EvaluatesTo(auths, head, ms, EvaluateParsable(Terminated(RewriteAll(auths, expr, ms))))
  {
    var expr := head + ([';'] + tail);
    var rest := StatementText(auths, head, tail, ms);
    BeforeEvaluates(auths, head, rest, ms);
    if RestClear(ms) {
      OrderHasMarkings(expr, ms);
      HeadMarkings(head, tail);
      forall t | IsOr(t) && Text(t) == head
        ensures Eval(Abstract(x => RewriteAll(auths, x, ms), t)) == Value(Meaning(t, auths))
      {
        ClearTreeMeans(auths, ms, t);
      }
    }
  }

  /** The outcome is that of `head`, in some order of the markings of the whole text. */
  ghost predicate FirstEvaluated(auths: set<string>, expr: string, head: string, r: Outcome) {
    exists ms | MarkingOrder(ms, MarkingSet(expr)) :: EvaluatesTo(auths, head, ms, r)
  }

  lemma CutAt(s: string, i: nat)
    requires i < |s|
    ensures s == s[..i] + ([s[i]] + s[i + 1..])
  {
  }

  /** evaluate_visibility_expression */
  method EvaluateVisibilityExpression(auths: set<string>, visExpr: string) returns (r: Outcome)
    ensures visExpr == "" ==> r == Value(true)
    ensures visExpr != "" && auths == {} ==> r == Value(false)
    ensures visExpr != "" && auths != {} && NoSpaces(visExpr) && ';' !in visExpr ==>
              InSomeOrder(auths, visExpr, r)
    ensures visExpr != "" && auths != {} && InDomain(visExpr) ==>
              forall t | IsOr(t) && Text(t) == visExpr :: r == Value(Meaning(t, auths))
    // In every case: the markings found, in an admissible order, are rewritten and the text is parsed.
    ensures visExpr != "" && auths != {} ==>
              exists ms | MarkingOrder(ms, MarkingSet(RemoveSpacesWithoutErase(visExpr))) ::
                r == EvaluateParsable(Terminated(RewriteAll(auths, visExpr, ms)))
    // A semicolon, at the end or before, ends what is evaluated.
    ensures auths != {} && NoSpaces(visExpr) ==>
              forall i | 0 <= i < |visExpr| && visExpr[i] == ';' && ';' !in visExpr[..i] ::
                FirstEvaluated(auths, visExpr, visExpr[..i], r)
  {
    if visExpr == "" {
      return Value(true);
    }
    if auths == {} {
      return Value(false);
    }
    var parsable := VisAuthToParsable(auths, visExpr);
    r := EvaluateParsable(parsable);
    if NoSpaces(visExpr) {
      ghost var ms: seq<string> :|
        && MarkingOrder(ms, MarkingSet(visExpr))
        && parsable == Terminated(RewriteAll(auths, visExpr, ms));
      forall i | 0 <= i < |visExpr| && visExpr[i] == ';' && ';' !in visExpr[..i]
        ensures FirstEvaluated(auths, visExpr, visExpr[..i], r)
      {
        CutAt(visExpr, i);
        StatementOutcome(auths, visExpr[..i], visExpr[i + 1..], ms);
      }
      if ';' in visExpr {
        return;
      }
      PipelineOutcome(auths, visExpr, ms);
      if InDomain(visExpr) {
        DomainIsClear(MarkingSet(visExpr), ms);
      }
    }
  }

  // ----- Printing abstract expressions -----

  /** The tree of an abstract expression with the parentheses the grammar needs. */
  function PrintOr(e: Expr): Tree
    decreases e, 3
  {
    if e.Or? then Disj(PrintAnd(e.l), PrintOr(e.r)) else PrintAnd(e)
  }

  function PrintAnd(e: Expr): Tree
    decreases e, 2
  {
    match e
    case And(l, r) => Conj(PrintNot(l), PrintAnd(r))
    case _ => PrintNot(e)
  }

  function PrintNot(e: Expr): Tree
    decreases e, 1
  {
    if e.Not? then Neg(PrintSimple(e.e)) else PrintSimple(e)
  }

  function PrintSimple(e: Expr): Tree
    decreases e, 0
  {
    match e
    case Var(m) => Leaf(m)
    case Not(x) => Group(Neg(PrintSimple(x)))
    case And(l, r) => Group(Conj(PrintNot(l), PrintAnd(r)))
    case Or(l, r) => Group(Disj(PrintAnd(l), PrintOr(r)))
  }

  function Names(e: Expr): set<string> {
    match e
    case Var(m) => {m}
    case Not(x) => Names(x)
    case And(l, r) => Names(l) + Names(r)
    case Or(l, r) => Names(l) + Names(r)
  }

  lemma {:induction false} PrintIsTree(e: Expr)
    requires forall m | m in Names(e) :: IsMarking(m)
    ensures IsSimple(PrintSimple(e)) && IsNot(PrintNot(e)) && IsAnd(PrintAnd(e)) && IsOr(PrintOr(e))
    ensures var id := (x: string) => x;
            && Abstract(id, PrintSimple(e)) == e && Abstract(id, PrintNot(e)) == e
            && Abstract(id, PrintAnd(e)) == e && Abstract(id, PrintOr(e)) == e
    ensures Leaves(PrintOr(e)) == Leaves(PrintAnd(e)) == Leaves(PrintNot(e)) == Leaves(PrintSimple(e)) == Names(e)
  {
    var id := (x: string) => x;
    match e
    case Var(m) =>
      LevelsAreOrdered(PrintSimple(e));
    case Not(x) =>
      PrintIsTree(x);
      LevelsAreOrdered(PrintNot(e));
      LevelsAreOrdered(PrintSimple(e));
      assert PrintSimple(e) == Group(PrintNot(e));
    case And(l, r) =>
      PrintIsTree(l);
      PrintIsTree(r);
      LevelsAreOrdered(PrintAnd(e));
      assert PrintSimple(e) == Group(PrintAnd(e));
      LevelsAreOrdered(PrintSimple(e));
    case Or(l, r) =>
      PrintIsTree(l);
      PrintIsTree(r);
      assert PrintSimple(e) == Group(PrintOr(e));
      LevelsAreOrdered(PrintSimple(e));
  }

  lemma {:induction false} RenderIdentity(toks: seq<Token>)
    ensures RenderWith(x => x, toks) == Render(toks)
  {
    if toks != [] {
      RenderIdentity(toks[1..]);
    }
  }

  /** The grammar reads every abstract expression over words back from its printed text. */
  lemma PrintParse(e: Expr)
    requires forall m | m in Names(e) :: IsWord(m)
    ensures ParseOr(Text(PrintOr(e)) + ";") == Match(e, ";")
  {
    var t, id := PrintOr(e), (x: string) => x;
    var toks := Tokens(t);
    PrintIsTree(e);
    TokensSeparated(t);
    TokenMarksAreLeaves(t);
    ParseDecides(toks);
    RenderIdentity(toks);
    assert Words(id, toks + [Op(';')]);
    NoSemicolon(id, toks);
    OrFollows(id, toks + [Op(';')]);
    assert RenderWith(id, [Op(';')]) == ";";
  }

  ghost function Truth(e: Expr, auths: set<string>): bool {
    match e
    case Var(m) => m in auths
    case Not(x) => !Truth(x, auths)
    case And(l, r) => Truth(l, auths) && Truth(r, auths)
    case Or(l, r) => Truth(l, auths) || Truth(r, auths)
  }

  lemma {:induction false} MeaningIsTruth(t: Tree, auths: set<string>)
    ensures Meaning(t, auths) == Truth(Abstract(x => x, t), auths)
  {
    match t
    case Leaf(m) =>
    case Neg(x) => MeaningIsTruth(x, auths);
    case Conj(l, r) => MeaningIsTruth(l, auths); MeaningIsTruth(r, auths);
    case Disj(l, r) => MeaningIsTruth(l, auths); MeaningIsTruth(r, auths);
    case Group(x) => MeaningIsTruth(x, auths);
  }

  /** End to end, for names of any characters but separators and spaces: a printed expression evaluates
      to its own truth value. */
  lemma PrintedExpressionMeaning(auths: set<string>, e: Expr, ms: seq<string>)
    requires forall m | m in Names(e) :: IsMarking(m) && NoSpaces(m)
    requires MarkingOrder(ms, Names(e)) && RestClear(ms)
    ensures EvaluateParsable(Terminated(RewriteAll(auths, Text(PrintOr(e)), ms))) == Value(Truth(e, auths))
  {
    PrintIsTree(e);
    TreeText(PrintOr(e));
    PipelineMeaning(auths, Text(PrintOr(e)), ms, PrintOr(e));
    MeaningIsTruth(PrintOr(e), auths);
  }

  // ----- Outside the domain -----

  lemma {:induction false} CastNeedsDigits(v: string)
    requires 'e' in v
    ensures LexicalCast(v) == BadCast
  {
    if |v| > 1 && v[0] == '0' {
      CastNeedsDigits(v[1..]);
    }
  }

  lemma {:induction false} ReplaceKeepsLetter(s: string, m: string, rep: string)
    requires 'e' in s && 'e' in rep
    ensures 'e' in ReplaceAll(s, m, rep)
    decreases |s|
  {
    if m == "" || |s| < |m| {
    } else if s[..|m|] != m && s[0] != 'e' {
      ReplaceKeepsLetter(s[1..], m, rep);
    }
  }

  lemma {:induction false} RewriteKeepsLetter(auths: set<string>, s: string, ms: seq<string>)
    requires 'e' in s
    ensures 'e' in RewriteAll(auths, s, ms)
    decreases |ms|
  {
    if ms != [] {
      assert TRUE_REPLACE[0] == 'e' && FALSE_REPLACE[0] == 'e';
      ReplaceKeepsLetter(s, ms[0], Literal(auths, ms[0]));
      RewriteKeepsLetter(auths, ReplaceAll(s, ms[0], Literal(auths, ms[0])), ms[1..]);
    }
  }

  lemma MarkingReadRightly(auths: set<string>, ms: seq<string>, k: nat)
    requires k < |ms| && LongestFirst(ms) && Distinct(ms) && AllMarkings(ms)
    ensures EvalWord(RewriteAll(auths, ms[k], ms)) == Value(ms[k] in auths)
            <==> RewriteAll(auths, Literal(auths, ms[k]), ms[k + 1..]) == Literal(auths, ms[k])
  {
    RewriteOfMarking(auths, ms, k);
    assert Literal(auths, ms[k])[0] == 'e';
    RewriteKeepsLetter(auths, Literal(auths, ms[k]), ms[k + 1..]);
    CastNeedsDigits(RewriteAll(auths, ms[k], ms));
  }

  lemma {:induction false} ReplaceGrows(s: string, m: string, rep: string)
    requires 0 < |m| < |rep|
    ensures |ReplaceAll(s, m, rep)| >= |s|
    ensures Contains(s, m) ==> |ReplaceAll(s, m, rep)| > |s|
    decreases |s|
  {
    if |s| >= |m| {
      if s[..|m|] == m {
        ReplaceGrows(s[|m|..], m, rep);
      } else {
        ReplaceGrows(s[1..], m, rep);
      }
    }
  }

  lemma WholeLiteral(lit: string, m: string)
    requires Contains(lit, m) && |m| == |lit|
    ensures m == lit
  {
    assert lit[..|lit|] == lit;
    assert lit != "" ==> !Contains(lit[1..], m);
  }

  /** A word that is no longer the literal `lit` never becomes it again when every replacement puts in
      the other literal. */
  lemma {:induction false} NeverBack(auths: set<string>, s: string, ms: seq<string>, lit: string, other: string)
    requires lit != other && |lit| == |other| && s != lit && |s| >= |lit|
    requires LongestFirst(ms) && AllMarkings(ms) && forall i | 0 <= i < |ms| :: Literal(auths, ms[i]) == other
    requires |s| == |lit| ==> s == other
    requires |s| > |lit| ==> forall i | 0 <= i < |ms| :: |ms[i]| < |lit|
    ensures RewriteAll(auths, s, ms) != lit
    decreases |ms|
  {
    if ms != [] {
      var m, rest := ms[0], ms[1..];
      ReplaceOnce(s, m, other);
      assert |ReplaceAll(s, m, other)| > |lit| ==> |m| < |lit| && forall i | 0 <= i < |rest| :: |rest[i]| < |lit|;
      NeverBack(auths, ReplaceAll(s, m, other), rest, lit, other);
    }
  }

  /** One replacement in a word at least as long as the literal put in. */
  lemma ReplaceOnce(s: string, m: string, rep: string)
    requires m != "" && |s| >= |rep| && (|s| > |rep| ==> |m| < |rep|)
    ensures !Contains(s, m) ==> ReplaceAll(s, m, rep) == s
    ensures Contains(s, m) && |m| == |rep| ==> ReplaceAll(s, m, rep) == rep
    ensures |m| < |rep| ==> |ReplaceAll(s, m, rep)| >= |s|
    ensures Contains(s, m) && |m| < |rep| ==> |ReplaceAll(s, m, rep)| > |s|
    ensures Contains(s, m) ==> |m| <= |rep|
  {
    if !Contains(s, m) {
      ReplaceAbsent(s, m, rep);
    } else if |m| == |rep| {
      WholeLiteral(s, m);
      assert s[|m|..] == "" && rep + "" == rep;
    }
    if |m| < |rep| {
      ReplaceGrows(s, m, rep);
    }
  }

  /** If one of the markings occurs in a literal, the loop does not leave that literal as it is. */
  lemma {:induction false} LiteralLost(auths: set<string>, ms: seq<string>, lit: string, other: string, j: nat)
    requires lit != other && |lit| == |other| && j < |ms| && Contains(lit, ms[j])
    requires LongestFirst(ms) && AllMarkings(ms) && forall i | 0 <= i < |ms| :: Literal(auths, ms[i]) == other
    ensures RewriteAll(auths, lit, ms) != lit
    decreases j
  {
    var m, rest := ms[0], ms[1..];
    ReplaceOnce(lit, m, other);
    if Contains(lit, m) {
      NeverBack(auths, ReplaceAll(lit, m, other), rest, lit, other);
    } else {
      LiteralLost(auths, rest, lit, other, j - 1);
    }
  }

  /** Authorisations under which a marking inside a literal makes the first marking be read wrongly:
      those that give the first marking that literal and the others the other one. */
  lemma ReadWrongly(ms: seq<string>, j: nat) returns (auths: set<string>)
    requires 1 <= j < |ms| && LongestFirst(ms) && Distinct(ms) && AllMarkings(ms)
    requires Contains(TRUE_REPLACE, ms[j]) || Contains(FALSE_REPLACE, ms[j])
    ensures auths != {} && EvalWord(RewriteAll(auths, ms[0], ms)) != Value(ms[0] in auths)
  {
    assert TRUE_REPLACE[3] != FALSE_REPLACE[3];
    assert ms[1..][j - 1] == ms[j];
    if Contains(TRUE_REPLACE, ms[j]) {
      auths := {ms[0]};
      OnlyFirst(ms);
      LiteralLost(auths, ms[1..], TRUE_REPLACE, FALSE_REPLACE, j - 1);
    } else {
      auths := AllButFirst(ms);
      LiteralLost(auths, ms[1..], FALSE_REPLACE, TRUE_REPLACE, j - 1);
    }
    MarkingReadRightly(auths, ms, 0);
  }

  lemma OnlyFirst(ms: seq<string>)
    requires ms != [] && Distinct(ms)
    ensures Literal({ms[0]}, ms[0]) == TRUE_REPLACE
    ensures forall i | 0 <= i < |ms[1..]| :: Literal({ms[0]}, ms[1..][i]) == FALSE_REPLACE
  {
    forall i | 0 <= i < |ms[1..]| ensures ms[1..][i] !in {ms[0]} {
      assert ms[1..][i] == ms[i + 1];
    }
  }

  lemma AllButFirst(ms: seq<string>) returns (auths: set<string>)
    requires |ms| > 1 && Distinct(ms)
    ensures auths != {} && Literal(auths, ms[0]) == FALSE_REPLACE
    ensures forall i | 0 <= i < |ms[1..]| :: Literal(auths, ms[1..][i]) == TRUE_REPLACE
  {
    auths := set i | 1 <= i < |ms| :: ms[i];
    assert ms[1] in auths;
    forall i | 0 <= i < |ms[1..]| ensures ms[1..][i] in auths {
      assert ms[1..][i] == ms[i + 1];
    }
  }

  /** A tree that mentions all markings and whose value is that of the first one alone. */
  function Absorbing(ms: seq<string>): Tree
    requires ms != []
  {
    Disj(Leaf(ms[0]), Conj(Leaf(ms[0]), All(ms)))
  }

  function All(ms: seq<string>): Tree
    requires ms != []
  {
    if |ms| == 1 then Leaf(ms[0]) else Conj(Leaf(ms[0]), All(ms[1..]))
  }

  lemma {:induction false} AllIsTree(ms: seq<string>)
    requires ms != [] && AllMarkings(ms)
    ensures IsAnd(All(ms)) && forall m :: m in Leaves(All(ms)) <==> m in ms
    decreases |ms|
  {
    LevelsAreOrdered(Leaf(ms[0]));
    if |ms| > 1 {
      AllIsTree(ms[1..]);
    }
  }

  lemma AbsorbingValue(auths: set<string>, f: string -> string, ms: seq<string>)
    requires ms != [] && AllMarkings(ms)
    ensures IsOr(Absorbing(ms)) && forall m :: m in Leaves(Absorbing(ms)) <==> m in ms
    ensures Meaning(Absorbing(ms), auths) == (ms[0] in auths)
    ensures Eval(Abstract(f, Absorbing(ms))) == EvalWord(f(ms[0]))
  {
    AllIsTree(ms);
    LevelsAreOrdered(Leaf(ms[0]));
    var rest := Conj(Leaf(ms[0]), All(ms));
    LevelsAreOrdered(rest);
    assert Meaning(rest, auths) ==> Meaning(Leaf(ms[0]), auths);
    assert Meaning(Absorbing(ms), auths) == (Meaning(Leaf(ms[0]), auths) || Meaning(rest, auths));
    assert Abstract(f, Leaf(ms[0])) == Var(f(ms[0])) && Abstract(f, rest) == And(Var(f(ms[0])), Abstract(f, All(ms)));
  }

  /** The pipeline evaluates every expression with exactly these markings rightly, for all
      authorisations that are not empty. */
  ghost predicate EvaluatesRightly(ms: seq<string>) {
    forall auths, t | auths != {} && IsOr(t) && Leaves(t) == (set m | m in ms) ::
      EvaluateParsable(Terminated(RewriteAll(auths, Text(t), ms))) == Value(Meaning(t, auths))
  }

  /** The exact condition, for any markings in an order the program may process them in: no marking but
      the first occurs inside a truth literal. */
  lemma EvaluatesRightlyIff(ms: seq<string>)
    requires LongestFirst(ms) && Distinct(ms) && forall m | m in ms :: IsMarking(m) && NoSpaces(m)
    ensures EvaluatesRightly(ms) <==> RestClear(ms)
  {
    if RestClear(ms) {
      forall auths, t | auths != {} && IsOr(t) && Leaves(t) == (set m | m in ms)
        ensures EvaluateParsable(Terminated(RewriteAll(auths, Text(t), ms))) == Value(Meaning(t, auths))
      {
        TreeText(t);
        PipelineMeaning(auths, Text(t), ms, t);
      }
    } else {
      var j :| 1 <= j < |ms| && (Contains(TRUE_REPLACE, ms[j]) || Contains(FALSE_REPLACE, ms[j]));
      var auths := ReadWrongly(ms, j);
      var t := Absorbing(ms);
      AbsorbingValue(auths, x => RewriteAll(auths, x, ms), ms);
      TreeText(t);
      PipelineEvaluates(auths, Text(t), ms);
      assert Leaves(t) == set m | m in ms;
    }
  }

  lemma ClashedWord(m: string)
    requires 0 < |m| < |FALSE_REPLACE| && Contains(FALSE_REPLACE, m)
    ensures EvalWord(ReplaceAll(FALSE_REPLACE, m, FALSE_REPLACE)) == BadCast
  {
    var f := FALSE_REPLACE;
    ReplaceGrows(f, m, f);
    assert f[0] == 'e';
    ReplaceKeepsLetter(f, m, f);
    CastNeedsDigits(ReplaceAll(f, m, f));
  }

  /** Two different markings of one length that both occur inside the false literal. */
  ghost predicate Clashing(a: string, b: string) {
    && a != b && 0 < |a| == |b| < |FALSE_REPLACE|
    && Contains(FALSE_REPLACE, a) && Contains(FALSE_REPLACE, b)
    && IsMarking(a) && IsMarking(b)
  }

  lemma ClashTree(a: string, b: string)
    requires Clashing(a, b)
    ensures var t := Disj(Leaf(a), Leaf(b)); IsOr(t) && Text(t) == a + "|" + b
    ensures MarkingSet(a + "|" + b) == {a, b}
  {
    var t := Disj(Leaf(a), Leaf(b));
    assert IsSimple(t.l) && IsSimple(t.r);
    LevelsAreOrdered(t.l);
    LevelsAreOrdered(t.r);
    assert Tokens(t.l) == [Mark(a)] && Tokens(t.r) == [Mark(b)];
    assert Tokens(t) == [Mark(a), Op('|'), Mark(b)];
    RenderPair(a, b);
    TokensSeparated(t);
    TokenizeRender(Tokens(t));
  }

  lemma RenderPair(a: string, b: string)
    ensures Render([Mark(a), Op('|'), Mark(b)]) == a + "|" + b
  {
    RenderConcat([Mark(a)], [Op('|')] + [Mark(b)]);
    RenderConcat([Op('|')], [Mark(b)]);
    assert [Mark(a)] + ([Op('|')] + [Mark(b)]) == [Mark(a), Op('|'), Mark(b)];
    assert Render([Mark(a)]) == a + Render([]) == a;
    assert Render([Mark(b)]) == b + Render([]) == b;
    assert a + ("|" + b) == a + "|" + b;
  }

  lemma ClashOrders(a: string, b: string, ms: seq<string>)
    requires a != b && MarkingOrder(ms, {a, b})
    ensures ms == [a, b] || ms == [b, a]
  {
    assert a in ms && b in ms;
    assert |ms| > 2 ==> ms[0] != ms[1] && ms[0] != ms[2] && ms[1] != ms[2];
    forall k | 0 <= k < |ms| ensures ms[k] == a || ms[k] == b {
      var m := ms[k];
      assert m in ms;
      assert m in {a, b};
    }
    assert |ms| == 2;
  }

  lemma ClashRewrites(auths: set<string>, ms: seq<string>)
    requires |ms| == 2 && LongestFirst(ms) && Distinct(ms) && AllMarkings(ms)
    requires ms[0] !in auths && ms[1] !in auths
    ensures RewriteAll(auths, ms[0], ms) == ReplaceAll(FALSE_REPLACE, ms[1], FALSE_REPLACE)
    ensures RewriteAll(auths, ms[1], ms) == FALSE_REPLACE
  {
    RewriteOfMarking(auths, ms, 0);
    RewriteOfMarking(auths, ms, 1);
    assert ms[1..] == [ms[1]] && ms[1..][1..] == [] && ms[2..] == [];
  }

  /** Clashing markings break the evaluation: when neither is authorised, a|b is false, but
      evaluating it throws a bad cast in either order of the two markings. */
  lemma ClashThrows(auths: set<string>, a: string, b: string, ms: seq<string>)
    requires Clashing(a, b) && a !in auths && b !in auths
    requires NoSpaces(a + "|" + b) && ';' !in a + "|" + b
    requires MarkingOrder(ms, MarkingSet(a + "|" + b))
    ensures var t := Disj(Leaf(a), Leaf(b));
            IsOr(t) && Text(t) == a + "|" + b && !Meaning(t, auths)
    ensures EvaluateParsable(Terminated(RewriteAll(auths, a + "|" + b, ms))) == BadCast
  {
    ClashTree(a, b);
    ClashEval(auths, a, b, ms);
    PipelineEvaluates(auths, a + "|" + b, ms);
  }

  lemma ClashWords(auths: set<string>, ms: seq<string>)
    requires |ms| == 2 && Clashing(ms[0], ms[1]) && ms[0] !in auths && ms[1] !in auths
    ensures EvalWord(RewriteAll(auths, ms[0], ms)) == BadCast
    ensures EvalWord(RewriteAll(auths, ms[1], ms)) == Value(false)
  {
    ClashRewrites(auths, ms);
    ClashedWord(ms[1]);
    assert TRUE_REPLACE[3] != FALSE_REPLACE[3];
  }

  lemma EvalDisjunction(f: string -> string, a: string, b: string)
    ensures Eval(Abstract(f, Disj(Leaf(a), Leaf(b)))) ==
            if EvalWord(f(a)) == Value(false) then EvalWord(f(b)) else EvalWord(f(a))
  {
    assert Abstract(f, Leaf(a)) == Var(f(a)) && Abstract(f, Leaf(b)) == Var(f(b));
  }

  lemma ClashEval(auths: set<string>, a: string, b: string, ms: seq<string>)
    requires Clashing(a, b) && a !in auths && b !in auths && MarkingOrder(ms, {a, b})
    ensures Eval(Abstract(x => RewriteAll(auths, x, ms), Disj(Leaf(a), Leaf(b)))) == BadCast
  {
    ClashOrders(a, b, ms);
    ClashWords(auths, ms);
    EvalDisjunction(x => RewriteAll(auths, x, ms), a, b);
  }

  /** The letters e and z are such markings. */
  lemma ClashExists()
    ensures Clashing("e", "z")
  {
    assert "e"[0] == 'e' && "z"[0] == 'z';
    assert FALSE_REPLACE[1..][..1] == "z" && FALSE_REPLACE[..1] == "e";
    assert Contains(FALSE_REPLACE[1..], "z");
  }
}

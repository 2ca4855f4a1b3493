/** Visibility expressions outside the documented form: a caret, a space in front, numbers as markings, and
    operands that are never looked at. */
module VisibilityCases {
  import opened Common
  import opened VisibilityText
  import opened Visibility

  // ----- The caret -----

  lemma {:induction false} NoCaretToken(t: Tree)
    requires IsOr(t)
    ensures Op('^') !in Tokens(t)
  {
    PartsAreTrees(t);
    match t {
      case Leaf(m) =>
      case Neg(x) => NoCaretToken(x);
      case Conj(l, r) =>
        NoCaretToken(l);
        NoCaretToken(r);
      case Disj(l, r) =>
        NoCaretToken(l);
        NoCaretToken(r);
      case Group(x) => NoCaretToken(x);
    }
  }

  lemma {:induction false} NoCaretRendered(toks: seq<Token>)
    requires (forall t | t in toks :: TokenOk(t)) && Op('^') !in toks
    ensures '^' !in Render(toks)
  {
    if toks != [] {
      NoCaretRendered(toks[1..]);
      assert TokenOk(toks[0]) && toks[0] != Op('^');
    }
  }

  /** The caret separates markings but is no operator: no expression has one. */
  lemma CaretIsNoOperator(t: Tree)
    requires IsOr(t)
    ensures '^' !in Text(t)
  {
    TokensSeparated(t);
    NoCaretToken(t);
    NoCaretRendered(Tokens(t));
  }

  /** So a text with a caret is refused. */
  method CaretIsRefused(auths: set<string>, visExpr: string) returns (r: Outcome)
    requires auths != {} && NoSpaces(visExpr) && ';' !in visExpr && '^' in visExpr
    ensures r.CouldNotParse? || r.ExpectationFailure?
  {
    r := EvaluateVisibilityExpression(auths, visExpr);
    forall t | IsOr(t) ensures Text(t) != visExpr {
      CaretIsNoOperator(t);
    }
  }

  // ----- Spaces -----

  /** Erased spaces leave their room: the text stays as long, and its end is kept twice. */
  lemma MovedSpaces(s: string)
    ensures var r, kept := RemoveSpacesWithoutErase(s), WithoutSpaces(s);
            |r| == |s| && kept <= r && r[|kept|..] == s[|kept|..] && NoSpaces(kept)
  {
    WithoutSpacesIsShorter(s);
    NoSpaceIsKept(s);
  }

  lemma {:induction false} NoSpaceIsKept(s: string)
    ensures NoSpaces(WithoutSpaces(s))
    ensures forall c | c in s && !IsSpace(c) :: c in WithoutSpaces(s)
  {
    if s != "" {
      NoSpaceIsKept(s[1..]);
    }
  }

  lemma WordHasNoSpaces(m: string)
    requires IsWord(m)
    ensures NoSpaces(m) && IsMarking(m) && forall c | c in m :: c != ' '
  {
    forall c | c in m ensures !IsSpace(c) && !IsSeparator(c) {
      AlnumCode(c);
    }
  }

  lemma AlnumCode(c: char)
    requires IsAlnum(c)
    ensures !IsSpace(c) && !IsSeparator(c)
  {
    assert 'a' as int == 97 && 'z' as int == 122 && 'A' as int == 65 && 'Z' as int == 90;
    assert '0' as int == 48 && '9' as int == 57 && ' ' as int == 32 && ';' as int == 59 && '|' as int == 124;
    assert '&' as int == 38 && '!' as int == 33 && '^' as int == 94 && '(' as int == 40 && ')' as int == 41;
  }

  lemma SpacedMarkings(m: string)
    requires IsWord(m)
    ensures RemoveSpacesWithoutErase(" " + m) == m + [m[|m| - 1]]
    ensures MarkingSet(m + [m[|m| - 1]]) == {m + [m[|m| - 1]]}
  {
    var s, x := " " + m, m + [m[|m| - 1]];
    WordHasNoSpaces(m);
    WithoutSpacesIsShorter(m);
    assert s[1..] == m && WithoutSpaces(s) == "" + WithoutSpaces(m) == m;
    assert s[|m|..] == [m[|m| - 1]];
    MarkLengthAtSeparator(x, "");
    assert x + "" == x;
    assert Tokenize(x) == [Mark(x[..|x|])] + Tokenize(x[|x|..]) && x[..|x|] == x && x[|x|..] == "";
  }

  lemma OnlyOrder(ms: seq<string>, x: string)
    requires MarkingOrder(ms, {x})
    ensures ms == [x]
  {
    assert x in ms;
    forall i | 0 <= i < |ms| ensures ms[i] == x {
      assert ms[i] in ms && ms[i] in {x};
    }
    assert ms[0] == ms[|ms| - 1];
  }

  lemma NotReplaced(m: string, rep: string)
    requires IsWord(m)
    ensures ReplaceAll(" " + m, m + [m[|m| - 1]], rep) == " " + m
  {
    var s, x := " " + m, m + [m[|m| - 1]];
    WordHasNoSpaces(m);
    assert x[0] == m[0] && m[0] in m && s[..|x|][0] == ' ';
    assert s[1..] == m;
  }

  lemma SpacedParse(m: string)
    requires IsWord(m)
    ensures EvaluateParsable(" " + m + ";") == EvalWord(m)
  {
    var s, t := " " + m + ";", m + ";";
    WordHasNoSpaces(m);
    assert m[0] in m && t[0] == m[0];
    AlnumCode(m[0]);
    assert s[1..] == t && Skip(t) == t && Skip(s) == t;
    assert ';' as int == 59 && '0' as int == 48 && '9' as int == 57 && 'A' as int == 65;
    WordLengthAt(m, ";");
    assert t[..|m|] == m && t[|m|..] == ";";
    assert ParseSimple(s) == Match(Var(m), ";");
    assert ParseNot(s) == Match(Var(m), ";");
    assert Skip(";") == ";";
    assert ParseAnd(s) == Match(Var(m), ";");
    assert ParseOr(s) == Match(Var(m), ";");
  }

  /** A marking behind a space is not found, because the text searched for markings is the shifted one: it
      is never replaced, whatever the authorisations are, and read as a literal of its own. */
  method SpacedMarking(auths: set<string>, m: string) returns (r: Outcome)
    requires auths != {} && IsWord(m)
    ensures r == EvalWord(m)
  {
    var s := " " + m;
    r := EvaluateVisibilityExpression(auths, s);
    ghost var ms: seq<string> :|
      && MarkingOrder(ms, MarkingSet(RemoveSpacesWithoutErase(s)))
      && r == EvaluateParsable(Terminated(RewriteAll(auths, s, ms)));
    ghost var x := m + [m[|m| - 1]];
    SpacedMarkings(m);
    OnlyOrder(ms, x);
    NotReplaced(m, Literal(auths, x));
    assert RewriteAll(auths, s, ms) == RewriteAll(auths, s, ms[1..]) == s;
    assert s[|s| - 1] == m[|m| - 1] && m[|m| - 1] in m;
    AlnumCode(m[|m| - 1]);
    SpacedParse(m);
  }

  // ----- Literals and operands -----

  /** What lexical_cast takes for a truth value: zeros, and then one 0 or 1. */
  lemma {:induction false} CastIff(v: string)
    ensures LexicalCast(v).Value? <==>
              v != "" && (forall i | 0 <= i < |v| - 1 :: v[i] == '0') && v[|v| - 1] in {'0', '1'}
    ensures LexicalCast(v).Value? ==> LexicalCast(v).b == (v[|v| - 1] == '1')
    ensures !LexicalCast(v).Value? ==> LexicalCast(v) == BadCast
  {
    if |v| > 1 && v[0] == '0' {
      CastIff(v[1..]);
      assert forall i | 0 < i < |v| :: v[i] == v[1..][i - 1];
      assert forall i | 0 <= i < |v[1..]| - 1 :: v[1..][i] == v[i + 1];
    } else if |v| == 1 {
      assert v == [v[0]];
    }
  }

  /** The right operand counts only when the left one leaves the value open; a marking that is no literal
      throws only where it is looked at. */
  lemma ShortCircuits(l: Expr, r: Expr)
    ensures Eval(l) == Value(false) ==> Eval(And(l, r)) == Value(false) && Eval(Or(l, r)) == Eval(r)
    ensures Eval(l) == Value(true) ==> Eval(Or(l, r)) == Value(true) && Eval(And(l, r)) == Eval(r)
    ensures !Eval(l).Value? ==> Eval(And(l, r)) == Eval(Or(l, r)) == Eval(Not(l)) == Eval(l)
  {
  }
}

/** The textual half of visibility evaluation: which markings an expression mentions, and the
    loop that replaces every marking by a truth literal before the grammar sees the text. */
module VisibilityText {
  import opened Common

  const TRUE_REPLACE := "ezbTezb"
  const FALSE_REPLACE := "ezbFezb"

  /** One lexical unit of an expression: a separator character or a maximal run of other characters. */
  datatype Token = Op(c: char) | Mark(name: string)

  predicate IsSeparator(c: char) {
    c == ';' || c == '|' || c == '&' || c == '!' || c == '^' || c == '(' || c == ')'
  }

  /** C's isspace in the default locale. */
  predicate IsSpace(c: char) {
    c == ' ' || 9 <= c as int <= 13
  }

  predicate IsAlnum(c: char) {
    'a' <= c <= 'z' || 'A' <= c <= 'Z' || '0' <= c <= '9'
  }

  predicate IsWord(s: string) {
    s != "" && forall c | c in s :: IsAlnum(c)
  }

  predicate IsMarking(s: string) {
    s != "" && forall c | c in s :: !IsSeparator(c)
  }

  predicate NoSpaces(s: string) {
    forall c | c in s :: !IsSpace(c)
  }

  /** `m` occurs in `s`, at the front or further on. */
  predicate Contains(s: string, m: string) {
    |s| >= |m| && (s[..|m|] == m || (s != "" && Contains(s[1..], m)))
  }

  // ----- Tokens -----

  function MarkLength(s: string): (n: nat)
    ensures n <= |s|
    ensures forall i | 0 <= i < n :: !IsSeparator(s[i])
    ensures n < |s| ==> IsSeparator(s[n])
  {
    if s == "" || IsSeparator(s[0]) then 0 else 1 + MarkLength(s[1..])
  }

  function Tokenize(s: string): seq<Token>
    decreases |s|
  {
    if s == "" then []
    else if IsSeparator(s[0]) then [Op(s[0])] + Tokenize(s[1..])
    else
      var n := MarkLength(s);
      [Mark(s[..n])] + Tokenize(s[n..])
  }

  function Render(toks: seq<Token>): string {
    if toks == [] then ""
    else (if toks[0].Op? then [toks[0].c] else toks[0].name) + Render(toks[1..])
  }

  ghost predicate TokenOk(t: Token) {
    if t.Op? then IsSeparator(t.c) else IsMarking(t.name)
  }

  /** Tokens as they come out of a text: proper units, never two markings in a row. */
  ghost predicate Separated(toks: seq<Token>) {
    && (forall t | t in toks :: TokenOk(t))
    && (forall i | 0 <= i < |toks| - 1 :: toks[i].Op? || toks[i + 1].Op?)
  }

  function MarkingSet(s: string): set<string> {
    set t | t in Tokenize(s) && t.Mark? :: t.name
  }

  lemma {:induction false} TokenizeIsSeparated(s: string)
    ensures Separated(Tokenize(s)) && Render(Tokenize(s)) == s
    ensures s != "" && !IsSeparator(s[0]) ==> Tokenize(s) != [] && Tokenize(s)[0].Mark?
    ensures s != "" && IsSeparator(s[0]) ==> Tokenize(s) != [] && Tokenize(s)[0].Op?
    decreases |s|
  {
    if s == "" {
    } else if IsSeparator(s[0]) {
      TokenizeIsSeparated(s[1..]);
    } else {
      var n := MarkLength(s);
      TokenizeIsSeparated(s[n..]);
    }
  }

  lemma {:induction false} MarkLengthAtSeparator(name: string, rest: string)
    requires forall c | c in name :: !IsSeparator(c)
    requires rest != "" ==> IsSeparator(rest[0])
    ensures MarkLength(name + rest) == |name|
  {
    if name == "" {
      assert name + rest == rest;
    } else {
      assert (name + rest)[1..] == name[1..] + rest;
      MarkLengthAtSeparator(name[1..], rest);
    }
  }

  /** Tokenising undoes rendering, so separated token lists and texts are the same thing. */
  lemma {:induction false} TokenizeRender(toks: seq<Token>)
    requires Separated(toks)
    ensures Tokenize(Render(toks)) == toks
  {
    if toks == [] {
    } else {
      var rest := toks[1..];
      TokenizeRender(rest);
      assert TokenOk(toks[0]);
      if toks[0].Mark? {
        if rest != [] {
          assert toks[1].Op? && rest[0] == toks[1] && TokenOk(toks[1]);
        }
        MarkLengthAtSeparator(toks[0].name, Render(rest));
      }
    }
  }

  lemma {:induction false} RenderConcat(a: seq<Token>, b: seq<Token>)
    ensures Render(a + b) == Render(a) + Render(b)
  {
    if a == [] {
      assert a + b == b;
    } else {
      assert (a + b)[1..] == a[1..] + b;
      RenderConcat(a[1..], b);
    }
  }

  // ----- Collecting markings -----

  function WithoutSpaces(s: string): string {
    if s == "" then "" else (if IsSpace(s[0]) then "" else [s[0]]) + WithoutSpaces(s[1..])
  }

  lemma {:induction false} WithoutSpacesIsShorter(s: string)
    ensures |WithoutSpaces(s)| <= |s|
    ensures NoSpaces(s) ==> WithoutSpaces(s) == s
  {
    if s != "" {
      WithoutSpacesIsShorter(s[1..]);
    }
  }

  /** remove_if without erase: the kept characters move to the front, the old tail stays behind. */
  function RemoveSpacesWithoutErase(s: string): (r: string)
    ensures NoSpaces(s) ==> r == s
  {
    WithoutSpacesIsShorter(s);
    WithoutSpaces(s) + s[|WithoutSpaces(s)|..]
  }

  ghost predicate LongestFirst(ms: seq<string>) {
    forall i, j | 0 <= i < j < |ms| :: |ms[i]| >= |ms[j]|
  }

  /** What the ordered set of markings may be: each marking once, by descending length, with
      markings of one length in any order. */
  ghost predicate MarkingOrder(ms: seq<string>, marks: set<string>) {
    LongestFirst(ms) && Distinct(ms) && forall m :: m in ms <==> m in marks
  }

  /** Inserts where the comparator "at least as long" puts it: before the first marking that is
      not longer. */
  method InsertMarking(markings: seq<string>, piece: string) returns (r: seq<string>)
    requires LongestFirst(markings) && Distinct(markings) && piece !in markings
    ensures LongestFirst(r) && Distinct(r)
    ensures forall m :: m in r <==> m in markings || m == piece
  {
    var at := 0;
    while at < |markings| && |markings[at]| > |piece|
      invariant at <= |markings|
      invariant forall i | 0 <= i < at :: |markings[i]| > |piece|
    {
      at := at + 1;
    }
    assert forall i | at <= i < |markings| :: |markings[at]| >= |markings[i]|;
    r := markings[..at] + [piece] + markings[at..];
  }

  /** get_markings_from_expression */
  method GetMarkingsFromExpression(expression: string) returns (markings: seq<string>)
    ensures MarkingOrder(markings, MarkingSet(RemoveSpacesWithoutErase(expression)))
  {
    var pieces := MarkingSet(RemoveSpacesWithoutErase(expression));
    markings := [];
    ghost var done := {};
    while pieces != {}
      invariant done + pieces == MarkingSet(RemoveSpacesWithoutErase(expression))
      invariant done !! pieces
      invariant MarkingOrder(markings, done)
    {
      var piece :| piece in pieces;
      assert piece !in done;
      markings := InsertMarking(markings, piece);
      done := done + {piece};
      pieces := pieces - {piece};
    }
  }

  // ----- The replacement loop -----

  function Literal(auths: set<string>, m: string): (literal: string)
    ensures literal == "ezbTezb" <==> m in auths
    ensures literal == "ezbFezb" <==> m !in auths
  {
    if m in auths then TRUE_REPLACE else FALSE_REPLACE
  }

  /** replace_all: every non-overlapping occurrence of `m`, scanning from the left. */
  function ReplaceAll(s: string, m: string, rep: string): string
    decreases |s|
  {
    if m == "" || |s| < |m| then s
    else if s[..|m|] == m then rep + ReplaceAll(s[|m|..], m, rep)
    else [s[0]] + ReplaceAll(s[1..], m, rep)
  }

  function RewriteAll(auths: set<string>, s: string, ms: seq<string>): string
    decreases |ms|
  {
    if ms == [] then s
    else RewriteAll(auths, ReplaceAll(s, ms[0], Literal(auths, ms[0])), ms[1..])
  }

  /** Ends in one semicolon more unless there is one at the end. */
  function Terminated(s: string): (r: string)
    ensures r != "" && r[|r| - 1] == ';' && s <= r <= s + ";"
    ensures r == s <==> s != "" && s[|s| - 1] == ';'
  {
    if s == "" || s[|s| - 1] != ';' then s + ";" else s
  }

  lemma MarkingsAreMarkings(s: string)
    ensures forall m | m in MarkingSet(s) :: IsMarking(m)
  {
    TokenizeIsSeparated(s);
    forall m | m in MarkingSet(s) ensures IsMarking(m) {
      assert TokenOk(Mark(m));
    }
  }

  /** vis_auth_to_parsable */
  method VisAuthToParsable(auths: set<string>, visExpr: string) returns (parsable: string)
    ensures exists ms: seq<string> ::
              && MarkingOrder(ms, MarkingSet(RemoveSpacesWithoutErase(visExpr)))
              && AllMarkings(ms)
              && parsable == Terminated(RewriteAll(auths, visExpr, ms))
  {
    parsable := visExpr;
    var markings := GetMarkingsFromExpression(visExpr);
    MarkingsAreMarkings(RemoveSpacesWithoutErase(visExpr));
    assert forall i | 0 <= i < |markings| :: markings[i] in markings;
    for i := 0 to |markings|
      invariant RewriteAll(auths, parsable, markings[i..]) == RewriteAll(auths, visExpr, markings)
    {
      assert markings[i..][1..] == markings[i + 1..];
      if markings[i] in auths {
        parsable := ReplaceAll(parsable, markings[i], TRUE_REPLACE);
      } else {
        parsable := ReplaceAll(parsable, markings[i], FALSE_REPLACE);
      }
    }
    if parsable == "" || parsable[|parsable| - 1] != ';' {
      parsable := parsable + ";";
    }
  }

  ghost predicate AllMarkings(ms: seq<string>) {
    forall i | 0 <= i < |ms| :: IsMarking(ms[i])
  }

  // ----- The loop acts token by token -----

  lemma MatchStaysLeft(a: string, c: char, b: string, m: string)
    requires c !in m && |m| <= |a + [c] + b|
    ensures (a + [c] + b)[..|m|] == m <==> |m| <= |a| && a[..|m|] == m
  {
    var s := a + [c] + b;
    if |m| <= |a| {
      assert s[..|m|] == a[..|m|];
    } else {
      assert s[..|m|][|a|] == c;
    }
  }

  /** An occurrence cannot reach over a character that is not in the pattern. */
  lemma {:induction false} ReplaceAcrossSeparator(a: string, c: char, b: string, m: string, rep: string)
    requires m != "" && c !in m
    ensures ReplaceAll(a + [c] + b, m, rep) == ReplaceAll(a, m, rep) + [c] + ReplaceAll(b, m, rep)
    decreases |a|
  {
    var s, after := a + [c] + b, ReplaceAll(b, m, rep);
    if |s| < |m| {
    } else {
      MatchStaysLeft(a, c, b, m);
      if s[..|m|] == m {
        assert s[|m|..] == a[|m|..] + [c] + b;
        ReplaceAcrossSeparator(a[|m|..], c, b, m, rep);
        Regroup(rep, ReplaceAll(a[|m|..], m, rep), c, after);
      } else if a == "" {
        assert s[1..] == b && ReplaceAll(a, m, rep) == a;
        assert [c] + after == a + [c] + after;
      } else {
        assert s[1..] == a[1..] + [c] + b;
        ReplaceAcrossSeparator(a[1..], c, b, m, rep);
        PeelReplace(a, m, rep);
        Regroup([a[0]], ReplaceAll(a[1..], m, rep), c, after);
      }
    }
  }

  lemma Regroup(x: string, y: string, c: char, z: string)
    ensures x + (y + [c] + z) == (x + y) + [c] + z
  {
  }

  lemma PeelReplace(a: string, m: string, rep: string)
    requires m != "" && a != "" && !(|m| <= |a| && a[..|m|] == m)
    ensures ReplaceAll(a, m, rep) == [a[0]] + ReplaceAll(a[1..], m, rep)
  {
  }

  lemma {:induction false} RewriteAcrossSeparator(auths: set<string>, a: string, c: char, b: string, ms: seq<string>)
    requires IsSeparator(c) && AllMarkings(ms)
    ensures RewriteAll(auths, a + [c] + b, ms) == RewriteAll(auths, a, ms) + [c] + RewriteAll(auths, b, ms)
    decreases |ms|
  {
    if ms != [] {
      var m, rep := ms[0], Literal(auths, ms[0]);
      ReplaceAcrossSeparator(a, c, b, m, rep);
      RewriteAcrossSeparator(auths, ReplaceAll(a, m, rep), c, ReplaceAll(b, m, rep), ms[1..]);
    }
  }

  lemma {:induction false} RewriteEmpty(auths: set<string>, ms: seq<string>)
    requires AllMarkings(ms)
    ensures RewriteAll(auths, "", ms) == ""
  {
    if ms != [] {
      RewriteEmpty(auths, ms[1..]);
    }
  }

  /** The text of a token list with every marking relabelled and the separators left alone. */
  function RenderWith(f: string -> string, toks: seq<Token>): string {
    if toks == [] then ""
    else (if toks[0].Op? then [toks[0].c] else f(toks[0].name)) + RenderWith(f, toks[1..])
  }

  /** The text-wide replacements touch each marking of the expression on its own, whatever the
      markings are and in whatever order they are processed. */
  lemma {:induction false} RewriteIsTokenwise(auths: set<string>, toks: seq<Token>, ms: seq<string>)
    requires Separated(toks) && AllMarkings(ms)
    ensures RewriteAll(auths, Render(toks), ms) == RenderWith(t => RewriteAll(auths, t, ms), toks)
    decreases |toks|
  {
    var f := t => RewriteAll(auths, t, ms);
    RewriteEmpty(auths, ms);
    if toks == [] {
    } else if toks[0].Op? {
      RewriteIsTokenwise(auths, toks[1..], ms);
      assert TokenOk(toks[0]);
      RewriteAcrossSeparator(auths, "", toks[0].c, Render(toks[1..]), ms);
      RenderOp(f, toks);
    } else if |toks| == 1 {
      RenderLastMark(f, toks);
    } else {
      assert toks[0].Op? || toks[1].Op?;
      assert TokenOk(toks[1]);
      RewriteIsTokenwise(auths, toks[2..], ms);
      RewriteAcrossSeparator(auths, toks[0].name, toks[1].c, Render(toks[2..]), ms);
      RenderOneMark(f, toks);
    }
  }

  lemma RenderOp(f: string -> string, toks: seq<Token>)
    requires toks != [] && toks[0].Op?
    ensures Render(toks) == "" + [toks[0].c] + Render(toks[1..])
    ensures RenderWith(f, toks) == "" + [toks[0].c] + RenderWith(f, toks[1..])
  {
    assert "" + [toks[0].c] == [toks[0].c];
  }

  lemma RenderLastMark(f: string -> string, toks: seq<Token>)
    requires |toks| == 1 && toks[0].Mark?
    ensures Render(toks) == toks[0].name && RenderWith(f, toks) == f(toks[0].name)
  {
    assert Render(toks) == toks[0].name + Render([]) == toks[0].name;
    assert RenderWith(f, toks) == f(toks[0].name) + RenderWith(f, []) == f(toks[0].name);
  }

  lemma RenderOneMark(f: string -> string, toks: seq<Token>)
    requires |toks| >= 2 && toks[0].Mark? && toks[1].Op?
    ensures Render(toks) == toks[0].name + [toks[1].c] + Render(toks[2..])
    ensures RenderWith(f, toks) == f(toks[0].name) + [toks[1].c] + RenderWith(f, toks[2..])
  {
    assert toks[1..][1..] == toks[2..];
    assert Render(toks[1..]) == [toks[1].c] + Render(toks[2..]);
    assert RenderWith(f, toks[1..]) == [toks[1].c] + RenderWith(f, toks[2..]);
  }

  // ----- What becomes of one marking -----

  lemma {:induction false} ReplaceAbsent(s: string, m: string, rep: string)
    requires m != "" && !Contains(s, m)
    ensures ReplaceAll(s, m, rep) == s
  {
    if |s| >= |m| {
      ReplaceAbsent(s[1..], m, rep);
    }
  }

  lemma {:induction false} ReplaceKeepsWord(s: string, m: string, rep: string)
    requires IsWord(s) && m != "" && IsWord(rep)
    ensures IsWord(ReplaceAll(s, m, rep))
    decreases |s|
  {
    if |s| >= |m| {
      if s[..|m|] == m {
        if s[|m|..] != "" {
          ReplaceKeepsWord(s[|m|..], m, rep);
        }
      } else if s[1..] != "" {
        ReplaceKeepsWord(s[1..], m, rep);
      }
    }
  }

  lemma {:induction false} RewriteKeepsWord(auths: set<string>, s: string, ms: seq<string>)
    requires IsWord(s) && AllMarkings(ms)
    ensures IsWord(RewriteAll(auths, s, ms))
    decreases |ms|
  {
    if ms != [] {
      ReplaceKeepsWord(s, ms[0], Literal(auths, ms[0]));
      RewriteKeepsWord(auths, ReplaceAll(s, ms[0], Literal(auths, ms[0])), ms[1..]);
    }
  }

  /** A marking survives, as it is, until its own turn comes: longer ones cannot occur in it and
      others of its length are different. From then on its literal is what later turns act on. */
  lemma {:induction false} RewriteOfMarking(auths: set<string>, ms: seq<string>, k: nat)
    requires k < |ms| && LongestFirst(ms) && Distinct(ms) && AllMarkings(ms)
    ensures RewriteAll(auths, ms[k], ms) == RewriteAll(auths, Literal(auths, ms[k]), ms[k + 1..])
    ensures IsWord(RewriteAll(auths, ms[k], ms))
    decreases k
  {
    var t, m := ms[k], ms[0];
    if k == 0 {
      assert t[|m|..] == "" && t[..|m|] == m;
      assert ReplaceAll(t, m, Literal(auths, m)) == Literal(auths, m);
      RewriteKeepsWord(auths, Literal(auths, m), ms[1..]);
    } else {
      assert |t| == |m| ==> t[..|m|] == t;
      ReplaceAbsent(t, m, Literal(auths, m));
      RewriteOfMarking(auths, ms[1..], k - 1);
      assert ms[1..][k - 1] == t && ms[1..][k - 1 + 1..] == ms[k + 1..];
    }
  }

  /** The documented domain: no marking occurs inside a truth literal. */
  ghost predicate ClearOfLiterals(marks: set<string>) {
    forall m | m in marks :: !Contains(TRUE_REPLACE, m) && !Contains(FALSE_REPLACE, m)
  }

  lemma {:induction false} LiteralSettled(auths: set<string>, m: string, ms: seq<string>)
    requires AllMarkings(ms)
    requires forall i | 0 <= i < |ms| :: !Contains(TRUE_REPLACE, ms[i]) && !Contains(FALSE_REPLACE, ms[i])
    ensures RewriteAll(auths, Literal(auths, m), ms) == Literal(auths, m)
    decreases |ms|
  {
    if ms != [] {
      ReplaceAbsent(Literal(auths, m), ms[0], Literal(auths, ms[0]));
      LiteralSettled(auths, m, ms[1..]);
    }
  }

  /** No marking but the first one processed, which is a longest one, occurs inside a truth literal. */
  predicate RestClear(ms: seq<string>) {
    forall j | 1 <= j < |ms| :: !Contains(TRUE_REPLACE, ms[j]) && !Contains(FALSE_REPLACE, ms[j])
  }

  lemma DomainIsClear(marks: set<string>, ms: seq<string>)
    requires ClearOfLiterals(marks) && MarkingOrder(ms, marks)
    ensures RestClear(ms)
  {
    forall j | 1 <= j < |ms| ensures !Contains(TRUE_REPLACE, ms[j]) && !Contains(FALSE_REPLACE, ms[j]) {
      assert ms[j] in ms;
    }
  }

  /** Then the loop turns every marking into exactly the literal that says whether it is authorised. */
  lemma RewriteOfClearMarking(auths: set<string>, ms: seq<string>, m: string)
    requires m in ms && LongestFirst(ms) && Distinct(ms) && AllMarkings(ms) && RestClear(ms)
    ensures RewriteAll(auths, m, ms) == Literal(auths, m)
  {
    var k :| 0 <= k < |ms| && ms[k] == m;
    RewriteOfMarking(auths, ms, k);
    LiteralSettled(auths, m, ms[k + 1..]);
  }
}
